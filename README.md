# Producer plug-ins: partitioner, prefixing interceptor, string serializer

A Dafny model of three plug-ins that a Kafka producer loads while it sends
records:

- `DemoPartitioner` picks the destination partition of a record. A record
  without key bytes goes round-robin: a shared 32-bit counter is read and
  incremented, and the old value is reduced (Java `%`) by the topic's
  partition count. A record with key bytes goes to
  `toPositive(murmur2(keyBytes)) % numPartitions`.
- `ProducerInterceptorPrefix` rewrites every outgoing record's value to
  `"prefix1-" + value` and counts acknowledgements as successes (no
  exception) or failures (an exception). At close it reports the success
  ratio `sendSuccess / (sendSuccess + sendFailure)`.
- `StringSerializer` turns a `String` into the bytes of its encoding
  (`"UTF8"` until configured). `configure` reads the key- or value-specific
  encoding property, falls back to the generic `serializer.encoding`, and
  takes the value only if it is a `String`. `serialize` maps `null` to
  `null`. Otherwise it encodes, or throws `SerializationException` for an
  encoding the JVM does not know.

Files:

- `java_types.dfy` (module `JavaTypes`): Java `null` as `Option`, thrown
  exceptions as `Result`, and `int`/`long`/`byte`. It also holds 32-bit
  wrap-around (`Wrap32`) and Java's truncating `/` and `%` (`Div`, `Rem`).
- `partitioner.dfy` (module `Partitioner`): the partitioner as a class over
  an `AtomicInteger` counter object. The pure functions `RoundRobin` and
  `KeyedPartition` specify the two paths. `KeylessRun` lists the results of
  k consecutive keyless calls, and lemmas about it give the cycling, the
  coverage of every partition, and the negative partition after overflow.
- `interceptor.dfy` (module `Interceptor`): the record datatype and the
  interceptor class. A ghost history of acknowledgement outcomes ties the
  two tallies to what was observed.
- `utf8.dfy` (module `Utf8`): the UTF-8 encoding of section 3 of RFC 3629,
  and a validating decoder for the UTF8-octets syntax of section 4 of
  RFC 3629. Decoding and encoding are proved inverse in both directions.
- `serializer.dfy` (module `Serializer`): configuration lookup, charset-name
  lookup and the serializer class.

Conventions:

- Java `null` is `None`. An absent configuration key and a key mapped to
  `null` both read as `NullValue`, as `Map.get` does.
- `byte` holds octets 0..255. Java shows the same bits as signed values.
- `murmur2` is a parameter of `Partition`. Its body lives in the Kafka
  client library, which is not part of this model. `toPositive` is written
  out as Kafka defines it: it clears the sign bit.
- Charsets other than UTF-8 come from a `CharsetProvider` parameter: the
  names the JVM accepts and its encoder for each. Every JVM has UTF-8.
  Its names (`UTF-8`, `UTF8`, `unicode-1-1-utf-8`, in any ASCII case) are
  recognised directly.

Edge cases of the code that the model keeps:

- An empty partition list raises `ArithmeticException("/ by zero")`, not a
  dedicated partitioning error. On the keyless path the counter has
  already advanced when it is raised.
- Once the counter wraps past 2^31 - 1, the keyless result lies in
  (-n, 0] and can be negative, until the counter passes -1 again. The
  0 <= r < n bound holds only while the counter is non-negative.
- `close` does not guard a zero denominator. The model returns the pair
  with denominator 0.

## Model

| member | source | states |
|---|---|---|
| `Partitioner.DemoPartitioner.constructor` | src/main/java/chapter2/DemoPartitioner.java:16 | a new partitioner's counter is a fresh object holding 0 |
| `Partitioner.AtomicInteger.GetAndIncrement` | src/main/java/chapter2/DemoPartitioner.java:27 | returns the value before the call and stores it plus one, wrapping from 2^31 - 1 to -2^31 |
| `Partitioner.DemoPartitioner.Partition` | src/main/java/chapter2/DemoPartitioner.java:22-30 | keyless: the result is `RoundRobin` of the counter before the call, and the counter goes up by exactly one (wrapped), even for zero partitions; keyed: the result is `KeyedPartition` of `murmur2(keyBytes)` and the partition count only, and the counter is untouched |
| `Partitioner.NumPartitions` | src/main/java/chapter2/DemoPartitioner.java:24-25 | the count is non-negative and is 0 exactly when the topic has no partitions (including an unknown topic) |
| `Partitioner.RoundRobin` | src/main/java/chapter2/DemoPartitioner.java:26-27 | fails with ArithmeticException exactly when there are no partitions; a non-negative counter gives a partition in [0, n); a negative counter gives a value in (-n, 0] |
| `Partitioner.KeyedPartition` | src/main/java/chapter2/DemoPartitioner.java:29 | fails with ArithmeticException exactly when there are no partitions; otherwise always 0 <= r < n, for every hash |
| `Partitioner.ToPositive` | src/main/java/chapter2/DemoPartitioner.java:29 | non-negative and congruent to its argument modulo 2^31 |
| `Partitioner.KeylessRunAt` | src/main/java/chapter2/DemoPartitioner.java:16-27 | the i-th of k consecutive keyless calls sees counter value `counter + i` wrapped to 32 bits |
| `Partitioner.PartitionKeylessTimes` | src/main/java/chapter2/DemoPartitioner.java:22-27 | k keyless calls of `Partition` on one topic return exactly `KeylessRun` from the counter's starting value, and leave the counter advanced by k (wrapped), so the cycling, distinctness and coverage lemmas about `KeylessRun` hold for the method |
| `Partitioner.KeylessRunCycles` | src/main/java/chapter2/DemoPartitioner.java:16-27 | until the counter overflows, the i-th keyless call returns `(counter + i) % n`; on a fresh partitioner, `i % n` |
| `Partitioner.KeylessWindowDistinct` | src/main/java/chapter2/DemoPartitioner.java:26-27 | n consecutive keyless calls before overflow go to pairwise different partitions |
| `Partitioner.KeylessWindowCovers` | src/main/java/chapter2/DemoPartitioner.java:26-27 | n consecutive keyless calls before overflow hit every partition 0..n-1 |
| `Partitioner.KeylessNegativeAfterOverflow` | src/main/java/chapter2/DemoPartitioner.java:16-27 | after 2^31 keyless calls on a fresh partitioner with 3 partitions, the next call returns partition -2 |
| `Partitioner.RoundRobinScenario` | src/main/java/chapter2/DemoPartitioner.java:16-29 | five keyless sends to four partitions give 0, 1, 2, 3, 0, with a keyed send in between not disturbing the rotation |
| `JavaTypes.Wrap32` | src/main/java/chapter2/DemoPartitioner.java:27 | the int32 result is congruent to its argument modulo 2^32 and equals it when it is in int range |
| `JavaTypes.Rem` | src/main/java/chapter2/DemoPartitioner.java:27 | Java's remainder: `a == Div(a, b) * b + r`, and r has the dividend's sign with magnitude below that of b |
| `Interceptor.ProducerInterceptorPrefix.constructor` | src/main/java/chapter2/ProducerInterceptorPrefix.java:15-16 | both tallies start at 0 with no acknowledgement observed |
| `Interceptor.ProducerInterceptorPrefix.OnSend` | src/main/java/chapter2/ProducerInterceptorPrefix.java:20-25 | the new value is "prefix1-" followed by the old value, or by "null" for a null value; stripping the prefix gives that back; topic, partition, timestamp, key and headers are copied; the tallies are neither read nor changed |
| `Interceptor.StringOf` | src/main/java/chapter2/ProducerInterceptorPrefix.java:22 | a non-null value is used as is; the text appended is "null" exactly when the value is null or the string "null" |
| `Interceptor.StripPrefix` | src/main/java/chapter2/ProducerInterceptorPrefix.java:22 | succeeds exactly on strings starting with "prefix1-" and returns the rest |
| `Interceptor.OnSendConflatesNullAndNullString` | src/main/java/chapter2/ProducerInterceptorPrefix.java:22 | a null value and the value "null" are rewritten to the same record |
| `Interceptor.OnSendInjectiveOnValues` | src/main/java/chapter2/ProducerInterceptorPrefix.java:22-25 | two records with non-null values that rewrite to the same record were equal |
| `Interceptor.ProducerInterceptorPrefix.OnAcknowledgement` | src/main/java/chapter2/ProducerInterceptorPrefix.java:35-43 | no exception: sendSuccess + 1 and sendFailure unchanged; an exception: sendFailure + 1 and sendSuccess unchanged; the outcome is appended to the history |
| `Interceptor.TalliesAddUp` | src/main/java/chapter2/ProducerInterceptorPrefix.java:38-42 | successes plus failures equals the number of acknowledgements |
| `Interceptor.ProducerInterceptorPrefix.Close` | src/main/java/chapter2/ProducerInterceptorPrefix.java:47-48 | the ratio's numerator is the number of exception-free acknowledgements, its denominator the number of all acknowledgements (0 when none), and numerator <= denominator |
| `Interceptor.SuccessRatioScenario` | src/main/java/chapter2/ProducerInterceptorPrefix.java:38-48 | seven successes and three failures give the ratio 7/10 |
| `Serializer.StringSerializer.constructor` | src/main/java/chapter2/StringSerializer.java:14 | the encoding starts as "UTF8" |
| `Serializer.ConfiguredEncoding` | src/main/java/chapter2/StringSerializer.java:19-24 | the encoding after `configure` is either the one before or a String value held in the map; the lemmas below pin down which |
| `Serializer.StringSerializer.Configure` | src/main/java/chapter2/StringSerializer.java:18-25 | the new encoding is `ConfiguredEncoding` of the old encoding, the map and the key/value flag |
| `Serializer.SpecificStringWins` | src/main/java/chapter2/StringSerializer.java:19-24 | a String under "key.serializer.encoding" (key) or "value.serializer.encoding" (value) becomes the encoding |
| `Serializer.GenericOnlyWhenSpecificNull` | src/main/java/chapter2/StringSerializer.java:21-22 | when the specific property is present and not null, "serializer.encoding" has no effect whatever it holds |
| `Serializer.GenericFallbackWins` | src/main/java/chapter2/StringSerializer.java:21-24 | when the specific property is null or absent and "serializer.encoding" holds a String, that String becomes the encoding |
| `Serializer.NonStringSpecificKeepsEncoding` | src/main/java/chapter2/StringSerializer.java:21-24 | a non-String specific value leaves the encoding unchanged and blocks the fallback |
| `Serializer.ConfiguredEncodingSource` | src/main/java/chapter2/StringSerializer.java:19-24 | the encoding after configure is the old one, the specific String, or (only when the specific one is null) the generic String |
| `Serializer.ConfigureIdempotent` | src/main/java/chapter2/StringSerializer.java:18-25 | configuring twice with the same map equals configuring once |
| `Serializer.OtherSidePropertyIgnored` | src/main/java/chapter2/StringSerializer.java:19-20 | a key serializer ignores the value property and a value serializer the key property |
| `Serializer.CharsetLookupIgnoresCase` | src/main/java/chapter2/StringSerializer.java:34 | `getBytes` finds UTF-8 under a name exactly when it finds it under the lower-case form of that name |
| `Serializer.Utf8NameLengths` | src/main/java/chapter2/StringSerializer.java:34 | a name whose length differs from "utf8", "utf-8" and "unicode-1-1-utf-8" never selects UTF-8, in any case |
| `Serializer.StringSerializer.Serialize` | src/main/java/chapter2/StringSerializer.java:29-37 | null gives null for every encoding; non-null data throws SerializationException, whose message ends with the encoding name, exactly when the encoding is unknown; with a UTF-8 encoding the bytes decode back to the data; with another known charset the bytes are that charset's encoding of the data |
| `Serializer.DefaultSerializerIsUtf8` | src/main/java/chapter2/StringSerializer.java:29-34 | with the default "UTF8" the bytes are the UTF-8 encoding of the string, and the empty string gives an empty, non-null array |
| `Serializer.SerializeIgnoresTopic` | src/main/java/chapter2/StringSerializer.java:29-34 | the result does not depend on the topic |
| `Serializer.UnsupportedEncodingScenario` | src/main/java/chapter2/StringSerializer.java:18-37 | after configuring an unknown encoding through the fallback property, null still serializes to null and "hello" throws naming that encoding |
| `Utf8.EncodeChar` | src/main/java/chapter2/StringSerializer.java:34 | one to four octets per code point; a single octet exactly for ASCII, equal to the code |
| `Utf8.Encode` | src/main/java/chapter2/StringSerializer.java:34 | between one and four octets per character; empty exactly for the empty string |
| `Utf8.DecodeChar` | src/main/java/chapter2/StringSerializer.java:34 | a decoded code point of length n is exactly the UTF-8 encoding of the first n octets |
| `Utf8.Decode` | src/main/java/chapter2/StringSerializer.java:34 | whatever decodes re-encodes to the same octets |
| `Utf8.DecodeEncodeChar` | src/main/java/chapter2/StringSerializer.java:34 | the octets of a code point, followed by anything, decode to that code point and its length |
| `Utf8.DecodeEncode` | src/main/java/chapter2/StringSerializer.java:34 | decoding the UTF-8 encoding of any string gives the string back |
| `Utf8.EncodeInjective` | src/main/java/chapter2/StringSerializer.java:34 | different strings have different encodings |
| `Utf8.EncodeAscii` | src/main/java/chapter2/StringSerializer.java:34 | an ASCII string encodes to its character codes, one octet each |

## Left out

- Interceptor.ProducerInterceptorPrefix.OnAcknowledgement: the tallies are unbounded integers, not 64-bit `long`s. Wrap-around would take 2^63 acknowledgements.
- Interceptor.ProducerInterceptorPrefix.Close: the floating-point ratio, the multiplication by 100 and the `String.format`/`System.out` output are not modelled. Close returns the numerator/denominator pair, so the NaN of a zero denominator is not represented.
- Thread safety of `AtomicInteger` and of the `volatile` tallies: the model is sequential.
- `Utils.murmur2` is a parameter. The Kafka client library is not part of this model.
- Charsets other than UTF-8: which names the JVM accepts, and how it encodes with them, are a parameter.
- Java strings holding unpaired UTF-16 surrogates: Dafny strings hold Unicode scalar values, so such strings cannot be written down.
- The `close` and `configure` methods of DemoPartitioner, `configure` of ProducerInterceptorPrefix and `close` of StringSerializer have empty bodies. Only StringSerializer's `close` appears, as an empty method.
- The argument checks of the `ProducerRecord` constructor (negative partition or timestamp) belong to the Kafka library. OnSend copies the fields of an existing record, so those checks cannot fail there.
- src/main/java/chapter2/KafkaProducerAnalysis.java and src/main/java/chapter1/ProducerFastStart.java only build properties and call the Kafka producer's send, get, callback and close. The producer itself (interceptor-chain order, per-interceptor exception isolation, acknowledgement before callback, the three delivery modes) is not part of this model.
- src/main/java/chapter2/Company.java is a data holder with no behaviour.
