/** The string serializer: turns a String into the bytes of its configured
    text encoding ("UTF8" unless configured otherwise), keeping null as null. */
module Serializer {
  import opened JavaTypes
  import Utf8

  /** A value of the `Map<String, ?>` handed to `configure`. */
  datatype ConfigValue = StringValue(s: string) | NullValue | OtherValue(className: string)

  type Configs = map<string, ConfigValue>

  const KEY_ENCODING := "key.serializer.encoding"
  const VALUE_ENCODING := "value.serializer.encoding"
  const ENCODING := "serializer.encoding"
  const DEFAULT_ENCODING := "UTF8"

  /** `Map.get`: an absent key reads as null, like a key mapped to null. */
  function Get(configs: Configs, name: string): (v: ConfigValue)
    ensures v == NullValue <==> name !in configs || configs[name] == NullValue
  {
    if name in configs then configs[name] else NullValue
  }

  /** The property consulted first: the one for keys or the one for values. */
  function PropertyName(isKey: bool): string
  {
    if isKey then KEY_ENCODING else VALUE_ENCODING
  }

  /** The encoding after `configure(configs, isKey)` when it was `current`
      before: the specific property if it is a String; the generic property if
      the specific one is null and the generic one a String; otherwise
      unchanged. */
  function ConfiguredEncoding(current: string, configs: Configs, isKey: bool): (e: string)
    ensures e == current || StringValue(e) in configs.Values
  {
    match Get(configs, PropertyName(isKey))
    case StringValue(s) => s
    case OtherValue(_) => current
    case NullValue =>
      match Get(configs, ENCODING)
      case StringValue(s) => s
      case _ => current
  }

  /** The charsets of the running JVM other than UTF-8, which every JVM has:
      the names the platform accepts and how it encodes with each. */
  datatype CharsetProvider = CharsetProvider(accepted: set<string>, encode: (string, string) -> seq<byte>)

  datatype Charset = UTF_8 | OtherCharset(name: string)

  /** ASCII lower case, which charset-name lookup ignores. */
  function AsciiLower(s: string): (r: string)
    ensures |r| == |s|
    ensures forall i :: 0 <= i < |s| ==> ('A' <= s[i] <= 'Z' ==> r[i] as int == s[i] as int + 32)
    ensures forall i :: 0 <= i < |s| ==> (!('A' <= s[i] <= 'Z') ==> r[i] == s[i])
  {
    if s == [] then []
    else [if 'A' <= s[0] <= 'Z' then (s[0] as int + 32) as char else s[0]] + AsciiLower(s[1..])
  }

  /** The names under which the JVM knows UTF-8, in any ASCII case. */
  predicate IsUtf8Name(name: string)
  {
    AsciiLower(name) in {"utf-8", "utf8", "unicode-1-1-utf-8"}
  }

  /** Lower-casing twice is lower-casing once. */
  lemma {:induction false} AsciiLowerIdempotent(s: string)
    ensures AsciiLower(AsciiLower(s)) == AsciiLower(s)
  {
    if s != [] {
      AsciiLowerIdempotent(s[1..]);
      assert AsciiLower(s)[1..] == AsciiLower(s[1..]);
    }
  }

  /** `String.getBytes(charsetName)`'s lookup; None means it throws
      UnsupportedEncodingException. */
  function CharsetForName(name: string, jvm: CharsetProvider): Option<Charset>
  {
    if IsUtf8Name(name) then Some(UTF_8)
    else if name in jvm.accepted then Some(OtherCharset(name))
    else None
  }

  /** UTF-8 is found under a name exactly when it is found under the name's
      lower-case form: the lookup ignores ASCII case. */
  lemma CharsetLookupIgnoresCase(name: string, jvm: CharsetProvider)
    ensures CharsetForName(name, jvm) == Some(UTF_8) <==> CharsetForName(AsciiLower(name), jvm) == Some(UTF_8)
  {
    AsciiLowerIdempotent(name);
  }

  /** Only names of the lengths of "utf8", "utf-8" and "unicode-1-1-utf-8"
      can name UTF-8. */
  lemma Utf8NameLengths(name: string)
    requires |name| != 4 && |name| != 5 && |name| != 17
    ensures !IsUtf8Name(name)
  {
  }

  datatype SerializationException = SerializationException(message: string)

  const UNSUPPORTED_ENCODING := "Error when serializing string to byte[] due to unsupported encoding "

  class StringSerializer {
    var encoding: string

    constructor()
      ensures encoding == DEFAULT_ENCODING
    {
      encoding := DEFAULT_ENCODING;
    }

    /** Picks up the encoding from the configuration, if a String is given. */
    method Configure(configs: Configs, isKey: bool)
      modifies this
      ensures encoding == ConfiguredEncoding(old(encoding), configs, isKey)
    {
      var propertyName := PropertyName(isKey);
      var encodingValue := Get(configs, propertyName);
      if encodingValue == NullValue {
        encodingValue := Get(configs, ENCODING);
      }
      if encodingValue.StringValue? {
        encoding := encodingValue.s;
      }
    }

    /** The bytes of `data` in the configured encoding; null stays null and an
        encoding the JVM does not know throws. `topic` is not used. */
    function Serialize(topic: string, data: Option<string>, jvm: CharsetProvider)
      : (r: Result<Option<seq<byte>>, SerializationException>)
      reads this
      ensures data.None? ==> r == Success(None)
      ensures data.Some? && CharsetForName(encoding, jvm).None? ==>
        r == Failure(SerializationException(UNSUPPORTED_ENCODING + encoding))
      ensures r.Failure? <==> data.Some? && CharsetForName(encoding, jvm).None?
      ensures data.Some? && IsUtf8Name(encoding) ==>
        r.Success? && r.value.Some? && Utf8.Decode(r.value.value) == data
      ensures data.Some? && CharsetForName(encoding, jvm) == Some(OtherCharset(encoding)) ==>
        r == Success(Some(jvm.encode(encoding, data.value)))
    {
      match data
      case None => Success(None)
      case Some(s) =>
        match CharsetForName(encoding, jvm)
        case None => Failure(SerializationException(UNSUPPORTED_ENCODING + encoding))
        case Some(UTF_8) =>
          Utf8.DecodeEncode(s);
          Success(Some(Utf8.Encode(s)))
        case Some(OtherCharset(name)) => Success(Some(jvm.encode(name, s)))
    }

    method Close()
    {
    }
  }

  /** A String under the specific property always wins. */
  lemma SpecificStringWins(current: string, configs: Configs, isKey: bool)
    requires Get(configs, PropertyName(isKey)).StringValue?
    ensures ConfiguredEncoding(current, configs, isKey) == Get(configs, PropertyName(isKey)).s
  {
  }

  /** The generic property is read only when the specific one is null or absent. */
  lemma GenericOnlyWhenSpecificNull(current: string, configs: Configs, isKey: bool, generic: ConfigValue)
    requires Get(configs, PropertyName(isKey)) != NullValue
    ensures ConfiguredEncoding(current, configs[ENCODING := generic], isKey)
         == ConfiguredEncoding(current, configs, isKey)
  {
  }

  /** When the specific property is null or absent, a String under
      "serializer.encoding" becomes the encoding. */
  lemma GenericFallbackWins(current: string, configs: Configs, isKey: bool)
    requires Get(configs, PropertyName(isKey)) == NullValue
    requires Get(configs, ENCODING).StringValue?
    ensures ConfiguredEncoding(current, configs, isKey) == Get(configs, ENCODING).s
  {
  }

  /** A specific property that is not a String leaves the encoding alone and
      blocks the generic property. */
  lemma NonStringSpecificKeepsEncoding(current: string, configs: Configs, isKey: bool)
    requires Get(configs, PropertyName(isKey)).OtherValue?
    ensures ConfiguredEncoding(current, configs, isKey) == current
  {
  }

  /** The encoding changes only to a String found in the configuration. */
  lemma ConfiguredEncodingSource(current: string, configs: Configs, isKey: bool)
    ensures var e := ConfiguredEncoding(current, configs, isKey);
      || e == current
      || Get(configs, PropertyName(isKey)) == StringValue(e)
      || (Get(configs, PropertyName(isKey)) == NullValue && Get(configs, ENCODING) == StringValue(e))
  {
  }

  /** Configuring twice with the same map is the same as configuring once. */
  lemma ConfigureIdempotent(current: string, configs: Configs, isKey: bool)
    ensures ConfiguredEncoding(ConfiguredEncoding(current, configs, isKey), configs, isKey)
         == ConfiguredEncoding(current, configs, isKey)
  {
  }

  /** A key serializer ignores the value property and a value serializer the key property. */
  lemma OtherSidePropertyIgnored(current: string, configs: Configs, isKey: bool, v: ConfigValue)
    ensures ConfiguredEncoding(current, configs[PropertyName(!isKey) := v], isKey)
         == ConfiguredEncoding(current, configs, isKey)
  {
  }

  /** A fresh serializer encodes as UTF-8: its bytes decode back to the string,
      and the empty string gives an empty, non-null array. */
  lemma DefaultSerializerIsUtf8(ser: StringSerializer, topic: string, data: string, jvm: CharsetProvider)
    requires ser.encoding == DEFAULT_ENCODING
    ensures ser.Serialize(topic, Some(data), jvm) == Success(Some(Utf8.Encode(data)))
    ensures data == [] ==> ser.Serialize(topic, Some(data), jvm) == Success(Some([]))
  {
    assert AsciiLower(DEFAULT_ENCODING) == "utf8";
  }

  /** The topic never affects the bytes. */
  lemma SerializeIgnoresTopic(ser: StringSerializer, t1: string, t2: string, data: Option<string>, jvm: CharsetProvider)
    ensures ser.Serialize(t1, data, jvm) == ser.Serialize(t2, data, jvm)
  {
  }

  /** A serializer configured with an unsupported name fails only on non-null data. */
  method UnsupportedEncodingScenario() returns (onNull: Result<Option<seq<byte>>, SerializationException>,
                                                onText: Result<Option<seq<byte>>, SerializationException>)
    ensures onNull == Success(None)
    ensures onText == Failure(SerializationException(UNSUPPORTED_ENCODING + "no-such-charset"))
  {
    var name := "no-such-charset";
    var ser := new StringSerializer();
    ser.Configure(map[ENCODING := StringValue(name)], false);
    var jvm := CharsetProvider({}, (n, s) => []);
    assert ser.encoding == name;
    Utf8NameLengths(name);
    assert CharsetForName(ser.encoding, jvm).None?;
    onNull := ser.Serialize("t", None, jvm);
    onText := ser.Serialize("t", Some("hello"), jvm);
  }
}
