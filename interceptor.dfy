/** The prefixing producer interceptor: rewrites each outgoing record's value
    to "prefix1-" + value and tallies acknowledgements as successes or
    failures, reporting the success ratio when closed. */
module Interceptor {
  import opened JavaTypes

  datatype Header = Header(key: string, value: Option<seq<byte>>)

  /** A producer record with String key and value; every field but `topic`
      may be null. */
  datatype ProducerRecord = ProducerRecord(
    topic: string,
    partition: Option<int32>,
    timestamp: Option<int64>,
    key: Option<string>,
    value: Option<string>,
    headers: seq<Header>)

  /** Where the broker stored an acknowledged record. */
  datatype RecordMetadata = RecordMetadata(topic: string, partition: int32, offset: int64, timestamp: int64)

  datatype Exception = Exception(message: string)

  /** The success ratio computed by `close`, kept as the integer pair
      sendSuccess / (sendSuccess + sendFailure). */
  datatype Ratio = Ratio(numerator: int, denominator: int)

  const PREFIX := "prefix1-"

  /** Java's string conversion in `+`: a null reference becomes "null". */
  function StringOf(s: Option<string>): (r: string)
    ensures r == "null" <==> s == None || s == Some("null")
    ensures s.Some? ==> r == s.value
  {
    match s
    case None => "null"
    case Some(v) => v
  }

  /** Inverse of prefixing: the rest of `s` when it starts with PREFIX. */
  function StripPrefix(s: string): (r: Option<string>)
    ensures r.Some? <==> PREFIX <= s
    ensures r.Some? ==> PREFIX + r.value == s
  {
    if PREFIX <= s then Some(s[|PREFIX|..]) else None
  }

  /** Number of acknowledgements in `acks` that carried no exception. */
  function Successes(acks: seq<Option<Exception>>): nat
  {
    if acks == [] then 0 else Successes(acks[..|acks| - 1]) + (if acks[|acks| - 1].None? then 1 else 0)
  }

  /** Number of acknowledgements in `acks` that carried an exception. */
  function Failures(acks: seq<Option<Exception>>): nat
  {
    if acks == [] then 0 else Failures(acks[..|acks| - 1]) + (if acks[|acks| - 1].Some? then 1 else 0)
  }

  /** Every acknowledgement is counted exactly once, as a success or as a failure. */
  lemma {:induction false} TalliesAddUp(acks: seq<Option<Exception>>)
    ensures Successes(acks) + Failures(acks) == |acks|
  {
    if acks != [] {
      TalliesAddUp(acks[..|acks| - 1]);
    }
  }

  class ProducerInterceptorPrefix {
    var sendSuccess: int
    var sendFailure: int
    /** The exception argument of every `onAcknowledgement` call so far, in order. */
    ghost var Acks: seq<Option<Exception>>

    ghost predicate Valid()
      reads this
    {
      sendSuccess == Successes(Acks) && sendFailure == Failures(Acks)
    }

    constructor()
      ensures Valid() && Acks == []
      ensures sendSuccess == 0 && sendFailure == 0
    {
      sendSuccess := 0;
      sendFailure := 0;
      Acks := [];
    }

    /** The record to send instead of `record`: its value is "prefix1-"
        followed by the old value (or "null"), every other field is copied.
        A function without a reads clause, so it neither sees nor changes
        the tallies. */
    function OnSend(record: ProducerRecord): (r: ProducerRecord)
      ensures r.value.Some? && StripPrefix(r.value.value) == Some(StringOf(record.value))
      ensures r.topic == record.topic && r.partition == record.partition
      ensures r.timestamp == record.timestamp && r.key == record.key
      ensures r.headers == record.headers
    {
      var modifiedValue := PREFIX + StringOf(record.value);
      ProducerRecord(record.topic, record.partition, record.timestamp,
                     record.key, Some(modifiedValue), record.headers)
    }

    /** Counts one acknowledgement: a success when no exception is passed,
        a failure otherwise. */
    method OnAcknowledgement(metadata: Option<RecordMetadata>, e: Option<Exception>)
      requires Valid()
      modifies this
      ensures Valid() && Acks == old(Acks) + [e]
      ensures e.None? ==> sendSuccess == old(sendSuccess) + 1 && sendFailure == old(sendFailure)
      ensures e.Some? ==> sendFailure == old(sendFailure) + 1 && sendSuccess == old(sendSuccess)
    {
      if e.None? {
        sendSuccess := sendSuccess + 1;
      } else {
        sendFailure := sendFailure + 1;
      }
      Acks := Acks + [e];
      assert Acks[..|Acks| - 1] == old(Acks);
    }

    /** The success ratio reported at close: successes over all
        acknowledgements seen, whose denominator is 0 when there were none. */
    method Close() returns (ratio: Ratio)
      requires Valid()
      ensures ratio.numerator == Successes(Acks)
      ensures ratio.denominator == |Acks|
      ensures 0 <= ratio.numerator <= ratio.denominator
    {
      TalliesAddUp(Acks);
      ratio := Ratio(sendSuccess, sendFailure + sendSuccess);
    }
  }

  /** A null value and the string "null" become the same prefixed value, so
      the interceptor's output cannot tell them apart. */
  lemma OnSendConflatesNullAndNullString(i: ProducerInterceptorPrefix, record: ProducerRecord)
    ensures i.OnSend(record.(value := None)) == i.OnSend(record.(value := Some("null")))
  {
  }

  /** Distinct non-null values give distinct prefixed values. */
  lemma OnSendInjectiveOnValues(i: ProducerInterceptorPrefix, a: ProducerRecord, b: ProducerRecord)
    requires a.value.Some? && b.value.Some?
    requires i.OnSend(a) == i.OnSend(b)
    ensures a == b
  {
  }

  /** Seven successful and three failed acknowledgements give the ratio 7/10. */
  method SuccessRatioScenario() returns (ratio: Ratio)
    ensures ratio == Ratio(7, 10)
  {
    var interceptor := new ProducerInterceptorPrefix();
    var ok: Option<Exception> := None;
    var failed := Some(Exception("timeout"));
    interceptor.OnAcknowledgement(None, ok);
    interceptor.OnAcknowledgement(None, failed);
    interceptor.OnAcknowledgement(None, ok);
    interceptor.OnAcknowledgement(None, ok);
    interceptor.OnAcknowledgement(None, failed);
    interceptor.OnAcknowledgement(None, ok);
    interceptor.OnAcknowledgement(None, ok);
    interceptor.OnAcknowledgement(None, failed);
    interceptor.OnAcknowledgement(None, ok);
    interceptor.OnAcknowledgement(None, ok);
    ratio := interceptor.Close();
  }
}
