/**
 Which stored images a boot of main/error_history.c accepts: those that carry their checksum and hold the
 ring of some event log.
 */
module HistoryImage {
  import opened Base
  import opened HistoryBlob
  import opened ErrorHistory

  // ----- whatever is read can be represented -----

  lemma {:induction false} LeValueFits(bytes: Bytes)
    ensures LeValue(bytes) < Range(|bytes|)
    decreases |bytes|
  {
    if bytes != [] {
      LeValueFits(bytes[1..]);
      assert Range(|bytes|) == 256 * Range(|bytes| - 1);
    }
  }

  lemma FieldFits(bytes: Bytes, at: nat, k: nat)
    requires at + k <= |bytes|
    ensures Fits(Field(bytes, at, k), k)
  {
    LeValueFits(Slice(bytes, at, k));
  }

  lemma UnsignedFits(n: nat, k: nat)
    requires n < Range(k)
    ensures FitsSigned(Unsigned(n, k), k)
  {
  }

  lemma RequestFits(b: Bytes)
    requires |b| == 80
    ensures FitsRequest(DecodeRequest(b))
  {
    hide Field, Range;
    Ranges();
    FieldFits(b, 28, 4);
  }

  lemma OutcomeFits(b: Bytes)
    requires |b| == 16
    ensures FitsOutcome(DecodeOutcome(b))
  {
    hide Field, Range, Unsigned;
    Ranges();
    FieldFits(b, 0, 4);
    FieldFits(b, 8, 4);
    FieldFits(b, 12, 4);
    UnsignedFits(Field(b, 0, 4), 4);
    UnsignedFits(Field(b, 12, 4), 4);
  }

  lemma EventFits(b: Bytes)
    requires |b| == EVENT_BYTES
    ensures FitsEvent(DecodeEvent(b))
  {
    hide Field, Range, Unsigned, Slice, DecodeRequest, DecodeOutcome;
    FieldFits(b, 0, 8);
    FieldFits(b, 8, 8);
    FieldFits(b, 16, 8);
    FieldFits(b, 24, 4);
    UnsignedFits(Field(b, 16, 8), 8);
    RequestFits(Slice(b, 28, 80));
    OutcomeFits(Slice(b, 108, 16));
  }

  lemma DecodeFits(bytes: Bytes)
    requires |bytes| == BLOB_BYTES
    ensures FitsBlob(Decode(bytes))
  {
    hide Field, Range, Slice, DecodeEvent, DecodeChecksum, FitsEvent;
    FieldFits(bytes, 0, 4);
    FieldFits(bytes, 4, 4);
    FieldFits(bytes, 8, 4);
    FieldFits(bytes, 16, 4);
    FieldFits(bytes, 20, 4);
    FieldFits(bytes, 24, 4);
    FieldFits(bytes, 28, 4);
    FieldFits(bytes, 32, 8);
    forall i | 0 <= i < CAPACITY ensures FitsEvent(Decode(bytes).events[i]) {
      EventFits(Slice(bytes, HEADER_BYTES + EVENT_BYTES * i, EVENT_BYTES));
    }
  }

  // ----- an accepted image is a ring over some log -----

  /** An event of which only the number is known. */
  function Forgotten(sequence: nat): Event {
    BlankEvent().(sequence := sequence, bootId := 1, outcome := Outcome(1, 0, 0, 0))
  }

  /** A log that ends with the events of the ring. */
  function Recalled(b: Blob): (log: seq<Event>)
    requires |b.events| == CAPACITY && b.count <= CAPACITY && b.count <= b.total && b.next < CAPACITY
    ensures |log| == b.total
  {
    seq(b.total, k requires 0 <= k < b.total =>
      if k < b.total - b.count then Forgotten(k + 1) else Newest(b, b.total - 1 - k))
  }

  lemma ForgottenFits(sequence: nat)
    requires sequence <= U64_MAX
    ensures FitsEvent(Forgotten(sequence))
  {
    Ranges();
  }

  lemma RecalledEvent(b: Blob, k: nat)
    requires FitsBlob(b) && ValidHeader(b) && k < b.total
    requires forall age :: 0 <= age < b.count ==> ValidEvent(b, age)
    ensures GoodEvent(Recalled(b)[k], b.bootId) && Recalled(b)[k].sequence == k + 1
  {
    hide FitsEvent;
    Ranges();
    if k < b.total - b.count {
      assert ValidEvent(b, 0);
      assert FitsEvent(Forgotten(k + 1)) by { ForgottenFits(k + 1); }
    } else {
      assert ValidEvent(b, b.total - 1 - k);
    }
  }

  lemma RecalledRing(b: Blob)
    requires FitsBlob(b) && ValidHeader(b) && forall age :: 0 <= age < b.count ==> ValidEvent(b, age)
    ensures RingOk(b, Recalled(b))
  {
    hide FitsEvent, GoodEvent, ValidEvent, Newest;
    forall k | 0 <= k < b.total
      ensures GoodEvent(Recalled(b)[k], b.bootId) && Recalled(b)[k].sequence == k + 1
    {
      RecalledEvent(b, k);
    }
  }

  lemma RingIsValid(b: Blob, log: seq<Event>, age: nat)
    requires RingOk(b, log) && age < b.count
    ensures ValidEvent(b, age)
  {
    hide FitsBlob, FitsEvent;
    assert GoodEvent(log[|log| - 1 - age], b.bootId);
  }

  /** The validator accepts exactly the images that carry their own checksum and hold the ring of some log. */
  lemma AcceptedExactly(bytes: Bytes)
    requires |bytes| == BLOB_BYTES
    ensures ValidImage(bytes) <==>
      Decode(bytes).checksum == Checksum(bytes) && exists log: seq<Event> :: RingOk(Decode(bytes), log)
  {
    hide FitsBlob, Decode, Checksum, ValidEvent, GoodLog;
    var b := Decode(bytes);
    if ValidImage(bytes) {
      DecodeFits(bytes);
      RecalledRing(b);
    } else if log: seq<Event> :| RingOk(b, log) {
      forall age | 0 <= age < b.count ensures ValidEvent(b, age) {
        RingIsValid(b, log, age);
      }
    }
  }
}
