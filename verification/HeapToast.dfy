/** The heap verifier's check of a toasted value: its chunks must be numbered without a gap and
    have the sizes that the toast pointer implies. */
module HeapToast {
  import opened Integers
  import opened Outcomes

  /** The data of a chunk: null, with a plain or a short header and then so many bytes, or with
      a header of another kind. */
  datatype Data = NullData | Plain(size: Int32) | Short(size: Int32) | Other

  datatype ToastTuple = ToastTuple(seqno: Option<Int32>, data: Data)

  datatype Report =
    | NullSeq
    | WrongSeq(found: Int32, expected: Int32)
    | DataIsNull(seqno: Int32)
    | BadHeader(seqno: Int32)
    | FollowsLast(seqno: Int32, last: Int32)
    | WrongSize(seqno: Int32, size: Int32, expected: Int32)
    | NotFound
    | EndedEarly(last: Int32, expected: Int32)

  /** The greatest chunk size; it is fixed when the server is built. (With 2 or less, chunk
      numbers might not fit in 32 bits.) */
  predicate LegalMax(max: nat) {
    3 <= max < TWO_31
  }

  /** The number of the last chunk; the subtraction is in 32 bits without sign. */
  function LastSeq(extsize: Uint32, max: nat): Int32
    requires LegalMax(max)
  {
    ToInt32(Quotient(Wrap32(extsize - 1), max))
  }

  function ExpectedSize(seqno: Int32, extsize: Uint32, max: nat): Int32
    requires LegalMax(max)
  {
    if seqno < LastSeq(extsize, max) then max else ToInt32(Wrap32(extsize - Times(LastSeq(extsize, max), max)))
  }

  /** What the check of one chunk's data reports. */
  function DataReports(t: ToastTuple, seqno: Int32, extsize: Uint32, max: nat): seq<Report>
    requires LegalMax(max)
  {
    match t.data
    case NullData => [DataIsNull(seqno)]
    case Other => [BadHeader(seqno)]
    case _ =>
      if seqno > LastSeq(extsize, max) then [FollowsLast(seqno, LastSeq(extsize, max))]
      else if t.data.size != ExpectedSize(seqno, extsize, max) then
        [WrongSize(seqno, t.data.size, ExpectedSize(seqno, extsize, max))]
      else []
  }

  function TupleReports(t: ToastTuple, expected: Int32, extsize: Uint32, max: nat): seq<Report>
    requires LegalMax(max)
  {
    if t.seqno.None? then [NullSeq]
    else
      (if t.seqno.value != expected then [WrongSeq(t.seqno.value, expected)] else [])
      + DataReports(t, t.seqno.value, extsize, max)
  }

  /** The number expected after a chunk. */
  function NextSeq(t: ToastTuple, expected: Int32): Int32 {
    if t.seqno.None? then expected else ToInt32(Wrap32(t.seqno.value + 1))
  }

  /** The number expected, and the reports made, after all of some chunks. */
  function ExpectedAfter(ts: seq<ToastTuple>): Int32 {
    if ts == [] then 0 else NextSeq(ts[|ts| - 1], ExpectedAfter(ts[..|ts| - 1]))
  }

  function ReportsOn(ts: seq<ToastTuple>, extsize: Uint32, max: nat): seq<Report>
    requires LegalMax(max)
  {
    if ts == [] then []
    else
      ReportsOn(ts[..|ts| - 1], extsize, max)
      + TupleReports(ts[|ts| - 1], ExpectedAfter(ts[..|ts| - 1]), extsize, max)
  }

  function AttributeReports(ts: seq<ToastTuple>, extsize: Uint32, max: nat): seq<Report>
    requires LegalMax(max)
  {
    ReportsOn(ts, extsize, max)
    + if ts == [] then [NotFound]
      else if ExpectedAfter(ts) <= LastSeq(extsize, max) then [EndedEarly(LastSeq(extsize, max), ExpectedAfter(ts))]
      else []
  }

  class ToastCheck {
    const max: nat
    var reports: seq<Report>

    predicate Valid() {
      LegalMax(max)
    }

    constructor (max: nat)
      requires LegalMax(max)
      ensures Valid() && reports == [] && this.max == max
    {
      this.max := max;
      reports := [];
    }

    /** check_toast_tuple */
    method CheckToastTuple(t: ToastTuple, expected: Int32, extsize: Uint32) returns (next: Int32)
      requires Valid()
      modifies this
      ensures next == NextSeq(t, expected)
      ensures reports == old(reports) + TupleReports(t, expected, extsize, max)
    {
      hide LastSeq, ToInt32, Times;
      var last := LastSeq(extsize, max);
      if t.seqno.None? {
        reports := reports + [NullSeq];
        return expected;
      }
      var seqno := t.seqno.value;
      if seqno != expected {
        reports := reports + [WrongSeq(seqno, expected)];
      }
      next := ToInt32(Wrap32(t.seqno.value + 1));
      match t.data
      case NullData =>
        reports := reports + [DataIsNull(seqno)];
      case Other =>
        reports := reports + [BadHeader(seqno)];
      case _ =>
        var size := t.data.size;
        if seqno > last {
          reports := reports + [FollowsLast(seqno, last)];
          return;
        }
        var wanted := if seqno < last then max else ToInt32(Wrap32(extsize - Times(last, max)));
        if size != wanted {
          reports := reports + [WrongSize(seqno, size, wanted)];
        }
    }

    /** check_toasted_attribute, given the chunks that the scan of the toast index returns. */
    method CheckToastedAttribute(chunks: seq<ToastTuple>, extsize: Uint32)
      requires Valid()
      modifies this
      ensures reports == old(reports) + AttributeReports(chunks, extsize, max)
    {
      hide LastSeq, TupleReports, NextSeq;
      var expected, last := 0, LastSeq(extsize, max);
      var found := false;
      var i := 0;
      while i < |chunks|
        invariant 0 <= i <= |chunks| && found == (i > 0)
        invariant expected == ExpectedAfter(chunks[..i])
        invariant reports == old(reports) + ReportsOn(chunks[..i], extsize, max)
      {
        found := true;
        assert chunks[..i + 1][..i] == chunks[..i];
        expected := CheckToastTuple(chunks[i], expected, extsize);
        i := i + 1;
      }
      assert chunks[..i] == chunks;
      if !found {
        reports := reports + [NotFound];
      } else if expected <= last {
        reports := reports + [EndedEarly(last, expected)];
      }
    }
  }

  // ---------------------------------------------------------------- when the check is silent

  /** The chunk numbered k is right. */
  predicate RightChunk(t: ToastTuple, k: Int32, extsize: Uint32, max: nat)
    requires LegalMax(max)
  {
    && t.seqno == Some(k)
    && (t.data.Plain? || t.data.Short?)
    && t.data.size == ExpectedSize(k, extsize, max)
  }

  predicate RightPrefix(ts: seq<ToastTuple>, extsize: Uint32, max: nat)
    requires LegalMax(max)
  {
    && |ts| <= LastSeq(extsize, max) + 1
    && forall k :: 0 <= k < |ts| ==> RightChunk(ts[k], k, extsize, max)
  }

  lemma LastSeqInRange(extsize: Uint32, max: nat)
    requires LegalMax(max)
    ensures 0 <= LastSeq(extsize, max) < TWO_31 - 1
    ensures extsize > 0 ==> LastSeq(extsize, max) == Quotient(extsize - 1, max)
  {
    var a := Wrap32(extsize - 1);
    QuotientBounds(a, max);
    TimesGrows(3, max, Quotient(a, max));
    hide Quotient, Times;
  }

  lemma QuotientBounds(a: nat, b: nat)
    requires b > 0
    ensures 0 <= Times(Quotient(a, b), b) <= a < Times(Quotient(a, b), b) + b && Quotient(a, b) >= 0
  {
  }

  lemma TimesGrows(a: nat, b: nat, n: nat)
    requires a <= b
    ensures 3 * n <= Times(n, 3) && Times(n, a) <= Times(n, b)
  {
  }

  /** One more chunk is passed in silence exactly if it is the right one. */
  lemma TupleSilent(t: ToastTuple, k: nat, extsize: Uint32, max: nat)
    requires LegalMax(max) && k <= LastSeq(extsize, max) + 1 < TWO_31
    ensures TupleReports(t, k, extsize, max) == [] <==> k <= LastSeq(extsize, max) && RightChunk(t, k, extsize, max)
    ensures t.seqno == Some(k) && k < TWO_31 - 1 ==> NextSeq(t, k) == k + 1
  {
    hide LastSeq, ExpectedSize;
  }

  lemma {:induction false} PrefixSilent(ts: seq<ToastTuple>, extsize: Uint32, max: nat)
    requires LegalMax(max)
    ensures ReportsOn(ts, extsize, max) == [] <==> RightPrefix(ts, extsize, max)
    ensures RightPrefix(ts, extsize, max) ==> ExpectedAfter(ts) == |ts|
    decreases |ts|
  {
    hide LastSeq, TupleReports, NextSeq, LegalMax;
    LastSeqInRange(extsize, max);
    if ts != [] {
      var before, t := ts[..|ts| - 1], ts[|ts| - 1];
      PrefixSilent(before, extsize, max);
      RightPrefixSplits(ts, extsize, max);
      if RightPrefix(before, extsize, max) {
        TupleSilent(t, |before|, extsize, max);
      }
      hide RightPrefix, RightChunk;
    }
  }

  lemma RightPrefixSplits(ts: seq<ToastTuple>, extsize: Uint32, max: nat)
    requires LegalMax(max) && ts != [] && LastSeq(extsize, max) + 1 < TWO_31
    ensures RightPrefix(ts, extsize, max) <==>
              && RightPrefix(ts[..|ts| - 1], extsize, max)
              && |ts| - 1 <= LastSeq(extsize, max)
              && RightChunk(ts[|ts| - 1], |ts| - 1, extsize, max)
  {
    hide RightChunk, LastSeq, LegalMax;
    var last := |ts| - 1;
    assert forall k :: 0 <= k < last ==> ts[..last][k] == ts[k];
  }

  /** The main result: nothing is reported exactly if the chunks are numbered from 0 to the
      last one in order, none is null, and each has the size expected of it. */
  lemma SilentExactly(ts: seq<ToastTuple>, extsize: Uint32, max: nat)
    requires LegalMax(max)
    ensures AttributeReports(ts, extsize, max) == []
       <==> |ts| == LastSeq(extsize, max) + 1 && RightPrefix(ts, extsize, max)
  {
    hide LastSeq, ReportsOn, ExpectedAfter, LegalMax, RightChunk;
    LastSeqInRange(extsize, max);
    PrefixSilent(ts, extsize, max);
  }

  function TotalSize(ts: seq<ToastTuple>): int {
    if ts == [] then 0
    else
      var t := ts[|ts| - 1];
      TotalSize(ts[..|ts| - 1]) + if t.data.Plain? || t.data.Short? then t.data.size else 0
  }

  lemma {:induction false} FullChunks(ts: seq<ToastTuple>, extsize: Uint32, max: nat)
    requires LegalMax(max) && RightPrefix(ts, extsize, max) && |ts| <= LastSeq(extsize, max)
    ensures TotalSize(ts) == Times(|ts|, max)
    decreases |ts|
  {
    hide LastSeq, LegalMax, Times;
    if ts == [] {
      TimesNext(0, max);
    } else {
      LastSeqInRange(extsize, max);
      RightPrefixSplits(ts, extsize, max);
      FullChunks(ts[..|ts| - 1], extsize, max);
      TimesNext(|ts| - 1, max);
    }
  }

  lemma TimesNext(n: nat, b: nat)
    ensures Times(n + 1, b) == Times(n, b) + b && Times(0, b) == 0
  {
  }

  /** If nothing is reported on a value that is not empty, its chunks' sizes add up to the size
      in the toast pointer. */
  lemma SilentMeansWholeValue(ts: seq<ToastTuple>, extsize: Uint32, max: nat)
    requires LegalMax(max) && extsize > 0 && AttributeReports(ts, extsize, max) == []
    ensures TotalSize(ts) == extsize
  {
    hide LastSeq, Times, Quotient, AttributeReports;
    SilentExactly(ts, extsize, max);
    LastSeqInRange(extsize, max);
    QuotientBounds(extsize - 1, max);
    RightPrefixSplits(ts, extsize, max);
    FullChunks(ts[..|ts| - 1], extsize, max);
  }

  // ---------------------------------------------------------------- what single faults lead to

  /** The number of the last chunk that has one. */
  function LastNumber(ts: seq<ToastTuple>): Option<Int32> {
    if ts == [] then None
    else if ts[|ts| - 1].seqno.Some? then ts[|ts| - 1].seqno
    else LastNumber(ts[..|ts| - 1])
  }

  /** After any chunks, right or wrong, the number expected is the one after the last number
      found. */
  lemma {:induction false} ExpectedIsNext(ts: seq<ToastTuple>)
    ensures ExpectedAfter(ts) == match LastNumber(ts)
                                 case None => 0
                                 case Some(k) => if k == TWO_31 - 1 then -TWO_31 else k + 1
  {
    if ts != [] {
      ExpectedIsNext(ts[..|ts| - 1]);
    }
  }

  /** From place n on, the chunks are right and numbered k, k + 1, and so on. */
  predicate RightFrom(ts: seq<ToastTuple>, n: nat, k: nat, extsize: Uint32, max: nat)
    requires LegalMax(max) && n <= |ts|
  {
    && k + (|ts| - n) <= LastSeq(extsize, max) + 1 < TWO_31
    && forall i :: n <= i < |ts| ==> RightChunk(ts[i], k + (i - n), extsize, max)
  }

  /** Chunks that go on from what is expected are passed in silence. */
  lemma {:induction false} RightFromSilent(ts: seq<ToastTuple>, n: nat, k: nat, extsize: Uint32, max: nat)
    requires LegalMax(max) && n <= |ts| && RightFrom(ts, n, k, extsize, max) && ExpectedAfter(ts[..n]) == k
    ensures ReportsOn(ts, extsize, max) == ReportsOn(ts[..n], extsize, max)
    ensures ExpectedAfter(ts) == k + (|ts| - n)
    decreases |ts|
  {
    hide LastSeq, TupleReports, NextSeq, LegalMax, RightChunk;
    if n == |ts| {
      assert ts[..n] == ts;
    } else {
      var before := ts[..|ts| - 1];
      assert before[..n] == ts[..n];
      LastSeqInRange(extsize, max);
      RightFromSilent(before, n, k, extsize, max);
      OneMoreSilent(ts[|ts| - 1], k + (|ts| - 1 - n), extsize, max);
    }
  }

  lemma OneMoreSilent(t: ToastTuple, k: nat, extsize: Uint32, max: nat)
    requires LegalMax(max) && k <= LastSeq(extsize, max) < TWO_31 - 1 && RightChunk(t, k, extsize, max)
    ensures TupleReports(t, k, extsize, max) == [] && NextSeq(t, k) == k + 1
  {
    hide LastSeq, ExpectedSize;
    TupleSilent(t, k, extsize, max);
  }

  /** A chunk with a number that was not expected, but otherwise right. */
  lemma OneOutOfTurn(t: ToastTuple, found: nat, k: nat, extsize: Uint32, max: nat)
    requires LegalMax(max) && found <= LastSeq(extsize, max) < TWO_31 - 1 && RightChunk(t, found, extsize, max)
    requires k < TWO_31 && k != found
    ensures TupleReports(t, k, extsize, max) == [WrongSeq(found, k)] && NextSeq(t, k) == found + 1
  {
    hide LastSeq, ExpectedSize;
    assert [WrongSeq(found, k)] + [] == [WrongSeq(found, k)];
  }

  /** The chunks come in order up to number k - 1, and then go on from number `found`. */
  predicate BrokenAt(ts: seq<ToastTuple>, k: nat, found: nat, extsize: Uint32, max: nat)
    requires LegalMax(max)
  {
    && k < |ts| && found != k
    && RightFrom(ts[..k], 0, 0, extsize, max)
    && RightFrom(ts, k, found, extsize, max)
  }

  lemma BrokenReports(ts: seq<ToastTuple>, k: nat, found: nat, extsize: Uint32, max: nat)
    requires LegalMax(max) && BrokenAt(ts, k, found, extsize, max)
    ensures ReportsOn(ts, extsize, max) == [WrongSeq(found, k)]
    ensures ExpectedAfter(ts) == found + (|ts| - k)
  {
    hide LastSeq, TupleReports, NextSeq, LegalMax, RightChunk;
    LastSeqInRange(extsize, max);
    var before, upTo := ts[..k], ts[..k + 1];
    assert before[..0] == [] && upTo[..k] == before && upTo[k] == ts[k];
    assert k < TWO_31 && RightChunk(ts[k], found, extsize, max);
    RightFromSilent(before, 0, 0, extsize, max);
    OneOutOfTurn(ts[k], found, k, extsize, max);
    assert [] + [WrongSeq(found, k)] == [WrongSeq(found, k)];
    assert ReportsOn(upTo, extsize, max) == [WrongSeq(found, k)] && ExpectedAfter(upTo) == found + 1;
    RightFromSilent(ts, k + 1, found + 1, extsize, max);
  }

  /** If just one chunk is missing and it is not the last one, just one report is made: the next
      chunk's number was found where the missing one's was expected. A chunk that comes twice is
      reported once, too. The chunks after it are counted on from the number found. */
  lemma OneBreakOneReport(ts: seq<ToastTuple>, k: nat, found: nat, extsize: Uint32, max: nat)
    requires LegalMax(max) && BrokenAt(ts, k, found, extsize, max)
    requires found + (|ts| - k) == LastSeq(extsize, max) + 1
    ensures AttributeReports(ts, extsize, max) == [WrongSeq(found, k)]
  {
    hide LastSeq, ReportsOn, ExpectedAfter, LegalMax, RightChunk;
    BrokenReports(ts, k, found, extsize, max);
    assert [WrongSeq(found, k)] + [] == [WrongSeq(found, k)];
  }

  /** If chunks are missing only at the end, just that is reported. */
  lemma EndMissing(ts: seq<ToastTuple>, extsize: Uint32, max: nat)
    requires LegalMax(max) && ts != [] && |ts| <= LastSeq(extsize, max) && RightPrefix(ts, extsize, max)
    ensures AttributeReports(ts, extsize, max) == [EndedEarly(LastSeq(extsize, max), |ts|)]
  {
    hide LastSeq, ReportsOn, ExpectedAfter, LegalMax, RightChunk;
    PrefixSilent(ts, extsize, max);
    assert [] + [EndedEarly(LastSeq(extsize, max), |ts|)] == [EndedEarly(LastSeq(extsize, max), |ts|)];
  }
}
