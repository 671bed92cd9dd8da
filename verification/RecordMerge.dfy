/** The merging record decoder: a heap of stream heads over mutable inner decoders. */
module RecordMerge {
  import opened Common
  import opened FailingMerge
  import opened KMerge
  import opened MetadataTypes

  /** An inner decoder over a finite stream. `idx` is -1 until the first read and counts every
      read after it. Once the records run out it reports the end, or `failure` if it has one. */
  class StreamDecoder {
    const metadata: Metadata
    const records: seq<Record>
    const failure: Option<Error>
    var idx: int

    constructor (metadata: Metadata, records: seq<Record>, failure: Option<Error>)
      ensures this.metadata == metadata && this.records == records && this.failure == failure && idx == -1
    {
      this.metadata := metadata;
      this.records := records;
      this.failure := failure;
      idx := -1;
    }

    method DecodeRecordRef() returns (r: Result<Option<Record>>)
      requires -1 <= idx
      modifies this
      ensures idx == old(idx) + 1
      ensures idx < |records| ==> r == Ok(Some(records[idx]))
      ensures idx >= |records| ==> r == if failure.Some? then Err(failure.value) else Ok(None)
    {
      idx := idx + 1;
      if idx < |records| {
        r := Ok(Some(records[idx]));
      } else if failure.Some? {
        r := Err(failure.value);
      } else {
        r := Ok(None);
      }
    }

    /** A nonempty stream that is not on a record panics. */
    method LastRecord() returns (r: Outcome<Option<Record>>)
      ensures r == if records == [] then Returned(None)
                   else if 0 <= idx < |records| then Returned(Some(records[idx]))
                   else Panicked
    {
      if records == [] {
        r := Returned(None);
      } else if 0 <= idx < |records| {
        r := Returned(Some(records[idx]));
      } else {
        r := Panicked;
      }
    }
  }

  datatype IndexTs = Real(ts: U64) | Hint(ts: U64)

  datatype StreamHead = StreamHead(indexTs: IndexTs, decoderIdx: nat)

  /** Heads are ordered by timestamp, real or hinted alike, and then by decoder index. */
  predicate HeadLeq(a: StreamHead, b: StreamHead) {
    a.indexTs.ts < b.indexTs.ts || (a.indexTs.ts == b.indexTs.ts && a.decoderIdx <= b.decoderIdx)
  }

  method PeekHeap(heap: multiset<StreamHead>) returns (top: Option<StreamHead>)
    ensures top.None? <==> heap == multiset{}
    ensures top.Some? ==> top.value in heap && forall h :: h in heap ==> HeadLeq(top.value, h)
  {
    if heap == multiset{} {
      return None;
    }
    var best :| best in heap;
    var rest := heap - multiset{best};
    while rest != multiset{}
      invariant best in heap && forall h :: h in rest ==> h in heap
      invariant forall h :: h in heap ==> h in rest || HeadLeq(best, h)
      decreases |rest|
    {
      var h :| h in rest;
      rest := rest - multiset{h};
      if !HeadLeq(best, h) {
        best := h;
      }
    }
    top := Some(best);
  }

  function StreamsOf(decoders: seq<StreamDecoder>): (s: Streams)
    ensures |s| == |decoders|
    ensures forall i :: 0 <= i < |s| ==> s[i] == decoders[i].records
  {
    seq(|decoders|, i requires 0 <= i < |decoders| => decoders[i].records)
  }

  function FailuresOf(decoders: seq<StreamDecoder>): (f: Failures)
    ensures |f| == |decoders|
    ensures forall i :: 0 <= i < |f| ==> f[i] == decoders[i].failure
  {
    seq(|decoders|, i requires 0 <= i < |decoders| => decoders[i].failure)
  }

  function BoundsOf(hints: seq<U64>): (b: Bounds)
    ensures |b| == |hints|
    ensures forall i :: 0 <= i < |b| ==> b[i] == Some(hints[i])
  {
    seq(|hints|, i requires 0 <= i < |hints| => Some(hints[i]))
  }

  ghost function FrameOf(decoders: seq<StreamDecoder>): set<StreamDecoder> {
    set d | d in decoders
  }

  ghost predicate Distinct(decoders: seq<StreamDecoder>) {
    forall i, j :: 0 <= i < j < |decoders| ==> decoders[i] != decoders[j]
  }

  /** `e` is what one of the decoders fails with, which has been read past its last record. */
  ghost predicate HasFailed(decoders: seq<StreamDecoder>, frame: set<StreamDecoder>, e: Error)
    reads frame
  {
    exists i :: 0 <= i < |decoders| && decoders[i] in frame && decoders[i].failure == Some(e)
                && decoders[i].idx >= |decoders[i].records|
  }

  ghost predicate NoneFails(decoders: seq<StreamDecoder>) {
    forall i :: 0 <= i < |decoders| ==> decoders[i].failure.None?
  }

  /** The head of a decoder that is at `k`, if it is on a record there. */
  ghost function HeadAt(records: seq<Record>, k: int, decoderIdx: nat): multiset<StreamHead> {
    if 0 <= k < |records| then multiset{StreamHead(Real(records[k].indexTs), decoderIdx)} else multiset{}
  }

  /** A merge as a value: the streams and their failures, the hint given for each, the cursor of
      each decoder and the heap. */
  datatype MergeView = MergeView(streams: Streams, failures: Failures, hints: seq<U64>, cursors: seq<int>,
                                 heap: multiset<StreamHead>) {

    ghost predicate Shaped() {
      && |streams| == |failures| == |hints| == |cursors|
      && forall i :: 0 <= i < |cursors| ==> -1 <= cursors[i] <= |streams[i]|
    }

    /** The head that decoder `i` should have: none once exhausted, the hint while unread, and
        otherwise the timestamp of the record it is on. */
    ghost function HeadOf(i: nat): Option<StreamHead>
      requires Shaped() && i < |streams|
    {
      if cursors[i] < 0 then Some(StreamHead(Hint(hints[i]), i))
      else if cursors[i] < |streams[i]| then Some(StreamHead(Real(streams[i][cursors[i]].indexTs), i))
      else None
    }

    /** The representation invariant of the heap: it holds each decoder's head once, and nothing
        else. A cursor never passes the end of its stream, so that no decoder is read after it
        reported its end. */
    ghost predicate Consistent() {
      && Shaped()
      && (forall i :: 0 <= i < |streams| && HeadOf(i).Some? ==> heap[HeadOf(i).value] == 1)
      && (forall h :: h in heap ==> h.decoderIdx < |streams| && HeadOf(h.decoderIdx) == Some(h))
    }

    /** No decoder that fails has been read past its last record. */
    ghost predicate Unfailed() {
      forall i :: 0 <= i < |streams| && i < |failures| && i < |cursors| && cursors[i] >= |streams[i]| ==>
        failures[i].None?
    }

    /** Reading decoder `c` once more reports its failure. */
    ghost predicate ReadFails(c: nat)
      requires Shaped() && c < |streams|
    {
      cursors[c] + 1 >= |streams[c]| && failures[c].Some?
    }

    /** The records not read past: from the one a decoder is on, or all before its first read. */
    ghost function Queued(): (s: Streams)
      requires Shaped()
      ensures |s| == |streams|
    {
      seq(|streams|, i requires 0 <= i < |streams| =>
        if cursors[i] < 0 then streams[i] else streams[i][cursors[i]..])
    }

    ghost function Bounds(): (b: Bounds)
      requires Shaped()
      ensures |b| == |streams|
    {
      seq(|streams|, i requires 0 <= i < |streams| => if cursors[i] < 0 then Some(hints[i]) else None)
    }

    /** What a run from here emits, the record under the top included, and how it ends. */
    ghost function Rest(): Ending
      requires Shaped()
    {
      MergeUntilFailure(Queued(), Bounds(), failures)
    }

    ghost predicate IsTop(h: StreamHead) {
      h in heap && forall other :: other in heap ==> HeadLeq(h, other)
    }

    /** Decoder `c` is on a record and its head is the top. */
    ghost predicate Serves(c: nat) {
      && Consistent()
      && c < |streams| && 0 <= cursors[c] < |streams[c]|
      && IsTop(HeadOf(c).value)
    }

    /** After popping `top`, reading its decoder once and pushing the new head, if any. */
    ghost function Advanced(top: StreamHead): MergeView
      requires Consistent() && top in heap
    {
      var c := top.decoderIdx;
      var k := cursors[c] + 1;
      this.(cursors := cursors[c := k], heap := heap - multiset{top} + HeadAt(streams[c], k, c))
    }

    lemma AdvancedParts(top: StreamHead)
      requires Consistent() && top in heap
      ensures var c, v := top.decoderIdx, Advanced(top);
              && Shaped() && c < |streams| == |cursors| == |failures| && -1 <= cursors[c]
              && v.streams == streams && v.failures == failures && v.hints == hints
              && v.cursors == cursors[c := cursors[c] + 1]
              && v.heap == heap - multiset{top} + HeadAt(streams[c], cursors[c] + 1, c)
    {
    }

    /** Reading decoder `c` moves no other head. */
    lemma OtherHeads(top: StreamHead, i: nat)
      requires Consistent() && top in heap && i < |streams| && i != top.decoderIdx
      ensures Advanced(top).Shaped() && Advanced(top).HeadOf(i) == HeadOf(i)
    {
    }

    /** The popped head is gone, and only the new head of its decoder is added. */
    lemma AdvancedMultiplicity(top: StreamHead, h: StreamHead)
      requires Consistent() && top in heap
      ensures top.decoderIdx < |streams| && Advanced(top).Shaped()
      ensures Advanced(top).heap[h] ==
              if h.decoderIdx != top.decoderIdx then heap[h]
              else if Advanced(top).HeadOf(top.decoderIdx) == Some(h) then 1
              else 0
    {
      assert heap[top] == 1;
      assert h in heap && h.decoderIdx == top.decoderIdx ==> h == top;
    }

    lemma AdvancedIsConsistent(top: StreamHead)
      requires Consistent() && top in heap
      ensures Advanced(top).Consistent()
    {
      var v := Advanced(top);
      AdvancedMultiplicity(top, top);
      forall i | 0 <= i < |streams| && v.HeadOf(i).Some? ensures v.heap[v.HeadOf(i).value] == 1 {
        AdvancedMultiplicity(top, v.HeadOf(i).value);
        if i != top.decoderIdx {
          OtherHeads(top, i);
        }
      }
      forall h | h in v.heap ensures h.decoderIdx < |streams| && v.HeadOf(h.decoderIdx) == Some(h) {
        AdvancedMultiplicity(top, h);
        if h.decoderIdx != top.decoderIdx {
          OtherHeads(top, h.decoderIdx);
        }
      }
    }

    /** Reading an unread decoder resolves its hint and loses no record. */
    lemma AdvanceHint(top: StreamHead)
      requires Consistent() && top in heap && top.indexTs.Hint?
      ensures Advanced(top).Queued() == Queued()
      ensures Advanced(top).Bounds() == Bounds()[top.decoderIdx := None]
      ensures Bounds()[top.decoderIdx].Some?
    {
    }

    /** Reading a decoder past the record it is on drops that record. */
    lemma AdvanceReal(top: StreamHead)
      requires Consistent() && top in heap && top.indexTs.Real?
      ensures Queued()[top.decoderIdx] != []
      ensures Advanced(top).Queued() == Queued()[top.decoderIdx := Queued()[top.decoderIdx][1..]]
      ensures Advanced(top).Bounds() == Bounds()
    {
    }

    /** A read that does not fail keeps it that way. */
    lemma AdvancedIsUnfailed(top: StreamHead)
      requires Consistent() && Unfailed() && top in heap
      requires top.decoderIdx < |streams| && !ReadFails(top.decoderIdx)
      ensures Advanced(top).Unfailed()
    {
    }

    /** A read that does not fail keeps what holds of a view. */
    lemma AdvancedStays(top: StreamHead)
      requires Consistent() && Unfailed() && top in heap && top.decoderIdx < |streams|
      ensures Advanced(top).Consistent() && (!ReadFails(top.decoderIdx) ==> Advanced(top).Unfailed())
    {
      AdvancedIsConsistent(top);
      if !ReadFails(top.decoderIdx) {
        AdvancedIsUnfailed(top);
      }
    }

    /** Once every stream is exhausted there is no failure left to meet. */
    lemma ExhaustedIsUnfailed()
      requires Consistent() && Unfailed() && heap == multiset{}
      ensures NoFailures(failures)
    {
      forall i | 0 <= i < |failures| ensures failures[i].None? {
        assert HeadOf(i).None?;
      }
    }

    /** The top of the heap is the stream that the reference model serves. */
    lemma TopIsNext(top: StreamHead)
      requires Consistent() && IsTop(top)
      ensures Next(Queued(), Bounds()) == Some(top.decoderIdx)
      ensures top.indexTs.Hint? <==> Bounds()[top.decoderIdx].Some?
    {
      var s, b := Queued(), Bounds();
      forall j | 0 <= j < |streams| && Key(s, b, j).Some?
        ensures HeadOf(j).Some? && HeadOf(j).value in heap
        ensures HeadOf(j).value.indexTs.ts == Key(s, b, j).value
      {
      }
      NextIsUnique(s, b, top.decoderIdx);
    }

    /** A hint on top: its decoder fails at once, or reading it changes nothing. */
    lemma HintStep(top: StreamHead)
      requires Consistent() && IsTop(top) && top.indexTs.Hint?
      ensures top.decoderIdx < |streams|
      ensures Rest() ==
              if ReadFails(top.decoderIdx) then Ending([], failures[top.decoderIdx]) else Advanced(top).Rest()
    {
      TopIsNext(top);
      AdvanceHint(top);
    }

    /** Reading an unread decoder leaves fewer unread ones. */
    lemma HintProgress(top: StreamHead)
      requires Consistent() && top in heap && top.indexTs.Hint?
      ensures Advanced(top).Shaped() && Shaped()
      ensures Unresolved(Advanced(top).Bounds()) < Unresolved(Bounds())
    {
      AdvanceHint(top);
      UnresolvedUpdate(Bounds(), top.decoderIdx);
    }

    lemma EmptyServes()
      requires Consistent() && heap == multiset{}
      ensures CanServe(None)
    {
    }

    /** A record on top can be served. */
    lemma TopServes(top: StreamHead)
      requires Consistent() && IsTop(top) && top.indexTs.Real?
      ensures CanServe(Some(top.decoderIdx))
    {
    }

    lemma EmptyHeapEmitsNothing()
      requires Consistent() && heap == multiset{}
      ensures Rest() == Ending([], None)
    {
      NextIsArgMin(Queued(), Bounds());
      forall j | 0 <= j < |streams| ensures Key(Queued(), Bounds(), j).None? {
        assert HeadOf(j).None?;
      }
    }

    /** What is left once the record under the top has been returned. */
    ghost function RestAfter(c: nat): Ending
      requires Serves(c)
    {
      AfterServed(Queued(), Bounds(), failures, c)
    }

    /** The record that decoder `c` is on. */
    ghost function Served(c: nat): Emission
      requires Serves(c)
    {
      Emission(c, streams[c][cursors[c]])
    }

    /** Decoder `next` can be served, or there is nothing left to serve. */
    ghost predicate CanServe(next: Option<nat>) {
      Consistent() && if next.Some? then Serves(next.value) else heap == multiset{}
    }

    ghost function RecordOf(next: Option<nat>): Option<Record>
      requires CanServe(next)
    {
      if next.Some? then Some(Served(next.value).record) else None
    }

    lemma ServeStep(c: nat)
      requires Serves(c)
      ensures Rest() == Emit(Served(c), RestAfter(c))
    {
      TopIsNext(HeadOf(c).value);
    }

    /** Popping the record that was served: its decoder fails, or exactly what came after the
        record is left. */
    lemma PopServed(c: nat, top: StreamHead)
      requires Serves(c) && IsTop(top)
      ensures top == HeadOf(c).value && Advanced(top).Consistent()
      ensures RestAfter(c) == if ReadFails(c) then Ending([], failures[c]) else Advanced(top).Rest()
    {
      var head := HeadOf(c).value;
      assert HeadLeq(head, top) && HeadLeq(top, head);
      AdvancedIsConsistent(top);
      AdvanceReal(top);
    }
  }

  /** The heap that `new` builds once the first `n` decoders have been read. */
  ghost function EagerHeap(s: Streams, n: nat): multiset<StreamHead>
    requires n <= |s|
  {
    if n == 0 then multiset{}
    else EagerHeap(s, n - 1) +
         if s[n - 1] == [] then multiset{} else multiset{StreamHead(Real(s[n - 1][0].indexTs), n - 1)}
  }

  /** The heap of the first `n` hints. */
  ghost function HintHeap(hints: seq<U64>, n: nat): multiset<StreamHead>
    requires n <= |hints|
  {
    if n == 0 then multiset{} else HintHeap(hints, n - 1) + multiset{StreamHead(Hint(hints[n - 1]), n - 1)}
  }

  lemma {:induction false} EagerHeapHeads(s: Streams, n: nat)
    requires n <= |s|
    ensures forall h :: h in EagerHeap(s, n) ==>
              h.decoderIdx < n && s[h.decoderIdx] != [] && h.indexTs == Real(s[h.decoderIdx][0].indexTs)
    ensures forall i :: 0 <= i < n && s[i] != [] ==> EagerHeap(s, n)[StreamHead(Real(s[i][0].indexTs), i)] == 1
  {
    if n > 0 {
      EagerHeapHeads(s, n - 1);
    }
  }

  lemma {:induction false} HintHeapHeads(hints: seq<U64>, n: nat)
    requires n <= |hints|
    ensures forall h :: h in HintHeap(hints, n) ==> h.decoderIdx < n && h.indexTs == Hint(hints[h.decoderIdx])
    ensures forall i :: 0 <= i < n ==> HintHeap(hints, n)[StreamHead(Hint(hints[i]), i)] == 1
  {
    if n > 0 {
      HintHeapHeads(hints, n - 1);
    }
  }

  /** Every decoder read once. */
  ghost function EagerView(s: Streams, f: Failures): MergeView {
    MergeView(s, f, seq(|s|, _ => 0), seq(|s|, _ => 0), EagerHeap(s, |s|))
  }

  /** No decoder read. */
  ghost function HintedView(s: Streams, f: Failures, hints: seq<U64>): MergeView {
    MergeView(s, f, hints, seq(|s|, _ => -1), HintHeap(hints, |hints|))
  }

  lemma {:induction false} EagerViewMerges(s: Streams, f: Failures)
    requires |s| == |f|
    ensures EagerView(s, f).Consistent()
    ensures EagerView(s, f).Rest() == MergeUntilFailure(s, NoBounds(|s|), f)
  {
    EagerHeapHeads(s, |s|);
    assert EagerView(s, f).Queued() == s;
    assert EagerView(s, f).Bounds() == NoBounds(|s|);
  }

  lemma {:induction false} HintedViewMerges(s: Streams, f: Failures, hints: seq<U64>)
    requires |s| == |f| == |hints|
    ensures HintedView(s, f, hints).Consistent() && HintedView(s, f, hints).Unfailed()
    ensures HintedView(s, f, hints).Rest() == MergeUntilFailure(s, BoundsOf(hints), f)
  {
    HintHeapHeads(hints, |hints|);
    assert HintedView(s, f, hints).Queued() == s;
    assert HintedView(s, f, hints).Bounds() == BoundsOf(hints);
  }

  type ConsistentView = v: MergeView | v.Consistent() witness MergeView([], [], [], [], multiset{})

  /** A run so far: everything that it emits and how it ends, what it has emitted, what is still to
      come, and the decoder whose record was returned last. */
  datatype MergeRun = MergeRun(plan: Ending, trace: seq<Emission>, pending: Ending, current: Option<nat>) {

    /** One call. It returns the next record of the plan; after the last one it returns the failure
        that the run ends in, or the end, for good. */
    ghost predicate Step(after: MergeRun, r: Result<Option<Record>>) {
      && after.plan == plan
      && if pending.emitted != [] then
           && r == Ok(Some(pending.emitted[0].record))
           && after.trace == trace + [pending.emitted[0]]
           && after.pending == Ending(pending.emitted[1..], pending.failure)
           && after.current.Some?
         else if pending.failure.Some? then r == Err(pending.failure.value) && after == this
         else r == Ok(None) && after == this.(current := None)
    }

    /** The run after the decoder `next`, if any, has been served. */
    ghost function Next(next: Option<nat>): MergeRun
      requires next.Some? ==> pending.emitted != []
    {
      if next.None? then this.(current := None)
      else MergeRun(plan, trace + [pending.emitted[0]], Ending(pending.emitted[1..], pending.failure), next)
    }

    /** What was emitted and what is pending make up the plan. */
    ghost predicate Splits() {
      trace + pending.emitted == plan.emitted && pending.failure == plan.failure
    }

    /** The run and the view belong together. */
    ghost predicate Fits(v: ConsistentView, isFirst: bool) {
      && Splits()
      && match current
         case None => pending == v.Rest() && (isFirst || v.heap == multiset{})
         case Some(c) =>
           && !isFirst && v.Serves(c) && pending == v.RestAfter(c)
           && trace != [] && trace[|trace| - 1] == v.Served(c)
    }

    lemma FirstFits(v: ConsistentView)
      requires Fits(v, true)
      ensures Splits() && v.Rest() == pending
    {
    }

    /** An empty heap serves nothing. */
    lemma EndFits(v: ConsistentView)
      requires Fits(v, false) && v.heap == multiset{}
      ensures current.None? && Splits() && v.Rest() == pending && v.CanServe(None)
    {
    }

    /** Popping the top: the run ends in the failure of its decoder, or exactly what is pending is
        left. */
    lemma PopFits(v: ConsistentView, top: StreamHead)
      requires Fits(v, false) && v.IsTop(top)
      ensures Splits() && top.decoderIdx < |v.streams| && v.Advanced(top).Consistent()
      ensures pending ==
              if v.ReadFails(top.decoderIdx) then Ending([], v.failures[top.decoderIdx]) else v.Advanced(top).Rest()
    {
      v.PopServed(current.value, top);
    }

    lemma NextFits(v: ConsistentView, next: Option<nat>)
      requires Splits() && v.CanServe(next) && v.Rest() == pending
      ensures if next.None? then pending == Ending([], None)
              else pending.emitted != [] && v.Served(next.value) == pending.emitted[0]
      ensures Next(next).Fits(v, false) && Step(Next(next), Ok(v.RecordOf(next)))
    {
      if next.Some? {
        v.ServeStep(next.value);
        MoveHead(trace, pending.emitted);
        assert pending == Emit(v.Served(next.value), v.RestAfter(next.value));
      } else {
        v.EmptyHeapEmitsNothing();
      }
    }
  }

  class RecordDecoder {
    const decoders: seq<StreamDecoder>
    /** The inner decoders, as a frame. */
    ghost const inner: set<StreamDecoder>
    var minHeap: multiset<StreamHead>
    var isFirst: bool

    /** The cursors and the heap as values. */
    ghost var view: ConsistentView
    /** The run up to the last call. */
    ghost var run: MergeRun

    /** `view` is what the decoders and the heap hold, and the heap is right for it. */
    /** Each decoder has been read that often. */
    ghost predicate ReadUpTo(cursors: seq<int>)
      reads inner
    {
      && |cursors| == |decoders|
      && (forall i :: 0 <= i < |decoders| ==> decoders[i] in inner)
      && forall i :: 0 <= i < |decoders| ==> decoders[i].idx == cursors[i]
    }

    ghost predicate Linked()
      reads this`minHeap, this`view, inner
    {
      && 0 < |decoders|
      && Distinct(decoders)
      && view.streams == StreamsOf(decoders)
      && view.failures == FailuresOf(decoders)
      && view.heap == minHeap
      && view.Unfailed()
      && ReadUpTo(view.cursors)
    }

    ghost predicate Valid()
      reads this, inner
    {
      Linked() && run.Fits(view, isFirst)
    }

    /** What the run still emits. */
    ghost function Pending(): seq<Emission>
      reads this
    {
      run.pending.emitted
    }

    /** The failure that the run is going to end in, if any. */
    ghost function Failure(): Option<Error>
      reads this
    {
      run.pending.failure
    }

    /** A merge of `decoders` that has returned nothing and is going to return `plan`. */
    ghost predicate StartsWith(decoders: seq<StreamDecoder>, plan: Ending)
      reads this, inner
    {
      && this.decoders == decoders && inner == FrameOf(decoders) && isFirst
      && Valid() && run.trace == [] && run.plan == run.pending == plan
    }

    constructor Init(decoders: seq<StreamDecoder>, heap: multiset<StreamHead>, ghost view: ConsistentView)
      requires 0 < |decoders| && Distinct(decoders)
      requires view.streams == StreamsOf(decoders) && view.failures == FailuresOf(decoders)
      requires view.heap == heap && view.Unfailed()
      requires forall i :: 0 <= i < |decoders| ==> decoders[i].idx == view.cursors[i]
      ensures StartsWith(decoders, view.Rest())
    {
      this.decoders := decoders;
      inner := FrameOf(decoders);
      minHeap := heap;
      isFirst := true;
      this.view := view;
      assert [] + view.Rest().emitted == view.Rest().emitted;
      run := MergeRun(view.Rest(), [], view.Rest(), None);
    }

    /** The first decoder that fails before its first record, if there is one. */
    static ghost function FailsAtOnce(decoders: seq<StreamDecoder>): Option<Error> {
      if decoders == [] then None
      else if decoders[0].records == [] && decoders[0].failure.Some? then decoders[0].failure
      else FailsAtOnce(decoders[1..])
    }

    static lemma FailsAtOnceFrom(decoders: seq<StreamDecoder>, i: nat)
      requires i <= |decoders|
      ensures FailsAtOnce(decoders[i..]) ==
              if i == |decoders| then None
              else if decoders[i].records == [] && decoders[i].failure.Some? then decoders[i].failure
              else FailsAtOnce(decoders[i + 1..])
    {
      if i < |decoders| {
        assert decoders[i..][1..] == decoders[i + 1..];
      }
    }

    static lemma {:induction false} NoneFailsAtOnce(decoders: seq<StreamDecoder>)
      requires FailsAtOnce(decoders).None?
      ensures EagerView(StreamsOf(decoders), FailuresOf(decoders)).Unfailed()
      ensures forall d :: d in decoders && d.records == [] ==> d.failure.None?
    {
      if decoders != [] {
        NoneFailsAtOnce(decoders[1..]);
      }
    }

    /** Reads the first record of every decoder. */
    static method New(decoders: seq<StreamDecoder>) returns (r: Result<RecordDecoder>)
      requires Distinct(decoders) && forall d :: d in decoders ==> d.idx == -1
      modifies decoders
      ensures |decoders| == 0 ==> r == Err(BadArgument("decoders"))
      ensures |decoders| != 0 ==> if FailsAtOnce(decoders).Some? then r == Err(FailsAtOnce(decoders).value) else r.Ok?
      ensures r.Ok? ==> fresh(r.value) && 
                        r.value.StartsWith(decoders, MergeUntilFailure(
                          StreamsOf(decoders), NoBounds(|decoders|), FailuresOf(decoders)))
    {
      if |decoders| == 0 {
        return Err(BadArgument("decoders"));
      }
      var heap :- PopulateHeap(decoders);
      hide RecordDecoder.StartsWith, RecordDecoder.Linked, MergeRun.Fits;
      ghost var s, f := StreamsOf(decoders), FailuresOf(decoders);
      EagerViewMerges(s, f);
      NoneFailsAtOnce(decoders);
      var m := new RecordDecoder.Init(decoders, heap, EagerView(s, f));
      r := Ok(m);
    }

    static method PopulateHeap(decoders: seq<StreamDecoder>) returns (r: Result<multiset<StreamHead>>)
      requires Distinct(decoders) && forall d :: d in decoders ==> d.idx == -1
      modifies decoders
      ensures if FailsAtOnce(decoders).Some? then r == Err(FailsAtOnce(decoders).value) else r.Ok?
      ensures r.Ok? ==> r.value == EagerHeap(StreamsOf(decoders), |decoders|)
      ensures r.Ok? ==> forall j :: 0 <= j < |decoders| ==> decoders[j].idx == 0
    {
      hide FailsAtOnce;
      var heap: multiset<StreamHead> := multiset{};
      assert decoders[0..] == decoders;
      for i := 0 to |decoders|
        invariant forall j :: 0 <= j < |decoders| ==> decoders[j].idx == if j < i then 0 else -1
        invariant FailsAtOnce(decoders) == FailsAtOnce(decoders[i..])
        invariant heap == EagerHeap(StreamsOf(decoders), i)
      {
        FailsAtOnceFrom(decoders, i);
        var rec :- decoders[i].DecodeRecordRef();
        if rec.Some? {
          heap := heap + multiset{StreamHead(Real(rec.value.indexTs), i)};
        }
      }
      FailsAtOnceFrom(decoders, |decoders|);
      r := Ok(heap);
    }

    /** Reads nothing: every decoder competes with its hint at first. */
    static method WithHints(decoders: seq<StreamDecoder>, startTsHints: seq<U64>)
      returns (r: Result<RecordDecoder>)
      requires Distinct(decoders) && forall d :: d in decoders ==> d.idx == -1
      ensures |decoders| == 0 ==> r == Err(BadArgument("decoders"))
      ensures |decoders| != 0 && |decoders| != |startTsHints| ==> r == Err(BadArgument("hints"))
      ensures |decoders| != 0 && |decoders| == |startTsHints| ==> r.Ok?
      ensures r.Ok? ==> fresh(r.value) &&
                        r.value.StartsWith(decoders, MergeUntilFailure(
                          StreamsOf(decoders), BoundsOf(startTsHints), FailuresOf(decoders)))
    {
      if |decoders| == 0 {
        return Err(BadArgument("decoders"));
      }
      if |decoders| != |startTsHints| {
        return Err(BadArgument("hints"));
      }
      hide RecordDecoder.StartsWith, RecordDecoder.Linked, MergeRun.Fits;
      var heap := HeapOfHints(startTsHints);
      ghost var s, f := StreamsOf(decoders), FailuresOf(decoders);
      HintedViewMerges(s, f, startTsHints);
      var m := new RecordDecoder.Init(decoders, heap, HintedView(s, f, startTsHints));
      r := Ok(m);
    }

    static method HeapOfHints(startTsHints: seq<U64>) returns (heap: multiset<StreamHead>)
      ensures heap == HintHeap(startTsHints, |startTsHints|)
    {
      heap := multiset{};
      for i := 0 to |startTsHints|
        invariant heap == HintHeap(startTsHints, i)
      {
        heap := heap + multiset{StreamHead(Hint(startTsHints[i]), i)};
      }
    }

    /** Pops the head `top`, reads its decoder once and pushes the new head, if there is one. */
    method ReplaceHead(top: StreamHead) returns (r: Result<()>)
      requires Linked() && top in minHeap
      modifies this`minHeap, this`view, decoders[top.decoderIdx]
      ensures unchanged(`isFirst) && unchanged(`run)
      ensures r == if old(view.ReadFails(top.decoderIdx)) then Err(decoders[top.decoderIdx].failure.value) else Ok(())
      ensures r.Err? || (Linked() && view == old(view).Advanced(top))
      ensures r.Err? ==> HasFailed(decoders, inner, r.error)
    {
      hide MergeView.Consistent, MergeView.Unfailed, MergeView.Advanced, RecordDecoder.ReadUpTo, Distinct;
      view.AdvancedParts(top);
      view.AdvancedStays(top);
      ghost var next := view.Advanced(top);
      r := PopAndRead(top, view.cursors);
      if r.Ok? {
        view := next;
      }
    }

    /** The same on the heap and the decoder alone, whose cursors are given. */
    method PopAndRead(top: StreamHead, ghost cursors: seq<int>) returns (r: Result<()>)
      requires Distinct(decoders) && ReadUpTo(cursors)
      requires top.decoderIdx < |decoders| && -1 <= cursors[top.decoderIdx]
      modifies this`minHeap, decoders[top.decoderIdx]
      ensures var c, k := decoders[top.decoderIdx], cursors[top.decoderIdx] + 1;
              && ReadUpTo(cursors[top.decoderIdx := k])
              && r == (if k >= |c.records| && c.failure.Some? then Err(c.failure.value) else Ok(()))
              && (r.Ok? ==> minHeap == old(minHeap) - multiset{top} + HeadAt(c.records, k, top.decoderIdx))
              && (r.Err? ==> HasFailed(decoders, inner, r.error))
    {
      var c := top.decoderIdx;
      minHeap := minHeap - multiset{top};
      var rec :- decoders[c].DecodeRecordRef();
      if rec.Some? {
        minHeap := minHeap + multiset{StreamHead(Real(rec.value.indexTs), c)};
      }
      r := Ok(());
    }

    /** Handles hints: reads unread decoders until the top is a record, or nothing is left. */
    method NextDecoderIdx() returns (r: Result<Option<nat>>)
      requires Linked()
      modifies this`minHeap, this`view, inner
      ensures unchanged(`isFirst) && unchanged(`run)
      ensures r.Ok? ==> Linked() && view.Rest() == old(view).Rest() && view.CanServe(r.value)
      ensures r == Ok(None) ==> NoneFails(decoders)
      ensures r.Err? ==> old(view).Rest() == Ending([], Some(r.error)) && HasFailed(decoders, inner, r.error)
    {
      assert view.Shaped();
      hide MergeView.Consistent, MergeView.Rest, MergeView.Unfailed, MergeView.Bounds, RecordDecoder.ReadUpTo, Distinct;
      while true
        invariant unchanged(`isFirst) && unchanged(`run)
        invariant Linked() && view.Shaped() && view.Rest() == old(view).Rest()
        decreases Unresolved(view.Bounds())
      {
        var top := PeekHeap(minHeap);
        if top.None? {
          view.ExhaustedIsUnfailed();
          view.EmptyServes();
          return Ok(None);
        }
        match top.value.indexTs
        case Real(_) =>
          view.TopServes(top.value);
          return Ok(Some(top.value.decoderIdx));
        case Hint(_) =>
          view.AdvancedParts(top.value);
          view.HintStep(top.value);
          view.HintProgress(top.value);
          var _ :- ReplaceHead(top.value);
      }
    }

    method DecodeRecordRef() returns (r: Result<Option<Record>>)
      requires Valid()
      modifies this, inner
      ensures old(run).Step(run, r)
      ensures r.Ok? ==> Valid() && !isFirst
      ensures r == Ok(None) ==> NoneFails(decoders)
      ensures r.Err? ==> HasFailed(decoders, inner, r.error)
    {
      hide RecordDecoder.Linked, MergeView.Rest, MergeRun.Fits, MergeRun.Step;
      if isFirst {
        run.FirstFits(view);
        isFirst := false;
      } else {
        var popped :- PopLast();
        if !popped {
          return Ok(None);
        }
      }
      r := TopRecord();
    }

    /** Takes the head of the record that was returned before, if there is one, and reads its
        decoder again. */
    method PopLast() returns (r: Result<bool>)
      requires Valid() && !isFirst
      modifies this`minHeap, this`view, inner
      ensures unchanged(`isFirst) && unchanged(`run)
      ensures r == Ok(true) ==> Linked() && run.Splits() && view.Rest() == run.pending
      ensures r == Ok(false) ==> Valid() && run.Step(run, Ok(None)) && NoneFails(decoders)
      ensures r.Err? ==> run.Step(run, Err(r.error)) && HasFailed(decoders, inner, r.error)
    {
      hide MergeView.Consistent, MergeView.Serves, MergeView.Rest, MergeView.Unfailed, MergeRun.Fits;
      var top := PeekHeap(minHeap);
      if top.None? {
        view.ExhaustedIsUnfailed();
        run.EndFits(view);
        run.NextFits(view, None);
        return Ok(false);
      }
      view.AdvancedParts(top.value);
      run.PopFits(view, top.value);
      var _ :- ReplaceHead(top.value);
      r := Ok(true);
    }

    /** Resolves hints and returns the record under the top. */
    method TopRecord() returns (r: Result<Option<Record>>)
      requires Linked() && !isFirst
      requires run.Splits() && view.Rest() == run.pending
      modifies this`minHeap, this`view, this`run, inner
      ensures unchanged(`isFirst)
      ensures old(run).Step(run, r)
      ensures r.Ok? ==> Linked() && run.Fits(view, false)
      ensures r == Ok(None) ==> NoneFails(decoders)
      ensures r.Err? ==> HasFailed(decoders, inner, r.error)
    {
      hide MergeView.Consistent, MergeView.Serves, MergeView.Rest, MergeView.Unfailed, MergeRun.Fits;
      var next :- NextDecoderIdx();
      run.NextFits(view, next);
      run := run.Next(next);
      if next.None? {
        return Ok(None);
      }
      var last := RecordOfDecoder(next.value);
      r := Ok(Some(last));
    }

    /** The record that decoder `c` is on. */
    method RecordOfDecoder(c: nat) returns (r: Record)
      requires Linked() && view.Serves(c)
      ensures r == view.Served(c).record
    {
      var last := decoders[c].LastRecord();
      r := last.value.value;
    }

    /** The record returned last, wherever its decoder keeps it. After the end it is up to the
        first decoder: one over a nonempty stream panics. */
    method LastRecord() returns (r: Outcome<Option<Record>>)
      requires Valid() && !isFirst
      ensures r == if run.current.Some? then Returned(Some(run.trace[|run.trace| - 1].record))
                   else if decoders[0].records == [] then Returned(None)
                   else Panicked
    {
      var top := PeekHeap(minHeap);
      if top.None? {
        r := decoders[0].LastRecord();
        assert view.HeadOf(0).None?;
      } else {
        view.PopServed(run.current.value, top.value);
        var last := RecordOfDecoder(top.value.decoderIdx);
        r := Returned(Some(last));
      }
    }
  }
}
