/** Reference model of the merge over streams that can fail: what it emits before the first
    failure, and which failure that is. */
module FailingMerge {
  import opened Common
  import opened KMerge

  /** What each stream fails with after its last record, if it does. */
  type Failures = seq<Option<Error>>

  /** All that a run emits, and the failure that it ends in, if it does not reach the end. */
  datatype Ending = Ending(emitted: seq<Emission>, failure: Option<Error>)

  function Emit(e: Emission, r: Ending): Ending {
    Ending([e] + r.emitted, r.failure)
  }

  ghost predicate NoFailures(f: Failures) {
    forall i :: 0 <= i < |f| ==> f[i].None?
  }

  /** The merge that stops when a stream is read past its last record and fails. An unread stream
      is read when its hint is the least key, any other when its next record has been returned. */
  function MergeUntilFailure(s: Streams, b: Bounds, f: Failures): Ending
    requires |s| == |b| == |f|
    decreases Total(s), Unresolved(b), 1
  {
    match Next(s, b)
    case None => Ending([], None)
    case Some(c) =>
      if b[c].None? then Emit(Emission(c, s[c][0]), AfterServed(s, b, f, c))
      else if s[c] == [] && f[c].Some? then Ending([], f[c])
      else
        UnresolvedUpdate(b, c);
        MergeUntilFailure(s, b[c := None], f)
  }

  /** What follows the first record of stream `c`: that stream is read again first. */
  function AfterServed(s: Streams, b: Bounds, f: Failures, c: nat): Ending
    requires |s| == |b| == |f| && c < |s| && s[c] != []
    decreases Total(s), Unresolved(b), 0
  {
    TotalUpdate(s, c, s[c][1..]);
    if |s[c]| == 1 && f[c].Some? then Ending([], f[c])
    else MergeUntilFailure(s[c := s[c][1..]], b, f)
  }

  /** Up to its end the run is the merge without failures. */
  lemma {:induction false} EmitsPrefix(s: Streams, b: Bounds, f: Failures)
    requires |s| == |b| == |f|
    ensures var r := MergeUntilFailure(s, b, f);
            r.emitted <= LazyMerge(s, b) && (r.failure.None? ==> r.emitted == LazyMerge(s, b))
    decreases Total(s), Unresolved(b)
  {
    match Next(s, b)
    case None =>
    case Some(c) =>
      if b[c].Some? {
        UnresolvedUpdate(b, c);
        EmitsPrefix(s, b[c := None], f);
      } else {
        TotalUpdate(s, c, s[c][1..]);
        EmitsPrefix(s[c := s[c][1..]], b, f);
      }
  }

  /** No stream has been read past its last record and failed. */
  ghost predicate Unfailed(s: Streams, b: Bounds, f: Failures)
    requires |s| == |b| == |f|
  {
    forall i :: 0 <= i < |s| && b[i].None? && s[i] == [] ==> f[i].None?
  }

  /** The run ends in a failure exactly when some stream fails. */
  lemma {:induction false} EndsWellIff(s: Streams, b: Bounds, f: Failures)
    requires |s| == |b| == |f| && Unfailed(s, b, f)
    ensures MergeUntilFailure(s, b, f).failure.None? <==> NoFailures(f)
    decreases Total(s), Unresolved(b)
  {
    NextIsArgMin(s, b);
    match Next(s, b)
    case None =>
      forall i | 0 <= i < |s| ensures f[i].None? {
        assert Key(s, b, i).None?;
      }
    case Some(c) =>
      if b[c].Some? {
        if s[c] != [] || f[c].None? {
          UnresolvedUpdate(b, c);
          EndsWellIff(s, b[c := None], f);
        }
      } else if |s[c]| != 1 || f[c].None? {
        TotalUpdate(s, c, s[c][1..]);
        EndsWellIff(s[c := s[c][1..]], b, f);
      }
  }

  /** Stream `i` fails with `e`, and everything that it holds has been emitted before. */
  ghost predicate FailsAtEnd(s: Streams, f: Failures, emitted: seq<Emission>, e: Error, i: nat) {
    i < |s| && i < |f| && f[i] == Some(e) && Project(emitted, i) == s[i]
  }

  lemma ProjectEmit(e: Emission, es: seq<Emission>, i: nat)
    ensures Project([e] + es, i) == (if e.stream == i then [e.record] else []) + Project(es, i)
  {
    assert ([e] + es)[1..] == es;
  }

  /** The failure that ends a run is that of a stream whose records have all been emitted. */
  lemma {:induction false} FailureIsOfStream(s: Streams, b: Bounds, f: Failures) returns (i: nat)
    requires |s| == |b| == |f| && MergeUntilFailure(s, b, f).failure.Some?
    ensures var r := MergeUntilFailure(s, b, f); FailsAtEnd(s, f, r.emitted, r.failure.value, i)
    decreases Total(s), Unresolved(b)
  {
    var c := Next(s, b).value;
    if b[c].Some? {
      if s[c] == [] && f[c].Some? {
        return c;
      }
      UnresolvedUpdate(b, c);
      i := FailureIsOfStream(s, b[c := None], f);
    } else {
      var e, rest := Emission(c, s[c][0]), AfterServed(s, b, f, c).emitted;
      if |s[c]| == 1 && f[c].Some? {
        i := c;
      } else {
        TotalUpdate(s, c, s[c][1..]);
        i := FailureIsOfStream(s[c := s[c][1..]], b, f);
      }
      ProjectEmit(e, rest, i);
    }
  }

  /** A merge that is cut after the last record of a stream that fails. */
  function Cut(es: seq<Emission>, s: Streams, f: Failures): Ending
    requires |s| == |f|
  {
    if es == [] || es[0].stream >= |s| || s[es[0].stream] == [] then Ending([], None)
    else
      var c := es[0].stream;
      Emit(es[0], if |s[c]| == 1 && f[c].Some? then Ending([], f[c])
                  else Cut(es[1..], s[c := s[c][1..]], f))
  }

  /** Every stream that fails holds a record. */
  ghost predicate FailLate(s: Streams, b: Bounds, f: Failures)
    requires |s| == |b| == |f|
  {
    forall i :: 0 <= i < |s| && b[i].Some? && s[i] == [] ==> f[i].None?
  }

  /** When every unread stream that fails holds a record, the first failure is met right after the
      last record of the first failing stream to be emptied, whatever the hints. */
  lemma {:induction false} FailsWhenEmptied(s: Streams, b: Bounds, f: Failures)
    requires |s| == |b| == |f| && FailLate(s, b, f)
    ensures MergeUntilFailure(s, b, f) == Cut(LazyMerge(s, b), s, f)
    decreases Total(s), Unresolved(b)
  {
    match Next(s, b)
    case None =>
    case Some(c) =>
      if b[c].Some? {
        UnresolvedUpdate(b, c);
        FailsWhenEmptied(s, b[c := None], f);
      } else {
        var s' := s[c := s[c][1..]];
        TotalUpdate(s, c, s[c][1..]);
        assert LazyMerge(s, b)[1..] == LazyMerge(s', b);
        if |s[c]| != 1 || f[c].None? {
          FailsWhenEmptied(s', b, f);
        }
      }
  }

  /** So valid hints change neither what is emitted before a failure nor the failure. */
  lemma HintedFailsLikeEager(s: Streams, b: Bounds, f: Failures)
    requires |s| == |b| == |f| && ValidBounds(s, b) && FailLate(s, b, f)
    ensures MergeUntilFailure(s, b, f) == MergeUntilFailure(s, NoBounds(|s|), f)
  {
    FailsWhenEmptied(s, b, f);
    FailsWhenEmptied(s, NoBounds(|s|), f);
    HintedEqualsEager(s, b);
  }
}
