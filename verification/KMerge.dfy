/** Reference model of the k-way merge: what it emits, as a function of the records still to
    come from every stream and of the streams whose next timestamp is only known as a bound. */
module KMerge {
  import opened Common

  /** A record as the merge and the filters see it: the raw index timestamp, the record-type
      code of its header, and everything else. */
  datatype Record = Record(indexTs: U64, rtype: U8, payload: seq<U8>)

  /** A record together with the stream that it came from. */
  datatype Emission = Emission(stream: nat, record: Record)

  type Streams = seq<seq<Record>>

  /** `Some(hint)` for a stream that has not been read yet. */
  type Bounds = seq<Option<U64>>

  function Records(es: seq<Emission>): (rs: seq<Record>)
    ensures |rs| == |es|
    ensures forall k :: 0 <= k < |es| ==> rs[k] == es[k].record
  {
    if es == [] then [] else [es[0].record] + Records(es[1..])
  }

  /** The records of `es` that came from stream `i`, in order. */
  function Project(es: seq<Emission>, i: nat): seq<Record> {
    if es == [] then []
    else (if es[0].stream == i then [es[0].record] else []) + Project(es[1..], i)
  }

  /** Every record of every stream exactly once, each stream's own order kept. */
  ghost predicate IsInterleaving(es: seq<Emission>, s: Streams) {
    && (forall k :: 0 <= k < |es| ==> es[k].stream < |s|)
    && (forall i :: 0 <= i < |s| ==> Project(es, i) == s[i])
  }

  function Total(s: Streams): nat {
    if s == [] then 0 else |s[0]| + Total(s[1..])
  }

  function Unresolved(b: Bounds): nat {
    if b == [] then 0 else (if b[0].Some? then 1 else 0) + Unresolved(b[1..])
  }

  lemma {:induction false} TotalUpdate(s: Streams, i: nat, rs: seq<Record>)
    requires i < |s|
    ensures Total(s[i := rs]) == Total(s) - |s[i]| + |rs|
  {
    if i == 0 {
      assert s[i := rs][1..] == s[1..];
    } else {
      assert s[i := rs][1..] == s[1..][i - 1 := rs];
      TotalUpdate(s[1..], i - 1, rs);
    }
  }

  lemma {:induction false} UnresolvedUpdate(b: Bounds, i: nat)
    requires i < |b| && b[i].Some?
    ensures Unresolved(b[i := None]) == Unresolved(b) - 1
  {
    if i == 0 {
      assert b[i := None][1..] == b[1..];
    } else {
      assert b[i := None][1..] == b[1..][i - 1 := None];
      UnresolvedUpdate(b[1..], i - 1);
    }
  }

  /** The key by which stream `i` competes: its hint while unread, then its next record's
      timestamp; none once it is exhausted. */
  function Key(s: Streams, b: Bounds, i: nat): Option<U64>
    requires |s| == |b| && i < |s|
  {
    if b[i].Some? then b[i]
    else if s[i] == [] then None
    else Some(s[i][0].indexTs)
  }

  /** Stream `c` holds the smallest key, ties going to the lower index. */
  ghost predicate IsArgMin(s: Streams, b: Bounds, c: nat)
    requires |s| == |b|
  {
    && c < |s|
    && Key(s, b, c).Some?
    && (forall j :: 0 <= j < c && Key(s, b, j).Some? ==> Key(s, b, c).value < Key(s, b, j).value)
    && (forall j :: c <= j < |s| && Key(s, b, j).Some? ==> Key(s, b, c).value <= Key(s, b, j).value)
  }

  /** The first stream with the smallest key among the first `n`. */
  function ArgMin(s: Streams, b: Bounds, n: nat): (r: Option<nat>)
    requires |s| == |b| && n <= |s|
    ensures r.Some? ==> r.value < n && Key(s, b, r.value).Some?
  {
    if n == 0 then None
    else
      var r := ArgMin(s, b, n - 1);
      var key := Key(s, b, n - 1);
      if key.None? then r
      else if r.None? || key.value < Key(s, b, r.value).value then Some(n - 1)
      else r
  }

  function Next(s: Streams, b: Bounds): (r: Option<nat>)
    requires |s| == |b|
    ensures r.Some? ==> r.value < |s| && Key(s, b, r.value).Some?
  {
    ArgMin(s, b, |s|)
  }

  lemma {:induction false} ArgMinIsLeast(s: Streams, b: Bounds, n: nat)
    requires |s| == |b| && n <= |s|
    ensures ArgMin(s, b, n).None? <==> forall j :: 0 <= j < n ==> Key(s, b, j).None?
    ensures ArgMin(s, b, n).Some? ==>
              var c := ArgMin(s, b, n).value;
              forall j :: 0 <= j < n && Key(s, b, j).Some? ==>
                if j < c then Key(s, b, c).value < Key(s, b, j).value
                else Key(s, b, c).value <= Key(s, b, j).value
  {
    if n > 0 {
      ArgMinIsLeast(s, b, n - 1);
    }
  }

  lemma NextIsArgMin(s: Streams, b: Bounds)
    requires |s| == |b|
    ensures Next(s, b).None? <==> forall j :: 0 <= j < |s| ==> Key(s, b, j).None?
    ensures Next(s, b).Some? ==> IsArgMin(s, b, Next(s, b).value)
  {
    ArgMinIsLeast(s, b, |s|);
  }

  /** A stream with the smallest key is the one that is served. */
  lemma NextIsUnique(s: Streams, b: Bounds, c: nat)
    requires |s| == |b| && IsArgMin(s, b, c)
    ensures Next(s, b) == Some(c)
  {
    NextIsArgMin(s, b);
    assert Key(s, b, c).Some?;
  }

  /** What the lazy merge emits. An unread stream that reaches the top is read, which turns its
      hint into a timestamp; a stream already read gives up its next record. */
  function LazyMerge(s: Streams, b: Bounds): seq<Emission>
    requires |s| == |b|
    decreases Total(s), Unresolved(b)
  {
    match Next(s, b)
    case None => []
    case Some(c) =>
      if b[c].Some? then
        UnresolvedUpdate(b, c);
        LazyMerge(s, b[c := None])
      else
        TotalUpdate(s, c, s[c][1..]);
        [Emission(c, s[c][0])] + LazyMerge(s[c := s[c][1..]], b)
  }

  function NoBounds(n: nat): Bounds {
    seq(n, _ => None)
  }

  /** The merge when every stream's first record is read up front. */
  function EagerMerge(s: Streams): seq<Emission> {
    LazyMerge(s, NoBounds(|s|))
  }

  /** Each hint is at most the timestamp of the stream's first record. */
  ghost predicate ValidBounds(s: Streams, b: Bounds)
    requires |s| == |b|
  {
    forall i :: 0 <= i < |s| && b[i].Some? && s[i] != [] ==> b[i].value <= s[i][0].indexTs
  }

  /** Resolving one valid hint anywhere changes nothing in the output. */
  lemma {:induction false} ResolveAny(s: Streams, b: Bounds, i: nat)
    requires |s| == |b| && ValidBounds(s, b) && i < |s|
    ensures LazyMerge(s, b) == LazyMerge(s, b[i := None])
    decreases Total(s), Unresolved(b)
  {
    var b' := b[i := None];
    if b[i].None? {
      assert b' == b;
      return;
    }
    NextIsArgMin(s, b);
    assert Key(s, b, i).Some?;
    var c := Next(s, b).value;
    if c == i { return; }
    assert Key(s, b, c) == Key(s, b', c);
    forall j | 0 <= j < |s| && Key(s, b', j).Some?
      ensures Key(s, b, j).Some? && Key(s, b, j).value <= Key(s, b', j).value
    {
    }
    NextIsUnique(s, b', c);
    if b[c].Some? {
      UnresolvedUpdate(b, c);
      ResolveAny(s, b[c := None], i);
      assert b[c := None][i := None] == b'[c := None];
    } else {
      TotalUpdate(s, c, s[c][1..]);
      ResolveAny(s[c := s[c][1..]], b, i);
    }
  }

  /** Hinted equals eager, for any streams, sorted or not, and ties included. */
  lemma {:induction false} HintedEqualsEager(s: Streams, b: Bounds)
    requires |s| == |b| && ValidBounds(s, b)
    ensures LazyMerge(s, b) == EagerMerge(s)
    decreases Unresolved(b)
  {
    if i :| 0 <= i < |b| && b[i].Some? {
      UnresolvedUpdate(b, i);
      ResolveAny(s, b, i);
      HintedEqualsEager(s, b[i := None]);
    } else {
      assert b == NoBounds(|s|);
    }
  }

  /** Serving a record in front of an interleaving of what is left. */
  lemma ServeInFront(s: Streams, c: nat, rest: seq<Emission>)
    requires c < |s| && s[c] != [] && IsInterleaving(rest, s[c := s[c][1..]])
    ensures IsInterleaving([Emission(c, s[c][0])] + rest, s)
  {
    var s', out := s[c := s[c][1..]], [Emission(c, s[c][0])] + rest;
    assert out[1..] == rest;
    forall i | 0 <= i < |s| ensures Project(out, i) == s[i] {
      assert Project(rest, i) == s'[i];
    }
  }

  /** Whatever the hints and the order inside the streams, the output is an interleaving. */
  lemma {:induction false} LazyMergeIsInterleaving(s: Streams, b: Bounds)
    requires |s| == |b|
    ensures IsInterleaving(LazyMerge(s, b), s)
    decreases Total(s), Unresolved(b)
  {
    NextIsArgMin(s, b);
    match Next(s, b)
    case None =>
      forall i | 0 <= i < |s| ensures s[i] == [] {
        assert Key(s, b, i).None?;
      }
    case Some(c) =>
      if b[c].Some? {
        UnresolvedUpdate(b, c);
        LazyMergeIsInterleaving(s, b[c := None]);
      } else {
        var s' := s[c := s[c][1..]];
        TotalUpdate(s, c, s[c][1..]);
        LazyMergeIsInterleaving(s', b);
        ServeInFront(s, c, LazyMerge(s', b));
      }
  }

  lemma {:induction false} ProjectAppend(a: seq<Emission>, b: seq<Emission>, i: nat)
    ensures Project(a + b, i) == Project(a, i) + Project(b, i)
  {
    if a == [] {
      assert a + b == b;
    } else {
      ProjectAppend(a[1..], b, i);
      assert (a + b)[0] == a[0] && (a + b)[1..] == a[1..] + b;
      var head := if a[0].stream == i then [a[0].record] else [];
      assert Project(a + b, i) == head + Project(a[1..] + b, i) && Project(a, i) == head + Project(a[1..], i);
      hide Project;
      Regroup(head, Project(a[1..], i), Project(b, i));
    }
  }

  /** At every point of a run each stream has been emitted up to some record, in its own order,
      and the rest of it, in its own order, is still to come. */
  lemma {:induction false} RunPrefix(s: Streams, b: Bounds, trace: seq<Emission>, pending: seq<Emission>, i: nat)
    requires |s| == |b| && trace + pending == LazyMerge(s, b) && i < |s|
    ensures Project(trace, i) + Project(pending, i) == s[i]
    ensures pending == [] ==> Project(trace, i) == s[i]
  {
    LazyMergeIsInterleaving(s, b);
    ProjectAppend(trace, pending, i);
  }

  /** The first records of two streams that are unread, whose hints tie. */
  lemma TiedHints(other: Record, first: seq<Record>, hint: U64)
    requires other.indexTs == hint
    ensures var out := LazyMerge([[other], first], [Some(hint), Some(hint)]);
            out != [] && out[0] == Emission(0, other)
  {
    var s: Streams, b: Bounds := [[other], first], [Some(hint), Some(hint)];
    NextIsUnique(s, b, 0);
    NextIsUnique(s, b[0 := None], 0);
  }

  lemma EarlierSecond(other: Record, first: seq<Record>)
    requires first != [] && first[0].indexTs < other.indexTs
    ensures var out := EagerMerge([[other], first]); out != [] && out[0] == Emission(1, first[0])
  {
    var s: Streams := [[other], first];
    var none := NoBounds(2);
    assert none[0].None? && none[1].None?;
    NextIsUnique(s, none, 1);
  }

  /** Whatever stream with a valid hint comes before it, a stream with this hint is merged as if it
      had been read up front. */
  ghost predicate HintIsSafe(first: seq<Record>, hint: U64) {
    forall other, h :: ValidBounds([other], [Some(h)]) ==>
      LazyMerge([other, first], [Some(h), Some(hint)]) == EagerMerge([other, first])
  }

  /** A hint is safe exactly when it is not later than the first record. */
  lemma HintIsSafeIff(first: seq<Record>, hint: U64)
    ensures HintIsSafe(first, hint) <==> first == [] || hint <= first[0].indexTs
  {
    if first == [] || hint <= first[0].indexTs {
      forall other, h | ValidBounds([other], [Some(h)])
        ensures LazyMerge([other, first], [Some(h), Some(hint)]) == EagerMerge([other, first])
      {
        assert [other][0] == other && [Some(h)][0] == Some(h);
        HintedEqualsEager([other, first], [Some(h), Some(hint)]);
      }
    } else {
      var other := Record(hint, 0, []);
      assert ValidBounds([[other]], [Some(hint)]);
      TiedHints(other, first, hint);
      EarlierSecond(other, first);
    }
  }
}
