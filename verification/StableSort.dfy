/** A stable sort of records by timestamp, and the theorem that merging sorted streams computes
    the stable sort of their concatenation. */
module StableSort {
  import opened Common
  import opened KMerge

  ghost predicate SortedByTs(rs: seq<Record>) {
    forall i, j :: 0 <= i < j < |rs| ==> rs[i].indexTs <= rs[j].indexTs
  }

  ghost predicate AllSorted(s: Streams) {
    forall i :: 0 <= i < |s| ==> SortedByTs(s[i])
  }

  /** The streams one after the other, in decoder order. */
  function Concat(s: Streams): seq<Record> {
    if s == [] then [] else s[0] + Concat(s[1..])
  }

  /** The records with timestamp `t`, in order. */
  function At(rs: seq<Record>, t: U64): seq<Record> {
    if rs == [] then []
    else (if rs[0].indexTs == t then [rs[0]] else []) + At(rs[1..], t)
  }

  /** Puts `r` before the first record that is not earlier than it. */
  function Insert(r: Record, rs: seq<Record>): seq<Record> {
    if rs == [] || r.indexTs <= rs[0].indexTs then [r] + rs
    else [rs[0]] + Insert(r, rs[1..])
  }

  function Sort(rs: seq<Record>): seq<Record> {
    if rs == [] then [] else Insert(rs[0], Sort(rs[1..]))
  }

  lemma {:induction false} AtConcat(a: seq<Record>, b: seq<Record>, t: U64)
    ensures At(a + b, t) == At(a, t) + At(b, t)
  {
    if a == [] {
      assert a + b == b;
    } else {
      AtConcat(a[1..], b, t);
      assert (a + b)[0] == a[0] && (a + b)[1..] == a[1..] + b;
      var head := if a[0].indexTs == t then [a[0]] else [];
      assert At(a + b, t) == head + At(a[1..] + b, t) && At(a, t) == head + At(a[1..], t);
      hide At;
      Regroup(head, At(a[1..], t), At(b, t));
    }
  }

  lemma {:induction false} AtMembers(rs: seq<Record>, t: U64, r: Record)
    ensures r in At(rs, t) <==> r in rs && r.indexTs == t
  {
    if rs != [] {
      AtMembers(rs[1..], t, r);
      assert r in rs <==> r == rs[0] || r in rs[1..];
    }
  }

  lemma {:induction false} AtAbsent(rs: seq<Record>, t: U64)
    requires forall r :: r in rs ==> r.indexTs != t
    ensures At(rs, t) == []
  {
    if rs != [] {
      AtAbsent(rs[1..], t);
    }
  }

  lemma SortedCons(x: Record, xs: seq<Record>)
    requires SortedByTs(xs) && forall y :: y in xs ==> x.indexTs <= y.indexTs
    ensures SortedByTs([x] + xs)
  {
  }

  lemma {:induction false} InsertKeeps(r: Record, rs: seq<Record>)
    ensures multiset(Insert(r, rs)) == multiset(rs) + multiset{r}
  {
    if rs != [] && rs[0].indexTs < r.indexTs {
      InsertKeeps(r, rs[1..]);
      assert rs == [rs[0]] + rs[1..];
    }
  }

  lemma InsertMembers(r: Record, rs: seq<Record>, x: Record)
    ensures x in Insert(r, rs) <==> x == r || x in rs
  {
    InsertKeeps(r, rs);
    assert x in multiset(Insert(r, rs)) <==> x in multiset(rs) + multiset{r};
  }

  lemma {:induction false} InsertSorts(r: Record, rs: seq<Record>)
    requires SortedByTs(rs)
    ensures SortedByTs(Insert(r, rs))
  {
    if rs == [] || r.indexTs <= rs[0].indexTs {
      SortedCons(r, rs);
    } else {
      InsertSorts(r, rs[1..]);
      var tail := Insert(r, rs[1..]);
      forall y | y in tail ensures rs[0].indexTs <= y.indexTs {
        InsertMembers(r, rs[1..], y);
      }
      SortedCons(rs[0], tail);
    }
  }

  lemma {:induction false} InsertIsStable(r: Record, rs: seq<Record>, t: U64)
    ensures At(Insert(r, rs), t) == At([r], t) + At(rs, t)
  {
    if rs == [] || r.indexTs <= rs[0].indexTs {
      assert ([r] + rs)[1..] == rs;
    } else {
      InsertIsStable(r, rs[1..], t);
      assert Insert(r, rs)[1..] == Insert(r, rs[1..]);
    }
  }

  lemma {:induction false} SortSorts(rs: seq<Record>)
    ensures SortedByTs(Sort(rs))
    ensures multiset(Sort(rs)) == multiset(rs)
  {
    if rs != [] {
      SortSorts(rs[1..]);
      InsertSorts(rs[0], Sort(rs[1..]));
      InsertKeeps(rs[0], Sort(rs[1..]));
      assert rs == [rs[0]] + rs[1..];
    }
  }

  /** Records with equal timestamps keep their order. */
  lemma {:induction false} SortIsStable(rs: seq<Record>, t: U64)
    ensures At(Sort(rs), t) == At(rs, t)
  {
    if rs != [] {
      SortIsStable(rs[1..], t);
      InsertIsStable(rs[0], Sort(rs[1..]), t);
      AtConcat([rs[0]], rs[1..], t);
      assert rs == [rs[0]] + rs[1..];
    }
  }

  ghost predicate SameAt(xs: seq<Record>, ys: seq<Record>) {
    forall t :: At(xs, t) == At(ys, t)
  }

  lemma SameHeads(xs: seq<Record>, ys: seq<Record>)
    requires SortedByTs(xs) && SortedByTs(ys) && SameAt(xs, ys) && xs != []
    ensures ys != [] && xs[0] == ys[0]
  {
    var t := xs[0].indexTs;
    assert xs[0] in At(ys, t);
    AtMembers(ys, t, xs[0]);
    var u := ys[0].indexTs;
    assert ys[0] in At(xs, u);
    AtMembers(xs, u, ys[0]);
    assert ys[0].indexTs == t;
    assert xs[0] == At(xs, t)[0] == At(ys, t)[0] == ys[0];
  }

  lemma SameTails(x: Record, xs: seq<Record>, ys: seq<Record>)
    requires SameAt([x] + xs, [x] + ys)
    ensures SameAt(xs, ys)
  {
    forall t ensures At(xs, t) == At(ys, t) {
      AtConcat([x], xs, t);
      AtConcat([x], ys, t);
      var head := At([x], t);
      assert At([x] + xs, t) == At([x] + ys, t);
      assert (head + At(xs, t))[|head|..] == At(xs, t) && (head + At(ys, t))[|head|..] == At(ys, t);
    }
  }

  /** Being sorted and stable determines a sequence. */
  lemma {:induction false} StableIsUnique(xs: seq<Record>, ys: seq<Record>)
    requires SortedByTs(xs) && SortedByTs(ys) && SameAt(xs, ys)
    ensures xs == ys
  {
    if xs != [] {
      SameHeads(xs, ys);
      assert xs == [xs[0]] + xs[1..] && ys == [ys[0]] + ys[1..];
      SameTails(xs[0], xs[1..], ys[1..]);
      StableIsUnique(xs[1..], ys[1..]);
    } else if ys != [] {
      SameHeads(ys, xs);
    }
  }

  ghost predicate NoneBefore(s: Streams, t: U64) {
    forall i, r :: 0 <= i < |s| && r in s[i] ==> t <= r.indexTs
  }

  lemma {:induction false} EagerStep(s: Streams)
    ensures Next(s, NoBounds(|s|)).None? ==> EagerMerge(s) == [] && forall i :: 0 <= i < |s| ==> s[i] == []
    ensures Next(s, NoBounds(|s|)).Some? ==>
              var c := Next(s, NoBounds(|s|)).value;
              && s[c] != []
              && EagerMerge(s) == [Emission(c, s[c][0])] + EagerMerge(s[c := s[c][1..]])
              && Total(s[c := s[c][1..]]) == Total(s) - 1
  {
    NextIsArgMin(s, NoBounds(|s|));
    match Next(s, NoBounds(|s|))
    case None =>
      forall i | 0 <= i < |s| ensures s[i] == [] {
        assert Key(s, NoBounds(|s|), i).None?;
      }
    case Some(c) =>
      assert Key(s, NoBounds(|s|), c).Some?;
      TotalUpdate(s, c, s[c][1..]);
  }

  lemma {:induction false} EagerLowerBound(s: Streams, t: U64)
    requires NoneBefore(s, t)
    ensures forall r :: r in Records(EagerMerge(s)) ==> t <= r.indexTs
    decreases Total(s)
  {
    EagerStep(s);
    if Next(s, NoBounds(|s|)).Some? {
      var c := Next(s, NoBounds(|s|)).value;
      var s' := s[c := s[c][1..]];
      EagerLowerBound(s', t);
      assert Records(EagerMerge(s)) == [s[c][0]] + Records(EagerMerge(s')) by {
        assert EagerMerge(s)[1..] == EagerMerge(s');
      }
    }
  }

  /** In sorted streams the record that is served is the earliest left. */
  lemma ServedIsEarliest(s: Streams, c: nat)
    requires AllSorted(s) && Next(s, NoBounds(|s|)) == Some(c) && s[c] != []
    ensures NoneBefore(s, s[c][0].indexTs)
    ensures forall j, r :: 0 <= j < c && r in s[j] ==> s[c][0].indexTs < r.indexTs
  {
    var b := NoBounds(|s|);
    NextIsArgMin(s, b);
    forall j, r | 0 <= j < |s| && r in s[j]
      ensures s[c][0].indexTs <= r.indexTs
      ensures j < c ==> s[c][0].indexTs < r.indexTs
    {
      assert Key(s, b, j).Some? && Key(s, b, c).Some?;
      assert s[j][0].indexTs <= r.indexTs;
    }
  }

  /** Dropping the first record of stream `c` drops it from the concatenation too; for its
      timestamp that is the first such record when no earlier stream has one. */
  lemma {:induction false} AtConcatDrop(s: Streams, c: nat, t: U64)
    requires c < |s| && s[c] != []
    requires s[c][0].indexTs == t ==> forall j, r :: 0 <= j < c && r in s[j] ==> r.indexTs != t
    ensures At(Concat(s), t) == At([s[c][0]], t) + At(Concat(s[c := s[c][1..]]), t)
    decreases |s|, 1
  {
    var s' := s[c := s[c][1..]];
    AtConcat(s[0], Concat(s[1..]), t);
    AtConcat(s'[0], Concat(s'[1..]), t);
    if c == 0 {
      assert s'[1..] == s[1..];
      assert s[0] == [s[0][0]] + s[0][1..];
      AtConcat([s[0][0]], s[0][1..], t);
    } else {
      AtConcatDropLater(s, c, t);
    }
  }

  lemma {:induction false} AtConcatDropLater(s: Streams, c: nat, t: U64)
    requires 0 < c < |s| && s[c] != []
    requires s[c][0].indexTs == t ==> forall j, r :: 0 <= j < c && r in s[j] ==> r.indexTs != t
    ensures At(Concat(s), t) == At([s[c][0]], t) + At(Concat(s[c := s[c][1..]]), t)
    decreases |s|, 0
  {
    var s' := s[c := s[c][1..]];
    var first, rest, rest' := At(s[0], t), At(Concat(s[1..]), t), At(Concat(s'[1..]), t);
    AtConcat(s[0], Concat(s[1..]), t);
    AtConcat(s[0], Concat(s'[1..]), t);
    assert s'[1..] == s[1..][c - 1 := s[1..][c - 1][1..]];
    forall j, r | 0 <= j < c - 1 && r in s[1..][j] ensures s[c][0].indexTs == t ==> r.indexTs != t {
      assert s[1..][j] == s[j + 1];
    }
    AtConcatDrop(s[1..], c - 1, t);
    assert rest == At([s[c][0]], t) + rest';
    if s[c][0].indexTs == t {
      AtAbsent(s[0], t);
    }
  }

  lemma EagerRecords(s: Streams, c: nat)
    requires Next(s, NoBounds(|s|)) == Some(c)
    ensures s[c] != []
    ensures Records(EagerMerge(s)) == [s[c][0]] + Records(EagerMerge(s[c := s[c][1..]]))
    ensures Total(s[c := s[c][1..]]) == Total(s) - 1
  {
    EagerStep(s);
    assert EagerMerge(s)[1..] == EagerMerge(s[c := s[c][1..]]);
  }

  lemma {:induction false} EagerMergeSorts(s: Streams)
    requires AllSorted(s)
    ensures SortedByTs(Records(EagerMerge(s)))
    decreases Total(s)
  {
    EagerStep(s);
    if Next(s, NoBounds(|s|)).Some? {
      var c := Next(s, NoBounds(|s|)).value;
      var s' := s[c := s[c][1..]];
      EagerRecords(s, c);
      EagerMergeSorts(s');
      ServedIsEarliest(s, c);
      EagerLowerBound(s', s[c][0].indexTs);
      var tail := Records(EagerMerge(s'));
      assert forall k :: 0 <= k < |tail| ==> tail[k] in tail;
    }
  }

  lemma {:induction false} EagerMergeIsStable(s: Streams, t: U64)
    requires AllSorted(s)
    ensures At(Records(EagerMerge(s)), t) == At(Concat(s), t)
    decreases Total(s)
  {
    EagerStep(s);
    match Next(s, NoBounds(|s|))
    case None =>
      ConcatEmpty(s);
    case Some(c) =>
      EagerRecords(s, c);
      EagerMergeIsStable(s[c := s[c][1..]], t);
      ServedIsEarliest(s, c);
      AtConcat([s[c][0]], Records(EagerMerge(s[c := s[c][1..]])), t);
      AtConcatDrop(s, c, t);
  }

  lemma {:induction false} ConcatEmpty(s: Streams)
    requires forall i :: 0 <= i < |s| ==> s[i] == []
    ensures Concat(s) == []
  {
    if s != [] {
      ConcatEmpty(s[1..]);
    }
  }

  /** Merging sorted streams is a stable sort of their concatenation, under any valid hints:
      ties go to the lower stream index, then to the position in the stream. */
  lemma {:induction false} MergeIsStableSort(s: Streams, b: Bounds)
    requires |s| == |b| && ValidBounds(s, b) && AllSorted(s)
    ensures Records(LazyMerge(s, b)) == Sort(Concat(s))
  {
    HintedEqualsEager(s, b);
    var out := Records(EagerMerge(s));
    forall t ensures At(out, t) == At(Sort(Concat(s)), t) {
      EagerMergeIsStable(s, t);
      SortIsStable(Concat(s), t);
    }
    EagerMergeSorts(s);
    SortSorts(Concat(s));
    StableIsUnique(out, Sort(Concat(s)));
  }
}
