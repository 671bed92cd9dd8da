/** Merging two lists of dated symbol intervals with two cursors. */
module IntervalMerge {
  import opened Common
  import opened MetadataTypes

  datatype IntervalOrdering = Less | Overlap | Equal | Greater

  function Ordering(a: Interval, b: Interval): Result<IntervalOrdering> {
    if a.startDate == b.startDate && a.endDate == b.endDate then
      if a.symbol == b.symbol then Ok(Equal) else Err(BadArgument("mappings"))
    else if a.endDate <= b.startDate then Ok(Less)
    else if a.startDate >= b.endDate then Ok(Greater)
    else if a.symbol == b.symbol then Ok(Overlap)
    else Err(BadArgument("mappings"))
  }

  function MergeTwo(a: Interval, b: Interval): Interval {
    MappingInterval(
      if a.startDate <= b.startDate then a.startDate else b.startDate,
      if a.endDate >= b.endDate then a.endDate else b.endDate,
      a.symbol)
  }

  /** `first` in front of a merge that may have failed. */
  function Prepend(first: seq<Interval>, r: Result<seq<Interval>>): Result<seq<Interval>> {
    if r.Ok? then Ok(first + r.value) else r
  }

  /** What merging the two lists from their heads gives. */
  function Merged(xs: seq<Interval>, ys: seq<Interval>): Result<seq<Interval>> {
    if xs == [] then Ok(ys)
    else if ys == [] then Ok(xs)
    else
      var order :- Ordering(xs[0], ys[0]);
      match order
      case Less => Prepend([xs[0]], Merged(xs[1..], ys))
      case Greater => Prepend([ys[0]], Merged(xs, ys[1..]))
      case Overlap => Prepend([MergeTwo(xs[0], ys[0])], Merged(xs[1..], ys[1..]))
      case Equal => Prepend([xs[0]], Merged(xs[1..], ys[1..]))
  }

  lemma PrependAppends(first: seq<Interval>, x: Interval, r: Result<seq<Interval>>)
    ensures Prepend(first, Prepend([x], r)) == Prepend(first + [x], r)
  {
    if r.Ok? {
      assert first + ([x] + r.value) == first + [x] + r.value;
    }
  }

  method MergeIntervals(orig: seq<Interval>, add: seq<Interval>) returns (r: Result<seq<Interval>>)
    ensures r == Merged(orig, add)
  {
    var merged := [];
    var i, j := 0, 0;
    assert orig[0..] == orig && add[0..] == add;
    assert Merged(orig, add).Ok? ==> [] + Merged(orig, add).value == Merged(orig, add).value;
    while i < |orig| || j < |add|
      invariant 0 <= i <= |orig| && 0 <= j <= |add|
      invariant Merged(orig, add) == Prepend(merged, Merged(orig[i..], add[j..]))
      decreases |orig| - i + |add| - j
    {
      ghost var rest := Merged(orig[i..], add[j..]);
      assert i < |orig| ==> orig[i..][1..] == orig[i + 1..] && orig[i..] == [orig[i]] + orig[i + 1..];
      assert j < |add| ==> add[j..][1..] == add[j + 1..] && add[j..] == [add[j]] + add[j + 1..];
      var next;
      if i < |orig| && j < |add| {
        var order := Ordering(orig[i], add[j]);
        if order.Err? {
          return Err(order.error);
        }
        match order.value {
          case Less =>
            next := orig[i];
            i := i + 1;
          case Greater =>
            next := add[j];
            j := j + 1;
          case Overlap =>
            next := MergeTwo(orig[i], add[j]);
            i, j := i + 1, j + 1;
          case Equal =>
            next := orig[i];
            i, j := i + 1, j + 1;
        }
      } else if i < |orig| {
        next := orig[i];
        i := i + 1;
      } else {
        next := add[j];
        j := j + 1;
      }
      assert rest == Prepend([next], Merged(orig[i..], add[j..]));
      PrependAppends(merged, next, Merged(orig[i..], add[j..]));
      merged := merged + [next];
    }
    assert merged + [] == merged;
    r := Ok(merged);
  }

  // ---------- the relation from dates to symbols ----------

  ghost predicate Holds(x: Interval, d: int, sym: string) {
    x.startDate <= d < x.endDate && x.symbol == sym
  }

  /** On day `d` the list maps to `sym`. */
  ghost predicate Covers(xs: seq<Interval>, d: int, sym: string) {
    exists i :: 0 <= i < |xs| && Holds(xs[i], d, sym)
  }

  ghost predicate Ordered(xs: seq<Interval>) {
    forall i :: 0 <= i < |xs| ==> xs[i].startDate <= xs[i].endDate
  }

  ghost predicate NonEmpty(xs: seq<Interval>) {
    forall i :: 0 <= i < |xs| ==> xs[i].startDate < xs[i].endDate
  }

  lemma CoversCons(x: Interval, xs: seq<Interval>, d: int, sym: string)
    ensures Covers([x] + xs, d, sym) <==> Holds(x, d, sym) || Covers(xs, d, sym)
  {
    var all := [x] + xs;
    assert all[0] == x;
    assert forall i :: 0 <= i < |xs| ==> all[i + 1] == xs[i];
  }

  /** A successful merge covers exactly what the two lists cover; no sortedness is needed. */
  lemma {:induction false} CoverageIsUnion(xs: seq<Interval>, ys: seq<Interval>, d: int, sym: string)
    requires Ordered(xs) && Ordered(ys) && Merged(xs, ys).Ok?
    ensures Covers(Merged(xs, ys).value, d, sym) <==> Covers(xs, d, sym) || Covers(ys, d, sym)
    ensures Ordered(Merged(xs, ys).value)
    decreases |xs| + |ys|
  {
    if xs != [] && ys != [] {
      var x, y := xs[0], ys[0];
      assert xs == [x] + xs[1..] && ys == [y] + ys[1..];
      CoversCons(x, xs[1..], d, sym);
      CoversCons(y, ys[1..], d, sym);
      match Ordering(x, y).value
      case Less =>
        CoverageIsUnion(xs[1..], ys, d, sym);
        CoversCons(x, Merged(xs[1..], ys).value, d, sym);
      case Greater =>
        CoverageIsUnion(xs, ys[1..], d, sym);
        CoversCons(y, Merged(xs, ys[1..]).value, d, sym);
      case Overlap =>
        CoverageIsUnion(xs[1..], ys[1..], d, sym);
        CoversCons(MergeTwo(x, y), Merged(xs[1..], ys[1..]).value, d, sym);
      case Equal =>
        CoverageIsUnion(xs[1..], ys[1..], d, sym);
        CoversCons(x, Merged(xs[1..], ys[1..]).value, d, sym);
    }
  }

  lemma {:induction false} MergedNonEmpty(xs: seq<Interval>, ys: seq<Interval>)
    requires NonEmpty(xs) && NonEmpty(ys) && Merged(xs, ys).Ok?
    ensures NonEmpty(Merged(xs, ys).value)
    decreases |xs| + |ys|
  {
    if xs != [] && ys != [] {
      match Ordering(xs[0], ys[0]).value
      case Less => MergedNonEmpty(xs[1..], ys);
      case Greater => MergedNonEmpty(xs, ys[1..]);
      case Overlap => MergedNonEmpty(xs[1..], ys[1..]);
      case Equal => MergedNonEmpty(xs[1..], ys[1..]);
    }
  }

  /** On one date the two lists map to different symbols. */
  ghost predicate Conflict(xs: seq<Interval>, ys: seq<Interval>) {
    exists d, s1, s2 :: s1 != s2 && Covers(xs, d, s1) && Covers(ys, d, s2)
  }

  /** Only genuine conflicts are reported; no sortedness is needed. */
  lemma ErrorIsConflict(xs: seq<Interval>, ys: seq<Interval>)
    requires NonEmpty(xs) && NonEmpty(ys) && Merged(xs, ys).Err?
    ensures Conflict(xs, ys)
  {
    var i, j := DisagreeingPair(xs, ys);
    DisagreeIsConflict(xs, ys);
  }

  /** Whatever the intervals, there is one error. */
  lemma {:induction false} ErrorBlamesMappings(xs: seq<Interval>, ys: seq<Interval>)
    ensures Merged(xs, ys).Err? ==> Merged(xs, ys).error == BadArgument("mappings")
    decreases |xs| + |ys|
  {
    if xs != [] && ys != [] && Ordering(xs[0], ys[0]).Ok? {
      match Ordering(xs[0], ys[0]).value
      case Less => ErrorBlamesMappings(xs[1..], ys);
      case Greater => ErrorBlamesMappings(xs, ys[1..]);
      case Overlap => ErrorBlamesMappings(xs[1..], ys[1..]);
      case Equal => ErrorBlamesMappings(xs[1..], ys[1..]);
    }
  }

  ghost predicate Overlaps(a: Interval, b: Interval) {
    a.startDate < b.endDate && b.startDate < a.endDate
  }

  /** The two intervals that a failing merge stops at. */
  lemma {:induction false} DisagreeingPair(xs: seq<Interval>, ys: seq<Interval>) returns (i: nat, j: nat)
    requires NonEmpty(xs) && NonEmpty(ys) && Merged(xs, ys).Err?
    ensures i < |xs| && j < |ys| && Overlaps(xs[i], ys[j]) && xs[i].symbol != ys[j].symbol
    decreases |xs| + |ys|
  {
    var order := Ordering(xs[0], ys[0]);
    if order.Err? {
      return 0, 0;
    }
    match order.value
    case Less =>
      i, j := DisagreeingPair(xs[1..], ys);
      i := i + 1;
    case Greater =>
      i, j := DisagreeingPair(xs, ys[1..]);
      j := j + 1;
    case Overlap =>
      i, j := DisagreeingPair(xs[1..], ys[1..]);
      i, j := i + 1, j + 1;
    case Equal =>
      i, j := DisagreeingPair(xs[1..], ys[1..]);
      i, j := i + 1, j + 1;
  }

  // ---------- sorted, disjoint lists ----------

  ghost predicate Disjoint(xs: seq<Interval>) {
    forall i, j :: 0 <= i < j < |xs| ==> xs[i].endDate <= xs[j].startDate
  }

  ghost predicate SortedByStart(xs: seq<Interval>) {
    forall i, j :: 0 <= i < j < |xs| ==> xs[i].startDate < xs[j].startDate
  }

  ghost predicate StartsAfter(xs: seq<Interval>, t: int) {
    forall i :: 0 <= i < |xs| ==> t < xs[i].startDate
  }

  /** The output starts after a day exactly when both inputs do. */
  lemma {:induction false} MergedStartsAfter(xs: seq<Interval>, ys: seq<Interval>, t: int)
    requires Merged(xs, ys).Ok?
    ensures StartsAfter(Merged(xs, ys).value, t) <==> StartsAfter(xs, t) && StartsAfter(ys, t)
    decreases |xs| + |ys|
  {
    if xs != [] && ys != [] {
      var x, y, out := xs[0], ys[0], Merged(xs, ys).value;
      StartsAfterCons(x, xs[1..], t);
      StartsAfterCons(y, ys[1..], t);
      StartsAfterCons(out[0], out[1..], t);
      assert xs == [x] + xs[1..] && ys == [y] + ys[1..] && out == [out[0]] + out[1..];
      match Ordering(x, y).value
      case Less => MergedStartsAfter(xs[1..], ys, t);
      case Greater => MergedStartsAfter(xs, ys[1..], t);
      case Overlap => MergedStartsAfter(xs[1..], ys[1..], t);
      case Equal => MergedStartsAfter(xs[1..], ys[1..], t);
    }
  }

  lemma StartsAfterCons(x: Interval, xs: seq<Interval>, t: int)
    ensures StartsAfter([x] + xs, t) <==> t < x.startDate && StartsAfter(xs, t)
  {
    var all := [x] + xs;
    assert forall i :: 0 <= i < |xs| ==> all[i + 1] == xs[i];
    if StartsAfter(all, t) {
      assert all[0] == x;
      forall i | 0 <= i < |xs| ensures t < xs[i].startDate {
        assert t < all[i + 1].startDate;
      }
    }
  }

  lemma TailStartsAfter(x: Interval, xs: seq<Interval>, t: int)
    requires Disjoint([x] + xs) && t < x.endDate
    ensures StartsAfter(xs, t)
  {
    DisjointCons(x, xs);
  }

  lemma ListStartsAfter(xs: seq<Interval>, t: int)
    requires Disjoint(xs) && NonEmpty(xs) && xs != [] && t < xs[0].startDate
    ensures StartsAfter(xs, t)
  {
  }

  lemma SortedCons(x: Interval, xs: seq<Interval>)
    requires SortedByStart(xs) && StartsAfter(xs, x.startDate)
    ensures SortedByStart([x] + xs)
  {
  }

  /** A first interval that ends before the other list starts comes first in the output. */
  lemma TakenMerged(x: Interval, xs: seq<Interval>, y: Interval, ys: seq<Interval>)
    requires x.startDate < x.endDate <= y.startDate < y.endDate
    ensures Merged([x] + xs, [y] + ys) == Prepend([x], Merged(xs, [y] + ys))
    ensures Merged([y] + ys, [x] + xs) == Prepend([x], Merged([y] + ys, xs))
  {
    assert ([x] + xs)[1..] == xs && ([y] + ys)[1..] == ys;
  }

  /** Two first intervals that meet make one interval of the output. */
  lemma MeetingMerged(x: Interval, xs: seq<Interval>, y: Interval, ys: seq<Interval>)
    requires Overlaps(x, y) && x.startDate < x.endDate && y.startDate < y.endDate && Merged([x] + xs, [y] + ys).Ok?
    ensures Ordering(x, y).Ok? && Merged(xs, ys).Ok?
    ensures var m := if Ordering(x, y).value == Overlap then MergeTwo(x, y) else x;
            && Merged([x] + xs, [y] + ys).value == [m] + Merged(xs, ys).value
            && m.startDate == MergeTwo(x, y).startDate && m.endDate == MergeTwo(x, y).endDate
  {
    assert ([x] + xs)[1..] == xs && ([y] + ys)[1..] == ys;
  }

  /** Disjoint lists of nonempty intervals merge into strictly increasing start dates. */
  lemma {:induction false} MergedIsSorted(xs: seq<Interval>, ys: seq<Interval>)
    requires NonEmpty(xs) && NonEmpty(ys) && Disjoint(xs) && Disjoint(ys) && Merged(xs, ys).Ok?
    ensures SortedByStart(Merged(xs, ys).value)
    decreases |xs| + |ys|
  {
    if xs == [] || ys == [] {
      DisjointIsSorted(xs);
      DisjointIsSorted(ys);
    } else {
      hide Merged, Disjoint, SortedByStart, StartsAfter;
      var x, xs', y, ys' := xs[0], xs[1..], ys[0], ys[1..];
      assert xs == [x] + xs' && ys == [y] + ys';
      DisjointCons(x, xs');
      DisjointCons(y, ys');
      if x.endDate <= y.startDate {
        TakenMerged(x, xs', y, ys');
        MergedIsSorted(xs', ys);
        TailStartsAfter(x, xs', x.startDate);
        ListStartsAfter(ys, x.startDate);
        MergedStartsAfter(xs', ys, x.startDate);
        SortedCons(x, Merged(xs', ys).value);
      } else if y.endDate <= x.startDate {
        TakenMerged(y, ys', x, xs');
        MergedIsSorted(xs, ys');
        TailStartsAfter(y, ys', y.startDate);
        ListStartsAfter(xs, y.startDate);
        MergedStartsAfter(xs, ys', y.startDate);
        SortedCons(y, Merged(xs, ys').value);
      } else {
        var m := if Ordering(x, y).value == Overlap then MergeTwo(x, y) else x;
        MeetingMerged(x, xs', y, ys');
        MergedIsSorted(xs', ys');
        TailStartsAfter(x, xs', m.startDate);
        TailStartsAfter(y, ys', m.startDate);
        MergedStartsAfter(xs', ys', m.startDate);
        SortedCons(m, Merged(xs', ys').value);
      }
    }
  }

  lemma DisjointIsSorted(xs: seq<Interval>)
    requires Disjoint(xs) && NonEmpty(xs)
    ensures SortedByStart(xs)
  {
  }

  ghost predicate Apart(x: Interval, ys: seq<Interval>) {
    forall j :: 0 <= j < |ys| ==> !Overlaps(x, ys[j])
  }

  ghost predicate MeetsOne(x: Interval, ys: seq<Interval>) {
    forall j, k :: 0 <= j < k < |ys| ==> !Overlaps(x, ys[j]) || !Overlaps(x, ys[k])
  }

  /** No interval of either list meets two of the other. */
  ghost predicate Paired(xs: seq<Interval>, ys: seq<Interval>) {
    EachMeetsOne(xs, ys) && EachMeetsOne(ys, xs)
  }

  ghost predicate EachMeetsOne(xs: seq<Interval>, ys: seq<Interval>) {
    forall i :: 0 <= i < |xs| ==> MeetsOne(xs[i], ys)
  }

  lemma MeetsOneCons(x: Interval, y: Interval, ys: seq<Interval>)
    ensures MeetsOne(x, [y] + ys) <==> MeetsOne(x, ys) && (Overlaps(x, y) ==> Apart(x, ys))
  {
    var all := [y] + ys;
    assert forall j :: 0 <= j < |ys| ==> all[j + 1] == ys[j];
    if MeetsOne(x, all) {
      forall j, k | 0 <= j < k < |ys| ensures !Overlaps(x, ys[j]) || !Overlaps(x, ys[k]) {
        assert !Overlaps(x, all[j + 1]) || !Overlaps(x, all[k + 1]);
      }
      forall j | 0 <= j < |ys| ensures !Overlaps(x, y) || !Overlaps(x, ys[j]) {
        assert !Overlaps(x, all[0]) || !Overlaps(x, all[j + 1]);
      }
    }
  }

  /** Leaving out a first interval that meets nothing in the other list. */
  lemma PairedSkip(x: Interval, xs: seq<Interval>, ys: seq<Interval>)
    requires Apart(x, ys)
    ensures Paired([x] + xs, ys) <==> Paired(xs, ys)
  {
    var all := [x] + xs;
    assert forall i :: 0 <= i < |xs| ==> all[i + 1] == xs[i];
    forall j | 0 <= j < |ys| ensures MeetsOne(ys[j], all) <==> MeetsOne(ys[j], xs) {
      MeetsOneCons(ys[j], x, xs);
    }
    if Paired(all, ys) {
      forall i | 0 <= i < |xs| ensures MeetsOne(xs[i], ys) {
        assert MeetsOne(all[i + 1], ys);
      }
    }
  }

  /** Two first intervals that meet are paired when they meet nothing else. */
  lemma PairedHeads(x: Interval, xs: seq<Interval>, y: Interval, ys: seq<Interval>)
    requires Overlaps(x, y)
    ensures Paired([x] + xs, [y] + ys) <==> Paired(xs, ys) && Apart(x, ys) && Apart(y, xs)
  {
    EachMeetsOneHeads(x, xs, y, ys);
    EachMeetsOneHeads(y, ys, x, xs);
  }

  lemma EachMeetsOneHeads(x: Interval, xs: seq<Interval>, y: Interval, ys: seq<Interval>)
    requires Overlaps(x, y)
    ensures EachMeetsOne([x] + xs, [y] + ys) ==> EachMeetsOne(xs, ys) && Apart(x, ys)
    ensures EachMeetsOne(xs, ys) && Apart(x, ys) && Apart(y, xs) ==> EachMeetsOne([x] + xs, [y] + ys)
  {
    var allX := [x] + xs;
    assert allX[0] == x && forall i :: 0 <= i < |xs| ==> allX[i + 1] == xs[i];
    MeetsOneCons(x, y, ys);
    forall i | 0 <= i < |xs|
      ensures MeetsOne(xs[i], [y] + ys) <==> MeetsOne(xs[i], ys) && (Overlaps(xs[i], y) ==> Apart(xs[i], ys))
    {
      MeetsOneCons(xs[i], y, ys);
    }
    if EachMeetsOne(allX, [y] + ys) {
      assert MeetsOne(allX[0], [y] + ys);
      forall i | 0 <= i < |xs| ensures MeetsOne(xs[i], ys) {
        assert MeetsOne(allX[i + 1], [y] + ys);
      }
    }
  }

  lemma DisjointCons(x: Interval, xs: seq<Interval>)
    ensures Disjoint([x] + xs) <==> Disjoint(xs) && StartsAfter(xs, x.endDate - 1)
  {
    var all := [x] + xs;
    assert forall i :: 0 <= i < |xs| ==> all[i + 1] == xs[i];
    if Disjoint(all) {
      forall i, j | 0 <= i < j < |xs| ensures xs[i].endDate <= xs[j].startDate {
        assert all[i + 1].endDate <= all[j + 1].startDate;
      }
      forall i | 0 <= i < |xs| ensures x.endDate - 1 < xs[i].startDate {
        assert all[0].endDate <= all[i + 1].startDate;
      }
    }
  }

  /** After two first intervals that meet, meeting neither is starting after both end. */
  lemma ApartFromHeads(x: Interval, xs: seq<Interval>, y: Interval, ys: seq<Interval>)
    requires Disjoint([x] + xs) && Disjoint([y] + ys) && NonEmpty(xs) && NonEmpty(ys) && Overlaps(x, y)
    ensures Apart(x, ys) && Apart(y, xs) <==>
            StartsAfter(xs, MergeTwo(x, y).endDate - 1) && StartsAfter(ys, MergeTwo(x, y).endDate - 1)
  {
    DisjointCons(x, xs);
    DisjointCons(y, ys);
    forall i | 0 <= i < |xs| ensures Overlaps(y, xs[i]) <==> xs[i].startDate < y.endDate {
      assert x.endDate - 1 < xs[i].startDate;
    }
    forall j | 0 <= j < |ys| ensures Overlaps(x, ys[j]) <==> ys[j].startDate < x.endDate {
      assert y.endDate - 1 < ys[j].startDate;
    }
  }

  /** Disjointness of the output after a step that takes one interval, given that of the rest. */
  lemma SkipStep(x: Interval, xs: seq<Interval>, ys: seq<Interval>, out: seq<Interval>)
    requires Disjoint([x] + xs) && Disjoint(ys) && NonEmpty(ys) && ys != [] && x.endDate <= ys[0].startDate
    requires Disjoint(out) <==> Paired(xs, ys)
    requires StartsAfter(out, x.endDate - 1) <==> StartsAfter(xs, x.endDate - 1) && StartsAfter(ys, x.endDate - 1)
    ensures Disjoint([x] + out) <==> Paired([x] + xs, ys)
  {
    DisjointCons(x, xs);
    DisjointCons(x, out);
    PairedSkip(x, xs, ys);
  }

  /** The same after a step that takes two intervals that meet. */
  lemma PairStep(x: Interval, xs: seq<Interval>, y: Interval, ys: seq<Interval>, m: Interval, out: seq<Interval>)
    requires Disjoint([x] + xs) && Disjoint([y] + ys) && NonEmpty(xs) && NonEmpty(ys) && Overlaps(x, y)
    requires m.endDate == MergeTwo(x, y).endDate
    requires Disjoint(out) <==> Paired(xs, ys)
    requires StartsAfter(out, m.endDate - 1) <==> StartsAfter(xs, m.endDate - 1) && StartsAfter(ys, m.endDate - 1)
    ensures Disjoint([m] + out) <==> Paired([x] + xs, [y] + ys)
  {
    DisjointCons(m, out);
    PairedHeads(x, xs, y, ys);
    ApartFromHeads(x, xs, y, ys);
  }

  /** The output of two disjoint lists is disjoint exactly when no interval of either list meets
      two of the other. */
  lemma {:induction false} DisjointIffPaired(xs: seq<Interval>, ys: seq<Interval>)
    requires NonEmpty(xs) && NonEmpty(ys) && Disjoint(xs) && Disjoint(ys) && Merged(xs, ys).Ok?
    ensures Disjoint(Merged(xs, ys).value) <==> Paired(xs, ys)
    decreases |xs| + |ys|, 1
  {
    if xs != [] && ys != [] {
      if Overlaps(xs[0], ys[0]) {
        DisjointIffPairedMeeting(xs, ys);
      } else {
        DisjointIffPairedTaken(xs, ys);
      }
    }
  }

  lemma {:induction false} DisjointIffPairedTaken(xs: seq<Interval>, ys: seq<Interval>)
    requires NonEmpty(xs) && NonEmpty(ys) && Disjoint(xs) && Disjoint(ys) && Merged(xs, ys).Ok?
    requires xs != [] && ys != [] && !Overlaps(xs[0], ys[0])
    ensures Disjoint(Merged(xs, ys).value) <==> Paired(xs, ys)
    decreases |xs| + |ys|, 0
  {
    var x, xs', y, ys' := xs[0], xs[1..], ys[0], ys[1..];
    if Ordering(x, y).value == Less {
      assert xs == [x] + xs';
      DisjointIffPaired(xs', ys);
      MergedStartsAfter(xs', ys, x.endDate - 1);
      SkipStep(x, xs', ys, Merged(xs', ys).value);
    } else {
      assert ys == [y] + ys';
      DisjointIffPaired(xs, ys');
      MergedStartsAfter(xs, ys', y.endDate - 1);
      SkipStep(y, ys', xs, Merged(xs, ys').value);
    }
  }

  lemma {:induction false} DisjointIffPairedMeeting(xs: seq<Interval>, ys: seq<Interval>)
    requires NonEmpty(xs) && NonEmpty(ys) && Disjoint(xs) && Disjoint(ys) && Merged(xs, ys).Ok?
    requires xs != [] && ys != [] && Overlaps(xs[0], ys[0])
    ensures Disjoint(Merged(xs, ys).value) <==> Paired(xs, ys)
    decreases |xs| + |ys|, 0
  {
    var x, xs', y, ys' := xs[0], xs[1..], ys[0], ys[1..];
    var m := if Ordering(x, y).value == Overlap then MergeTwo(x, y) else x;
    assert xs == [x] + xs' && ys == [y] + ys';
    MeetingMerged(x, xs', y, ys');
    DisjointCons(x, xs');
    DisjointCons(y, ys');
    hide Merged, Paired, Disjoint, StartsAfter;
    DisjointIffPaired(xs', ys');
    MergedStartsAfter(xs', ys', m.endDate - 1);
    PairStep(x, xs', y, ys', m, Merged(xs', ys').value);
  }

  ghost predicate Disagree(xs: seq<Interval>, ys: seq<Interval>) {
    exists i, j :: 0 <= i < |xs| && 0 <= j < |ys| && Overlaps(xs[i], ys[j]) && xs[i].symbol != ys[j].symbol
  }

  /** In paired lists a disagreement is found: merging fails exactly when an overlapping pair
      has different symbols. */
  lemma {:induction false} ErrorIffDisagree(xs: seq<Interval>, ys: seq<Interval>)
    requires NonEmpty(xs) && NonEmpty(ys) && Disjoint(xs) && Disjoint(ys) && Paired(xs, ys)
    ensures Merged(xs, ys).Err? <==> Disagree(xs, ys)
    decreases |xs| + |ys|
  {
    if Merged(xs, ys).Err? {
      var i, j := DisagreeingPair(xs, ys);
    } else if xs != [] && ys != [] {
      var x, xs', y, ys' := xs[0], xs[1..], ys[0], ys[1..];
      assert xs == [x] + xs' && ys == [y] + ys';
      DisjointCons(x, xs');
      DisjointCons(y, ys');
      match Ordering(x, y).value
      case Less =>
        PairedSkip(x, xs', ys);
        ErrorIffDisagree(xs', ys);
        assert Apart(x, ys);
      case Greater =>
        PairedSkip(y, ys', xs);
        ErrorIffDisagree(xs, ys');
        assert Apart(y, xs);
      case _ =>
        PairedHeads(x, xs', y, ys');
        ErrorIffDisagree(xs', ys');
    }
  }

  lemma DisagreeIsConflict(xs: seq<Interval>, ys: seq<Interval>)
    requires NonEmpty(xs) && NonEmpty(ys)
    ensures Disagree(xs, ys) <==> Conflict(xs, ys)
  {
    if i, j :| 0 <= i < |xs| && 0 <= j < |ys| && Overlaps(xs[i], ys[j]) && xs[i].symbol != ys[j].symbol {
      var d := if xs[i].startDate <= ys[j].startDate then ys[j].startDate else xs[i].startDate;
      assert Holds(xs[i], d, xs[i].symbol) && Holds(ys[j], d, ys[j].symbol);
      assert Covers(xs, d, xs[i].symbol) && Covers(ys, d, ys[j].symbol);
    }
    if d, s1, s2 :| s1 != s2 && Covers(xs, d, s1) && Covers(ys, d, s2) {
      var i :| 0 <= i < |xs| && Holds(xs[i], d, s1);
      var j :| 0 <= j < |ys| && Holds(ys[j], d, s2);
      assert Overlaps(xs[i], ys[j]) && xs[i].symbol != ys[j].symbol;
    }
  }

  // ---------- exactly when conflicts are reported ----------

  /** The same intervals, whatever their symbols. */
  ghost predicate SameDates(xs: seq<Interval>, us: seq<Interval>) {
    && |xs| == |us|
    && forall i :: 0 <= i < |xs| ==> xs[i].startDate == us[i].startDate && xs[i].endDate == us[i].endDate
  }

  lemma SameDatesPaired(xs: seq<Interval>, us: seq<Interval>, ys: seq<Interval>, vs: seq<Interval>)
    requires SameDates(xs, us) && SameDates(ys, vs)
    ensures EachMeetsOne(xs, ys) <==> EachMeetsOne(us, vs)
  {
    forall i | 0 <= i < |xs| ensures MeetsOne(xs[i], ys) <==> MeetsOne(us[i], vs) {
      assert forall j :: 0 <= j < |ys| ==> (Overlaps(xs[i], ys[j]) <==> Overlaps(us[i], vs[j]));
    }
  }

  function Label(x: Interval, symbol: string): Interval {
    x.(symbol := symbol)
  }

  function LabelAll(xs: seq<Interval>, symbol: string): (us: seq<Interval>)
    ensures |us| == |xs| && forall i :: 0 <= i < |xs| ==> us[i] == Label(xs[i], symbol)
  {
    seq(|xs|, i requires 0 <= i < |xs| => Label(xs[i], symbol))
  }

  /** Intervals that all have one symbol merge. */
  lemma {:induction false} UniformMerges(xs: seq<Interval>, ys: seq<Interval>, symbol: string)
    requires forall i :: 0 <= i < |xs| ==> xs[i].symbol == symbol
    requires forall j :: 0 <= j < |ys| ==> ys[j].symbol == symbol
    ensures Merged(xs, ys).Ok?
    decreases |xs| + |ys|
  {
    if xs != [] && ys != [] {
      UniformMerges(xs[1..], ys, symbol);
      UniformMerges(xs, ys[1..], symbol);
      UniformMerges(xs[1..], ys[1..], symbol);
    }
  }

  /** Intervals in front keep a disagreement. */
  lemma DisagreeCons(x: Interval, xs: seq<Interval>, y: Interval, ys: seq<Interval>)
    requires Disagree(xs, ys)
    ensures Disagree([x] + xs, ys) && Disagree(xs, [y] + ys) && Disagree([x] + xs, [y] + ys)
  {
    var i, j :| 0 <= i < |xs| && 0 <= j < |ys| && Overlaps(xs[i], ys[j]) && xs[i].symbol != ys[j].symbol;
    assert ([x] + xs)[i + 1] == xs[i] && ([y] + ys)[j + 1] == ys[j];
  }

  lemma SameDatesCons(x: Interval, xs: seq<Interval>, us: seq<Interval>, symbol: string)
    requires SameDates(xs, us)
    ensures SameDates([x] + xs, [Label(x, symbol)] + us)
  {
  }

  /** Merging from first intervals that do not stop it. */
  lemma MergedFromHeads(x: Interval, xs: seq<Interval>, y: Interval, ys: seq<Interval>)
    requires Ordering(x, y).Ok?
    requires match Ordering(x, y).value
             case Less => Merged(xs, [y] + ys).Ok?
             case Greater => Merged([x] + xs, ys).Ok?
             case _ => Merged(xs, ys).Ok?
    ensures Merged([x] + xs, [y] + ys).Ok?
  {
    assert ([x] + xs)[1..] == xs && ([y] + ys)[1..] == ys;
  }

  /** A first interval disagrees with a later one that it meets. */
  lemma LaterDisagrees(x: Interval, xs: seq<Interval>, y: Interval, ys: seq<Interval>)
    requires !Apart(x, ys) || !Apart(y, xs)
    ensures Disagree([Label(x, "A")] + LabelAll(xs, "B"), [Label(y, "A")] + LabelAll(ys, "B"))
  {
    var us, vs := [Label(x, "A")] + LabelAll(xs, "B"), [Label(y, "A")] + LabelAll(ys, "B");
    assert "A"[0] != "B"[0];
    if j :| 0 <= j < |ys| && Overlaps(x, ys[j]) {
      assert vs[j + 1] == Label(ys[j], "B");
      assert Overlaps(us[0], vs[j + 1]) && us[0].symbol != vs[j + 1].symbol;
    } else {
      var i :| 0 <= i < |xs| && Overlaps(y, xs[i]);
      assert us[i + 1] == Label(xs[i], "B");
      assert Overlaps(us[i + 1], vs[0]) && us[i + 1].symbol != vs[0].symbol;
    }
  }

  /** With these symbols a disagreement goes unnoticed. */
  ghost predicate Hides(xs: seq<Interval>, ys: seq<Interval>, us: seq<Interval>, vs: seq<Interval>) {
    SameDates(xs, us) && SameDates(ys, vs) && Merged(us, vs).Ok? && Disagree(us, vs)
  }

  lemma HideBehindFirst(x: Interval, xs: seq<Interval>, us: seq<Interval>, ys: seq<Interval>, vs: seq<Interval>)
    requires Hides(xs, ys, us, vs) && ys != []
    requires x.startDate < x.endDate <= ys[0].startDate < ys[0].endDate
    ensures Hides([x] + xs, ys, [Label(x, "A")] + us, vs)
  {
    var a := Label(x, "A");
    SameDatesCons(x, xs, us, "A");
    DisagreeCons(a, us, a, vs);
    assert vs == [vs[0]] + vs[1..];
    MergedFromHeads(a, us, vs[0], vs[1..]);
  }

  lemma HideBehindSecond(xs: seq<Interval>, us: seq<Interval>, y: Interval, ys: seq<Interval>, vs: seq<Interval>)
    requires Hides(xs, ys, us, vs) && xs != []
    requires y.startDate < y.endDate <= xs[0].startDate < xs[0].endDate
    ensures Hides(xs, [y] + ys, us, [Label(y, "A")] + vs)
  {
    var b := Label(y, "A");
    SameDatesCons(y, ys, vs, "A");
    DisagreeCons(b, us, b, vs);
    assert us == [us[0]] + us[1..];
    MergedFromHeads(us[0], us[1..], b, vs);
  }

  lemma HideBehindBoth(x: Interval, xs: seq<Interval>, us: seq<Interval>, y: Interval, ys: seq<Interval>, vs: seq<Interval>)
    requires Hides(xs, ys, us, vs) && Overlaps(x, y)
    ensures Hides([x] + xs, [y] + ys, [Label(x, "A")] + us, [Label(y, "A")] + vs)
  {
    var a, b := Label(x, "A"), Label(y, "A");
    SameDatesCons(x, xs, us, "A");
    SameDatesCons(y, ys, vs, "A");
    DisagreeCons(a, us, b, vs);
    MergedFromHeads(a, us, b, vs);
  }

  /** Two first intervals that meet use each other up. */
  lemma HideLater(x: Interval, xs: seq<Interval>, y: Interval, ys: seq<Interval>)
    requires Overlaps(x, y) && (!Apart(x, ys) || !Apart(y, xs))
    ensures Hides([x] + xs, [y] + ys, [Label(x, "A")] + LabelAll(xs, "B"), [Label(y, "A")] + LabelAll(ys, "B"))
  {
    var us, vs := LabelAll(xs, "B"), LabelAll(ys, "B");
    UniformMerges(us, vs, "B");
    LaterDisagrees(x, xs, y, ys);
    MergedFromHeads(Label(x, "A"), us, Label(y, "A"), vs);
    SameDatesCons(x, xs, us, "A");
    SameDatesCons(y, ys, vs, "A");
  }

  lemma HeadAndTail(xs: seq<Interval>)
    requires NonEmpty(xs) && Disjoint(xs) && xs != []
    ensures xs[0].startDate < xs[0].endDate && NonEmpty(xs[1..]) && Disjoint(xs[1..])
  {
  }

  lemma ApartFromLater(x: Interval, ys: seq<Interval>)
    requires NonEmpty(ys) && Disjoint(ys) && ys != [] && x.endDate <= ys[0].startDate
    ensures Apart(x, ys)
  {
  }

  lemma PairedSwap(xs: seq<Interval>, ys: seq<Interval>)
    ensures Paired(xs, ys) <==> Paired(ys, xs)
  {
  }

  /** Lists that are not paired have such symbols: the intervals up to the two that meet get one
      symbol, and everything after them another. */
  lemma {:induction false} HideDisagreement(xs: seq<Interval>, ys: seq<Interval>)
    returns (us: seq<Interval>, vs: seq<Interval>)
    requires NonEmpty(xs) && NonEmpty(ys) && Disjoint(xs) && Disjoint(ys) && !Paired(xs, ys)
    ensures Hides(xs, ys, us, vs)
    decreases |xs| + |ys|
  {
    assert xs != [] && ys != [];
    hide Hides, Disagree, SameDates, Merged, Paired, Apart, NonEmpty, Disjoint;
    var x, xs', y, ys' := xs[0], xs[1..], ys[0], ys[1..];
    assert xs == [x] + xs' && ys == [y] + ys';
    HeadAndTail(xs);
    HeadAndTail(ys);
    if x.endDate <= y.startDate {
      ApartFromLater(x, ys);
      PairedSkip(x, xs', ys);
      us, vs := HideDisagreement(xs', ys);
      HideBehindFirst(x, xs', us, ys, vs);
      us := [Label(x, "A")] + us;
    } else if y.endDate <= x.startDate {
      ApartFromLater(y, xs);
      PairedSwap(xs, ys);
      PairedSwap(xs, ys');
      PairedSkip(y, ys', xs);
      us, vs := HideDisagreement(xs, ys');
      HideBehindSecond(xs, us, y, ys', vs);
      vs := [Label(y, "A")] + vs;
    } else {
      PairedHeads(x, xs', y, ys');
      if Paired(xs', ys') {
        HideLater(x, xs', y, ys');
        us, vs := LabelAll(xs', "B"), LabelAll(ys', "B");
      } else {
        us, vs := HideDisagreement(xs', ys');
        HideBehindBoth(x, xs', us, y, ys', vs);
      }
      us, vs := [Label(x, "A")] + us, [Label(y, "A")] + vs;
    }
  }

  /** Merging two disjoint lists fails exactly on a conflict, whatever the symbols. */
  ghost predicate ReportsConflicts(xs: seq<Interval>, ys: seq<Interval>) {
    forall us, vs :: SameDates(xs, us) && SameDates(ys, vs) ==> (Merged(us, vs).Err? <==> Conflict(us, vs))
  }

  /** For which dates every conflict is reported: those where no interval of either list meets two
      of the other. For all other dates there are symbols with a conflict that goes unnoticed. */
  lemma ConflictsReportedIffPaired(xs: seq<Interval>, ys: seq<Interval>)
    requires NonEmpty(xs) && NonEmpty(ys) && Disjoint(xs) && Disjoint(ys)
    ensures Paired(xs, ys) <==> ReportsConflicts(xs, ys)
  {
    if Paired(xs, ys) {
      forall us, vs | SameDates(xs, us) && SameDates(ys, vs)
        ensures Merged(us, vs).Err? <==> Conflict(us, vs)
      {
        SameDatesPaired(xs, us, ys, vs);
        SameDatesPaired(ys, vs, xs, us);
        ErrorIffDisagree(us, vs);
        DisagreeIsConflict(us, vs);
      }
    } else {
      var us, vs := HideDisagreement(xs, ys);
      DisagreeIsConflict(us, vs);
    }
  }

  /** Unpaired lists can hide a conflict: a wide interval is used up by the first narrow one it
      meets, the second narrow one is never compared with it, and the output overlaps itself. */
  lemma WideIntervalHidesConflict()
    ensures exists xs, ys ::
              && NonEmpty(xs) && NonEmpty(ys) && Disjoint(xs) && Disjoint(ys)
              && Conflict(xs, ys) && Merged(xs, ys).Ok? && !Disjoint(Merged(xs, ys).value)
  {
    var wide, n1, n2 := MappingInterval(0, 10, "A"), MappingInterval(0, 3, "A"), MappingInterval(4, 6, "B");
    var xs, ys: seq<Interval> := [wide], [n1, n2];
    assert ys[1..] == [n2] && xs[1..] == [];
    assert [wide] + [n2] == [wide, n2];
    assert Merged(xs, ys) == Prepend([wide], Merged([], [n2])) == Ok([wide, n2]);
    assert Merged(xs, ys).value[0].endDate > Merged(xs, ys).value[1].startDate;
    assert Holds(xs[0], 4, "A") && Holds(ys[1], 4, "B");
    assert "A"[0] != "B"[0];
    assert Covers(xs, 4, "A") && Covers(ys, 4, "B");
    assert Conflict(xs, ys);
  }
}
