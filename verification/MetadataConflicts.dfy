/** When merging metadata reports conflicting mappings. */
module MetadataConflicts {
  import opened Common
  import opened MetadataTypes
  import opened IntervalMerge
  import opened MetadataMerge
  import opened MetadataOrder

  // ---------- merging one metadata into another ----------

  ghost predicate DisjointList(ms: seq<Mapping>) {
    forall k :: 0 <= k < |ms| ==> Disjoint(ms[k].intervals)
  }

  /** Mappings of unique raw symbols to disjoint, nonempty intervals. */
  ghost predicate Regular(ms: seq<Mapping>) {
    UniqueRawSymbols(ms) && NonEmptyList(ms) && DisjointList(ms)
  }

  /** Absorbing mappings succeeds exactly when each merge with a known raw symbol does. */
  lemma {:induction false} AbsorbMappingsOkIff(m: IntervalMap, adds: seq<Mapping>)
    requires UniqueRawSymbols(adds)
    ensures AbsorbMappings(m, adds).Ok? <==> forall j :: 0 <= j < |adds| ==> AbsorbOne(m, adds[j]).Ok?
    decreases |adds|
  {
    if adds != [] {
      var next := AbsorbOne(m, adds[0]);
      assert forall j :: 0 < j < |adds| ==> adds[j] == adds[1..][j - 1];
      if next.Ok? {
        AbsorbMappingsOkIff(next.value, adds[1..]);
        forall j | 0 < j < |adds| ensures AbsorbOne(next.value, adds[j]).Ok? <==> AbsorbOne(m, adds[j]).Ok? {
          assert adds[j].rawSymbol != adds[0].rawSymbol;
        }
      }
    }
  }

  /** Both metadata map a raw symbol on one day, and to different symbols. */
  ghost predicate MappingsConflict(ms: seq<Mapping>, ns: seq<Mapping>) {
    exists i, j :: 0 <= i < |ms| && 0 <= j < |ns| && ConflictAt(ms, ns, i, j)
  }

  ghost predicate ConflictAt(ms: seq<Mapping>, ns: seq<Mapping>, i: nat, j: nat)
    requires i < |ms| && j < |ns|
  {
    ms[i].rawSymbol == ns[j].rawSymbol && Conflict(ms[i].intervals, ns[j].intervals)
  }

  /** No interval of a raw symbol that both have meets two of the other. */
  ghost predicate SharedPaired(ms: seq<Mapping>, ns: seq<Mapping>) {
    forall i, j :: 0 <= i < |ms| && 0 <= j < |ns| && ms[i].rawSymbol == ns[j].rawSymbol ==>
      Paired(ms[i].intervals, ns[j].intervals)
  }

  /** The same mappings, whatever the symbols of their intervals. */
  ghost predicate SamePlan(ms: seq<Mapping>, ms': seq<Mapping>) {
    && |ms| == |ms'|
    && forall k :: 0 <= k < |ms| ==>
         ms[k].rawSymbol == ms'[k].rawSymbol && SameDates(ms[k].intervals, ms'[k].intervals)
  }

  /** Merging reports every conflict between two lists of mappings, whatever the symbols. */
  ghost predicate ReportsMappings(ms: seq<Mapping>, ns: seq<Mapping>) {
    forall ms', ns' :: SamePlan(ms, ms') && SamePlan(ns, ns') ==>
      (AbsorbMappings(MapOf(ms'), ns').Err? <==> MappingsConflict(ms', ns'))
  }

  lemma SamePlanIsRegular(ms: seq<Mapping>, ms': seq<Mapping>)
    requires Regular(ms) && SamePlan(ms, ms')
    ensures Regular(ms')
  {
    forall k | 0 <= k < |ms'| ensures NonEmpty(ms'[k].intervals) && Disjoint(ms'[k].intervals) {
      assert NonEmpty(ms[k].intervals) && Disjoint(ms[k].intervals);
    }
  }

  /** Absorbing the mapping at `j` fails exactly when the one of the same raw symbol does not
      merge with it. */
  lemma AbsorbOneFailsIff(ms: seq<Mapping>, ns: seq<Mapping>, j: nat)
    requires UniqueRawSymbols(ms) && j < |ns|
    ensures AbsorbOne(MapOf(ms), ns[j]).Err? <==>
            exists i :: 0 <= i < |ms| && ms[i].rawSymbol == ns[j].rawSymbol
                        && Merged(ms[i].intervals, ns[j].intervals).Err?
  {
    MapOfKeys(ms, ns[j].rawSymbol);
  }

  lemma PairedReports(ms: seq<Mapping>, ns: seq<Mapping>)
    requires Regular(ms) && Regular(ns) && SharedPaired(ms, ns)
    ensures AbsorbMappings(MapOf(ms), ns).Err? <==> MappingsConflict(ms, ns)
  {
    AbsorbMappingsOkIff(MapOf(ms), ns);
    forall j | 0 <= j < |ns|
      ensures AbsorbOne(MapOf(ms), ns[j]).Err? <==> exists i :: 0 <= i < |ms| && ConflictAt(ms, ns, i, j)
    {
      AbsorbOneFailsIff(ms, ns, j);
      forall i | 0 <= i < |ms| && ms[i].rawSymbol == ns[j].rawSymbol
        ensures Merged(ms[i].intervals, ns[j].intervals).Err? <==> ConflictAt(ms, ns, i, j)
      {
        ErrorIffDisagree(ms[i].intervals, ns[j].intervals);
        DisagreeIsConflict(ms[i].intervals, ns[j].intervals);
      }
    }
  }

  lemma SamePlanPaired(ms: seq<Mapping>, ms': seq<Mapping>, ns: seq<Mapping>, ns': seq<Mapping>)
    requires SamePlan(ms, ms') && SamePlan(ns, ns') && SharedPaired(ms, ns)
    ensures SharedPaired(ms', ns')
  {
    forall i, j | 0 <= i < |ms'| && 0 <= j < |ns'| && ms'[i].rawSymbol == ns'[j].rawSymbol
      ensures Paired(ms'[i].intervals, ns'[j].intervals)
    {
      SameDatesPaired(ms[i].intervals, ms'[i].intervals, ns[j].intervals, ns'[j].intervals);
      SameDatesPaired(ns[j].intervals, ns'[j].intervals, ms[i].intervals, ms'[i].intervals);
    }
  }

  /** All intervals get one symbol, except those of the mapping at `i`. */
  function Relabel(ms: seq<Mapping>, i: nat, xs: seq<Interval>): (r: seq<Mapping>)
    requires i < |ms|
    ensures |r| == |ms| && forall k :: 0 <= k < |ms| ==>
              r[k] == SymbolMapping(ms[k].rawSymbol, if k == i then xs else LabelAll(ms[k].intervals, "A"))
  {
    seq(|ms|, k requires 0 <= k < |ms| =>
      SymbolMapping(ms[k].rawSymbol, if k == i then xs else LabelAll(ms[k].intervals, "A")))
  }

  lemma RelabelledMerge(ms: seq<Mapping>, ns: seq<Mapping>, i: nat, j: nat, us: seq<Interval>, vs: seq<Interval>)
    requires UniqueRawSymbols(ms) && UniqueRawSymbols(ns)
    requires i < |ms| && j < |ns| && ms[i].rawSymbol == ns[j].rawSymbol && Merged(us, vs).Ok?
    ensures AbsorbMappings(MapOf(Relabel(ms, i, us)), Relabel(ns, j, vs)).Ok?
  {
    var ms', ns' := Relabel(ms, i, us), Relabel(ns, j, vs);
    hide Merged, AbsorbMappings, MapOf, AbsorbOne;
    AbsorbMappingsOkIff(MapOf(ms'), ns');
    forall l | 0 <= l < |ns'| ensures AbsorbOne(MapOf(ms'), ns'[l]).Ok? {
      AbsorbOneFailsIff(ms', ns', l);
      forall k | 0 <= k < |ms'| && ms'[k].rawSymbol == ns'[l].rawSymbol
        ensures Merged(ms'[k].intervals, ns'[l].intervals).Ok?
      {
        if k == i || l == j {
          assert ms[k].rawSymbol == ns[l].rawSymbol;
          assert k == i && l == j;
        } else {
          UniformMerges(ms'[k].intervals, ns'[l].intervals, "A");
        }
      }
    }
  }

  /** Two mappings of one raw symbol that are not paired: symbols with a conflict that goes
      unnoticed. */
  lemma HideConflict(ms: seq<Mapping>, ns: seq<Mapping>, i: nat, j: nat)
    returns (ms': seq<Mapping>, ns': seq<Mapping>)
    requires Regular(ms) && Regular(ns) && i < |ms| && j < |ns| && ms[i].rawSymbol == ns[j].rawSymbol
    requires !Paired(ms[i].intervals, ns[j].intervals)
    ensures SamePlan(ms, ms') && SamePlan(ns, ns')
    ensures AbsorbMappings(MapOf(ms'), ns').Ok? && MappingsConflict(ms', ns')
  {
    var us, vs := HideDisagreement(ms[i].intervals, ns[j].intervals);
    ms', ns' := Relabel(ms, i, us), Relabel(ns, j, vs);
    assert SamePlan(ms, ms') && SamePlan(ns, ns');
    SamePlanIsRegular(ms, ms');
    SamePlanIsRegular(ns, ns');
    DisagreeIsConflict(us, vs);
    assert ConflictAt(ms', ns', i, j);
    RelabelledMerge(ms, ns, i, j, us, vs);
  }

  /** For which dates merging one list of mappings into another reports every conflict: those where
      no interval of a shared raw symbol meets two of the other list. */
  lemma MappingsReportedIffPaired(ms: seq<Mapping>, ns: seq<Mapping>)
    requires Regular(ms) && Regular(ns)
    ensures SharedPaired(ms, ns) <==> ReportsMappings(ms, ns)
  {
    if SharedPaired(ms, ns) {
      forall ms', ns' | SamePlan(ms, ms') && SamePlan(ns, ns')
        ensures AbsorbMappings(MapOf(ms'), ns').Err? <==> MappingsConflict(ms', ns')
      {
        SamePlanIsRegular(ms, ms');
        SamePlanIsRegular(ns, ns');
        SamePlanPaired(ms, ms', ns, ns');
        PairedReports(ms', ns');
      }
    } else {
      var i, j :| 0 <= i < |ms| && 0 <= j < |ns| && ms[i].rawSymbol == ns[j].rawSymbol
                  && !Paired(ms[i].intervals, ns[j].intervals);
      var ms', ns' := HideConflict(ms, ns, i, j);
    }
  }

  /** Merging two metadata whose shared raw symbols are paired fails exactly when the headers differ
      or the mappings conflict. */
  lemma TwoFailIff(a: Metadata, b: Metadata)
    requires Regular(a.mappings) && Regular(b.mappings) && SharedPaired(a.mappings, b.mappings)
    ensures Absorb(Started(a), b).Err? <==> !HeadersAgree(a, b) || MappingsConflict(a.mappings, b.mappings)
  {
    PairedReports(a.mappings, b.mappings);
  }

  lemma {:induction false} MappingsError(m: IntervalMap, adds: seq<Mapping>)
    ensures AbsorbMappings(m, adds).Err? ==> AbsorbMappings(m, adds).error == BadArgument("mappings")
    decreases |adds|
  {
    if adds != [] {
      if adds[0].rawSymbol in m {
        ErrorBlamesMappings(m[adds[0].rawSymbol], adds[0].intervals);
      }
      if AbsorbOne(m, adds[0]).Ok? {
        MappingsError(AbsorbOne(m, adds[0]).value, adds[1..]);
      }
    }
  }

  /** The error of merging two says which it was; the headers are looked at first. */
  lemma TwoErrorIs(a: Metadata, b: Metadata)
    requires Absorb(Started(a), b).Err?
    ensures Absorb(Started(a), b).error ==
            BadArgument(if HeadersAgree(a, b) then "mappings" else "additional")
  {
    MappingsError(MapOf(a.mappings), b.mappings);
  }

  // ---------- merging any number of metadata ----------

  /** Merging any number stops at the first header that differs from that of the first metadata, or
      at a conflict before it. */
  lemma {:induction false} MergeErrorIs(st: MergerState, first: Metadata, rest: seq<Metadata>)
    requires SameHeader(st, first) && AbsorbAll(st, rest).Err?
    ensures var e := AbsorbAll(st, rest).error;
            || e == BadArgument("mappings")
            || (e == BadArgument("additional") && exists md :: md in rest && !HeadersAgree(first, md))
    decreases |rest|
  {
    if !SameHeader(st, rest[0]) {
      assert rest[0] in rest;
    } else {
      MappingsError(st.mappings, rest[0].mappings);
      if Absorb(st, rest[0]).Ok? {
        MergeErrorIs(Absorb(st, rest[0]).value, first, rest[1..]);
      }
    }
  }

  /** `x` is an interval of the raw symbol in some of the metadata. */
  ghost predicate IsInput(mds: seq<Metadata>, raw: string, x: Interval) {
    exists md, k :: md in mds && 0 <= k < |md.mappings| && md.mappings[k].rawSymbol == raw
                    && x in md.mappings[k].intervals
  }

  ghost predicate SameOrApart(x: Interval, y: Interval) {
    (x.startDate == y.startDate && x.endDate == y.endDate) || !Overlaps(x, y)
  }

  /** Any two intervals of one raw symbol have the same dates or do not overlap. */
  ghost predicate Aligned(mds: seq<Metadata>) {
    forall raw, x, y :: IsInput(mds, raw, x) && IsInput(mds, raw, y) ==> SameOrApart(x, y)
  }

  /** The state holds disjoint lists of input intervals. */
  ghost predicate HoldsInputs(m: IntervalMap, mds: seq<Metadata>) {
    forall raw :: raw in m ==> ListOfInputs(m[raw], raw, mds)
  }

  ghost predicate ListOfInputs(xs: seq<Interval>, raw: string, mds: seq<Metadata>) {
    NonEmpty(xs) && Disjoint(xs) && forall x :: x in xs ==> IsInput(mds, raw, x)
  }

  lemma {:induction false} AlignedMembers(xs: seq<Interval>, ys: seq<Interval>)
    requires NonEmpty(xs) && NonEmpty(ys) && Merged(xs, ys).Ok?
    requires forall x, y :: x in xs && y in ys ==> SameOrApart(x, y)
    ensures forall z :: z in Merged(xs, ys).value ==> z in xs || z in ys
    decreases |xs| + |ys|
  {
    if xs != [] && ys != [] {
      assert SameOrApart(xs[0], ys[0]);
      match Ordering(xs[0], ys[0]).value
      case Less => AlignedMembers(xs[1..], ys);
      case Greater => AlignedMembers(xs, ys[1..]);
      case Equal => AlignedMembers(xs[1..], ys[1..]);
      case Overlap =>
        assert false;
    }
  }

  lemma AlignedMeetOne(xs: seq<Interval>, ys: seq<Interval>)
    requires NonEmpty(xs) && NonEmpty(ys) && Disjoint(ys)
    requires forall x, y :: x in xs && y in ys ==> SameOrApart(x, y)
    ensures EachMeetsOne(xs, ys)
  {
    forall i, j, k | 0 <= i < |xs| && 0 <= j < k < |ys| ensures !Overlaps(xs[i], ys[j]) || !Overlaps(xs[i], ys[k]) {
      assert SameOrApart(xs[i], ys[j]) && SameOrApart(xs[i], ys[k]);
    }
  }

  /** Aligned lists merge into a disjoint list of their own intervals. */
  lemma MergedInputs(xs: seq<Interval>, ys: seq<Interval>, raw: string, mds: seq<Metadata>)
    requires Aligned(mds) && ListOfInputs(xs, raw, mds) && ListOfInputs(ys, raw, mds) && Merged(xs, ys).Ok?
    ensures ListOfInputs(Merged(xs, ys).value, raw, mds)
  {
    forall x, y | x in xs && y in ys ensures SameOrApart(x, y) && SameOrApart(y, x) {
      assert IsInput(mds, raw, x) && IsInput(mds, raw, y);
    }
    AlignedMeetOne(xs, ys);
    AlignedMeetOne(ys, xs);
    DisjointIffPaired(xs, ys);
    AlignedMembers(xs, ys);
    MergedNonEmpty(xs, ys);
  }

  ghost predicate MappingsOfInputs(ms: seq<Mapping>, mds: seq<Metadata>) {
    forall k :: 0 <= k < |ms| ==> ListOfInputs(ms[k].intervals, ms[k].rawSymbol, mds)
  }

  lemma {:induction false} AbsorbMappingsInputs(m: IntervalMap, adds: seq<Mapping>, mds: seq<Metadata>)
    requires Aligned(mds) && HoldsInputs(m, mds) && MappingsOfInputs(adds, mds) && AbsorbMappings(m, adds).Ok?
    ensures HoldsInputs(AbsorbMappings(m, adds).value, mds)
    decreases |adds|
  {
    if adds != [] {
      if adds[0].rawSymbol in m {
        MergedInputs(m[adds[0].rawSymbol], adds[0].intervals, adds[0].rawSymbol, mds);
      }
      AbsorbMappingsInputs(AbsorbOne(m, adds[0]).value, adds[1..], mds);
    }
  }

  lemma {:induction false} AbsorbAllInputs(st: MergerState, rest: seq<Metadata>, mds: seq<Metadata>)
    requires Aligned(mds) && HoldsInputs(st.mappings, mds)
    requires (forall md :: md in rest ==> MappingsOfInputs(md.mappings, mds)) && AbsorbAll(st, rest).Ok?
    ensures HoldsInputs(AbsorbAll(st, rest).value.mappings, mds)
    decreases |rest|
  {
    if rest != [] {
      AbsorbMappingsInputs(st.mappings, rest[0].mappings, mds);
      AbsorbAllInputs(Absorb(st, rest[0]).value, rest[1..], mds);
    }
  }

  /** A disjoint list has one symbol a day. */
  lemma DisjointIsFunctional(xs: seq<Interval>, d: int, s1: string, s2: string)
    requires Disjoint(xs) && Covers(xs, d, s1) && Covers(xs, d, s2)
    ensures s1 == s2
  {
    var i :| 0 <= i < |xs| && Holds(xs[i], d, s1);
    var j :| 0 <= j < |xs| && Holds(xs[j], d, s2);
    assert i == j;
  }

  ghost predicate DisjointMap(m: IntervalMap) {
    forall raw :: raw in m ==> Disjoint(m[raw])
  }

  /** A merge whose output is disjoint has missed no conflict. */
  lemma DisjointOutputIsConflictFree(mds: seq<Metadata>)
    requires mds != [] && UniqueRawSymbols(mds[0].mappings)
    requires forall md :: md in mds ==> OrderedList(md.mappings)
    requires AbsorbAll(Started(mds[0]), mds[1..]).Ok?
    requires DisjointMap(AbsorbAll(Started(mds[0]), mds[1..]).value.mappings)
    ensures ConflictFree(mds)
  {
    MergeDescribes(mds);
    var st := AbsorbAll(Started(mds[0]), mds[1..]).value;
    forall raw, d, s1, s2 | AnyRel(mds, raw, d, s1) && AnyRel(mds, raw, d, s2) ensures s1 == s2 {
      assert Rel(st.mappings, raw, d, s1) && Rel(st.mappings, raw, d, s2);
      DisjointIsFunctional(st.mappings[raw], d, s1, s2);
    }
  }

  lemma InputsOfMember(mds: seq<Metadata>, md: Metadata)
    requires md in mds && Regular(md.mappings)
    ensures MappingsOfInputs(md.mappings, mds)
  {
  }

  lemma StartedInputs(mds: seq<Metadata>)
    requires mds != [] && Regular(mds[0].mappings)
    ensures HoldsInputs(Started(mds[0]).mappings, mds)
  {
    var ms := mds[0].mappings;
    InputsOfMember(mds, mds[0]);
    forall raw | raw in MapOf(ms) ensures ListOfInputs(MapOf(ms)[raw], raw, mds) {
      MapOfKeys(ms, raw);
    }
  }

  ghost predicate AllHeadersAgree(mds: seq<Metadata>) {
    forall a, b :: a in mds && b in mds ==> HeadersAgree(a, b)
  }

  /** Aligned metadata fails to merge exactly when the headers differ or the mappings conflict. */
  lemma AlignedFailIff(mds: seq<Metadata>)
    requires mds != [] && Aligned(mds) && forall md :: md in mds ==> Regular(md.mappings)
    ensures AbsorbAll(Started(mds[0]), mds[1..]).Err? <==> !AllHeadersAgree(mds) || !ConflictFree(mds)
  {
    assert mds[0] in mds;
    forall md | md in mds ensures MappingsOfInputs(md.mappings, mds) && OrderedList(md.mappings) {
      InputsOfMember(mds, md);
      assert NonEmptyList(md.mappings);
    }
    if AbsorbAll(Started(mds[0]), mds[1..]).Ok? {
      StartedInputs(mds);
      AbsorbAllInputs(Started(mds[0]), mds[1..], mds);
      DisjointOutputIsConflictFree(mds);
      MergeDescribes(mds);
      AgreeThroughState(mds);
    } else if AllHeadersAgree(mds) && ConflictFree(mds) {
      assert Mergeable(mds);
      MergeSucceeds(mds);
    }
  }

  lemma AgreeThroughState(mds: seq<Metadata>)
    requires mds != [] && AbsorbAll(Started(mds[0]), mds[1..]).Ok?
    requires Describes(AbsorbAll(Started(mds[0]), mds[1..]).value, mds)
    ensures AllHeadersAgree(mds)
  {
    var st := AbsorbAll(Started(mds[0]), mds[1..]).value;
    forall a, b | a in mds && b in mds ensures HeadersAgree(a, b) {
      assert SameHeader(st, a) && SameHeader(st, b);
    }
  }
}
