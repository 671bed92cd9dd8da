/** The symbol map of merged metadata is the union of the symbol maps that went in. */
module MergedSymbols {
  import opened Common
  import opened MetadataTypes
  import opened IntervalMerge
  import opened MetadataMerge
  import opened MetadataOrder
  import opened SymbolMaps

  /** On day `d` the raw symbol has the instrument ID `id`. */
  ghost predicate HasId(ms: seq<Mapping>, raw: string, d: int, id: U32) {
    exists sym :: sym != "" && ParseU32(sym) == Ok(id) && ListRel(ms, raw, d, sym)
  }

  ghost predicate GoodInterval(x: Interval) {
    x.symbol != "" ==> ParseU32(x.symbol).Ok? && x.startDate <= x.endDate
  }

  ghost predicate GoodMappings(ms: seq<Mapping>) {
    forall k :: 0 <= k < |ms| ==> forall i :: 0 <= i < |ms[k].intervals| ==> GoodInterval(ms[k].intervals[i])
  }

  lemma {:induction false} AddIntervalsOkIff(m: TsEntries, raw: string, xs: seq<Interval>)
    ensures AddIntervals(m, false, raw, xs).Ok? <==> forall i :: 0 <= i < |xs| ==> GoodInterval(xs[i])
    decreases |xs|
  {
    if xs != [] {
      var next := AddInterval(m, false, raw, xs[0]);
      assert next.Ok? <==> GoodInterval(xs[0]);
      if next.Ok? {
        AddIntervalsOkIff(next.value, raw, xs[1..]);
        assert forall i :: 0 < i < |xs| ==> xs[i] == xs[1..][i - 1];
      }
    }
  }

  /** With IDs as the output symbols, building the map fails exactly on a symbol that is no ID or
      a range that ends before it starts. */
  lemma {:induction false} AddMappingsOkIff(m: TsEntries, ms: seq<Mapping>)
    ensures AddMappings(m, false, ms).Ok? <==> GoodMappings(ms)
    decreases |ms|
  {
    if ms != [] {
      AddIntervalsOkIff(m, ms[0].rawSymbol, ms[0].intervals);
      var next := AddMapping(m, false, ms[0]);
      if next.Ok? {
        AddMappingsOkIff(next.value, ms[1..]);
        assert forall k :: 0 < k < |ms| ==> ms[k] == ms[1..][k - 1];
      }
    }
  }

  /** The interval maps the day to the ID. */
  ghost predicate GivesId(x: Interval, d: int, id: U32) {
    x.symbol != "" && ParseU32(x.symbol) == Ok(id) && OnDay(x, d)
  }

  ghost predicate SomeGivesId(xs: seq<Interval>, d: int, id: U32) {
    exists i :: 0 <= i < |xs| && GivesId(xs[i], d, id)
  }

  lemma {:induction false} AddIntervalsLookup(m: TsEntries, raw: string, xs: seq<Interval>, d: int, id: U32)
    requires AddIntervals(m, false, raw, xs).Ok?
    ensures Lookup(AddIntervals(m, false, raw, xs).value, d, id) ==
            if SomeGivesId(xs, d, id) then Some(raw) else Lookup(m, d, id)
    decreases |xs|
  {
    if xs != [] {
      var next := AddInterval(m, false, raw, xs[0]).value;
      assert Lookup(next, d, id) == if GivesId(xs[0], d, id) then Some(raw) else Lookup(m, d, id);
      AddIntervalsLookup(next, raw, xs[1..], d, id);
      assert forall i :: 0 < i < |xs| ==> xs[i] == xs[1..][i - 1];
      assert SomeGivesId(xs, d, id) <==> GivesId(xs[0], d, id) || SomeGivesId(xs[1..], d, id);
    }
  }

  lemma GivesIdIsHasId(ms: seq<Mapping>, raw: string, d: int, id: U32)
    ensures HasId(ms, raw, d, id) <==>
            exists k :: 0 <= k < |ms| && ms[k].rawSymbol == raw && SomeGivesId(ms[k].intervals, d, id)
  {
    if HasId(ms, raw, d, id) {
      var sym :| sym != "" && ParseU32(sym) == Ok(id) && ListRel(ms, raw, d, sym);
      var k :| 0 <= k < |ms| && ms[k].rawSymbol == raw && Covers(ms[k].intervals, d, sym);
      var i :| 0 <= i < |ms[k].intervals| && Holds(ms[k].intervals[i], d, sym);
      assert GivesId(ms[k].intervals[i], d, id);
    }
    if k :| 0 <= k < |ms| && ms[k].rawSymbol == raw && SomeGivesId(ms[k].intervals, d, id) {
      var i :| 0 <= i < |ms[k].intervals| && GivesId(ms[k].intervals[i], d, id);
      var sym := ms[k].intervals[i].symbol;
      assert Holds(ms[k].intervals[i], d, sym);
      assert Covers(ms[k].intervals, d, sym);
    }
  }

  /** A lookup finds a raw symbol with that ID on that day, and one whenever there is one. */
  lemma {:induction false} AddMappingsLookup(m: TsEntries, ms: seq<Mapping>, d: int, id: U32)
    requires AddMappings(m, false, ms).Ok?
    ensures var found := Lookup(AddMappings(m, false, ms).value, d, id);
            found == Lookup(m, d, id) || (found.Some? && HasId(ms, found.value, d, id))
    ensures forall raw :: HasId(ms, raw, d, id) ==>
              var found := Lookup(AddMappings(m, false, ms).value, d, id);
              found.Some? && HasId(ms, found.value, d, id)
    decreases |ms|
  {
    if ms != [] {
      var x := ms[0];
      assert ms == [x] + ms[1..];
      var next := AddMapping(m, false, x).value;
      AddIntervalsLookup(m, x.rawSymbol, x.intervals, d, id);
      AddMappingsLookup(next, ms[1..], d, id);
      forall raw
        ensures HasId(ms, raw, d, id) <==>
                (x.rawSymbol == raw && SomeGivesId(x.intervals, d, id)) || HasId(ms[1..], raw, d, id)
      {
        HasIdCons(x, ms[1..], raw, d, id);
      }
    }
  }

  lemma HasIdCons(x: Mapping, ms: seq<Mapping>, raw: string, d: int, id: U32)
    ensures HasId([x] + ms, raw, d, id) <==>
            (x.rawSymbol == raw && SomeGivesId(x.intervals, d, id)) || HasId(ms, raw, d, id)
  {
    var all := [x] + ms;
    GivesIdIsHasId(all, raw, d, id);
    GivesIdIsHasId(ms, raw, d, id);
    assert all[0] == x && forall k :: 0 <= k < |ms| ==> all[k + 1] == ms[k];
    assert forall k :: 0 < k < |all| ==> all[k] == ms[k - 1];
  }

  /** No two raw symbols share an ID on one day, across all the metadata. */
  ghost predicate IdsUnshared(mds: seq<Metadata>) {
    forall a, b, raw1, raw2, d, id: U32 ::
      a in mds && b in mds && HasId(a.mappings, raw1, d, id) && HasId(b.mappings, raw2, d, id) ==> raw1 == raw2
  }

  ghost predicate Unshared(ms: seq<Mapping>) {
    forall raw1, raw2, d, id: U32 :: HasId(ms, raw1, d, id) && HasId(ms, raw2, d, id) ==> raw1 == raw2
  }

  lemma LookupIffHasId(md: Metadata, d: int, id: U32, raw: string)
    requires md.stypeOut == InstrumentId && TsOf(md).Ok? && Unshared(md.mappings)
    ensures Lookup(TsOf(md).value, d, id) == Some(raw) <==> HasId(md.mappings, raw, d, id)
  {
    AddMappingsLookup(map[], md.mappings, d, id);
  }

  lemma {:induction false} AbsorbMappingsNonEmpty(m: IntervalMap, adds: seq<Mapping>)
    requires NonEmptyMap(m) && NonEmptyList(adds) && AbsorbMappings(m, adds).Ok?
    ensures NonEmptyMap(AbsorbMappings(m, adds).value)
    decreases |adds|
  {
    if adds != [] {
      if adds[0].rawSymbol in m {
        MergedNonEmpty(m[adds[0].rawSymbol], adds[0].intervals);
      }
      AbsorbMappingsNonEmpty(AbsorbOne(m, adds[0]).value, adds[1..]);
    }
  }

  lemma {:induction false} AbsorbAllNonEmpty(st: MergerState, mds: seq<Metadata>)
    requires NonEmptyMap(st.mappings) && (forall md :: md in mds ==> NonEmptyList(md.mappings))
    requires AbsorbAll(st, mds).Ok?
    ensures NonEmptyMap(AbsorbAll(st, mds).value.mappings)
    decreases |mds|
  {
    if mds != [] {
      AbsorbMappingsNonEmpty(st.mappings, mds[0].mappings);
      AbsorbAllNonEmpty(Absorb(st, mds[0]).value, mds[1..]);
    }
  }

  /** What the inputs of the theorem below have to satisfy. */
  ghost predicate Inputs(mds: seq<Metadata>) {
    && mds != []
    && (forall md :: md in mds ==> md.stypeOut == InstrumentId && TsOf(md).Ok?)
    && (forall md :: md in mds ==> UniqueRawSymbols(md.mappings) && NonEmptyList(md.mappings))
    && IdsUnshared(mds)
    && AbsorbAll(Started(mds[0]), mds[1..]).Ok?
  }

  /** The merged metadata has a raw symbol's ID on a day exactly when some input has it. */
  lemma MergedHasId(mds: seq<Metadata>, merged: Metadata, raw: string, d: int, id: U32)
    requires Inputs(mds) && Lists(merged, AbsorbAll(Started(mds[0]), mds[1..]).value)
    ensures HasId(merged.mappings, raw, d, id) <==> exists md :: md in mds && HasId(md.mappings, raw, d, id)
  {
    MergedRel(mds, merged);
    if HasId(merged.mappings, raw, d, id) {
      var sym :| sym != "" && ParseU32(sym) == Ok(id) && ListRel(merged.mappings, raw, d, sym);
      var md :| md in mds && ListRel(md.mappings, raw, d, sym);
      assert HasId(md.mappings, raw, d, id);
    }
    if md :| md in mds && HasId(md.mappings, raw, d, id) {
      var sym :| sym != "" && ParseU32(sym) == Ok(id) && ListRel(md.mappings, raw, d, sym);
      assert AnyRel(mds, raw, d, sym);
    }
  }

  lemma MergedRel(mds: seq<Metadata>, merged: Metadata)
    requires Inputs(mds) && Lists(merged, AbsorbAll(Started(mds[0]), mds[1..]).value)
    ensures forall raw, d, sym :: ListRel(merged.mappings, raw, d, sym) <==> AnyRel(mds, raw, d, sym)
    ensures NonEmptyList(merged.mappings) && merged.stypeOut == InstrumentId
  {
    var st := AbsorbAll(Started(mds[0]), mds[1..]).value;
    assert mds[0] in mds;
    forall md | md in mds ensures OrderedList(md.mappings) {
      assert NonEmptyList(md.mappings);
    }
    MergeDescribes(mds);
    assert SameHeader(st, mds[0]);
    forall raw, d, sym ensures ListRel(merged.mappings, raw, d, sym) <==> AnyRel(mds, raw, d, sym) {
      MapOfRel(merged.mappings, raw, d, sym);
    }
    forall raw | raw in MapOf(mds[0].mappings) ensures NonEmpty(MapOf(mds[0].mappings)[raw]) {
      MapOfKeys(mds[0].mappings, raw);
    }
    AbsorbAllNonEmpty(Started(mds[0]), mds[1..]);
    forall k | 0 <= k < |merged.mappings| ensures NonEmpty(merged.mappings[k].intervals) {
      MapOfKeys(merged.mappings, merged.mappings[k].rawSymbol);
    }
  }

  /** Every symbol of the merged metadata comes from an input, so that it is an ID. */
  lemma MergedBuilds(mds: seq<Metadata>, merged: Metadata)
    requires Inputs(mds) && Lists(merged, AbsorbAll(Started(mds[0]), mds[1..]).value)
    ensures TsOf(merged).Ok?
  {
    MergedRel(mds, merged);
    forall k, i | 0 <= k < |merged.mappings| && 0 <= i < |merged.mappings[k].intervals|
      ensures GoodInterval(merged.mappings[k].intervals[i])
    {
      var mapping := merged.mappings[k];
      var x := mapping.intervals[i];
      assert NonEmpty(mapping.intervals);
      assert Holds(x, x.startDate, x.symbol) && Covers(mapping.intervals, x.startDate, x.symbol);
      assert ListRel(merged.mappings, mapping.rawSymbol, x.startDate, x.symbol);
      var md :| md in mds && ListRel(md.mappings, mapping.rawSymbol, x.startDate, x.symbol);
      AddMappingsOkIff(map[], md.mappings);
    }
    AddMappingsOkIff(map[], merged.mappings);
  }

  /** The symbol map of the merged metadata exists and is the union of the inputs' symbol maps. */
  lemma MergedMapIsUnion(mds: seq<Metadata>, merged: Metadata, d: int, id: U32, raw: string)
    requires Inputs(mds) && Lists(merged, AbsorbAll(Started(mds[0]), mds[1..]).value)
    ensures TsOf(merged).Ok?
    ensures Lookup(TsOf(merged).value, d, id) == Some(raw) <==>
            exists md :: md in mds && Lookup(TsOf(md).value, d, id) == Some(raw)
  {
    MergedBuilds(mds, merged);
    MergedRel(mds, merged);
    forall raw1, raw2, d', id': U32 | HasId(merged.mappings, raw1, d', id') && HasId(merged.mappings, raw2, d', id')
      ensures raw1 == raw2
    {
      MergedHasId(mds, merged, raw1, d', id');
      MergedHasId(mds, merged, raw2, d', id');
    }
    LookupIffHasId(merged, d, id, raw);
    MergedHasId(mds, merged, raw, d, id);
    forall md | md in mds ensures Lookup(TsOf(md).value, d, id) == Some(raw) <==> HasId(md.mappings, raw, d, id) {
      assert Unshared(md.mappings);
      LookupIffHasId(md, d, id, raw);
    }
  }
}
