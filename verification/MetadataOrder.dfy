/** What merged metadata means, and that it does not depend on the order of merging. */
module MetadataOrder {
  import opened Common
  import opened MetadataTypes
  import opened IntervalMerge
  import opened MetadataMerge

  /** On day `d` the raw symbol `raw` maps to `sym`. */
  ghost predicate Rel(m: IntervalMap, raw: string, d: int, sym: string) {
    raw in m && Covers(m[raw], d, sym)
  }

  ghost predicate ListRel(ms: seq<Mapping>, raw: string, d: int, sym: string) {
    exists k :: 0 <= k < |ms| && ms[k].rawSymbol == raw && Covers(ms[k].intervals, d, sym)
  }

  ghost predicate AnyRel(mds: seq<Metadata>, raw: string, d: int, sym: string) {
    exists md :: md in mds && ListRel(md.mappings, raw, d, sym)
  }

  ghost predicate OrderedMap(m: IntervalMap) {
    forall raw :: raw in m ==> Ordered(m[raw])
  }

  ghost predicate OrderedList(ms: seq<Mapping>) {
    forall k :: 0 <= k < |ms| ==> Ordered(ms[k].intervals)
  }

  ghost predicate NonEmptyMap(m: IntervalMap) {
    forall raw :: raw in m ==> NonEmpty(m[raw])
  }

  ghost predicate NonEmptyList(ms: seq<Mapping>) {
    forall k :: 0 <= k < |ms| ==> NonEmpty(ms[k].intervals)
  }

  lemma ListRelCons(x: Mapping, ms: seq<Mapping>, raw: string, d: int, sym: string)
    ensures ListRel([x] + ms, raw, d, sym) <==>
            (x.rawSymbol == raw && Covers(x.intervals, d, sym)) || ListRel(ms, raw, d, sym)
  {
    var all := [x] + ms;
    assert all[0] == x && forall k :: 0 <= k < |ms| ==> all[k + 1] == ms[k];
  }

  lemma {:induction false} MapOfKeys(ms: seq<Mapping>, raw: string)
    requires UniqueRawSymbols(ms)
    ensures raw in MapOf(ms) <==> exists k :: 0 <= k < |ms| && ms[k].rawSymbol == raw
    ensures forall k :: 0 <= k < |ms| && ms[k].rawSymbol == raw ==> raw in MapOf(ms) && MapOf(ms)[raw] == ms[k].intervals
  {
    if ms != [] {
      MapOfKeys(ms[..|ms| - 1], raw);
    }
  }

  /** With unique raw symbols, collecting the mappings loses none. */
  lemma MapOfRel(ms: seq<Mapping>, raw: string, d: int, sym: string)
    requires UniqueRawSymbols(ms)
    ensures Rel(MapOf(ms), raw, d, sym) <==> ListRel(ms, raw, d, sym)
  {
    MapOfKeys(ms, raw);
  }

  lemma AbsorbOneRel(m: IntervalMap, add: Mapping, raw: string, d: int, sym: string)
    requires OrderedMap(m) && Ordered(add.intervals) && AbsorbOne(m, add).Ok?
    ensures OrderedMap(AbsorbOne(m, add).value)
    ensures Rel(AbsorbOne(m, add).value, raw, d, sym) <==>
            Rel(m, raw, d, sym) || (add.rawSymbol == raw && Covers(add.intervals, d, sym))
  {
    if add.rawSymbol in m {
      CoverageIsUnion(m[add.rawSymbol], add.intervals, d, sym);
    }
  }

  lemma {:induction false} AbsorbMappingsRel(m: IntervalMap, adds: seq<Mapping>, raw: string, d: int, sym: string)
    requires OrderedMap(m) && OrderedList(adds) && AbsorbMappings(m, adds).Ok?
    ensures OrderedMap(AbsorbMappings(m, adds).value)
    ensures Rel(AbsorbMappings(m, adds).value, raw, d, sym) <==> Rel(m, raw, d, sym) || ListRel(adds, raw, d, sym)
    decreases |adds|
  {
    if adds != [] {
      assert adds == [adds[0]] + adds[1..];
      AbsorbOneRel(m, adds[0], raw, d, sym);
      AbsorbMappingsRel(AbsorbOne(m, adds[0]).value, adds[1..], raw, d, sym);
      ListRelCons(adds[0], adds[1..], raw, d, sym);
    }
  }

  ghost predicate EitherRel(m: IntervalMap, adds: seq<Mapping>, raw: string, d: int, sym: string) {
    Rel(m, raw, d, sym) || ListRel(adds, raw, d, sym)
  }

  /** No raw symbol maps to two symbols on one day. */
  ghost predicate Compatible(m: IntervalMap, adds: seq<Mapping>) {
    forall raw, d, s1, s2 :: EitherRel(m, adds, raw, d, s1) && EitherRel(m, adds, raw, d, s2) ==> s1 == s2
  }

  lemma NonEmptyIsOrdered(m: IntervalMap, adds: seq<Mapping>)
    requires NonEmptyMap(m) && NonEmptyList(adds)
    ensures OrderedMap(m) && OrderedList(adds)
  {
  }

  lemma AbsorbOneSucceeds(m: IntervalMap, adds: seq<Mapping>)
    requires adds != [] && NonEmptyMap(m) && NonEmptyList(adds) && Compatible(m, adds)
    ensures AbsorbOne(m, adds[0]).Ok? && NonEmptyMap(AbsorbOne(m, adds[0]).value)
  {
    var add := adds[0];
    if add.rawSymbol in m {
      var xs := m[add.rawSymbol];
      if Merged(xs, add.intervals).Err? {
        ErrorIsConflict(xs, add.intervals);
        var d, s1, s2 :| s1 != s2 && Covers(xs, d, s1) && Covers(add.intervals, d, s2);
        assert EitherRel(m, adds, add.rawSymbol, d, s1) && EitherRel(m, adds, add.rawSymbol, d, s2);
        assert false;
      } else {
        MergedNonEmpty(xs, add.intervals);
      }
    }
  }

  lemma {:induction false} AbsorbMappingsSucceeds(m: IntervalMap, adds: seq<Mapping>)
    requires NonEmptyMap(m) && NonEmptyList(adds) && Compatible(m, adds)
    ensures AbsorbMappings(m, adds).Ok? && NonEmptyMap(AbsorbMappings(m, adds).value)
    decreases |adds|
  {
    if adds != [] {
      AbsorbOneSucceeds(m, adds);
      var m' := AbsorbOne(m, adds[0]).value;
      assert adds == [adds[0]] + adds[1..];
      NonEmptyIsOrdered(m, adds);
      forall raw, d, s1, s2 | EitherRel(m', adds[1..], raw, d, s1) && EitherRel(m', adds[1..], raw, d, s2)
        ensures s1 == s2
      {
        AbsorbOneRel(m, adds[0], raw, d, s1);
        AbsorbOneRel(m, adds[0], raw, d, s2);
        ListRelCons(adds[0], adds[1..], raw, d, s1);
        ListRelCons(adds[0], adds[1..], raw, d, s2);
        assert EitherRel(m, adds, raw, d, s1) && EitherRel(m, adds, raw, d, s2);
      }
      AbsorbMappingsSucceeds(m', adds[1..]);
    }
  }

  // ---------- what a merge of several metadata is, in terms of which ones went in ----------

  predicate EndLeq(a: Option<NonZeroU64>, b: Option<NonZeroU64>) {
    a.None? || (b.Some? && a.value <= b.value)
  }

  ghost predicate UnionOf(s: set<string>, mds: seq<Metadata>, f: Metadata -> seq<string>) {
    forall x :: x in s <==> exists md :: md in mds && x in f(md)
  }

  ghost predicate DescribesTimes(start: U64, end: Option<NonZeroU64>, mds: seq<Metadata>) {
    && (forall md :: md in mds ==> start <= md.start && EndLeq(md.end, end))
    && (exists md :: md in mds && start == md.start)
    && (exists md :: md in mds && end == md.end)
  }

  ghost predicate DescribesSchema(schema: Option<Schema>, mds: seq<Metadata>) {
    if schema.Some? then forall md :: md in mds ==> md.schema == schema
    else exists a, b :: a in mds && b in mds && (a.schema.None? || a.schema != b.schema)
  }

  ghost predicate DescribesSymbols(symbols: set<string>, partial: set<string>, notFound: set<string>, mds: seq<Metadata>) {
    && UnionOf(symbols, mds, (md: Metadata) => md.symbols)
    && UnionOf(partial, mds, (md: Metadata) => md.partial)
    && UnionOf(notFound, mds, (md: Metadata) => md.notFound)
  }

  ghost predicate DescribesRel(m: IntervalMap, mds: seq<Metadata>) {
    forall raw, d, sym :: Rel(m, raw, d, sym) <==> AnyRel(mds, raw, d, sym)
  }

  /** The state is the merge of exactly the metadata in `mds`: the earliest start, the latest end,
      the schema they share or none, no limit once there are two, the union of the symbol sets, the
      union of the relations. */
  ghost predicate Describes(st: MergerState, mds: seq<Metadata>) {
    && (forall md :: md in mds ==> SameHeader(st, md))
    && DescribesTimes(st.start, st.end, mds) && DescribesSchema(st.schema, mds)
    && DescribesSymbols(st.symbols, st.partial, st.notFound, mds) && DescribesRel(st.mappings, mds)
    && mds != [] && st.limit == if |mds| == 1 then mds[0].limit else None
  }

  lemma StartedDescribes(md: Metadata)
    requires UniqueRawSymbols(md.mappings) && OrderedList(md.mappings)
    ensures Describes(Started(md), [md]) && OrderedMap(Started(md).mappings)
  {
    forall raw, d, sym ensures Rel(MapOf(md.mappings), raw, d, sym) <==> AnyRel([md], raw, d, sym) {
      MapOfRel(md.mappings, raw, d, sym);
      assert md in [md];
    }
    forall raw | raw in MapOf(md.mappings) ensures Ordered(MapOf(md.mappings)[raw]) {
      MapOfKeys(md.mappings, raw);
    }
    assert md in [md];
  }

  lemma UnionStep(s: set<string>, mds: seq<Metadata>, md: Metadata, f: Metadata -> seq<string>)
    requires UnionOf(s, mds, f)
    ensures UnionOf(s + SetOf(f(md)), mds + [md], f)
  {
    assert forall m :: m in mds + [md] <==> m in mds || m == md;
  }

  lemma SymbolsStep(symbols: set<string>, partial: set<string>, notFound: set<string>, mds: seq<Metadata>, md: Metadata)
    requires DescribesSymbols(symbols, partial, notFound, mds)
    ensures DescribesSymbols(symbols + SetOf(md.symbols), partial + SetOf(md.partial), notFound + SetOf(md.notFound),
                             mds + [md])
  {
    UnionStep(symbols, mds, md, (m: Metadata) => m.symbols);
    UnionStep(partial, mds, md, (m: Metadata) => m.partial);
    UnionStep(notFound, mds, md, (m: Metadata) => m.notFound);
  }

  lemma TimesStep(start: U64, end: Option<NonZeroU64>, mds: seq<Metadata>, md: Metadata)
    requires DescribesTimes(start, end, mds)
    ensures DescribesTimes(MinStart(start, md.start), MaxEnd(end, md.end), mds + [md])
  {
    var all := mds + [md];
    assert forall m :: m in all <==> m in mds || m == md;
    var a :| a in mds && start == a.start;
    var b :| b in mds && end == b.end;
    assert a in all && b in all && md in all;
  }

  lemma SchemaStep(schema: Option<Schema>, mds: seq<Metadata>, md: Metadata)
    requires DescribesSchema(schema, mds) && mds != []
    ensures DescribesSchema(if schema != md.schema then None else schema, mds + [md])
  {
    var all := mds + [md];
    assert forall m :: m in all <==> m in mds || m == md;
    if schema.Some? && md.schema != schema {
      assert mds[0] in all && md in all && mds[0].schema != md.schema;
    } else if schema.None? {
      var a, b :| a in mds && b in mds && (a.schema.None? || a.schema != b.schema);
      assert a in all && b in all;
    }
  }

  lemma RelStep(m: IntervalMap, mds: seq<Metadata>, md: Metadata)
    requires DescribesRel(m, mds) && OrderedMap(m) && OrderedList(md.mappings) && AbsorbMappings(m, md.mappings).Ok?
    ensures OrderedMap(AbsorbMappings(m, md.mappings).value)
    ensures DescribesRel(AbsorbMappings(m, md.mappings).value, mds + [md])
  {
    var all := mds + [md];
    assert forall x :: x in all <==> x in mds || x == md;
    AbsorbMappingsRel(m, md.mappings, "", 0, "");
    forall raw, d, sym
      ensures Rel(AbsorbMappings(m, md.mappings).value, raw, d, sym) <==> AnyRel(all, raw, d, sym)
    {
      AbsorbMappingsRel(m, md.mappings, raw, d, sym);
    }
  }

  lemma HeaderStep(st: MergerState, mds: seq<Metadata>, md: Metadata)
    requires (forall m :: m in mds ==> SameHeader(st, m)) && Absorb(st, md).Ok?
    ensures forall m :: m in mds + [md] ==> SameHeader(Absorb(st, md).value, m)
  {
    assert forall m :: m in mds + [md] <==> m in mds || m == md;
  }

  lemma AbsorbDescribes(st: MergerState, mds: seq<Metadata>, md: Metadata)
    requires Describes(st, mds) && OrderedMap(st.mappings) && mds != []
    requires OrderedList(md.mappings) && Absorb(st, md).Ok?
    ensures Describes(Absorb(st, md).value, mds + [md]) && OrderedMap(Absorb(st, md).value.mappings)
  {
    hide DescribesTimes, DescribesSchema, DescribesSymbols, DescribesRel, OrderedMap, OrderedList, AbsorbMappings;
    HeaderStep(st, mds, md);
    TimesStep(st.start, st.end, mds, md);
    SchemaStep(st.schema, mds, md);
    SymbolsStep(st.symbols, st.partial, st.notFound, mds, md);
    RelStep(st.mappings, mds, md);
  }

  lemma {:induction false} AbsorbAllDescribes(st: MergerState, seen: seq<Metadata>, rest: seq<Metadata>)
    requires Describes(st, seen) && OrderedMap(st.mappings) && seen != []
    requires (forall md :: md in rest ==> OrderedList(md.mappings)) && AbsorbAll(st, rest).Ok?
    ensures Describes(AbsorbAll(st, rest).value, seen + rest)
    decreases |rest|
  {
    if rest == [] {
      assert seen + rest == seen;
    } else {
      var next := Absorb(st, rest[0]).value;
      AbsorbDescribes(st, seen, rest[0]);
      assert AbsorbAll(st, rest) == AbsorbAll(next, rest[1..]);
      AbsorbAllDescribes(next, seen + [rest[0]], rest[1..]);
      MoveHead(seen, rest);
    }
  }

  /** A successful merge preserves the union of the relations, and the rest of the metadata. */
  lemma MergeDescribes(mds: seq<Metadata>)
    requires mds != [] && UniqueRawSymbols(mds[0].mappings)
    requires forall md :: md in mds ==> OrderedList(md.mappings)
    requires AbsorbAll(Started(mds[0]), mds[1..]).Ok?
    ensures Describes(AbsorbAll(Started(mds[0]), mds[1..]).value, mds)
  {
    StartedDescribes(mds[0]);
    AbsorbAllDescribes(Started(mds[0]), [mds[0]], mds[1..]);
    assert [mds[0]] + mds[1..] == mds;
  }

  // ---------- merging succeeds, in every order ----------

  predicate HeadersAgree(a: Metadata, b: Metadata) {
    && a.version == b.version && a.dataset == b.dataset && a.stypeIn == b.stypeIn
    && a.stypeOut == b.stypeOut && a.tsOut == b.tsOut && a.symbolCstrLen == b.symbolCstrLen
  }

  ghost predicate ConflictFree(mds: seq<Metadata>) {
    forall raw, d, s1, s2 :: AnyRel(mds, raw, d, s1) && AnyRel(mds, raw, d, s2) ==> s1 == s2
  }

  ghost predicate Mergeable(mds: seq<Metadata>) {
    && (forall md :: md in mds ==> UniqueRawSymbols(md.mappings) && NonEmptyList(md.mappings))
    && (forall a, b :: a in mds && b in mds ==> HeadersAgree(a, b))
    && ConflictFree(mds)
  }

  lemma {:induction false} AbsorbAllSucceeds(st: MergerState, seen: seq<Metadata>, rest: seq<Metadata>)
    requires Mergeable(seen + rest) && seen != []
    requires Describes(st, seen) && NonEmptyMap(st.mappings)
    ensures AbsorbAll(st, rest).Ok?
    decreases |rest|
  {
    if rest != [] {
      var md := rest[0];
      assert md in seen + rest && seen[0] in seen + rest && HeadersAgree(seen[0], md);
      assert SameHeader(st, seen[0]);
      forall raw, d, s1, s2 | EitherRel(st.mappings, md.mappings, raw, d, s1) && EitherRel(st.mappings, md.mappings, raw, d, s2)
        ensures s1 == s2
      {
        EitherIsAny(st, seen, rest, raw, d, s1);
        EitherIsAny(st, seen, rest, raw, d, s2);
      }
      AbsorbMappingsSucceeds(st.mappings, md.mappings);
      NonEmptyIsOrdered(st.mappings, md.mappings);
      AbsorbDescribes(st, seen, md);
      MoveHead(seen, rest);
      AbsorbAllSucceeds(Absorb(st, md).value, seen + [md], rest[1..]);
    }
  }

  lemma EitherIsAny(st: MergerState, seen: seq<Metadata>, rest: seq<Metadata>, raw: string, d: int, sym: string)
    requires DescribesRel(st.mappings, seen) && rest != []
    requires EitherRel(st.mappings, rest[0].mappings, raw, d, sym)
    ensures AnyRel(seen + rest, raw, d, sym)
  {
    if Rel(st.mappings, raw, d, sym) {
      assert AnyRel(seen, raw, d, sym);
      var md :| md in seen && ListRel(md.mappings, raw, d, sym);
      assert md in seen + rest;
    } else {
      assert rest[0] in seen + rest;
    }
  }

  lemma MergeSucceeds(mds: seq<Metadata>)
    requires mds != [] && Mergeable(mds)
    ensures AbsorbAll(Started(mds[0]), mds[1..]).Ok?
    ensures Describes(AbsorbAll(Started(mds[0]), mds[1..]).value, mds)
  {
    assert mds[0] in mds;
    forall raw | raw in MapOf(mds[0].mappings) ensures NonEmpty(MapOf(mds[0].mappings)[raw]) {
      MapOfKeys(mds[0].mappings, raw);
    }
    StartedDescribes(mds[0]);
    assert [mds[0]] + mds[1..] == mds;
    AbsorbAllSucceeds(Started(mds[0]), [mds[0]], mds[1..]);
    MergeDescribes(mds);
  }

  /** Two merges are the same in every field, and in what their mappings mean. */
  ghost predicate SameMeaning(a: MergerState, b: MergerState) {
    && a.version == b.version && a.dataset == b.dataset && a.stypeIn == b.stypeIn && a.stypeOut == b.stypeOut
    && a.tsOut == b.tsOut && a.symbolCstrLen == b.symbolCstrLen
    && a.start == b.start && a.end == b.end && a.limit == b.limit && a.schema == b.schema
    && a.symbols == b.symbols && a.partial == b.partial && a.notFound == b.notFound
    && forall raw, d, sym :: Rel(a.mappings, raw, d, sym) <==> Rel(b.mappings, raw, d, sym)
  }

  lemma DescribedAlike(a: MergerState, b: MergerState, xs: seq<Metadata>, ys: seq<Metadata>)
    requires Describes(a, xs) && Describes(b, ys) && |xs| == |ys| && forall md :: md in xs <==> md in ys
    ensures SameMeaning(a, b)
  {
    assert xs[0] in ys && SameHeader(a, xs[0]) && SameHeader(b, xs[0]);
    assert |xs| == 1 ==> xs[0] == ys[0];
    forall raw, d, sym ensures Rel(a.mappings, raw, d, sym) <==> Rel(b.mappings, raw, d, sym) {
      assert Rel(a.mappings, raw, d, sym) <==> AnyRel(xs, raw, d, sym);
      assert Rel(b.mappings, raw, d, sym) <==> AnyRel(ys, raw, d, sym);
    }
  }

  /** Mergeable metadata merges in every order, to the same meaning. */
  lemma MergeInAnyOrder(xs: seq<Metadata>, ys: seq<Metadata>)
    requires xs != [] && Mergeable(xs) && multiset(xs) == multiset(ys)
    ensures |ys| == |xs|
    ensures AbsorbAll(Started(xs[0]), xs[1..]).Ok? && AbsorbAll(Started(ys[0]), ys[1..]).Ok?
    ensures SameMeaning(AbsorbAll(Started(xs[0]), xs[1..]).value, AbsorbAll(Started(ys[0]), ys[1..]).value)
  {
    assert |multiset(xs)| == |xs| && |multiset(ys)| == |ys|;
    forall md ensures md in xs <==> md in ys {
      assert md in multiset(xs) <==> md in multiset(ys);
    }
    MergeableAlike(xs, ys);
    MergeSucceeds(xs);
    MergeSucceeds(ys);
    DescribedAlike(AbsorbAll(Started(xs[0]), xs[1..]).value, AbsorbAll(Started(ys[0]), ys[1..]).value, xs, ys);
  }

  lemma MergeableAlike(xs: seq<Metadata>, ys: seq<Metadata>)
    requires Mergeable(xs) && forall md :: md in xs <==> md in ys
    ensures Mergeable(ys)
  {
    forall raw, d, s1, s2 | AnyRel(ys, raw, d, s1) && AnyRel(ys, raw, d, s2) ensures s1 == s2 {
      assert AnyRel(xs, raw, d, s1) && AnyRel(xs, raw, d, s2);
    }
  }
}
