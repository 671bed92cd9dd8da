/** Merging the metadata of several files into one. */
module MetadataMerge {
  import opened Common
  import opened MetadataTypes
  import opened IntervalMerge

  type IntervalMap = map<string, seq<Interval>>

  /** The merger's fields as a value. */
  datatype MergerState = MergerState(
    version: U8, dataset: string, schema: Option<Schema>, start: U64, end: Option<NonZeroU64>,
    limit: Option<NonZeroU64>, stypeIn: Option<SType>, stypeOut: SType, tsOut: bool, symbolCstrLen: nat,
    symbols: set<string>, partial: set<string>, notFound: set<string>, mappings: IntervalMap)

  function SetOf(xs: seq<string>): set<string> {
    set x | x in xs
  }

  /** Collecting mappings into a map keeps the last one of each raw symbol. */
  function MapOf(ms: seq<Mapping>): IntervalMap {
    if ms == [] then map[]
    else MapOf(ms[..|ms| - 1])[ms[|ms| - 1].rawSymbol := ms[|ms| - 1].intervals]
  }

  function MinStart(a: U64, b: U64): U64 {
    if b < a then b else a
  }

  /** No end is below every end. */
  function MaxEnd(a: Option<NonZeroU64>, b: Option<NonZeroU64>): Option<NonZeroU64> {
    if a.None? then b else if b.None? then a else if a.value < b.value then b else a
  }

  function Started(md: Metadata): MergerState {
    MergerState(md.version, md.dataset, md.schema, md.start, md.end, md.limit, md.stypeIn, md.stypeOut,
                md.tsOut, md.symbolCstrLen, SetOf(md.symbols), SetOf(md.partial), SetOf(md.notFound),
                MapOf(md.mappings))
  }

  /** The header fields that have to agree. */
  predicate SameHeader(st: MergerState, md: Metadata) {
    && st.version == md.version && st.dataset == md.dataset
    && st.stypeIn == md.stypeIn && st.stypeOut == md.stypeOut
    && st.tsOut == md.tsOut && st.symbolCstrLen == md.symbolCstrLen
  }

  function AbsorbOne(m: IntervalMap, add: Mapping): Result<IntervalMap> {
    if add.rawSymbol !in m then Ok(m[add.rawSymbol := add.intervals])
    else
      var merged :- Merged(m[add.rawSymbol], add.intervals);
      Ok(m[add.rawSymbol := merged])
  }

  function AbsorbMappings(m: IntervalMap, adds: seq<Mapping>): Result<IntervalMap>
    decreases |adds|
  {
    if adds == [] then Ok(m)
    else
      var next :- AbsorbOne(m, adds[0]);
      AbsorbMappings(next, adds[1..])
  }

  /** The fields other than the mappings. */
  function AbsorbFields(st: MergerState, md: Metadata): MergerState {
    st.(schema := if st.schema != md.schema then None else st.schema,
        start := MinStart(st.start, md.start),
        end := MaxEnd(st.end, md.end),
        limit := None,
        symbols := st.symbols + SetOf(md.symbols),
        partial := st.partial + SetOf(md.partial),
        notFound := st.notFound + SetOf(md.notFound))
  }

  function Absorb(st: MergerState, md: Metadata): Result<MergerState> {
    if !SameHeader(st, md) then Err(BadArgument("additional"))
    else
      var mappings :- AbsorbMappings(st.mappings, md.mappings);
      Ok(AbsorbFields(st, md).(mappings := mappings))
  }

  function AbsorbAll(st: MergerState, mds: seq<Metadata>): Result<MergerState>
    decreases |mds|
  {
    if mds == [] then Ok(st)
    else
      var next :- Absorb(st, mds[0]);
      AbsorbAll(next, mds[1..])
  }

  class MetadataMerger {
    var version: U8
    var dataset: string
    var schema: Option<Schema>
    var start: U64
    var end: Option<NonZeroU64>
    var limit: Option<NonZeroU64>
    var stypeIn: Option<SType>
    var stypeOut: SType
    var tsOut: bool
    var symbolCstrLen: nat
    var symbols: set<string>
    var partial: set<string>
    var notFound: set<string>
    var mappings: IntervalMap

    function State(): MergerState
      reads this
    {
      MergerState(version, dataset, schema, start, end, limit, stypeIn, stypeOut, tsOut, symbolCstrLen,
                  symbols, partial, notFound, mappings)
    }

    constructor (original: Metadata)
      ensures State() == Started(original)
    {
      version, dataset, schema := original.version, original.dataset, original.schema;
      start, end, limit := original.start, original.end, original.limit;
      stypeIn, stypeOut, tsOut := original.stypeIn, original.stypeOut, original.tsOut;
      symbolCstrLen := original.symbolCstrLen;
      symbols, partial, notFound := SetOf(original.symbols), SetOf(original.partial), SetOf(original.notFound);
      mappings := MapOf(original.mappings);
    }

    /** Merges `additional` in. On an error the state is only partly updated. */
    method Merge(additional: Metadata) returns (r: Result<()>)
      modifies this
      ensures r.Ok? ==> Absorb(old(State()), additional) == Ok(State())
      ensures r.Err? ==> Absorb(old(State()), additional) == Err(r.error)
    {
      if !SameHeader(State(), additional) {
        return Err(BadArgument("additional"));
      }
      MergeFields(additional);
      r := MergeMappings(additional.mappings);
    }

    method MergeFields(additional: Metadata)
      modifies this
      ensures State() == AbsorbFields(old(State()), additional)
    {
      MergeTimes(additional);
      MergeSymbols(additional);
    }

    method MergeTimes(additional: Metadata)
      modifies this`schema, this`start, this`end, this`limit
      ensures schema == if old(schema) != additional.schema then None else old(schema)
      ensures start == MinStart(old(start), additional.start) && end == MaxEnd(old(end), additional.end)
      ensures limit == None
    {
      schema := if schema != additional.schema then None else schema;
      // several files have no common limit
      start, end, limit := MinStart(start, additional.start), MaxEnd(end, additional.end), None;
    }

    method MergeSymbols(additional: Metadata)
      modifies this`symbols, this`partial, this`notFound
      ensures symbols == old(symbols) + SetOf(additional.symbols)
      ensures partial == old(partial) + SetOf(additional.partial)
      ensures notFound == old(notFound) + SetOf(additional.notFound)
    {
      symbols := symbols + SetOf(additional.symbols);
      partial := partial + SetOf(additional.partial);
      notFound := notFound + SetOf(additional.notFound);
    }

    method MergeMappings(adds: seq<Mapping>) returns (r: Result<()>)
      modifies this`mappings
      ensures State() == old(State()).(mappings := mappings)
      ensures r.Ok? ==> AbsorbMappings(old(mappings), adds) == Ok(mappings)
      ensures r.Err? ==> AbsorbMappings(old(mappings), adds) == Err(r.error)
    {
      assert adds[0..] == adds;
      for i := 0 to |adds|
        invariant State() == old(State()).(mappings := mappings)
        invariant AbsorbMappings(old(mappings), adds) == AbsorbMappings(mappings, adds[i..])
      {
        var add := adds[i];
        assert adds[i..][0] == add && adds[i..][1..] == adds[i + 1..];
        if add.rawSymbol !in mappings {
          mappings := mappings[add.rawSymbol := add.intervals];
        } else {
          var merged := MergeIntervals(mappings[add.rawSymbol], add.intervals);
          if merged.Err? {
            return Err(merged.error);
          }
          mappings := mappings[add.rawSymbol := merged.value];
        }
      }
      r := Ok(());
    }

    /** The order in which a hash map or set is listed is not determined. */
    method Finalize() returns (md: Metadata)
      ensures Lists(md, State())
    {
      var symbolList := ListSet(symbols);
      var partialList := ListSet(partial);
      var notFoundList := ListSet(notFound);
      var mappingList := ListMap(mappings);
      md := Metadata(version, dataset, schema, start, end, limit, stypeIn, stypeOut, tsOut, symbolCstrLen,
                     symbolList, partialList, notFoundList, mappingList);
    }
  }

  ghost predicate NoDuplicates(xs: seq<string>) {
    forall i, j :: 0 <= i < j < |xs| ==> xs[i] != xs[j]
  }

  /** `md` is the state, its sets and its map listed once in some order. */
  ghost predicate Lists(md: Metadata, st: MergerState) {
    && Started(md) == st
    && UniqueRawSymbols(md.mappings)
    && NoDuplicates(md.symbols) && NoDuplicates(md.partial) && NoDuplicates(md.notFound)
  }

  lemma SetOfAppend(xs: seq<string>, x: string)
    ensures SetOf(xs + [x]) == SetOf(xs) + {x}
  {
    assert forall y :: y in xs + [x] <==> y in xs || y == x;
  }

  lemma MapOfAppend(ms: seq<Mapping>, raw: string, xs: seq<Interval>)
    ensures MapOf(ms + [SymbolMapping(raw, xs)]) == MapOf(ms)[raw := xs]
  {
    assert (ms + [SymbolMapping(raw, xs)])[..|ms|] == ms;
  }

  method ListSet(s: set<string>) returns (xs: seq<string>)
    ensures SetOf(xs) == s && NoDuplicates(xs)
  {
    xs := [];
    var rest := s;
    while rest != {}
      invariant rest <= s && SetOf(xs) == s - rest && NoDuplicates(xs)
      decreases |rest|
    {
      var x :| x in rest;
      assert x !in SetOf(xs);
      SetOfAppend(xs, x);
      xs, rest := xs + [x], rest - {x};
    }
  }

  /** The list has one mapping for each entry of the map. */
  ghost predicate Enumerates(ms: seq<Mapping>, m: IntervalMap) {
    && UniqueRawSymbols(ms) && MapOf(ms) == m
    && forall i :: 0 <= i < |ms| ==> ms[i].rawSymbol in m
  }

  /** The entries of `m` other than those of `rest`. */
  ghost predicate IsPart(done: IntervalMap, m: IntervalMap, rest: set<string>) {
    && rest <= m.Keys && done.Keys == m.Keys - rest
    && forall raw :: raw in done ==> done[raw] == m[raw]
  }

  lemma PartOneMore(done: IntervalMap, m: IntervalMap, rest: set<string>, raw: string)
    requires IsPart(done, m, rest) && raw in rest
    ensures raw in m && raw !in done && IsPart(done[raw := m[raw]], m, rest - {raw})
  {
  }

  lemma PartIsAll(done: IntervalMap, m: IntervalMap)
    requires IsPart(done, m, {})
    ensures done == m
  {
  }

  lemma EnumeratesAll(ms: seq<Mapping>, m: IntervalMap)
    requires Enumerates(ms, m)
    ensures MapOf(ms) == m && UniqueRawSymbols(ms)
  {
  }

  lemma EnumerateOneMore(ms: seq<Mapping>, m: IntervalMap, raw: string, xs: seq<Interval>)
    requires Enumerates(ms, m) && raw !in m
    ensures Enumerates(ms + [SymbolMapping(raw, xs)], m[raw := xs])
  {
    MapOfAppend(ms, raw, xs);
  }

  method ListMap(m: IntervalMap) returns (ms: seq<Mapping>)
    ensures MapOf(ms) == m && UniqueRawSymbols(ms)
  {
    ms := [];
    var rest := m.Keys;
    ghost var done: IntervalMap := map[];
    assert Enumerates(ms, done) && IsPart(done, m, rest);
    hide Enumerates, IsPart, MapOf, UniqueRawSymbols;
    while rest != {}
      invariant Enumerates(ms, done) && IsPart(done, m, rest)
      decreases |rest|
    {
      var raw :| raw in rest;
      PartOneMore(done, m, rest, raw);
      EnumerateOneMore(ms, done, raw, m[raw]);
      ms, rest := ms + [SymbolMapping(raw, m[raw])], rest - {raw};
      done := done[raw := m[raw]];
    }
    PartIsAll(done, m);
    EnumeratesAll(ms, m);
  }

  /** Merges `others` into `first`, one after the other. */
  method MergeAll(first: Metadata, others: seq<Metadata>) returns (r: Result<Metadata>)
    ensures r.Ok? ==> AbsorbAll(Started(first), others).Ok? && Lists(r.value, AbsorbAll(Started(first), others).value)
    ensures r.Err? ==> AbsorbAll(Started(first), others) == Err(r.error)
  {
    var merger := new MetadataMerger(first);
    assert others[0..] == others;
    for i := 0 to |others|
      invariant AbsorbAll(Started(first), others) == AbsorbAll(merger.State(), others[i..])
    {
      assert others[i..][0] == others[i] && others[i..][1..] == others[i + 1..];
      var merged := merger.Merge(others[i]);
      if merged.Err? {
        return Err(merged.error);
      }
    }
    var md := merger.Finalize();
    r := Ok(md);
  }
}
