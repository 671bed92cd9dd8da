/** What lookups in the two symbol maps find, and when the maps can be built, in terms of the texts
    in the metadata. */
module SymbolLookups {
  import opened Common
  import opened Digits
  import opened MetadataTypes
  import opened SymbolMaps

  /** The text of the instrument ID: the interval's symbol, or the raw symbol when the query was
      for IDs. */
  function IdText(md: Metadata, raw: string, x: Interval): string {
    if md.stypeOut == InstrumentId then x.symbol else raw
  }

  function NameText(md: Metadata, raw: string, x: Interval): string {
    if md.stypeOut == InstrumentId then raw else x.symbol
  }

  /** The interval gives the ID its name on the day. */
  ghost predicate Gives(md: Metadata, raw: string, x: Interval, d: int, id: U32) {
    x.symbol != "" && x.startDate <= d < x.endDate && Denotes(IdText(md, raw, x), id)
  }

  ghost predicate SomeGives(md: Metadata, raw: string, xs: seq<Interval>, d: int, id: U32) {
    exists j :: 0 <= j < |xs| && Gives(md, raw, xs[j], d, id)
  }

  ghost predicate AnyGives(md: Metadata, ms: seq<Mapping>, d: int, id: U32) {
    exists i :: 0 <= i < |ms| && SomeGives(md, ms[i].rawSymbol, ms[i].intervals, d, id)
  }

  ghost predicate IsLastIn(md: Metadata, raw: string, xs: seq<Interval>, j: nat, d: int, id: U32) {
    && j < |xs| && Gives(md, raw, xs[j], d, id)
    && forall k :: j < k < |xs| ==> !Gives(md, raw, xs[k], d, id)
  }

  /** Interval `j` of mapping `i` is the last to give the ID a name on the day. */
  ghost predicate IsLast(md: Metadata, ms: seq<Mapping>, i: nat, j: nat, d: int, id: U32) {
    && i < |ms| && IsLastIn(md, ms[i].rawSymbol, ms[i].intervals, j, d, id)
    && forall k :: i < k < |ms| ==> !SomeGives(md, ms[k].rawSymbol, ms[k].intervals, d, id)
  }

  // ---------- the timeseries map ----------

  lemma AddIntervalFinds(md: Metadata, m: TsEntries, raw: string, x: Interval, d: int, id: U32)
    requires IsInverse(md).Ok? && AddInterval(m, IsInverse(md).value, raw, x).Ok?
    ensures Lookup(AddInterval(m, IsInverse(md).value, raw, x).value, d, id) ==
            if Gives(md, raw, x, d, id) then Some(NameText(md, raw, x)) else Lookup(m, d, id)
  {
    ParseU32Iff(IdText(md, raw, x), id);
  }

  lemma {:induction false} AddIntervalsNone(md: Metadata, m: TsEntries, raw: string, xs: seq<Interval>, d: int, id: U32)
    requires IsInverse(md).Ok? && AddIntervals(m, IsInverse(md).value, raw, xs).Ok?
    requires !SomeGives(md, raw, xs, d, id)
    ensures Lookup(AddIntervals(m, IsInverse(md).value, raw, xs).value, d, id) == Lookup(m, d, id)
    decreases |xs|
  {
    if xs != [] {
      AddIntervalFinds(md, m, raw, xs[0], d, id);
      assert forall k :: 0 <= k < |xs| - 1 ==> xs[1..][k] == xs[k + 1];
      AddIntervalsNone(md, AddInterval(m, IsInverse(md).value, raw, xs[0]).value, raw, xs[1..], d, id);
    }
  }

  lemma LastInTail(md: Metadata, raw: string, xs: seq<Interval>, j: nat, d: int, id: U32)
    requires IsLastIn(md, raw, xs, j, d, id)
    ensures xs != [] && j < |xs|
    ensures if j == 0 then Gives(md, raw, xs[0], d, id) && !SomeGives(md, raw, xs[1..], d, id)
            else IsLastIn(md, raw, xs[1..], j - 1, d, id) && xs[1..][j - 1] == xs[j]
  {
    hide Gives;
    assert forall k :: 0 <= k < |xs| - 1 ==> xs[1..][k] == xs[k + 1];
  }

  lemma {:induction false} AddIntervalsLast(md: Metadata, m: TsEntries, raw: string, xs: seq<Interval>, j: nat,
                                             d: int, id: U32)
    requires IsInverse(md).Ok? && AddIntervals(m, IsInverse(md).value, raw, xs).Ok?
    requires IsLastIn(md, raw, xs, j, d, id)
    ensures Lookup(AddIntervals(m, IsInverse(md).value, raw, xs).value, d, id) == Some(NameText(md, raw, xs[j]))
    decreases |xs|
  {
    hide IsLastIn, SomeGives, Gives, Lookup, AddInterval, NameText;
    LastInTail(md, raw, xs, j, d, id);
    var next := AddInterval(m, IsInverse(md).value, raw, xs[0]).value;
    AddIntervalFinds(md, m, raw, xs[0], d, id);
    if j == 0 {
      AddIntervalsNone(md, next, raw, xs[1..], d, id);
    } else {
      AddIntervalsLast(md, next, raw, xs[1..], j - 1, d, id);
    }
  }

  lemma {:induction false} AddMappingsNone(md: Metadata, m: TsEntries, ms: seq<Mapping>, d: int, id: U32)
    requires IsInverse(md).Ok? && AddMappings(m, IsInverse(md).value, ms).Ok?
    requires !AnyGives(md, ms, d, id)
    ensures Lookup(AddMappings(m, IsInverse(md).value, ms).value, d, id) == Lookup(m, d, id)
    decreases |ms|
  {
    if ms != [] {
      AddIntervalsNone(md, m, ms[0].rawSymbol, ms[0].intervals, d, id);
      assert forall k :: 0 <= k < |ms| - 1 ==> ms[1..][k] == ms[k + 1];
      AddMappingsNone(md, AddMapping(m, IsInverse(md).value, ms[0]).value, ms[1..], d, id);
    }
  }

  lemma LastTail(md: Metadata, ms: seq<Mapping>, i: nat, j: nat, d: int, id: U32)
    requires IsLast(md, ms, i, j, d, id)
    ensures ms != [] && i < |ms| && j < |ms[i].intervals|
    ensures if i == 0 then IsLastIn(md, ms[0].rawSymbol, ms[0].intervals, j, d, id) && !AnyGives(md, ms[1..], d, id)
            else IsLast(md, ms[1..], i - 1, j, d, id) && ms[1..][i - 1] == ms[i]
  {
    hide SomeGives;
    assert forall k :: 0 <= k < |ms| - 1 ==> ms[1..][k] == ms[k + 1];
  }

  lemma {:induction false} AddMappingsLast(md: Metadata, m: TsEntries, ms: seq<Mapping>, i: nat, j: nat, d: int, id: U32)
    requires IsInverse(md).Ok? && AddMappings(m, IsInverse(md).value, ms).Ok?
    requires IsLast(md, ms, i, j, d, id)
    ensures Lookup(AddMappings(m, IsInverse(md).value, ms).value, d, id) ==
            Some(NameText(md, ms[i].rawSymbol, ms[i].intervals[j]))
    decreases |ms|
  {
    hide IsLast, AnyGives, IsLastIn, SomeGives, Lookup, NameText;
    LastTail(md, ms, i, j, d, id);
    var next := AddMapping(m, IsInverse(md).value, ms[0]).value;
    if i == 0 {
      AddIntervalsLast(md, m, ms[0].rawSymbol, ms[0].intervals, j, d, id);
      AddMappingsNone(md, next, ms[1..], d, id);
    } else {
      AddMappingsLast(md, next, ms[1..], i - 1, j, d, id);
    }
  }

  /** The last of the first `n` intervals that gives the ID a name, if one does. */
  lemma {:induction false} LastGiving(md: Metadata, raw: string, xs: seq<Interval>, n: nat, d: int, id: U32)
    returns (j: nat)
    requires n <= |xs|
    ensures || (forall k :: 0 <= k < n ==> !Gives(md, raw, xs[k], d, id))
            || (j < n && Gives(md, raw, xs[j], d, id) && forall k :: j < k < n ==> !Gives(md, raw, xs[k], d, id))
  {
    hide Gives;
    if n == 0 {
      return 0;
    }
    if Gives(md, raw, xs[n - 1], d, id) {
      return n - 1;
    }
    j := LastGiving(md, raw, xs, n - 1, d, id);
  }

  lemma {:induction false} LastMapping(md: Metadata, ms: seq<Mapping>, n: nat, d: int, id: U32) returns (i: nat)
    requires n <= |ms|
    ensures || (forall k :: 0 <= k < n ==> !SomeGives(md, ms[k].rawSymbol, ms[k].intervals, d, id))
            || (i < n && SomeGives(md, ms[i].rawSymbol, ms[i].intervals, d, id)
                && forall k :: i < k < n ==> !SomeGives(md, ms[k].rawSymbol, ms[k].intervals, d, id))
  {
    hide SomeGives;
    if n == 0 {
      return 0;
    }
    if SomeGives(md, ms[n - 1].rawSymbol, ms[n - 1].intervals, d, id) {
      return n - 1;
    }
    i := LastMapping(md, ms, n - 1, d, id);
  }

  lemma LastExists(md: Metadata, ms: seq<Mapping>, d: int, id: U32) returns (i: nat, j: nat)
    ensures AnyGives(md, ms, d, id) ==> IsLast(md, ms, i, j, d, id)
  {
    hide Gives;
    i := LastMapping(md, ms, |ms|, d, id);
    j := 0;
    if AnyGives(md, ms, d, id) {
      j := LastGiving(md, ms[i].rawSymbol, ms[i].intervals, |ms[i].intervals|, d, id);
    }
  }

  /** A lookup finds a name exactly when some interval gives the ID one on that day, and then that
      of the last such interval of the last such mapping. */
  lemma LookupIsLast(md: Metadata, d: int, id: U32)
    requires TsOf(md).Ok?
    ensures var found := Lookup(TsOf(md).value, d, id);
            && (found.Some? <==> AnyGives(md, md.mappings, d, id))
            && (found.Some? ==>
                  exists i: nat, j: nat :: IsLast(md, md.mappings, i, j, d, id)
                                           && found.value == NameText(md, md.mappings[i].rawSymbol,
                                                                      md.mappings[i].intervals[j]))
  {
    if AnyGives(md, md.mappings, d, id) {
      var i, j := LastExists(md, md.mappings, d, id);
      AddMappingsLast(md, map[], md.mappings, i, j, d, id);
    } else {
      AddMappingsNone(md, map[], md.mappings, d, id);
    }
  }

  /** An interval over the day whose symbol is the decimal text of the ID: the lookup is its raw
      symbol, unless a later one gives the same ID on that day. */
  lemma LookupById(md: Metadata, i: nat, j: nat, d: int, id: U32)
    requires md.stypeOut == InstrumentId && TsOf(md).Ok?
    requires i < |md.mappings| && j < |md.mappings[i].intervals|
    requires var x := md.mappings[i].intervals[j]; x.symbol == ToDecimal(id) && x.startDate <= d < x.endDate
    requires forall k :: j < k < |md.mappings[i].intervals| ==>
               !Gives(md, md.mappings[i].rawSymbol, md.mappings[i].intervals[k], d, id)
    requires forall k :: i < k < |md.mappings| ==>
               !SomeGives(md, md.mappings[k].rawSymbol, md.mappings[k].intervals, d, id)
    ensures Lookup(TsOf(md).value, d, id) == Some(md.mappings[i].rawSymbol)
  {
    ParseU32Decimal(id);
    ParseU32Iff(ToDecimal(id), id);
    assert IsLast(md, md.mappings, i, j, d, id);
    AddMappingsLast(md, map[], md.mappings, i, j, d, id);
  }

  // ---------- the snapshot of one day ----------

  /** The first interval that covers the day. */
  ghost predicate IsFirstOn(xs: seq<Interval>, j: nat, d: int) {
    && j < |xs| && xs[j].startDate <= d < xs[j].endDate
    && forall k :: 0 <= k < j ==> !(xs[k].startDate <= d < xs[k].endDate)
  }

  /** The first interval that covers the day gives the ID a name. */
  ghost predicate DayGives(md: Metadata, mapping: Mapping, j: nat, d: int, id: U32) {
    IsFirstOn(mapping.intervals, j, d) && Gives(md, mapping.rawSymbol, mapping.intervals[j], d, id)
  }

  /** Mapping `i` is the last of which that is true. */
  ghost predicate IsLastOnDay(md: Metadata, ms: seq<Mapping>, i: nat, j: nat, d: int, id: U32) {
    && i < |ms| && DayGives(md, ms[i], j, d, id)
    && forall k :: i < k < |ms| ==> !SomeDayGives(md, ms[k], d, id)
  }

  ghost predicate SomeDayGives(md: Metadata, mapping: Mapping, d: int, id: U32) {
    exists j: nat :: DayGives(md, mapping, j, d, id)
  }

  function PitLookup(m: PitEntries, id: U32): Option<string> {
    if id in m then Some(m[id]) else None
  }

  lemma AddOnDayFinds(md: Metadata, m: PitEntries, mapping: Mapping, d: int, id: U32)
    requires IsInverse(md).Ok? && AddOnDay(m, IsInverse(md).value, mapping, d).Ok?
    ensures var found := PitLookup(AddOnDay(m, IsInverse(md).value, mapping, d).value, id);
            && (!SomeDayGives(md, mapping, d, id) ==> found == PitLookup(m, id))
            && forall j: nat :: DayGives(md, mapping, j, d, id) ==>
                  found == Some(NameText(md, mapping.rawSymbol, mapping.intervals[j]))
  {
    hide IsFirstOn, FindDay, ParseU32, Denotes;
    var found := FindFirst(mapping.intervals, d);
    if found.Some? {
      FirstCovers(mapping.intervals, found.value, d);
      ParseU32Iff(IdText(md, mapping.rawSymbol, mapping.intervals[found.value]), id);
      forall j: nat | DayGives(md, mapping, j, d, id) ensures j == found.value {
        FirstIsUnique(mapping.intervals, j, found.value, d);
      }
      assert Gives(md, mapping.rawSymbol, mapping.intervals[found.value], d, id) ==>
          DayGives(md, mapping, found.value, d, id);
    }
  }

  lemma FirstCovers(xs: seq<Interval>, j: nat, d: int)
    requires IsFirstOn(xs, j, d)
    ensures j < |xs| && xs[j].startDate <= d < xs[j].endDate
  {
  }

  lemma FirstIsUnique(xs: seq<Interval>, i: nat, j: nat, d: int)
    requires IsFirstOn(xs, i, d) && IsFirstOn(xs, j, d)
    ensures i == j
  {
  }

  /** Where `FindDay` finds it. */
  lemma {:induction false} FindFirst(xs: seq<Interval>, d: int) returns (found: Option<nat>)
    ensures found.None? ==> FindDay(xs, d).None? && forall j: nat :: !IsFirstOn(xs, j, d)
    ensures found.Some? ==> IsFirstOn(xs, found.value, d) && FindDay(xs, d) == Some(xs[found.value])
    decreases |xs|
  {
    if xs == [] {
      return None;
    }
    if OnDay(xs[0], d) {
      return Some(0);
    }
    found := FindFirst(xs[1..], d);
    assert forall k :: 0 <= k < |xs| - 1 ==> xs[1..][k] == xs[k + 1];
    if found.Some? {
      return Some(found.value + 1);
    }
    forall j: nat ensures !IsFirstOn(xs, j, d) {
      if IsFirstOn(xs, j, d) {
        assert IsFirstOn(xs[1..], j - 1, d);
      }
    }
  }

  lemma {:induction false} SnapshotNone(md: Metadata, m: PitEntries, ms: seq<Mapping>, d: int, id: U32)
    requires IsInverse(md).Ok? && AddAllOnDay(m, IsInverse(md).value, ms, d).Ok?
    requires forall k :: 0 <= k < |ms| ==> !SomeDayGives(md, ms[k], d, id)
    ensures PitLookup(AddAllOnDay(m, IsInverse(md).value, ms, d).value, id) == PitLookup(m, id)
    decreases |ms|
  {
    if ms != [] {
      AddOnDayFinds(md, m, ms[0], d, id);
      SnapshotNone(md, AddOnDay(m, IsInverse(md).value, ms[0], d).value, ms[1..], d, id);
    }
  }

  lemma LastOnDayTail(md: Metadata, ms: seq<Mapping>, i: nat, j: nat, d: int, id: U32)
    requires IsLastOnDay(md, ms, i, j, d, id)
    ensures ms != [] && i < |ms| && j < |ms[i].intervals|
    ensures if i == 0 then && DayGives(md, ms[0], j, d, id)
                           && forall k :: 0 <= k < |ms| - 1 ==> !SomeDayGives(md, ms[1..][k], d, id)
            else IsLastOnDay(md, ms[1..], i - 1, j, d, id) && ms[1..][i - 1] == ms[i]
  {
    hide SomeDayGives;
    assert forall k :: 0 <= k < |ms| - 1 ==> ms[1..][k] == ms[k + 1];
  }

  lemma {:induction false} SnapshotLast(md: Metadata, m: PitEntries, ms: seq<Mapping>, i: nat, j: nat, d: int, id: U32)
    requires IsInverse(md).Ok? && AddAllOnDay(m, IsInverse(md).value, ms, d).Ok?
    requires IsLastOnDay(md, ms, i, j, d, id)
    ensures PitLookup(AddAllOnDay(m, IsInverse(md).value, ms, d).value, id) ==
            Some(NameText(md, ms[i].rawSymbol, ms[i].intervals[j]))
    decreases |ms|
  {
    hide IsLastOnDay, DayGives, SomeDayGives, AddOnDay, PitLookup, NameText;
    LastOnDayTail(md, ms, i, j, d, id);
    var next := AddOnDay(m, IsInverse(md).value, ms[0], d).value;
    AddOnDayFinds(md, m, ms[0], d, id);
    if i == 0 {
      SnapshotNone(md, next, ms[1..], d, id);
    } else {
      SnapshotLast(md, next, ms[1..], i - 1, j, d, id);
    }
  }

  lemma {:induction false} LastOnDayExists(md: Metadata, ms: seq<Mapping>, n: nat, d: int, id: U32) returns (i: nat)
    requires n <= |ms|
    ensures || (forall k :: 0 <= k < n ==> !SomeDayGives(md, ms[k], d, id))
            || (i < n && SomeDayGives(md, ms[i], d, id) && forall k :: i < k < n ==> !SomeDayGives(md, ms[k], d, id))
  {
    hide SomeDayGives;
    if n == 0 {
      return 0;
    }
    if SomeDayGives(md, ms[n - 1], d, id) {
      return n - 1;
    }
    i := LastOnDayExists(md, ms, n - 1, d, id);
  }

  /** The snapshot finds a name exactly when in some mapping the first interval over the day gives
      the ID one, and then that of the last such mapping. */
  lemma SnapshotIsLast(md: Metadata, d: int, id: U32)
    requires PitOf(md, d).Ok?
    ensures var found := PitLookup(PitOf(md, d).value, id);
            && (found.Some? <==> exists k :: 0 <= k < |md.mappings| && SomeDayGives(md, md.mappings[k], d, id))
            && (found.Some? ==>
                  exists i: nat, j: nat :: IsLastOnDay(md, md.mappings, i, j, d, id)
                                                   && found.value == NameText(md, md.mappings[i].rawSymbol,
                                                                              md.mappings[i].intervals[j]))
  {
    hide DayGives;
    if k :| 0 <= k < |md.mappings| && SomeDayGives(md, md.mappings[k], d, id) {
      var i := LastOnDayExists(md, md.mappings, |md.mappings|, d, id);
      var j: nat :| DayGives(md, md.mappings[i], j, d, id);
      SnapshotLast(md, map[], md.mappings, i, j, d, id);
    } else {
      SnapshotNone(md, map[], md.mappings, d, id);
    }
  }

  // ---------- when the maps can be built ----------

  ghost predicate IsId(s: string) {
    exists id: U32 :: Denotes(s, id)
  }

  /** A range that does not end before it starts, under an ID; nothing is asked of an interval
      without a symbol. */
  ghost predicate IntervalBuilds(md: Metadata, raw: string, x: Interval) {
    x.symbol != "" ==> IsId(IdText(md, raw, x)) && x.startDate <= x.endDate
  }

  ghost predicate MappingBuilds(md: Metadata, mapping: Mapping) {
    && (md.stypeOut != InstrumentId ==> IsId(mapping.rawSymbol))
    && forall j :: 0 <= j < |mapping.intervals| ==> IntervalBuilds(md, mapping.rawSymbol, mapping.intervals[j])
  }

  lemma ParseU32OkIff(s: string)
    ensures ParseU32(s).Ok? <==> IsId(s)
  {
    if ParseU32(s).Ok? {
      ParseU32Iff(s, ParseU32(s).value);
    }
    if id: U32 :| Denotes(s, id) {
      ParseU32Iff(s, id);
    }
  }

  lemma {:induction false} AddIntervalsBuildsIff(md: Metadata, m: TsEntries, raw: string, xs: seq<Interval>)
    requires IsInverse(md).Ok?
    ensures AddIntervals(m, IsInverse(md).value, raw, xs).Ok? <==>
            forall j :: 0 <= j < |xs| ==> IntervalBuilds(md, raw, xs[j])
    decreases |xs|
  {
    if xs != [] {
      var next := AddInterval(m, IsInverse(md).value, raw, xs[0]);
      ParseU32OkIff(IdText(md, raw, xs[0]));
      assert next.Ok? <==> IntervalBuilds(md, raw, xs[0]);
      if next.Ok? {
        AddIntervalsBuildsIff(md, next.value, raw, xs[1..]);
        assert forall j :: 0 < j < |xs| ==> xs[j] == xs[1..][j - 1];
      }
    }
  }

  lemma {:induction false} AddMappingsBuildsIff(md: Metadata, m: TsEntries, ms: seq<Mapping>)
    requires IsInverse(md).Ok?
    ensures AddMappings(m, IsInverse(md).value, ms).Ok? <==>
            forall i :: 0 <= i < |ms| ==> MappingBuilds(md, ms[i])
    decreases |ms|
  {
    if ms != [] {
      var next := AddMapping(m, IsInverse(md).value, ms[0]);
      ParseU32OkIff(ms[0].rawSymbol);
      AddIntervalsBuildsIff(md, m, ms[0].rawSymbol, ms[0].intervals);
      assert next.Ok? <==> MappingBuilds(md, ms[0]);
      if next.Ok? {
        AddMappingsBuildsIff(md, next.value, ms[1..]);
        assert forall i :: 0 < i < |ms| ==> ms[i] == ms[1..][i - 1];
      }
    }
  }

  /** The timeseries map can be built exactly when one side of the query is instrument IDs, every ID
      is a decimal text of one, and no range is reversed. */
  lemma BuildsIff(md: Metadata)
    ensures TsOf(md).Ok? <==>
            && (md.stypeOut == InstrumentId || md.stypeIn == Some(InstrumentId))
            && forall i :: 0 <= i < |md.mappings| ==> MappingBuilds(md, md.mappings[i])
  {
    if IsInverse(md).Ok? {
      AddMappingsBuildsIff(md, map[], md.mappings);
    }
  }

  /** The first interval over the day has an ID, or no symbol. */
  ghost predicate DayBuilds(md: Metadata, mapping: Mapping, d: int) {
    forall j: nat :: IsFirstOn(mapping.intervals, j, d) && mapping.intervals[j].symbol != "" ==>
      IsId(IdText(md, mapping.rawSymbol, mapping.intervals[j]))
  }

  lemma AddOnDayBuildsIff(md: Metadata, m: PitEntries, mapping: Mapping, d: int)
    requires IsInverse(md).Ok?
    ensures AddOnDay(m, IsInverse(md).value, mapping, d).Ok? <==> DayBuilds(md, mapping, d)
  {
    hide IsFirstOn, FindDay, ParseU32, IsId;
    var found := FindFirst(mapping.intervals, d);
    if found.Some? {
      FirstCovers(mapping.intervals, found.value, d);
      ParseU32OkIff(IdText(md, mapping.rawSymbol, mapping.intervals[found.value]));
      forall j: nat | IsFirstOn(mapping.intervals, j, d) ensures j == found.value {
        FirstIsUnique(mapping.intervals, j, found.value, d);
      }
    }
  }

  lemma {:induction false} AddAllOnDayBuildsIff(md: Metadata, m: PitEntries, ms: seq<Mapping>, d: int)
    requires IsInverse(md).Ok?
    ensures AddAllOnDay(m, IsInverse(md).value, ms, d).Ok? <==> forall i :: 0 <= i < |ms| ==> DayBuilds(md, ms[i], d)
    decreases |ms|
  {
    if ms != [] {
      var next := AddOnDay(m, IsInverse(md).value, ms[0], d);
      AddOnDayBuildsIff(md, m, ms[0], d);
      if next.Ok? {
        AddAllOnDayBuildsIff(md, next.value, ms[1..], d);
        assert forall i :: 0 < i < |ms| ==> ms[i] == ms[1..][i - 1];
      }
    }
  }

  /** The snapshot asks less: only what it uses on that day has to be an ID. */
  lemma SnapshotBuildsIff(md: Metadata, d: int)
    requires md.end.Some? ==> md.start < md.end.value
    ensures PitOf(md, d).Ok? <==>
            && (md.stypeOut == InstrumentId || md.stypeIn == Some(InstrumentId))
            && MeetsRange(md, d)
            && forall i :: 0 <= i < |md.mappings| ==> DayBuilds(md, md.mappings[i], d)
  {
    OutsideIffNotMet(md, d);
    if IsInverse(md).Ok? {
      AddAllOnDayBuildsIff(md, map[], md.mappings, d);
    }
  }
}
