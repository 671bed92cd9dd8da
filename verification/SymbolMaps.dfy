/** The two symbol maps: one symbol per day and instrument ID, and one symbol per ID on one day. */
module SymbolMaps {
  import opened Common
  import opened Digits
  import opened MetadataTypes

  // ---------- instrument IDs ----------

  /** Parsing an unsigned 32-bit integer: digits with an optional plus sign, in range. */
  function ParseU32(s: string): Result<U32> {
    var digits := if |s| > 0 && s[0] == '+' then s[1..] else s;
    if digits == [] then Err(Conversion)
    else
      match ParseDigits(digits)
      case Some(n) => if n < U32_LIMIT then Ok(n) else Err(Conversion)
      case None => Err(Conversion)
  }

  /** A decimal text of the ID: any number of leading zeros, and one plus sign at most. */
  ghost predicate Denotes(s: string, id: U32) {
    var digits := if |s| > 0 && s[0] == '+' then s[1..] else s;
    digits != [] && id < Pow10(|digits|) && digits == Fixed(id, |digits|)
  }

  /** Parsing gives an ID exactly for its decimal texts. */
  lemma ParseU32Iff(s: string, id: U32)
    ensures ParseU32(s) == Ok(id) <==> Denotes(s, id)
  {
    var digits := if |s| > 0 && s[0] == '+' then s[1..] else s;
    if ParseU32(s) == Ok(id) {
      ParsedIsFixed(digits, id);
    }
    if Denotes(s, id) {
      ParseFixed(id, |digits|);
    }
  }

  /** The shortest of them is one. */
  lemma ParseU32Decimal(id: U32)
    ensures ParseU32(ToDecimal(id)) == Ok(id)
  {
    ParseToDecimal(id);
    DecimalStartsWithDigit(id);
  }

  // ---------- the timeseries map ----------

  type TsEntries = map<(int, U32), string>

  datatype InsertOp = InsertOp(id: U32, startDate: int, endDate: int, symbol: string)

  function Lookup(m: TsEntries, d: int, id: U32): Option<string> {
    if (d, id) in m then Some(m[(d, id)]) else None
  }

  /** The days of a half-open range, all mapped to one symbol. */
  function DayRange(op: InsertOp): (m: TsEntries)
    ensures forall d: int, id: U32 :: (d, id) in m <==> CoversKey(op, d, id)
    ensures forall k :: k in m ==> m[k] == op.symbol
    decreases op.endDate - op.startDate
  {
    if op.startDate >= op.endDate then map[]
    else DayRange(op.(endDate := op.endDate - 1))[(op.endDate - 1, op.id) := op.symbol]
  }

  predicate CoversKey(op: InsertOp, d: int, id: U32) {
    op.id == id && op.startDate <= d < op.endDate
  }

  /** The map with the days of `op` before `day` written over it. */
  function WrittenTo(m: TsEntries, op: InsertOp, day: int): TsEntries {
    m + DayRange(op.(endDate := day))
  }

  lemma UpdateSum<K, V>(a: map<K, V>, b: map<K, V>, k: K, v: V)
    ensures (a + b)[k := v] == a + b[k := v]
  {
  }

  lemma WriteDay(m: TsEntries, op: InsertOp, day: int)
    requires op.startDate <= day
    ensures WrittenTo(m, op, day)[(day, op.id) := op.symbol] == WrittenTo(m, op, day + 1)
  {
    UpdateSum(m, DayRange(op.(endDate := day)), (day, op.id), op.symbol);
  }

  lemma WriteNothing(m: TsEntries, op: InsertOp, day: int)
    requires day <= op.startDate
    ensures WrittenTo(m, op, day) == m
  {
  }

  function Inserted(m: TsEntries, op: InsertOp): Result<TsEntries> {
    if op.startDate > op.endDate then Err(BadArgument("start_date")) else Ok(WrittenTo(m, op, op.endDate))
  }

  /** The map after a sequence of inserts, the failing ones changing nothing. */
  function Replay(ops: seq<InsertOp>): TsEntries {
    if ops == [] then map[]
    else
      var before := Replay(ops[..|ops| - 1]);
      var after := Inserted(before, ops[|ops| - 1]);
      if after.Ok? then after.value else before
  }

  lemma LookupAfterInsert(ops: seq<InsertOp>, d: int, id: U32)
    requires ops != []
    ensures var last := ops[|ops| - 1];
            Lookup(Replay(ops), d, id)
            == if CoversKey(last, d, id) then Some(last.symbol) else Lookup(Replay(ops[..|ops| - 1]), d, id)
  {
  }

  /** The insert at `k` covers the key, and none after it does. */
  ghost predicate IsLastCovering(ops: seq<InsertOp>, k: int, d: int, id: U32) {
    0 <= k < |ops| && CoversKey(ops[k], d, id) && forall j :: k < j < |ops| ==> !CoversKey(ops[j], d, id)
  }

  /** A lookup finds the symbol of the last insert whose range covers the day. */
  lemma {:induction false} LookupIsLastInsert(ops: seq<InsertOp>, d: int, id: U32)
    ensures Lookup(Replay(ops), d, id).None? <==> forall k :: 0 <= k < |ops| ==> !CoversKey(ops[k], d, id)
    ensures Lookup(Replay(ops), d, id).Some? ==>
              exists k :: IsLastCovering(ops, k, d, id) && Lookup(Replay(ops), d, id).value == ops[k].symbol
  {
    if ops != [] {
      var init, last := ops[..|ops| - 1], ops[|ops| - 1];
      LookupIsLastInsert(init, d, id);
      LookupAfterInsert(ops, d, id);
      hide Replay, Lookup, CoversKey;
      if CoversKey(last, d, id) {
        assert IsLastCovering(ops, |ops| - 1, d, id);
      } else if Lookup(Replay(init), d, id).Some? {
        var k :| IsLastCovering(init, k, d, id) && Lookup(Replay(init), d, id).value == init[k].symbol;
        assert IsLastCovering(ops, k, d, id);
      } else {
        assert forall k :: 0 <= k < |init| ==> ops[k] == init[k];
      }
    }
  }

  /** Whether the raw symbols are the instrument IDs. */
  function IsInverse(md: Metadata): Result<bool> {
    if md.stypeOut == InstrumentId then Ok(false)
    else if md.stypeIn == Some(InstrumentId) then Ok(true)
    else Err(BadArgument("metadata"))
  }

  /** The insert that an interval stands for; intervals without a symbol stand for none. */
  function OpOf(inverse: bool, raw: string, x: Interval): Result<InsertOp>
    requires x.symbol != ""
  {
    var id :- ParseU32(if inverse then raw else x.symbol);
    Ok(InsertOp(id, x.startDate, x.endDate, if inverse then x.symbol else raw))
  }

  function AddInterval(m: TsEntries, inverse: bool, raw: string, x: Interval): Result<TsEntries> {
    if x.symbol == "" then Ok(m)
    else
      var op :- OpOf(inverse, raw, x);
      Inserted(m, op)
  }

  function AddIntervals(m: TsEntries, inverse: bool, raw: string, xs: seq<Interval>): Result<TsEntries>
    decreases |xs|
  {
    if xs == [] then Ok(m)
    else
      var next :- AddInterval(m, inverse, raw, xs[0]);
      AddIntervals(next, inverse, raw, xs[1..])
  }

  /** In an inverse mapping the raw symbol has to be an ID, even when no interval uses it. */
  function AddMapping(m: TsEntries, inverse: bool, mapping: Mapping): Result<TsEntries> {
    if inverse && ParseU32(mapping.rawSymbol).Err? then Err(ParseU32(mapping.rawSymbol).error)
    else AddIntervals(m, inverse, mapping.rawSymbol, mapping.intervals)
  }

  function AddMappings(m: TsEntries, inverse: bool, ms: seq<Mapping>): Result<TsEntries>
    decreases |ms|
  {
    if ms == [] then Ok(m)
    else
      var next :- AddMapping(m, inverse, ms[0]);
      AddMappings(next, inverse, ms[1..])
  }

  function TsOf(md: Metadata): Result<TsEntries> {
    var inverse :- IsInverse(md);
    AddMappings(map[], inverse, md.mappings)
  }

  const UNDEF_TIMESTAMP: U64 := U64_MAX

  const NANOS_PER_DAY: int := 86_400_000_000_000

  /** The day of a timestamp, counted from the epoch. */
  function DayOf(ts: nat): int {
    ts / NANOS_PER_DAY
  }

  /** A day is 24 hours of 60 minutes of 60 seconds of a billion nanoseconds. */
  lemma DayOfIff(ts: nat, d: int)
    ensures DayOf(ts) == d <==> d * (24 * 60 * 60 * 1_000_000_000) <= ts < (d + 1) * (24 * 60 * 60 * 1_000_000_000)
  {
  }

  function IndexDate(ts: U64): Option<int> {
    if ts == UNDEF_TIMESTAMP then None else Some(DayOf(ts))
  }

  class TsSymbolMap {
    var entries: TsEntries

    constructor ()
      ensures entries == map[]
    {
      entries := map[];
    }

    /** Day by day from the start; the day never passes the end date. */
    method Insert(instrumentId: U32, startDate: int, endDate: int, symbol: string) returns (r: Result<()>)
      modifies this
      ensures r.Ok? <==> startDate <= endDate
      ensures startDate > endDate ==> r == Err(BadArgument("start_date"))
      ensures r.Ok? ==> Inserted(old(entries), InsertOp(instrumentId, startDate, endDate, symbol)) == Ok(entries)
      ensures r.Err? ==> Inserted(old(entries), InsertOp(instrumentId, startDate, endDate, symbol)) == Err(r.error)
                         && entries == old(entries)
    {
      ghost var op := InsertOp(instrumentId, startDate, endDate, symbol);
      ghost var before := entries;
      WriteNothing(before, op, startDate);
      if startDate < endDate {
        var day := startDate;
        while true
          invariant startDate <= day < endDate && entries == WrittenTo(before, op, day)
          decreases endDate - day
        {
          WriteDay(before, op, day);
          entries := entries[(day, instrumentId) := symbol];
          day := day + 1;
          if day >= endDate {
            break;
          }
        }
        r := Ok(());
      } else if startDate == endDate {
        // an empty range has no day to write
        r := Ok(());
      } else {
        r := Err(BadArgument("start_date"));
      }
    }

    function Get(date: int, instrumentId: U32): Option<string>
      reads this
    {
      Lookup(entries, date, instrumentId)
    }

    function GetForRec(indexTs: U64, instrumentId: U32): Option<string>
      reads this
    {
      if IndexDate(indexTs).None? then None else Get(IndexDate(indexTs).value, instrumentId)
    }

    static method FromMetadata(md: Metadata) returns (r: Result<TsSymbolMap>)
      ensures r.Ok? ==> fresh(r.value) && TsOf(md) == Ok(r.value.entries)
      ensures r.Err? ==> TsOf(md) == Err(r.error)
      ensures md.stypeOut != InstrumentId && md.stypeIn != Some(InstrumentId) ==> r == Err(BadArgument("metadata"))
    {
      var inverse :- IsInverse(md);
      var res := new TsSymbolMap();
      assert md.mappings[0..] == md.mappings;
      for i := 0 to |md.mappings|
        invariant fresh(res)
        invariant TsOf(md) == AddMappings(res.entries, inverse, md.mappings[i..])
      {
        var mapping := md.mappings[i];
        assert md.mappings[i..][0] == mapping && md.mappings[i..][1..] == md.mappings[i + 1..];
        if inverse {
          var _ :- ParseU32(mapping.rawSymbol);
        }
        var _ :- res.AddAll(inverse, mapping.rawSymbol, mapping.intervals);
      }
      r := Ok(res);
    }

    method AddAll(inverse: bool, raw: string, xs: seq<Interval>) returns (r: Result<()>)
      modifies this
      ensures r.Ok? ==> AddIntervals(old(entries), inverse, raw, xs) == Ok(entries)
      ensures r.Err? ==> AddIntervals(old(entries), inverse, raw, xs) == Err(r.error)
    {
      assert xs[0..] == xs;
      for i := 0 to |xs|
        invariant AddIntervals(old(entries), inverse, raw, xs) == AddIntervals(entries, inverse, raw, xs[i..])
      {
        var x := xs[i];
        assert xs[i..][0] == x && xs[i..][1..] == xs[i + 1..];
        // an empty symbol stands for none in old files
        if x.symbol != "" {
          var op :- OpOf(inverse, raw, x);
          var _ :- Insert(op.id, op.startDate, op.endDate, op.symbol);
        }
      }
      r := Ok(());
    }
  }

  // ---------- the point-in-time map ----------

  type PitEntries = map<U32, string>

  predicate OnDay(x: Interval, d: int) {
    x.startDate <= d < x.endDate
  }

  /** The first interval that covers the day. */
  function FindDay(xs: seq<Interval>, d: int): (r: Option<Interval>)
    ensures r.Some? ==> r.value in xs && OnDay(r.value, d)
  {
    if xs == [] then None else if OnDay(xs[0], d) then Some(xs[0]) else FindDay(xs[1..], d)
  }

  lemma {:induction false} FindDayIsFirst(xs: seq<Interval>, d: int, k: nat)
    requires k <= |xs| && forall j :: 0 <= j < k ==> !(xs[j].startDate <= d < xs[j].endDate)
    ensures k < |xs| && xs[k].startDate <= d < xs[k].endDate ==> FindDay(xs, d) == Some(xs[k])
    ensures k == |xs| ==> FindDay(xs, d) == None
  {
    if k > 0 {
      FindDayIsFirst(xs[1..], d, k - 1);
    }
  }

  function AddOnDay(m: PitEntries, inverse: bool, mapping: Mapping, d: int): Result<PitEntries> {
    match FindDay(mapping.intervals, d)
    case None => Ok(m)
    case Some(x) =>
      if x.symbol == "" then Ok(m)
      else
        var op :- OpOf(inverse, mapping.rawSymbol, x);
        Ok(m[op.id := op.symbol])
  }

  function AddAllOnDay(m: PitEntries, inverse: bool, ms: seq<Mapping>, d: int): Result<PitEntries>
    decreases |ms|
  {
    if ms == [] then Ok(m)
    else
      var next :- AddOnDay(m, inverse, ms[0], d);
      AddAllOnDay(next, inverse, ms[1..], d)
  }

  predicate OutsideRange(md: Metadata, d: int) {
    d < DayOf(md.start) || (md.end.Some? && d * NANOS_PER_DAY >= md.end.value)
  }

  /** Some moment of the day is in the query range. */
  ghost predicate MeetsRange(md: Metadata, d: int) {
    exists ts: nat :: InRange(md, ts) && DayOf(ts) == d
  }

  ghost predicate InRange(md: Metadata, ts: nat) {
    md.start <= ts && (md.end.Some? ==> ts < md.end.value)
  }

  lemma OutsideIffNotMet(md: Metadata, d: int)
    requires md.end.Some? ==> md.start < md.end.value
    ensures OutsideRange(md, d) <==> !MeetsRange(md, d)
  {
    if !OutsideRange(md, d) {
      var ts: nat := if d * NANOS_PER_DAY >= md.start then d * NANOS_PER_DAY else md.start;
      DayOfIff(ts, d);
      assert InRange(md, ts) && DayOf(ts) == d;
    }
  }

  /** Whatever else goes wrong is an ID that does not parse. */
  lemma {:induction false} AddAllOnDayError(m: PitEntries, inverse: bool, ms: seq<Mapping>, d: int)
    ensures AddAllOnDay(m, inverse, ms, d).Err? ==> AddAllOnDay(m, inverse, ms, d).error == Conversion
    decreases |ms|
  {
    if ms != [] && AddOnDay(m, inverse, ms[0], d).Ok? {
      AddAllOnDayError(AddOnDay(m, inverse, ms[0], d).value, inverse, ms[1..], d);
    }
  }

  /** A snapshot is refused exactly for a day that the query range does not meet. */
  lemma RefusedIff(md: Metadata, d: int)
    requires md.stypeOut == InstrumentId || md.stypeIn == Some(InstrumentId)
    requires md.end.Some? ==> md.start < md.end.value
    ensures PitOf(md, d) == Err(BadArgument("date")) <==> !MeetsRange(md, d)
  {
    OutsideIffNotMet(md, d);
    AddAllOnDayError(map[], IsInverse(md).value, md.mappings, d);
  }

  function PitOf(md: Metadata, d: int): Result<PitEntries> {
    var inverse :- IsInverse(md);
    if OutsideRange(md, d) then Err(BadArgument("date"))
    else AddAllOnDay(map[], inverse, md.mappings, d)
  }

  class PitSymbolMap {
    var entries: PitEntries

    constructor Init(entries: PitEntries)
      ensures this.entries == entries
    {
      this.entries := entries;
    }

    static method FromMetadata(md: Metadata, date: int) returns (r: Result<PitSymbolMap>)
      ensures r.Ok? ==> fresh(r.value) && PitOf(md, date) == Ok(r.value.entries)
      ensures r.Err? ==> PitOf(md, date) == Err(r.error)
      ensures md.stypeOut != InstrumentId && md.stypeIn != Some(InstrumentId) ==> r == Err(BadArgument("metadata"))
      ensures (md.stypeOut == InstrumentId || md.stypeIn == Some(InstrumentId))
              && (md.end.Some? ==> md.start < md.end.value) ==>
                (r == Err(BadArgument("date")) <==> !MeetsRange(md, date))
    {
      if (md.stypeOut == InstrumentId || md.stypeIn == Some(InstrumentId))
         && (md.end.Some? ==> md.start < md.end.value) {
        RefusedIff(md, date);
      }
      var inverse :- IsInverse(md);
      if OutsideRange(md, date) {
        return Err(BadArgument("date"));
      }
      var res: PitEntries := map[];
      assert md.mappings[0..] == md.mappings;
      for i := 0 to |md.mappings|
        invariant PitOf(md, date) == AddAllOnDay(res, inverse, md.mappings[i..], date)
      {
        var mapping := md.mappings[i];
        assert md.mappings[i..][0] == mapping && md.mappings[i..][1..] == md.mappings[i + 1..];
        var interval := FindDay(mapping.intervals, date);
        if interval.Some? {
          // an empty symbol stands for none in old files
          if interval.value.symbol != "" {
            var op :- OpOf(inverse, mapping.rawSymbol, interval.value);
            res := res[op.id := op.symbol];
          }
        }
      }
      var map' := new PitSymbolMap.Init(res);
      r := Ok(map');
    }

    /** A mapping message replaces the symbol of its instrument, if its symbol can be read. */
    method OnSymbolMapping(instrumentId: U32, stypeOutSymbol: Result<string>) returns (r: Result<()>)
      modifies this
      ensures r == if stypeOutSymbol.Ok? then Ok(()) else Err(stypeOutSymbol.error)
      ensures entries == if r.Ok? then old(entries)[instrumentId := stypeOutSymbol.value] else old(entries)
    {
      var symbol :- stypeOutSymbol;
      entries := entries[instrumentId := symbol];
      r := Ok(());
    }

    function Get(instrumentId: U32): Option<string>
      reads this
    {
      if instrumentId in entries then Some(entries[instrumentId]) else None
    }
  }

  // ---------- the two maps agree ----------

  /** The point-in-time map is the timeseries map of that day. */
  ghost predicate IsDayOf(pit: PitEntries, ts: TsEntries, d: int) {
    forall id: U32 :: Lookup(ts, d, id) == if id in pit then Some(pit[id]) else None
  }

  /** No two intervals of a mapping share the day. */
  ghost predicate OnceOnDay(xs: seq<Interval>, d: int) {
    forall i, j :: 0 <= i < j < |xs| ==> !OnDay(xs[i], d) || !OnDay(xs[j], d)
  }

  lemma {:induction false} AddIntervalsOffDay(m: TsEntries, inverse: bool, raw: string, xs: seq<Interval>, d: int, id: U32)
    requires AddIntervals(m, inverse, raw, xs).Ok? && forall i :: 0 <= i < |xs| ==> !OnDay(xs[i], d)
    ensures Lookup(AddIntervals(m, inverse, raw, xs).value, d, id) == Lookup(m, d, id)
    decreases |xs|
  {
    if xs != [] {
      AddIntervalsOffDay(AddInterval(m, inverse, raw, xs[0]).value, inverse, raw, xs[1..], d, id);
    }
  }

  /** On its day, a mapping whose intervals do not share the day writes what the first interval
      found there says, and nothing else. */
  lemma {:induction false} AddIntervalsOnDay(m: TsEntries, inverse: bool, raw: string, xs: seq<Interval>, d: int, id: U32)
    requires OnceOnDay(xs, d) && AddIntervals(m, inverse, raw, xs).Ok?
    ensures var found, after := FindDay(xs, d), Lookup(AddIntervals(m, inverse, raw, xs).value, d, id);
            if found.None? || found.value.symbol == "" then after == Lookup(m, d, id)
            else && OpOf(inverse, raw, found.value).Ok?
                 && var op := OpOf(inverse, raw, found.value).value;
                    after == if op.id == id then Some(op.symbol) else Lookup(m, d, id)
    decreases |xs|
  {
    if xs != [] {
      var next := AddInterval(m, inverse, raw, xs[0]).value;
      if OnDay(xs[0], d) {
        AddIntervalsOffDay(next, inverse, raw, xs[1..], d, id);
      } else {
        AddIntervalsOnDay(next, inverse, raw, xs[1..], d, id);
      }
    }
  }

  lemma {:induction false} AddMappingsOnDay(m: TsEntries, pit: PitEntries, inverse: bool, ms: seq<Mapping>, d: int)
    requires IsDayOf(pit, m, d) && forall k :: 0 <= k < |ms| ==> OnceOnDay(ms[k].intervals, d)
    requires AddMappings(m, inverse, ms).Ok?
    ensures AddAllOnDay(pit, inverse, ms, d).Ok?
    ensures IsDayOf(AddAllOnDay(pit, inverse, ms, d).value, AddMappings(m, inverse, ms).value, d)
    decreases |ms|
  {
    if ms != [] {
      var raw, xs := ms[0].rawSymbol, ms[0].intervals;
      AddIntervalsOnDay(m, inverse, raw, xs, d, 0);
      var pit' := AddOnDay(pit, inverse, ms[0], d).value;
      forall id: U32
        ensures Lookup(AddMapping(m, inverse, ms[0]).value, d, id) == if id in pit' then Some(pit'[id]) else None
      {
        AddIntervalsOnDay(m, inverse, raw, xs, d, id);
      }
      AddMappingsOnDay(AddMapping(m, inverse, ms[0]).value, AddOnDay(pit, inverse, ms[0], d).value, inverse, ms[1..], d);
    }
  }

  /** For a record inside the query range the snapshot of its day exists, and both maps give the
      same symbol for every ID, even when several mappings use one ID. */
  lemma MapsAgree(md: Metadata, ts: U64, id: U32)
    requires ts != UNDEF_TIMESTAMP && md.start <= ts && (md.end.Some? ==> ts < md.end.value)
    requires forall k :: 0 <= k < |md.mappings| ==> OnceOnDay(md.mappings[k].intervals, DayOf(ts))
    requires TsOf(md).Ok?
    ensures PitOf(md, DayOf(ts)).Ok?
    ensures Lookup(TsOf(md).value, DayOf(ts), id) ==
            if id in PitOf(md, DayOf(ts)).value then Some(PitOf(md, DayOf(ts)).value[id]) else None
  {
    var empty: PitEntries := map[];
    assert IsDayOf(empty, map[], DayOf(ts));
    AddMappingsOnDay(map[], empty, IsInverse(md).value, md.mappings, DayOf(ts));
    assert IsDayOf(PitOf(md, DayOf(ts)).value, TsOf(md).value, DayOf(ts));
  }

  /** Looking a record up in the timeseries map is looking its instrument up in the snapshot of its
      day; a record without a timestamp is in no timeseries map. */
  lemma RecordsAgree(md: Metadata, series: TsSymbolMap, snapshot: PitSymbolMap, ts: U64, id: U32)
    requires md.start <= ts && (md.end.Some? ==> ts < md.end.value)
    requires forall k :: 0 <= k < |md.mappings| ==> OnceOnDay(md.mappings[k].intervals, DayOf(ts))
    requires TsOf(md) == Ok(series.entries) && PitOf(md, DayOf(ts)) == Ok(snapshot.entries)
    ensures series.GetForRec(ts, id) == if ts == 0xFFFF_FFFF_FFFF_FFFF then None else snapshot.Get(id)
  {
    if ts != UNDEF_TIMESTAMP {
      MapsAgree(md, ts, id);
    }
  }

  // ---------- inverted metadata ----------

  /** The mappings with IDs and symbols swapped, one mapping for each interval with a symbol. */
  function InvertIntervals(raw: string, xs: seq<Interval>): seq<Mapping> {
    if xs == [] then []
    else
      (if xs[0].symbol == "" then []
       else [SymbolMapping(xs[0].symbol, [MappingInterval(xs[0].startDate, xs[0].endDate, raw)])])
      + InvertIntervals(raw, xs[1..])
  }

  function InvertMappings(ms: seq<Mapping>): seq<Mapping> {
    if ms == [] then [] else InvertIntervals(ms[0].rawSymbol, ms[0].intervals) + InvertMappings(ms[1..])
  }

  function Invert(md: Metadata): Metadata {
    md.(stypeIn := Some(InstrumentId), stypeOut := RawSymbol, mappings := InvertMappings(md.mappings))
  }

  lemma {:induction false} AddMappingsAppend(m: TsEntries, inverse: bool, a: seq<Mapping>, b: seq<Mapping>)
    ensures AddMappings(m, inverse, a + b) ==
            if AddMappings(m, inverse, a).Ok? then AddMappings(AddMappings(m, inverse, a).value, inverse, b)
            else AddMappings(m, inverse, a)
    decreases |a|
  {
    if a == [] {
      assert a + b == b;
    } else {
      assert (a + b)[0] == a[0] && (a + b)[1..] == a[1..] + b;
      if AddMapping(m, inverse, a[0]).Ok? {
        AddMappingsAppend(AddMapping(m, inverse, a[0]).value, inverse, a[1..], b);
      }
    }
  }

  lemma AddSingle(m: TsEntries, inverse: bool, raw: string, x: Interval)
    ensures AddIntervals(m, inverse, raw, [x]) == AddInterval(m, inverse, raw, x)
  {
    assert [x][1..] == [];
  }

  lemma {:induction false} InvertIntervalsSame(m: TsEntries, raw: string, xs: seq<Interval>)
    requires raw != ""
    ensures AddMappings(m, true, InvertIntervals(raw, xs)) == AddIntervals(m, false, raw, xs)
    decreases |xs|
  {
    if xs != [] {
      var x := xs[0];
      if x.symbol == "" {
        InvertIntervalsSame(m, raw, xs[1..]);
        assert InvertIntervals(raw, xs) == InvertIntervals(raw, xs[1..]);
      } else {
        var y := MappingInterval(x.startDate, x.endDate, raw);
        var first := SymbolMapping(x.symbol, [y]);
        var inv := InvertIntervals(raw, xs);
        assert inv[0] == first && inv[1..] == InvertIntervals(raw, xs[1..]);
        assert AddMapping(m, true, first) == AddInterval(m, false, raw, x) by {
          AddSingle(m, true, x.symbol, y);
          assert first.intervals == [y];
        }
        if AddInterval(m, false, raw, x).Ok? {
          InvertIntervalsSame(AddInterval(m, false, raw, x).value, raw, xs[1..]);
        }
      }
    }
  }

  lemma {:induction false} InvertMappingsSame(m: TsEntries, ms: seq<Mapping>)
    requires forall k :: 0 <= k < |ms| ==> ms[k].rawSymbol != ""
    ensures AddMappings(m, true, InvertMappings(ms)) == AddMappings(m, false, ms)
    decreases |ms|
  {
    if ms != [] {
      var first := InvertIntervals(ms[0].rawSymbol, ms[0].intervals);
      AddMappingsAppend(m, true, first, InvertMappings(ms[1..]));
      InvertIntervalsSame(m, ms[0].rawSymbol, ms[0].intervals);
      if AddMapping(m, false, ms[0]).Ok? {
        InvertMappingsSame(AddMapping(m, false, ms[0]).value, ms[1..]);
      }
    }
  }

  /** Inverting metadata changes neither the symbol map nor the error. */
  lemma InvertSameMap(md: Metadata)
    requires md.stypeOut == InstrumentId
    requires forall k :: 0 <= k < |md.mappings| ==> md.mappings[k].rawSymbol != ""
    ensures TsOf(Invert(md)) == TsOf(md)
  {
    InvertMappingsSame(map[], md.mappings);
  }
}
