/** Which records of a merge the schema filter and the limit let through. */
module Selection {
  import opened Common
  import opened FailingMerge
  import opened KMerge
  import opened MetadataTypes
  import opened StableSort

  /** The record-type code in the records of a schema. */
  function RTypeOf(schema: Schema): U8 {
    match schema
    case Mbo => 0xA0
    case Mbp1 => 0x01
    case Tbbo => 0x01
    case Mbp10 => 0x0A
    case Trades => 0x00
    case Ohlcv1S => 0x20
    case Ohlcv1M => 0x21
    case Ohlcv1H => 0x22
    case Ohlcv1D => 0x23
    case OhlcvEod => 0x24
    case Definition => 0x13
    case Statistics => 0x18
    case Status => 0x12
    case Imbalance => 0x14
    case Cmbp1 => 0xB1
    case Cbbo1S => 0xC0
    case Cbbo1M => 0xC1
    case Tcbbo => 0xC2
    case Bbo1S => 0xC3
    case Bbo1M => 0xC4
  }

  /** The schema of a record type; two schemas share one. */
  function SchemaOf(rtype: U8): Option<Schema> {
    match rtype
    case 0x00 => Some(Trades)
    case 0x01 => Some(Mbp1)
    case 0x0A => Some(Mbp10)
    case 0x12 => Some(Status)
    case 0x13 => Some(Definition)
    case 0x14 => Some(Imbalance)
    case 0x18 => Some(Statistics)
    case 0x20 => Some(Ohlcv1S)
    case 0x21 => Some(Ohlcv1M)
    case 0x22 => Some(Ohlcv1H)
    case 0x23 => Some(Ohlcv1D)
    case 0x24 => Some(OhlcvEod)
    case 0xA0 => Some(Mbo)
    case 0xB1 => Some(Cmbp1)
    case 0xC0 => Some(Cbbo1S)
    case 0xC1 => Some(Cbbo1M)
    case 0xC2 => Some(Tcbbo)
    case 0xC3 => Some(Bbo1S)
    case 0xC4 => Some(Bbo1M)
    case _ => None
  }

  /** The record type determines the schema, except that top-of-book trades are recorded as
      top-of-book updates. */
  lemma RTypeHasSchema(schema: Schema)
    ensures SchemaOf(RTypeOf(schema)) == Some(if schema == Tbbo then Mbp1 else schema)
  {
  }

  predicate Matches(rtype: Option<U8>, r: Record) {
    rtype.None? || rtype.value == r.rtype
  }

  function Filter(rtype: Option<U8>, rs: seq<Record>): seq<Record> {
    if rs == [] then []
    else (if Matches(rtype, rs[0]) then [rs[0]] else []) + Filter(rtype, rs[1..])
  }

  /** `xs` is what is left of `rs` when some records are left out. */
  ghost predicate IsSublist(xs: seq<Record>, rs: seq<Record>) {
    if rs == [] then xs == []
    else (xs != [] && xs[0] == rs[0] && IsSublist(xs[1..], rs[1..])) || IsSublist(xs, rs[1..])
  }

  /** Without a record type nothing is dropped. */
  lemma {:induction false} FilterNone(rs: seq<Record>)
    ensures Filter(None, rs) == rs
  {
    if rs != [] {
      FilterNone(rs[1..]);
    }
  }

  /** With one, exactly the records of that type are kept, as often and in the order as they come. */
  lemma FilterKeeps(rtype: U8, rs: seq<Record>)
    ensures IsSublist(Filter(Some(rtype), rs), rs)
    ensures forall x: Record ::
              multiset(Filter(Some(rtype), rs))[x] == if x.rtype == rtype then multiset(rs)[x] else 0
  {
    FilterIsSublist(rtype, rs);
    forall x: Record
      ensures multiset(Filter(Some(rtype), rs))[x] == if x.rtype == rtype then multiset(rs)[x] else 0
    {
      FilterCounts(rtype, rs, x);
    }
  }

  lemma {:induction false} FilterIsSublist(rtype: U8, rs: seq<Record>)
    ensures IsSublist(Filter(Some(rtype), rs), rs)
  {
    if rs != [] {
      FilterIsSublist(rtype, rs[1..]);
      var rest := Filter(Some(rtype), rs[1..]);
      assert [] + rest == rest && ([rs[0]] + rest)[1..] == rest;
    }
  }

  lemma {:induction false} FilterCounts(rtype: U8, rs: seq<Record>, x: Record)
    ensures multiset(Filter(Some(rtype), rs))[x] == if x.rtype == rtype then multiset(rs)[x] else 0
  {
    if rs != [] {
      FilterCounts(rtype, rs[1..], x);
      assert rs == [rs[0]] + rs[1..];
    }
  }

  /** From the first matching record on. */
  function SkipTo(rtype: Option<U8>, es: seq<Emission>): (r: seq<Emission>)
    ensures |r| <= |es|
  {
    if es == [] || Matches(rtype, es[0].record) then es else SkipTo(rtype, es[1..])
  }

  function FirstMatch(rtype: Option<U8>, es: seq<Emission>): Option<Record> {
    if SkipTo(rtype, es) == [] then None else Some(SkipTo(rtype, es)[0].record)
  }

  function AfterMatch(rtype: Option<U8>, es: seq<Emission>): (r: seq<Emission>)
    ensures |r| <= |es| && (FirstMatch(rtype, es).Some? ==> |r| < |es|)
  {
    if SkipTo(rtype, es) == [] then [] else SkipTo(rtype, es)[1..]
  }

  /** `found` is the first record whose header has the type, if there is one, and `left` is all that
      comes after it. Without a type it is the first record. */
  ghost predicate FindsFirst(rtype: Option<U8>, es: seq<Emission>, found: Option<Record>, left: seq<Emission>) {
    var k := if found.Some? then |es| - |left| - 1 else |es|;
    && 0 <= k <= |es|
    && (rtype.Some? ==> forall j :: 0 <= j < k ==> es[j].record.rtype != rtype.value)
    && (rtype.None? ==> k == 0)
    && if found.None? then left == []
       else && k < |es| && found.value == es[k].record && left == es[k + 1..]
            && (rtype.Some? ==> found.value.rtype == rtype.value)
  }

  lemma {:induction false} FirstMatchIsFirst(rtype: Option<U8>, es: seq<Emission>)
    ensures FindsFirst(rtype, es, FirstMatch(rtype, es), AfterMatch(rtype, es))
  {
    if es != [] && rtype.Some? && es[0].record.rtype != rtype.value {
      FirstMatchIsFirst(rtype, es[1..]);
      assert forall j :: 0 < j < |es| ==> es[j] == es[1..][j - 1];
    }
  }

  predicate Exhausted(limit: Option<NonZeroU64>, count: nat) {
    limit.Some? && count >= limit.value
  }

  function SmallerLimit(a: Option<NonZeroU64>, b: Option<NonZeroU64>): Option<NonZeroU64> {
    if b.None? then a else if a.Some? && a.value < b.value then a else b
  }

  /** The smaller limit is one of the two and exceeds neither; no limit is above every limit. */
  lemma SmallerLimitIs(a: Option<NonZeroU64>, b: Option<NonZeroU64>)
    ensures var l := SmallerLimit(a, b);
            && (l == a || l == b)
            && (a.Some? ==> l.Some? && l.value <= a.value)
            && (b.Some? ==> l.Some? && l.value <= b.value)
  {
  }

  function Take(n: nat, rs: seq<Record>): seq<Record> {
    if |rs| <= n then rs else rs[..n]
  }

  /** The matching records among `es` that the limit lets through after `count` of them. */
  function Limited(limit: Option<NonZeroU64>, count: nat, rtype: Option<U8>, es: seq<Emission>): seq<Record> {
    var matching := Filter(rtype, Records(es));
    if limit.None? then matching
    else Take(if count >= limit.value then 0 else limit.value - count, matching)
  }

  /** What is left of `es` once the limit is reached or the end is seen. */
  function AfterLimit(limit: Option<NonZeroU64>, count: nat, rtype: Option<U8>, es: seq<Emission>): seq<Emission>
    decreases |es|
  {
    if Exhausted(limit, count) then es
    else if FirstMatch(rtype, es).None? then []
    else AfterLimit(limit, count + 1, rtype, AfterMatch(rtype, es))
  }

  lemma {:induction false} FilterStep(rtype: Option<U8>, es: seq<Emission>)
    ensures Filter(rtype, Records(es)) ==
            if FirstMatch(rtype, es).None? then []
            else [FirstMatch(rtype, es).value] + Filter(rtype, Records(AfterMatch(rtype, es)))
  {
    if es != [] {
      assert Records(es)[1..] == Records(es[1..]);
      if !Matches(rtype, es[0].record) {
        FilterStep(rtype, es[1..]);
      }
    }
  }

  /** One pull through the limit: the record, the count after it, and what is left. Once the
      limit is reached nothing is pulled. */
  function Pulled(limit: Option<NonZeroU64>, count: nat, rtype: Option<U8>, es: seq<Emission>)
    : (Option<Record>, nat, seq<Emission>)
  {
    if Exhausted(limit, count) then (None, count, es)
    else if FirstMatch(rtype, es).None? then (None, count, AfterMatch(rtype, es))
    else (FirstMatch(rtype, es), count + 1, AfterMatch(rtype, es))
  }

  /** A pull takes the first record that the limit lets through, or finds that there is none. */
  lemma PullStep(limit: Option<NonZeroU64>, count: nat, rtype: Option<U8>, es: seq<Emission>)
    ensures var (r, n, left) := Pulled(limit, count, rtype, es);
            && |left| <= |es| && (r.Some? ==> |left| < |es|)
            && (r.None? ==> Limited(limit, count, rtype, es) == [] && AfterLimit(limit, count, rtype, es) == left)
            && (r.Some? ==>
                  && Limited(limit, count, rtype, es) == [r.value] + Limited(limit, n, rtype, left)
                  && AfterLimit(limit, count, rtype, es) == AfterLimit(limit, n, rtype, left))
  {
    FilterStep(rtype, es);
  }

  /** Where a loop over pulls is: how many records were let through, and what is left. */
  datatype Stage = Stage(count: nat, left: seq<Emission>)

  /** Pulling from stage `first` on lets `out` through and comes to stage `now`. */
  ghost predicate Reaches(limit: Option<NonZeroU64>, rtype: Option<U8>, first: Stage, out: seq<Record>, now: Stage) {
    && Limited(limit, first.count, rtype, first.left) == out + Limited(limit, now.count, rtype, now.left)
    && AfterLimit(limit, first.count, rtype, first.left) == AfterLimit(limit, now.count, rtype, now.left)
  }

  lemma ReachesItself(limit: Option<NonZeroU64>, rtype: Option<U8>, first: Stage)
    ensures Reaches(limit, rtype, first, [], first)
  {
  }

  /** One more pull, or the end of all that is let through. */
  lemma ReachesNext(limit: Option<NonZeroU64>, rtype: Option<U8>, first: Stage, out: seq<Record>, now: Stage)
    requires Reaches(limit, rtype, first, out, now)
    ensures var (r, n, left) := Pulled(limit, now.count, rtype, now.left);
            if r.Some? then |left| < |now.left| && Reaches(limit, rtype, first, out + [r.value], Stage(n, left))
            else out == Limited(limit, first.count, rtype, first.left)
                 && left == AfterLimit(limit, first.count, rtype, first.left)
  {
    var (r, n, left) := Pulled(limit, now.count, rtype, now.left);
    PullStep(limit, now.count, rtype, now.left);
    if r.Some? {
      Regroup(out, [r.value], Limited(limit, n, rtype, left));
    } else {
      AppendNothing(out);
    }
  }

  lemma ReachesPrefix(limit: Option<NonZeroU64>, rtype: Option<U8>, first: Stage, out: seq<Record>, now: Stage,
                      written: seq<Record>)
    requires Reaches(limit, rtype, first, out, now)
    ensures written + out <= written + Limited(limit, first.count, rtype, first.left)
  {
    KeepsPrefix(written, out, Limited(limit, now.count, rtype, now.left));
  }

  // ---------- how a loop over pulls ends ----------

  /** What a reader is told that found `found`: a failure shows only when there is nothing left. */
  function Told(found: Option<Record>, failure: Option<Error>): Result<Option<Record>> {
    if found.None? && failure.Some? then Err(failure.value) else Ok(found)
  }

  /** A sink with this room that holds `have` records does not take all of `out`. */
  predicate Overflows(room: Option<nat>, have: nat, out: seq<Record>) {
    room.Some? && out != [] && have + |out| > room.value
  }

  /** The part of `out` that the sink takes. */
  function Accepted(room: Option<nat>, have: nat, out: seq<Record>): seq<Record> {
    if !Overflows(room, have, out) then out
    else if have >= room.value then []
    else out[..room.value - have]
  }

  /** What a sink holds after encoding, and what encoding returns. */
  datatype Encoding = Encoding(written: seq<Record>, result: Result<()>)

  /** Encoding what the filters let through of a run. A full sink is met before the failure of the
      run, and a limit that is reached keeps the loop from meeting either. */
  function Encoded(room: Option<nat>, before: seq<Record>, limit: Option<NonZeroU64>, count: nat, rtype: Option<U8>,
                   run: Ending): Encoding
  {
    var out := Limited(limit, count, rtype, run.emitted);
    Encoding(before + Accepted(room, |before|, out),
             if Overflows(room, |before|, out) then Err(Encode)
             else if run.failure.Some? && !Exhausted(limit, count + |out|) then Err(run.failure.value)
             else Ok(()))
  }

  /** Short of the limit a pull is a read through the schema filter, and at the limit it is none. */
  lemma PullIsMatch(limit: Option<NonZeroU64>, count: nat, rtype: Option<U8>, es: seq<Emission>)
    ensures Pulled(limit, count, rtype, es) ==
            if Exhausted(limit, count) then (None, count, es)
            else (FirstMatch(rtype, es), if FirstMatch(rtype, es).Some? then count + 1 else count, AfterMatch(rtype, es))
  {
  }

  /** A sink has room for what a loop has written, if that is anything. */
  predicate HasRoom(room: Option<nat>, have: nat, out: seq<Record>) {
    out == [] || room.None? || have + |out| <= room.value
  }

  /** A loop that meets a full sink has written what the sink takes. */
  lemma MeetsFull(limit: Option<NonZeroU64>, rtype: Option<U8>, first: Stage, out: seq<Record>, now: Stage,
                  room: nat, before: seq<Record>, run: Ending)
    requires first.left == run.emitted && Reaches(limit, rtype, first, out, now)
    requires Pulled(limit, now.count, rtype, now.left).0.Some?
    requires HasRoom(Some(room), |before|, out) && |before| + |out| >= room
    ensures Encoded(Some(room), before, limit, first.count, rtype, run) == Encoding(before + out, Err(Encode))
  {
    PullStep(limit, now.count, rtype, now.left);
    var rest := Limited(limit, now.count, rtype, now.left);
    assert rest != [] && (out + rest)[..|out|] == out;
  }

  /** A loop that finds nothing more has written everything; the run may still end in a failure. */
  lemma MeetsEnd(limit: Option<NonZeroU64>, rtype: Option<U8>, first: Stage, out: seq<Record>, now: Stage,
                 room: Option<nat>, before: seq<Record>, run: Ending)
    requires first.left == run.emitted && Reaches(limit, rtype, first, out, now)
    requires Pulled(limit, now.count, rtype, now.left).0.None?
    requires HasRoom(room, |before|, out)
    ensures Encoded(room, before, limit, first.count, rtype, run) ==
            Encoding(before + out,
                     if run.failure.Some? && !Exhausted(limit, first.count + |out|) then Err(run.failure.value) else Ok(()))
  {
    ReachesNext(limit, rtype, first, out, now);
  }

  /** What the limit lets through of a prefix is a prefix, and all of it if the limit is reached. */
  lemma LimitedPrefix(limit: Option<NonZeroU64>, rtype: Option<U8>, es: seq<Emission>, all: seq<Emission>)
    requires es <= all
    ensures var out := Limited(limit, 0, rtype, es);
            out <= Limited(limit, 0, rtype, all)
            && (Exhausted(limit, |out|) ==> out == Limited(limit, 0, rtype, all))
  {
    assert all == es + all[|es|..];
    SelectAppend(rtype, es, all[|es|..]);
  }

  lemma SelectCons(rtype: Option<U8>, e: Emission, es: seq<Emission>)
    ensures Filter(rtype, Records([e] + es)) ==
            (if Matches(rtype, e.record) then [e.record] else []) + Filter(rtype, Records(es))
  {
    assert ([e] + es)[1..] == es;
    assert Records([e] + es)[1..] == Records(es);
  }

  lemma {:induction false} SelectAppend(rtype: Option<U8>, a: seq<Emission>, b: seq<Emission>)
    ensures Filter(rtype, Records(a + b)) == Filter(rtype, Records(a)) + Filter(rtype, Records(b))
  {
    if a == [] {
      assert a + b == b;
    } else {
      hide Filter, Records, Matches;
      SelectAppend(rtype, a[1..], b);
      SelectCons(rtype, a[0], a[1..]);
      SelectCons(rtype, a[0], a[1..] + b);
      assert a == [a[0]] + a[1..];
      Regroup([a[0]], a[1..], b);
      Regroup(if Matches(rtype, a[0].record) then [a[0].record] else [],
              Filter(rtype, Records(a[1..])), Filter(rtype, Records(b)));
    }
  }

  /** What is skipped does not match. */
  lemma {:induction false} SkippedPrefix(rtype: Option<U8>, es: seq<Emission>)
    ensures var k := |es| - |SkipTo(rtype, es)|;
            SkipTo(rtype, es) == es[k..] && Filter(rtype, Records(es[..k])) == []
  {
    if es != [] && !Matches(rtype, es[0].record) {
      SkippedPrefix(rtype, es[1..]);
      var k := |es| - |SkipTo(rtype, es)|;
      assert es[..k][1..] == es[1..][..k - 1];
      assert Records(es[..k])[1..] == Records(es[..k][1..]);
    }
  }

  /** One record through the schema filter takes everything up to the first match. */
  lemma MatchPrefix(rtype: Option<U8>, es: seq<Emission>)
    ensures var k := |es| - |AfterMatch(rtype, es)|;
            && AfterMatch(rtype, es) == es[k..]
            && Filter(rtype, Records(es[..k])) == (if FirstMatch(rtype, es).Some? then [FirstMatch(rtype, es).value] else [])
            && (FirstMatch(rtype, es).Some? ==> k > 0 && Matches(rtype, es[k - 1].record))
  {
    SkippedPrefix(rtype, es);
    var m := |es| - |SkipTo(rtype, es)|;
    if SkipTo(rtype, es) == [] {
      assert es[..m] == es == es[..|es|];
    } else {
      assert es[..m + 1] == es[..m] + [es[m]];
      SelectAppend(rtype, es[..m], [es[m]]);
      SkipToMatches(rtype, es);
      assert Records([es[m]])[1..] == [];
    }
  }

  lemma {:induction false} SkipToMatches(rtype: Option<U8>, es: seq<Emission>)
    ensures SkipTo(rtype, es) != [] ==> Matches(rtype, SkipTo(rtype, es)[0].record)
  {
    if es != [] && !Matches(rtype, es[0].record) {
      SkipToMatches(rtype, es[1..]);
    }
  }

  /** `left` is what remains of `es` when the records `out` have been let through and nothing
      after the last of them has been read, unless everything has. */
  ghost predicate ReadsUpTo(rtype: Option<U8>, es: seq<Emission>, left: seq<Emission>, out: seq<Record>) {
    var k := |es| - |left|;
    && 0 <= k && left == es[k..]
    && Filter(rtype, Records(es[..k])) == out
    && (0 < k < |es| ==> Matches(rtype, es[k - 1].record))
  }

  lemma ReadsOneMore(rtype: Option<U8>, es: seq<Emission>, left: seq<Emission>, out: seq<Record>)
    requires FirstMatch(rtype, es).Some? && ReadsUpTo(rtype, AfterMatch(rtype, es), left, out)
    ensures ReadsUpTo(rtype, es, left, [FirstMatch(rtype, es).value] + out)
  {
    MatchPrefix(rtype, es);
    hide FirstMatch, AfterMatch, Filter, Records, Matches;
    var next := AfterMatch(rtype, es);
    var j, m := |es| - |next|, |next| - |left|;
    assert next[m..] == es[j + m..];
    assert es[..j + m] == es[..j] + next[..m];
    SelectAppend(rtype, es[..j], next[..m]);
  }

  /** Pulling through the limit takes from the merge exactly the records up to the last one that
      is let through, or all of them if the limit is not reached. */
  lemma {:induction false} PullsNoFurther(limit: Option<NonZeroU64>, count: nat, rtype: Option<U8>, es: seq<Emission>)
    ensures ReadsUpTo(rtype, es, AfterLimit(limit, count, rtype, es), Limited(limit, count, rtype, es))
    decreases |es|
  {
    PullStep(limit, count, rtype, es);
    if Exhausted(limit, count) {
      assert es[..0] == [] && es[0..] == es;
    } else if FirstMatch(rtype, es).None? {
      assert es[..|es|] == es;
      FilterStep(rtype, es);
    } else {
      hide Limited, FirstMatch, Filter, Records, ReadsUpTo;
      PullsNoFurther(limit, count + 1, rtype, AfterMatch(rtype, es));
      ReadsOneMore(rtype, es, AfterLimit(limit, count, rtype, es), Limited(limit, count + 1, rtype, AfterMatch(rtype, es)));
    }
  }

  // ---------- over sorted streams ----------

  lemma {:induction false} FilterMembers(rtype: Option<U8>, rs: seq<Record>, r: Record)
    ensures r in Filter(rtype, rs) <==> r in rs && Matches(rtype, r)
  {
    if rs != [] {
      FilterMembers(rtype, rs[1..], r);
      assert r in rs <==> r == rs[0] || r in rs[1..];
    }
  }

  lemma FirstIsEarliest(r: Record, rs: seq<Record>)
    requires SortedByTs(rs) && (rs == [] || r.indexTs <= rs[0].indexTs)
    ensures forall x :: x in rs ==> r.indexTs <= x.indexTs
  {
  }

  lemma {:induction false} FilterInsert(rtype: Option<U8>, r: Record, rs: seq<Record>)
    requires SortedByTs(rs)
    ensures Filter(rtype, Insert(r, rs)) ==
            if Matches(rtype, r) then Insert(r, Filter(rtype, rs)) else Filter(rtype, rs)
  {
    if rs == [] || r.indexTs <= rs[0].indexTs {
      assert ([r] + rs)[1..] == rs;
      hide SortedByTs;
      FirstIsEarliest(r, rs);
      forall x | x in Filter(rtype, rs) ensures r.indexTs <= x.indexTs {
        FilterMembers(rtype, rs, x);
      }
    } else {
      assert Insert(r, rs)[1..] == Insert(r, rs[1..]);
      var rest := Filter(rtype, rs[1..]);
      assert [] + rest == rest && ([rs[0]] + rest)[1..] == rest;
      FilterInsert(rtype, r, rs[1..]);
      assert [] + Filter(rtype, Insert(r, rs[1..])) == Filter(rtype, Insert(r, rs[1..]));
    }
  }

  /** Filtering and sorting commute. */
  lemma {:induction false} FilterSort(rtype: Option<U8>, rs: seq<Record>)
    ensures Filter(rtype, Sort(rs)) == Sort(Filter(rtype, rs))
  {
    if rs != [] {
      FilterSort(rtype, rs[1..]);
      SortSorts(rs[1..]);
      var rest := Filter(rtype, rs[1..]);
      assert [] + rest == rest && ([rs[0]] + rest)[1..] == rest;
      FilterInsert(rtype, rs[0], Sort(rs[1..]));
    }
  }

  /** `out` holds the `n` earliest of `all`: sorted, part of `all`, no later than what it leaves
      out, and shorter than `n` only when it is everything. */
  ghost predicate Earliest(n: nat, out: seq<Record>, all: seq<Record>) {
    && SortedByTs(out)
    && |out| == (if |all| <= n then |all| else n)
    && exists rest :: Completes(out, rest, all)
  }

  /** `rest` is what `out` leaves out of `all`, and nothing in it is earlier than `out`. */
  ghost predicate Completes(out: seq<Record>, rest: seq<Record>, all: seq<Record>) {
    && multiset(out + rest) == multiset(all)
    && forall a, b :: a in out && b in rest ==> a.indexTs <= b.indexTs
  }

  lemma {:induction false} SortLength(rs: seq<Record>)
    ensures |Sort(rs)| == |rs|
  {
    if rs != [] {
      SortLength(rs[1..]);
      InsertLength(rs[0], Sort(rs[1..]));
    }
  }

  lemma {:induction false} InsertLength(r: Record, rs: seq<Record>)
    ensures |Insert(r, rs)| == |rs| + 1
  {
    if rs != [] && rs[0].indexTs < r.indexTs {
      InsertLength(r, rs[1..]);
    }
  }

  lemma TakeIsEarliest(n: nat, all: seq<Record>)
    ensures Earliest(n, Take(n, Sort(all)), all)
  {
    SortSorts(all);
    SortLength(all);
    PrefixIsEarliest(n, Sort(all), all);
  }

  lemma PrefixIsEarliest(n: nat, sorted: seq<Record>, all: seq<Record>)
    requires SortedByTs(sorted) && multiset(sorted) == multiset(all) && |sorted| == |all|
    ensures Earliest(n, Take(n, sorted), all)
  {
    var out := Take(n, sorted);
    var rest := sorted[|out|..];
    assert out == sorted[..|out|];
    assert out + rest == sorted;
    forall a, b | a in out && b in rest ensures a.indexTs <= b.indexTs {
      var i :| 0 <= i < |out| && sorted[i] == a;
      var j :| 0 <= j < |rest| && rest[j] == b;
      assert sorted[|out| + j] == b;
    }
    assert Completes(out, rest, all);
  }

  /** The earliest matching records, as many as the limit allows, in stable order. */
  function EarliestMatching(limit: Option<NonZeroU64>, rtype: Option<U8>, rs: seq<Record>): seq<Record> {
    var sorted := Sort(Filter(rtype, rs));
    if limit.None? then sorted else Take(limit.value, sorted)
  }

  /** They are sorted, all of the type, and without a limit all records of the type. */
  lemma EarliestMatchingIs(limit: Option<NonZeroU64>, rtype: U8, rs: seq<Record>)
    ensures var out := EarliestMatching(limit, Some(rtype), rs);
            && SortedByTs(out)
            && (forall k :: 0 <= k < |out| ==> out[k].rtype == rtype)
            && (limit.None? ==> forall x: Record :: multiset(out)[x] == if x.rtype == rtype then multiset(rs)[x] else 0)
  {
    var kept := Filter(Some(rtype), rs);
    var sorted := Sort(kept);
    FilterKeeps(rtype, rs);
    SortSorts(kept);
    forall k | 0 <= k < |sorted| ensures sorted[k].rtype == rtype {
      assert sorted[k] in multiset(sorted);
    }
  }

  /** The filters let through records of the type only. */
  lemma LimitedHasType(limit: Option<NonZeroU64>, count: nat, rtype: U8, es: seq<Emission>)
    ensures forall k :: 0 <= k < |Limited(limit, count, Some(rtype), es)| ==>
              Limited(limit, count, Some(rtype), es)[k].rtype == rtype
  {
    var kept := Filter(Some(rtype), Records(es));
    FilterKeeps(rtype, Records(es));
    forall k | 0 <= k < |kept| ensures kept[k].rtype == rtype {
      assert kept[k] in multiset(kept);
    }
  }

  lemma {:induction false} LimitedIsSorted(s: Streams, b: Bounds, rtype: Option<U8>, limit: Option<NonZeroU64>)
    requires |s| == |b| && ValidBounds(s, b) && AllSorted(s)
    ensures Limited(limit, 0, rtype, LazyMerge(s, b)) == EarliestMatching(limit, rtype, Concat(s))
  {
    MergeIsStableSort(s, b);
    FilterSort(rtype, Concat(s));
  }

  /** Over sorted streams with valid hints, the filters let through the `limit` earliest of all
      the matching records, the stable sort deciding among equal timestamps. */
  lemma {:induction false} LimitedIsEarliest(s: Streams, b: Bounds, rtype: Option<U8>, limit: NonZeroU64)
    requires |s| == |b| && ValidBounds(s, b) && AllSorted(s)
    ensures Limited(Some(limit), 0, rtype, LazyMerge(s, b)) == Take(limit, Sort(Filter(rtype, Concat(s))))
    ensures Earliest(limit, Limited(Some(limit), 0, rtype, LazyMerge(s, b)), Filter(rtype, Concat(s)))
  {
    LimitedIsSorted(s, b, rtype, Some(limit));
    TakeIsEarliest(limit, Filter(rtype, Concat(s)));
  }
}
