/** What sits on top of the record merge: the merge of whole files, the typed stream iterator,
    the schema and limit filters, and the loops that encode what a decoder returns. */
module Pipeline {
  import opened Common
  import opened FailingMerge
  import opened KMerge
  import opened MetadataTypes
  import opened MetadataMerge
  import opened RecordMerge
  import opened Selection
  import opened StableSort

  // ---------- merging files ----------

  /** Merges both the metadata and the records of several decoders. */
  class MergeDecoder {
    var metadata: Metadata
    const decoder: RecordDecoder

    constructor Init(metadata: Metadata, decoder: RecordDecoder)
      ensures this.metadata == metadata && this.decoder == decoder
    {
      this.metadata := metadata;
      this.decoder := decoder;
    }

    ghost predicate Valid()
      reads this, decoder, decoder.inner
    {
      decoder.Valid()
    }

    ghost function Pending(): seq<Emission>
      reads decoder
    {
      decoder.Pending()
    }

    ghost function Failure(): Option<Error>
      reads decoder
    {
      decoder.Failure()
    }

    /** The metadata start of each decoder is its hint; no record is read. */
    static method New(decoders: seq<StreamDecoder>) returns (r: Result<MergeDecoder>)
      requires Distinct(decoders) && forall d :: d in decoders ==> d.idx == -1
      ensures decoders == [] ==> r == Err(BadArgument("decoders"))
      ensures MergedState(decoders).Err? ==> r == Err(MergedState(decoders).error)
      ensures MergedState(decoders).Ok? ==> r.Ok?
      ensures r.Ok? ==> && fresh(r.value) && fresh(r.value.decoder)
                        && Lists(r.value.metadata, MergedState(decoders).value)
                        && r.value.decoder.StartsWith(decoders, RunOf(decoders))
      ensures r.Ok? && AllSorted(StreamsOf(decoders)) && StartsAreValid(decoders) && NoneFails(decoders) ==>
                Records(r.value.Pending()) == Sort(Concat(StreamsOf(decoders))) && r.value.Failure().None?
    {
      var hints := seq(|decoders|, i requires 0 <= i < |decoders| => decoders[i].metadata.start);
      if decoders == [] {
        return Err(BadArgument("decoders"));
      }
      var metadata :- MergeAll(decoders[0].metadata, MetadataOf(decoders)[1..]);
      var decoder := RecordDecoder.WithHints(decoders, hints);
      var m := new MergeDecoder.Init(metadata, decoder.value);
      assert BoundsOf(hints) == StartBounds(decoders);
      if AllSorted(StreamsOf(decoders)) && StartsAreValid(decoders) && NoneFails(decoders) {
        SortedRun(decoders);
      }
      r := Ok(m);
    }

    method DecodeRecordRef() returns (r: Result<Option<Record>>)
      requires Valid()
      modifies decoder, decoder.inner
      ensures old(decoder.run).Step(decoder.run, r) && (r.Ok? ==> Valid())
      ensures r == Ok(None) ==> NoneFails(decoder.decoders)
      ensures r.Err? ==> HasFailed(decoder.decoders, decoder.inner, r.error)
    {
      r := decoder.DecodeRecordRef();
    }
  }

  /** No metadata starts later than the first record. */
  ghost predicate StartsAreValid(decoders: seq<StreamDecoder>) {
    forall i :: 0 <= i < |decoders| && decoders[i].records != [] ==>
      decoders[i].metadata.start <= decoders[i].records[0].indexTs
  }

  lemma StartsAreBounds(decoders: seq<StreamDecoder>)
    requires StartsAreValid(decoders)
    ensures ValidBounds(StreamsOf(decoders), StartBounds(decoders))
  {
  }

  /** Merging sorted files that do not fail emits the stable sort of all their records. */
  lemma SortedRun(decoders: seq<StreamDecoder>)
    requires AllSorted(StreamsOf(decoders)) && StartsAreValid(decoders) && NoneFails(decoders)
    ensures Records(RunOf(decoders).emitted) == Sort(Concat(StreamsOf(decoders))) && RunOf(decoders).failure.None?
  {
    var s, b, f := StreamsOf(decoders), StartBounds(decoders), FailuresOf(decoders);
    StartsAreBounds(decoders);
    SameFailures(decoders);
    NothingRead(s, b, f);
    EndsWellIff(s, b, f);
    EmitsPrefix(s, b, f);
    MergeIsStableSort(s, b);
  }

  lemma SameFailures(decoders: seq<StreamDecoder>)
    ensures NoFailures(FailuresOf(decoders)) <==> NoneFails(decoders)
  {
    assert forall i :: 0 <= i < |decoders| ==> FailuresOf(decoders)[i] == decoders[i].failure;
  }

  lemma NothingRead(s: Streams, b: Bounds, f: Failures)
    requires |s| == |b| == |f| && forall i :: 0 <= i < |b| ==> b[i].Some?
    ensures Unfailed(s, b, f)
  {
  }

  function MetadataOf(decoders: seq<StreamDecoder>): seq<Metadata> {
    seq(|decoders|, i requires 0 <= i < |decoders| => decoders[i].metadata)
  }

  function StartBounds(decoders: seq<StreamDecoder>): (b: Bounds)
    ensures |b| == |decoders| && forall i :: 0 <= i < |b| ==> b[i].Some?
  {
    seq(|decoders|, i requires 0 <= i < |decoders| => Some(decoders[i].metadata.start))
  }

  /** What merging the decoders, each hinted by its metadata, emits, and how that ends. */
  ghost function RunOf(decoders: seq<StreamDecoder>): Ending {
    MergeUntilFailure(StreamsOf(decoders), StartBounds(decoders), FailuresOf(decoders))
  }

  function MergedState(decoders: seq<StreamDecoder>): Result<MergerState> {
    if decoders == [] then Err(BadArgument("decoders"))
    else AbsorbAll(Started(decoders[0].metadata), MetadataOf(decoders)[1..])
  }

  lemma RecordsStep(es: seq<Emission>)
    requires es != []
    ensures Records(es) == [es[0].record] + Records(es[1..])
  {
  }

  ghost predicate HasMisfit(fits: Record -> bool, rs: seq<Record>) {
    exists x :: x in rs && !fits(x)
  }

  /** Decodes every record that is left, failing on one of another type. */
  method DecodeRecords(decoder: RecordDecoder, fits: Record -> bool) returns (r: Result<seq<Record>>)
    requires decoder.Valid()
    modifies decoder, decoder.inner
    ensures r == if HasMisfit(fits, Records(old(decoder.Pending()))) then Err(Conversion)
                 else if old(decoder.Failure()).Some? then Err(old(decoder.Failure()).value)
                 else Ok(Records(old(decoder.Pending())))
    ensures r.Ok? ==> decoder.Valid() && decoder.Pending() == [] && NoneFails(decoder.decoders)
    ensures r.Ok? ==> decoder.run.trace == old(decoder.run.plan.emitted)
    ensures r.Err? ==>
              || HasFailed(decoder.decoders, decoder.inner, r.error)
              || (r.error == Conversion && HasMisfit(fits, Records(old(decoder.Pending()))))
  {
    var res := [];
    ghost var left, all := decoder.Pending(), Records(decoder.Pending());
    while true
      invariant decoder.Valid() && decoder.Pending() == left && decoder.run.plan == old(decoder.run.plan)
      invariant decoder.Failure() == old(decoder.Failure())
      invariant all == res + Records(left)
      invariant forall x :: x in res ==> fits(x)
      decreases |left|
    {
      AppendNothing(res);
      var rec :- decoder.DecodeRecordRef();
      if rec.None? {
        assert NoneFails(decoder.decoders);
        break;
      }
      RecordsStep(left);
      if !fits(rec.value) {
        assert rec.value in all;
        return Err(Conversion);
      }
      Regroup(res, [rec.value], Records(left[1..]));
      res, left := res + [rec.value], left[1..];
    }
    r := Ok(res);
  }

  // ---------- the typed stream iterator ----------

  /** Counts the records; no count means the end, or an error, has been reached. */
  class StreamIterDecoder {
    const decoder: RecordDecoder
    const fits: Record -> bool
    var i: Option<nat>

    constructor (decoder: RecordDecoder, fits: Record -> bool)
      ensures this.decoder == decoder && this.fits == fits && i == Some(0)
    {
      this.decoder := decoder;
      this.fits := fits;
      i := Some(0);
    }

    method Advance() returns (r: Result<()>)
      requires i.Some? ==> decoder.Valid()
      modifies this, decoder, decoder.inner
      ensures old(i).None? ==> r.Ok? && i.None? && decoder.run == old(decoder.run)
      ensures old(i).Some? ==> var pending, failure := old(decoder.Pending()), old(decoder.Failure());
                r == if pending != [] then (if fits(pending[0].record) then Ok(()) else Err(Conversion))
                     else if failure.Some? then Err(failure.value)
                     else Ok(())
      ensures old(i).Some? && r.Ok? ==> decoder.Valid() && var pending := old(decoder.Pending());
                if pending == [] then i.None? && decoder.Pending() == [] && NoneFails(decoder.decoders)
                else i == Some(old(i).value + 1) && decoder.Pending() == pending[1..] && Got(pending[0].record)
      ensures old(i).Some? && r.Err? ==> i.None?
      ensures old(i).Some? && r.Err? ==> r.error == Conversion || HasFailed(decoder.decoders, decoder.inner, r.error)
    {
      hide RecordDecoder.Linked, MergeRun.Fits;
      if i.None? {
        return Ok(());
      }
      var rec := decoder.DecodeRecordRef();
      if rec.Err? {
        i := None;
        return Err(rec.error);
      }
      if rec.value.None? {
        i := None;
        return Ok(());
      }
      if !fits(rec.value.value) {
        i := None;
        return Err(Conversion);
      }
      i := Some(i.value + 1);
      r := Ok(());
    }

    /** `rec` is the record that the last call to `Advance` moved to. */
    ghost predicate Got(rec: Record)
      reads decoder
    {
      && !decoder.isFirst && decoder.run.current.Some? && decoder.run.trace != []
      && decoder.run.trace[|decoder.run.trace| - 1].record == rec
      && fits(rec)
    }

    /** The current record: the one that the last call to `Advance` moved to. */
    method Get(ghost rec: Record) returns (r: Option<Record>)
      requires i.Some? ==> decoder.Valid() && Got(rec)
      ensures r == if i.Some? then Some(rec) else None
    {
      if i.Some? {
        var last := decoder.LastRecord();
        r := last.value;
      } else {
        r := None;
      }
    }
  }

  // ---------- the command line's filters ----------

  function RTypeOfOption(schema: Option<Schema>): Option<U8> {
    if schema.Some? then Some(RTypeOf(schema.value)) else None
  }

  /** Drops the records of other types; without a schema it drops none. */
  class SchemaFilter {
    const decoder: MergeDecoder
    const rtype: Option<U8>

    constructor New(decoder: MergeDecoder, schema: Option<Schema>)
      modifies decoder
      ensures this.decoder == decoder && rtype == RTypeOfOption(schema)
      ensures decoder.metadata == if schema.Some? then old(decoder.metadata).(schema := schema) else old(decoder.metadata)
    {
      this.decoder := decoder;
      rtype := RTypeOfOption(schema);
      new;
      if schema.Some? {
        decoder.metadata := decoder.metadata.(schema := schema);
      }
    }

    ghost predicate Valid()
      reads this, decoder, decoder.decoder, decoder.decoder.inner
    {
      decoder.Valid()
    }

    /** The merge below. */
    function Merge(): RecordDecoder {
      decoder.decoder
    }

    /** What the merge below still emits. */
    ghost function Pending(): seq<Emission>
      reads this, decoder, decoder.decoder
    {
      decoder.Pending()
    }

    /** The failure that it is going to end in, if any. */
    ghost function Failure(): Option<Error>
      reads this, decoder, decoder.decoder
    {
      decoder.Failure()
    }

    ghost function Ahead(): Ending
      reads this, decoder, decoder.decoder
    {
      Ending(Pending(), Failure())
    }

    method DecodeRecordRef() returns (r: Result<Option<Record>>)
      requires Valid()
      modifies Merge(), Merge().inner
      ensures r == Told(FirstMatch(rtype, old(Pending())), old(Failure()))
      ensures FindsFirst(rtype, old(Pending()), if r.Ok? then r.value else None, Pending())
      ensures Pending() == AfterMatch(rtype, old(Pending())) && Failure() == old(Failure())
      ensures r.Ok? ==> Valid()
      ensures r == Ok(None) ==> NoneFails(Merge().decoders)
      ensures r.Err? ==> HasFailed(Merge().decoders, Merge().inner, r.error)
    {
      FirstMatchIsFirst(rtype, Pending());
      hide FindsFirst;
      while true
        invariant Valid() && SkipTo(rtype, Pending()) == SkipTo(rtype, old(Pending()))
        invariant Failure() == old(Failure())
        decreases |Pending()|
      {
        var record :- decoder.DecodeRecordRef();
        if record.None? {
          return Ok(None);
        }
        if Matches(rtype, record.value) {
          return Ok(record);
        }
      }
    }
  }

  /** Passes on at most `limit` records. */
  class LimitFilter {
    const decoder: SchemaFilter
    const limit: Option<NonZeroU64>
    var recordCount: nat

    /** The limit in the metadata becomes the smaller one. */
    constructor New(decoder: SchemaFilter, limit: Option<NonZeroU64>)
      modifies decoder.decoder
      ensures this.decoder == decoder && this.limit == limit && recordCount == 0
      ensures decoder.decoder.metadata ==
              old(decoder.decoder.metadata).(limit := SmallerLimit(old(decoder.decoder.metadata.limit), limit))
      ensures var l, was := decoder.decoder.metadata.limit, old(decoder.decoder.metadata.limit);
              && (l == was || l == limit)
              && (was.Some? ==> l.Some? && l.value <= was.value) && (limit.Some? ==> l.Some? && l.value <= limit.value)
    {
      this.decoder := decoder;
      this.limit := limit;
      recordCount := 0;
      new;
      if limit.Some? {
        var metadataLimit := decoder.decoder.metadata.limit;
        if metadataLimit.Some? && metadataLimit.value < limit.value {
        } else {
          decoder.decoder.metadata := decoder.decoder.metadata.(limit := limit);
        }
      }
    }

    /** The merge below. */
    function Merge(): RecordDecoder {
      decoder.Merge()
    }

    method DecodeRecordRef() returns (r: Result<Option<Record>>)
      requires decoder.Valid()
      modifies this`recordCount, Merge(), Merge().inner
      ensures var (found, count, left) := Pulled(limit, old(recordCount), decoder.rtype, old(decoder.Pending()));
              && r == (if Exhausted(limit, old(recordCount)) then Ok(None) else Told(found, old(decoder.Failure())))
              && recordCount == count && decoder.Pending() == left && decoder.Failure() == old(decoder.Failure())
      ensures r.Ok? ==> decoder.Valid()
      ensures r == Ok(None) && !Exhausted(limit, recordCount) ==> NoneFails(Merge().decoders)
      ensures r.Err? ==> HasFailed(Merge().decoders, Merge().inner, r.error)
    {
      hide RecordDecoder.Linked, MergeRun.Fits;
      if Exhausted(limit, recordCount) {
        return Ok(None);
      }
      r := decoder.DecodeRecordRef();
      ghost var left := decoder.Ahead();
      if r.Ok? && r.value.Some? {
        recordCount := recordCount + 1;
      }
      assert decoder.Ahead() == left;
    }
  }

  // ---------- encoding ----------

  /** Where records are encoded to; once `room` is used up a write fails. */
  class Sink {
    const room: Option<nat>
    var written: seq<Record>
    var flushed: bool

    constructor (room: Option<nat>)
      ensures this.room == room && written == [] && !flushed
    {
      this.room := room;
      written := [];
      flushed := false;
    }

    predicate Full()
      reads this
    {
      room.Some? && |written| >= room.value
    }

    method EncodeRecordRef(record: Record) returns (r: Result<()>)
      modifies this
      ensures r == if old(Full()) then Err(Encode) else Ok(())
      ensures written == if r.Ok? then old(written) + [record] else old(written)
    {
      if Full() {
        return Err(Encode);
      }
      written := written + [record];
      flushed := false;
      r := Ok(());
    }

    method Flush()
      modifies this`flushed
      ensures flushed
    {
      flushed := true;
    }
  }

  /** Encodes everything that the decoder returns. */
  method EncodeDecoded(sink: Sink, decoder: LimitFilter) returns (r: Result<()>)
    requires decoder.decoder.Valid()
    modifies sink, decoder`recordCount, decoder.Merge(), decoder.Merge().inner
    ensures Encoding(sink.written, r) ==
            Encoded(sink.room, old(sink.written), decoder.limit, old(decoder.recordCount), decoder.decoder.rtype,
                    old(decoder.decoder.Ahead()))
    ensures r.Ok? ==> sink.flushed && decoder.decoder.Valid()
    ensures r.Ok? ==>
              decoder.decoder.Pending() ==
                AfterLimit(decoder.limit, old(decoder.recordCount), decoder.decoder.rtype, old(decoder.decoder.Pending()))
    ensures r.Ok? && !Exhausted(decoder.limit, decoder.recordCount) ==> NoneFails(decoder.Merge().decoders)
    ensures r.Err? ==>
              || HasFailed(decoder.Merge().decoders, decoder.Merge().inner, r.error)
              || (r.error == Encode && sink.Full())
  {
    hide RecordDecoder.Linked, MergeRun.Fits, Reaches, Limited, AfterLimit, Encoded;
    var rtype, limit := decoder.decoder.rtype, decoder.limit;
    ghost var first := Stage(decoder.recordCount, decoder.decoder.Pending());
    ghost var now, out: seq<Record> := first, [];
    ghost var before, run := sink.written, decoder.decoder.Ahead();
    ReachesItself(limit, rtype, first);
    while true
      invariant decoder.decoder.Valid() && now == Stage(decoder.recordCount, decoder.decoder.Pending())
      invariant decoder.decoder.Failure() == old(decoder.decoder.Failure())
      invariant decoder.recordCount == old(decoder.recordCount) + |out|
      invariant sink.written == old(sink.written) + out && Reaches(limit, rtype, first, out, now)
      invariant HasRoom(sink.room, |before|, out)
      decreases |now.left|
    {
      ReachesNext(limit, rtype, first, out, now);
      if Pulled(limit, now.count, rtype, now.left).0.None? {
        MeetsEnd(limit, rtype, first, out, now, sink.room, before, run);
      }
      var record :- decoder.DecodeRecordRef();
      if record.None? {
        break;
      }
      if sink.Full() {
        MeetsFull(limit, rtype, first, out, now, sink.room.value, before, run);
      }
      var _ :- sink.EncodeRecordRef(record.value);
      now := Stage(decoder.recordCount, decoder.decoder.Pending());
      Regroup(old(sink.written), out, [record.value]);
      out := out + [record.value];
    }
    sink.Flush();
    r := Ok(());
  }

  /** Encodes at most `limit` of the records that the decoder returns. */
  method EncodeDecodedWithLimit(sink: Sink, decoder: SchemaFilter, limit: NonZeroU64) returns (r: Result<()>)
    requires decoder.Valid()
    modifies sink, decoder.Merge(), decoder.Merge().inner
    ensures Encoding(sink.written, r) ==
            Encoded(sink.room, old(sink.written), Some(limit), 0, decoder.rtype, old(decoder.Ahead()))
    ensures r.Ok? ==> sink.flushed && decoder.Valid()
    ensures r.Ok? ==> decoder.Pending() == AfterLimit(Some(limit), 0, decoder.rtype, old(decoder.Pending()))
    ensures r.Ok? && |sink.written| < |old(sink.written)| + limit ==> NoneFails(decoder.Merge().decoders)
    ensures r.Err? ==>
              || HasFailed(decoder.Merge().decoders, decoder.Merge().inner, r.error)
              || (r.error == Encode && sink.Full())
  {
    hide RecordDecoder.Linked, MergeRun.Fits, Reaches, Limited, AfterLimit, Encoded, Pulled, FirstMatch, AfterMatch;
    var i, rtype := 0, decoder.rtype;
    ghost var first := Stage(0, decoder.Pending());
    ghost var now, out: seq<Record> := first, [];
    ghost var before, run := sink.written, decoder.Ahead();
    ReachesItself(Some(limit), rtype, first);
    while true
      invariant decoder.Valid() && now == Stage(i, decoder.Pending()) && i == |out| < limit
      invariant decoder.Failure() == old(decoder.Failure())
      invariant sink.written == old(sink.written) + out && Reaches(Some(limit), rtype, first, out, now)
      invariant HasRoom(sink.room, |before|, out)
      decreases |now.left|
    {
      PullIsMatch(Some(limit), now.count, rtype, now.left);
      ReachesNext(Some(limit), rtype, first, out, now);
      if Pulled(Some(limit), now.count, rtype, now.left).0.None? {
        MeetsEnd(Some(limit), rtype, first, out, now, sink.room, before, run);
      }
      var record :- decoder.DecodeRecordRef();
      if record.None? {
        break;
      }
      if sink.Full() {
        MeetsFull(Some(limit), rtype, first, out, now, sink.room.value, before, run);
      }
      var _ :- sink.EncodeRecordRef(record.value);
      i := i + 1;
      now := Stage(i, decoder.Pending());
      Regroup(old(sink.written), out, [record.value]);
      out := out + [record.value];
      if i == limit {
        PullIsMatch(Some(limit), now.count, rtype, now.left);
        ReachesNext(Some(limit), rtype, first, out, now);
        MeetsEnd(Some(limit), rtype, first, out, now, sink.room, before, run);
        break;
      }
    }
    sink.Flush();
    r := Ok(());
  }

  // ---------- the whole command ----------

  /** What encoding a run says about the streams that it merges. */
  lemma EncodedMerge(s: Streams, b: Bounds, f: Failures, rtype: Option<U8>, limit: Option<NonZeroU64>,
                     room: Option<nat>, before: seq<Record>)
    requires |s| == |b| == |f| && Unfailed(s, b, f)
    ensures var e, run := Encoded(room, before, limit, 0, rtype, MergeUntilFailure(s, b, f)), MergeUntilFailure(s, b, f);
            var all := Limited(limit, 0, rtype, LazyMerge(s, b));
            && e.written <= before + all
            && (e.result.Ok? ==> e.written == before + all)
            && (e.result.Ok? && AllSorted(s) && ValidBounds(s, b) ==>
                  e.written == before + EarliestMatching(limit, rtype, Concat(s)))
            && (rtype.Some? ==> forall k :: |before| <= k < |e.written| ==> e.written[k].rtype == rtype.value)
            && (e.result.Ok? && !Exhausted(limit, |e.written| - |before|) ==> NoFailures(f))
            && (room.None? ==>
                  (e.result.Ok? <==> NoFailures(f) || Exhausted(limit, |Limited(limit, 0, rtype, run.emitted)|)))
  {
    var run := MergeUntilFailure(s, b, f);
    EmitsPrefix(s, b, f);
    EndsWellIff(s, b, f);
    LimitedPrefix(limit, rtype, run.emitted, LazyMerge(s, b));
    if rtype.Some? {
      LimitedHasType(limit, 0, rtype.value, run.emitted);
    }
    if AllSorted(s) && ValidBounds(s, b) {
      LimitedIsSorted(s, b, rtype, limit);
    }
  }

  /** The same of the merge of decoders, in terms of their own fields. */
  lemma EncodedRun(decoders: seq<StreamDecoder>, schema: Option<Schema>, limit: Option<NonZeroU64>,
                   room: Option<nat>, before: seq<Record>)
    ensures var rtype, s := RTypeOfOption(schema), StreamsOf(decoders);
            var e, all := Encoded(room, before, limit, 0, rtype, RunOf(decoders)),
                          Limited(limit, 0, rtype, LazyMerge(s, StartBounds(decoders)));
            && e.written <= before + all
            && (e.result.Ok? ==> e.written == before + all)
            && (e.result.Ok? && AllSorted(s) && StartsAreValid(decoders) ==>
                  && e.written == before + EarliestMatching(limit, rtype, Concat(s))
                  && (limit.None? && schema.None? ==> e.written == before + Sort(Concat(s))))
            && (schema.Some? ==>
                  forall k :: |before| <= k < |e.written| ==> e.written[k].rtype == RTypeOf(schema.value))
            && (e.result.Ok? && !Exhausted(limit, |e.written| - |before|) ==> NoneFails(decoders))
            && (room.None? ==>
                  (e.result.Ok? <==> || NoneFails(decoders)
                                     || Exhausted(limit, |Limited(limit, 0, rtype, RunOf(decoders).emitted)|)))
  {
    hide Limited, Unfailed, MergeUntilFailure, Encoded;
    ghost var s, b, f := StreamsOf(decoders), StartBounds(decoders), FailuresOf(decoders);
    NothingRead(s, b, f);
    EncodedMerge(s, b, f, RTypeOfOption(schema), limit, room, before);
    FilterNone(Concat(s));
    if StartsAreValid(decoders) {
      StartsAreBounds(decoders);
    }
    SameFailures(decoders);
    assert RunOf(decoders) == MergeUntilFailure(s, b, f);
  }

  /** The merge of the decoders under both filters. */
  method Wrapped(decoders: seq<StreamDecoder>, schema: Option<Schema>, limit: Option<NonZeroU64>)
    returns (r: Result<LimitFilter>)
    requires Distinct(decoders) && forall d :: d in decoders ==> d.idx == -1
    ensures MergedState(decoders).Err? ==> r == Err(MergedState(decoders).error)
    ensures MergedState(decoders).Ok? ==> r.Ok?
    ensures r.Ok? ==> fresh(r.value) && fresh(r.value.Merge())
    ensures r.Ok? ==> r.value.Merge().decoders == decoders && r.value.Merge().inner == FrameOf(decoders)
    ensures r.Ok? ==> && r.value.decoder.Valid() && r.value.decoder.Ahead() == RunOf(decoders)
                      && r.value.limit == limit && r.value.recordCount == 0
                      && r.value.decoder.rtype == RTypeOfOption(schema)
  {
    hide RecordDecoder.Linked, MergeRun.Fits, RunOf;
    var merge :- MergeDecoder.New(decoders);
    var schemaFilter := new SchemaFilter.New(merge, schema);
    var limitFilter := new LimitFilter.New(schemaFilter, limit);
    r := Ok(limitFilter);
  }

  /** Merges the decoders, applies the schema and the limit, and encodes what is left. Over sorted
      streams whose metadata starts no later than their first record, the result is the earliest
      matching records of all streams, stably sorted. Over a stream that fails it succeeds only by
      reaching the limit first. */
  method EncodeMerged(sink: Sink, decoders: seq<StreamDecoder>, schema: Option<Schema>, limit: Option<NonZeroU64>)
    returns (r: Result<()>)
    requires Distinct(decoders) && forall d :: d in decoders ==> d.idx == -1
    modifies sink, FrameOf(decoders)
    ensures MergedState(decoders).Err? ==> r == Err(MergedState(decoders).error) && sink.written == old(sink.written)
    ensures MergedState(decoders).Ok? ==>
              Encoding(sink.written, r) ==
                Encoded(sink.room, old(sink.written), limit, 0, RTypeOfOption(schema), RunOf(decoders))
    ensures MergedState(decoders).Ok? ==>
              sink.written <= old(sink.written) +
                Limited(limit, 0, RTypeOfOption(schema), LazyMerge(StreamsOf(decoders), StartBounds(decoders)))
    ensures MergedState(decoders).Ok? && sink.room.None? ==>
              (r.Ok? <==> || NoneFails(decoders)
                          || Exhausted(limit, |Limited(limit, 0, RTypeOfOption(schema), RunOf(decoders).emitted)|))
    ensures MergedState(decoders).Ok? && r.Err? ==>
              HasFailed(decoders, FrameOf(decoders), r.error) || (r.error == Encode && sink.Full())
    ensures r.Ok? && (limit.None? || |sink.written| < |old(sink.written)| + limit.value) ==> NoneFails(decoders)
    ensures r.Ok? ==> sink.flushed
    ensures r.Ok? ==>
              sink.written == old(sink.written) +
                Limited(limit, 0, RTypeOfOption(schema), LazyMerge(StreamsOf(decoders), StartBounds(decoders)))
    ensures r.Ok? && AllSorted(StreamsOf(decoders)) && StartsAreValid(decoders) ==>
              sink.written == old(sink.written) +
                EarliestMatching(limit, RTypeOfOption(schema), Concat(StreamsOf(decoders)))
    ensures r.Ok? && AllSorted(StreamsOf(decoders)) && StartsAreValid(decoders) && limit.None? && schema.None? ==>
              sink.written == old(sink.written) + Sort(Concat(StreamsOf(decoders)))
    ensures MergedState(decoders).Ok? && schema.Some? ==>
              forall k :: |old(sink.written)| <= k < |sink.written| ==> sink.written[k].rtype == RTypeOf(schema.value)
  {
    hide RecordDecoder.Linked, MergeRun.Fits, Limited, Encoded, RunOf, EarliestMatching, NoneFails, LazyMerge,
      AllSorted, StartsAreValid, Concat, Sort;
    EncodedRun(decoders, schema, limit, sink.room, sink.written);
    var filter :- Wrapped(decoders, schema, limit);
    r := EncodeDecoded(sink, filter);
  }
}
