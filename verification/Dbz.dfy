/** The decoder of legacy DBZ metadata: a cursor that moves over a buffer. */
module Dbz {
  import opened Calendar
  import opened Common
  import opened DbzLayout
  import opened MetadataTypes
  import opened Utf8
  import opened Wire

  const USIZE_MAX: nat := U64_MAX

  /** Slices are at most half the address space long. */
  const SLICE_MAX: nat := USIZE_MAX / 2

  /** What a parser of the layout says about the bytes that were left, the cursor did. */
  ghost predicate Agrees<T>(r: Result<T>, rest: Bytes, parsed: Parsed<T>) {
    match parsed
    case Err(e) => r == Err(e)
    case Ok((x, post)) => r == Ok(x) && rest == post
  }

  class MetadataCursor {
    const buffer: Bytes
    var pos: nat

    constructor (buffer: Bytes)
      requires |buffer| <= SLICE_MAX
      ensures this.buffer == buffer && pos == 0 && InBounds()
    {
      this.buffer := buffer;
      pos := 0;
    }

    ghost predicate InBounds()
      reads this
    {
      pos <= |buffer| <= SLICE_MAX
    }

    ghost function Rest(): Bytes
      requires InBounds()
      reads this
    {
      buffer[pos..]
    }

    /** The caller has checked that a whole symbol is left. */
    method DecodeSymbol() returns (r: Result<Bytes>)
      requires InBounds() && pos + SYMBOL_LEN <= |buffer|
      modifies this
      ensures InBounds() && Agrees(r, Rest(), ParseSymbol(old(Rest())))
      ensures pos == if r.Ok? then old(pos) + SYMBOL_LEN else old(pos)
    {
      var field := buffer[pos..pos + SYMBOL_LEN];
      assert field == Rest()[..SYMBOL_LEN];
      if !ValidUtf8(field) {
        return Err(Error.Utf8);
      }
      pos := pos + SYMBOL_LEN;
      return Ok(TrimNuls(field));
    }

    /** The caller has checked that four bytes are left. */
    method DecodeU32() returns (n: U32)
      requires InBounds() && pos + U32_SIZE <= |buffer|
      modifies this
      ensures InBounds() && pos == old(pos) + U32_SIZE
      ensures n == U32At(old(Rest())) && Rest() == old(Rest())[U32_SIZE..]
    {
      n := U32At(buffer[pos..]);
      pos := pos + U32_SIZE;
    }

    method DecodeRepeatedSymbolCstr() returns (r: Result<seq<Bytes>>)
      requires InBounds()
      modifies this
      ensures InBounds() && old(pos) <= pos
      ensures Agrees(r, Rest(), ParseSymbols(old(Rest())))
    {
      hide ParseMany, Collects, ParseSymbol;
      if pos + U32_SIZE > |buffer| {
        return Err(Decode);
      }
      var count := DecodeU32();
      var readSize := count * SYMBOL_LEN;
      assert pos + readSize <= USIZE_MAX;
      if pos + readSize > |buffer| {
        return Err(Decode);
      }
      ghost var all := ParseMany(ParseSymbol, Rest(), count);
      var res: seq<Bytes> := [];
      CollectingStarts(ParseSymbol, Rest(), count);
      for i := 0 to count
        invariant InBounds() && old(pos) <= pos
        invariant pos + (count - i) * SYMBOL_LEN <= |buffer|
        invariant Collects(ParseSymbol, res, Rest(), count - i, all)
      {
        CollectingGoesOn(ParseSymbol, res, Rest(), count - i, all);
        var symbol := DecodeSymbol();
        if symbol.Err? {
          return Err(symbol.error);
        }
        res := res + [symbol.value];
      }
      CollectingEnds(ParseSymbol, res, Rest(), all);
      return Ok(res);
    }

    /** The caller has checked that a whole interval is left. */
    method DecodeInterval() returns (r: Result<DatedSymbol>)
      requires InBounds() && pos + INTERVAL_LEN <= |buffer|
      modifies this
      ensures InBounds() && old(pos) <= pos
      ensures r.Ok? ==> pos == old(pos) + INTERVAL_LEN
      ensures Agrees(r, Rest(), ParseInterval(old(Rest())))
    {
      var rawStart := DecodeU32();
      var start := ParseDate(rawStart);
      if start.None? {
        return Err(Decode);
      }
      var rawEnd := DecodeU32();
      var end := ParseDate(rawEnd);
      if end.None? {
        return Err(Decode);
      }
      var symbol := DecodeSymbol();
      if symbol.Err? {
        return Err(symbol.error);
      }
      return Ok(MappingInterval(start.value, end.value, symbol.value));
    }

    method DecodeSymbolMapping() returns (r: Result<DatedMapping>)
      requires InBounds()
      modifies this
      ensures InBounds() && old(pos) <= pos
      ensures Agrees(r, Rest(), ParseMapping(old(Rest())))
    {
      if pos + MIN_MAPPING_LEN > |buffer| {
        return Err(Decode);
      }
      var rawSymbol := DecodeSymbol();
      if rawSymbol.Err? {
        return Err(rawSymbol.error);
      }
      var intervals := DecodeIntervals();
      if intervals.Err? {
        return Err(intervals.error);
      }
      return Ok(SymbolMapping(rawSymbol.value, intervals.value));
    }

    /** The second half of the method above: the interval count, its check and the loop. */
    method DecodeIntervals() returns (r: Result<seq<DatedSymbol>>)
      requires InBounds() && pos + U32_SIZE <= |buffer|
      modifies this
      ensures InBounds() && old(pos) <= pos
      ensures Agrees(r, Rest(), ParseIntervals(old(Rest())))
    {
      hide ParseMany, Collects, ParseInterval;
      var count := DecodeU32();
      var readSize := count * INTERVAL_LEN;
      assert pos + readSize <= USIZE_MAX;
      if pos + readSize > |buffer| {
        return Err(Decode);
      }
      ghost var all := ParseMany(ParseInterval, Rest(), count);
      var intervals: seq<DatedSymbol> := [];
      CollectingStarts(ParseInterval, Rest(), count);
      for i := 0 to count
        invariant InBounds() && old(pos) <= pos
        invariant pos + (count - i) * INTERVAL_LEN <= |buffer|
        invariant Collects(ParseInterval, intervals, Rest(), count - i, all)
      {
        CollectingGoesOn(ParseInterval, intervals, Rest(), count - i, all);
        var interval := DecodeInterval();
        if interval.Err? {
          return Err(interval.error);
        }
        intervals := intervals + [interval.value];
      }
      CollectingEnds(ParseInterval, intervals, Rest(), all);
      return Ok(intervals);
    }

    method DecodeSymbolMappings() returns (r: Result<seq<DatedMapping>>)
      requires InBounds()
      modifies this
      ensures InBounds() && old(pos) <= pos
      ensures Agrees(r, Rest(), ParseMappings(old(Rest())))
    {
      hide ParseMany, Collects, ParseMapping;
      if pos + U32_SIZE > |buffer| {
        return Err(Decode);
      }
      var count := DecodeU32();
      ghost var all := ParseMany(ParseMapping, Rest(), count);
      var res: seq<DatedMapping> := [];
      CollectingStarts(ParseMapping, Rest(), count);
      for i := 0 to count
        invariant InBounds() && old(pos) <= pos
        invariant Collects(ParseMapping, res, Rest(), count - i, all)
      {
        CollectingGoesOn(ParseMapping, res, Rest(), count - i, all);
        var mapping := DecodeSymbolMapping();
        if mapping.Err? {
          return Err(mapping.error);
        }
        res := res + [mapping.value];
      }
      CollectingEnds(ParseMapping, res, Rest(), all);
      return Ok(res);
    }

    /** The variable-length section, after decompression. It succeeds exactly on the layout of
        its result, and the cursor ends right behind that layout. */
    method DecodeSymbology() returns (r: Result<Symbology>)
      requires InBounds() && pos + U32_SIZE <= |buffer|
      modifies this
      ensures InBounds() && old(pos) <= pos
      ensures Agrees(r, Rest(), ParseSymbology(old(Rest())))
      ensures r.Ok? ==> r.value.Fits() && old(Rest()) == r.value.Print() + Rest()
      ensures r.Ok? ==> pos == old(pos) + |r.value.Print()|
    {
      ghost var start := Rest();
      var definitionLength := DecodeU32();
      if definitionLength != 0 {
        return Err(Decode);
      }
      r := DecodeLists();
      if r.Ok? {
        SectionDecodesIffEncoded(start, r.value, Rest());
      }
    }

    method DecodeLists() returns (r: Result<Symbology>)
      requires InBounds()
      modifies this
      ensures InBounds() && old(pos) <= pos
      ensures Agrees(r, Rest(), ParseLists(old(Rest())))
    {
      var symbols := DecodeRepeatedSymbolCstr();
      if symbols.Err? {
        return Err(symbols.error);
      }
      var partial := DecodeRepeatedSymbolCstr();
      if partial.Err? {
        return Err(partial.error);
      }
      var notFound := DecodeRepeatedSymbolCstr();
      if notFound.Err? {
        return Err(notFound.error);
      }
      var mappings := DecodeSymbolMappings();
      if mappings.Err? {
        return Err(mappings.error);
      }
      return Ok(Symbology(symbols.value, partial.value, notFound.value, mappings.value));
    }
  }
}
