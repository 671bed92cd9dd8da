/** The layout of the metadata in a legacy DBZ file, as parsers and printers on byte strings. */
module DbzLayout {
  import opened Calendar
  import opened Common
  import opened MetadataTypes
  import opened Utf8
  import opened Wire

  const SYMBOL_LEN: nat := 22

  const INTERVAL_LEN: nat := 2 * U32_SIZE + SYMBOL_LEN

  const MIN_MAPPING_LEN: nat := SYMBOL_LEN + U32_SIZE

  // Symbols: 22 bytes of text, padded with NUL characters at the end.

  predicate SymbolFits(s: Bytes) {
    |s| <= SYMBOL_LEN && ValidUtf8(s) && NoNulAtEnd(s)
  }

  function PrintSymbol(s: Bytes): (b: Bytes)
    ensures |s| <= SYMBOL_LEN ==> |b| == SYMBOL_LEN
  {
    if |s| <= SYMBOL_LEN then s + Nuls(SYMBOL_LEN - |s|) else s
  }

  function ParseSymbol(rest: Bytes): Parsed<Bytes> {
    if |rest| < SYMBOL_LEN then Err(Decode)
    else if !ValidUtf8(rest[..SYMBOL_LEN]) then Err(Error.Utf8)
    else Ok((TrimNuls(rest[..SYMBOL_LEN]), rest[SYMBOL_LEN..]))
  }

  function SymbolFormat(): Format<Bytes> {
    Format(ParseSymbol, PrintSymbol, SymbolFits)
  }

  lemma SymbolCompletes(s: Bytes, post: Bytes)
    requires SymbolFits(s)
    ensures ParseSymbol(PrintSymbol(s) + post) == Ok((s, post))
  {
    var field := PrintSymbol(s);
    assert (field + post)[..SYMBOL_LEN] == field && (field + post)[SYMBOL_LEN..] == post;
    PaddingKeepsValidity(s, SYMBOL_LEN - |s|);
    TrimUndoesPadding(s, SYMBOL_LEN - |s|);
  }

  lemma SymbolIsExact(rest: Bytes)
    ensures SymbolFormat().Accepts(rest)
  {
    if ParseSymbol(rest).Ok? {
      var field := rest[..SYMBOL_LEN];
      var s := TrimNuls(field);
      PaddingUndoesTrim(field);
      PaddingKeepsValidity(s, SYMBOL_LEN - |s|);
      assert rest == field + rest[SYMBOL_LEN..];
    }
  }

  lemma SymbolRoundTrips()
    ensures SymbolFormat().RoundTrips()
  {
    forall s: Bytes, post: Bytes | SymbolFits(s)
      ensures ParseSymbol(PrintSymbol(s) + post) == Ok((s, post))
    {
      SymbolCompletes(s, post);
    }
    forall rest: Bytes ensures SymbolFormat().Accepts(rest) {
      SymbolIsExact(rest);
    }
  }

  function ParseSymbols(rest: Bytes): Parsed<seq<Bytes>> {
    ParseCounted(ParseSymbol, SYMBOL_LEN, rest)
  }

  function PrintSymbols(symbols: seq<Bytes>): Bytes {
    PrintCounted(PrintSymbol, symbols)
  }

  predicate SymbolsFit(symbols: seq<Bytes>) {
    CountedFits(SymbolFits, symbols)
  }

  lemma SymbolsComplete(symbols: seq<Bytes>, post: Bytes)
    requires SymbolsFit(symbols)
    ensures ParseSymbols(PrintSymbols(symbols) + post) == Ok((symbols, post))
  {
    SymbolRoundTrips();
    CountedCompletes(SymbolFormat(), SYMBOL_LEN, symbols, post);
  }

  lemma SymbolsAreExact(rest: Bytes)
    ensures var r := ParseSymbols(rest);
            r.Ok? ==> SymbolsFit(r.value.0) && rest == PrintSymbols(r.value.0) + r.value.1
  {
    SymbolRoundTrips();
    CountedIsExact(SymbolFormat(), SYMBOL_LEN, rest);
  }

  // Intervals: two dates and a symbol.

  type DatedSymbol = MappingInterval<Date, Bytes>

  predicate IntervalFits(i: DatedSymbol) {
    IsDate(i.startDate) && IsDate(i.endDate) && SymbolFits(i.symbol)
  }

  function PrintInterval(i: DatedSymbol): Bytes {
    if IntervalFits(i)
    then ToLe(PrintDate(i.startDate), U32_SIZE) + (ToLe(PrintDate(i.endDate), U32_SIZE) + PrintSymbol(i.symbol))
    else []
  }

  function ParseInterval(rest: Bytes): Parsed<DatedSymbol> {
    if |rest| < INTERVAL_LEN then Err(Decode)
    else
      match ParseDate(U32At(rest))
      case None => Err(Decode)
      case Some(start) =>
        match ParseDate(U32At(rest[U32_SIZE..]))
        case None => Err(Decode)
        case Some(end) =>
          match ParseSymbol(rest[U32_SIZE..][U32_SIZE..])
          case Err(e) => Err(e)
          case Ok((symbol, post)) => Ok((MappingInterval(start, end, symbol), post))
  }

  /** Where the parts of an interval are. */
  lemma IntervalLayout(i: DatedSymbol)
    requires IntervalFits(i)
    ensures var b := PrintInterval(i);
            && |b| == 30
            && b[..4] == ToLe(PrintDate(i.startDate), 4) && b[4..8] == ToLe(PrintDate(i.endDate), 4)
            && i.symbol <= b[8..] && forall k :: 8 + |i.symbol| <= k < 30 ==> b[k] == 0
  {
  }

  function IntervalFormat(): Format<DatedSymbol> {
    Format(ParseInterval, PrintInterval, IntervalFits)
  }

  lemma IntervalCompletes(i: DatedSymbol, post: Bytes)
    requires IntervalFits(i)
    ensures ParseInterval(PrintInterval(i) + post) == Ok((i, post))
  {
    var a, b, c := PrintDate(i.startDate), PrintDate(i.endDate), PrintSymbol(i.symbol);
    Regroup(ToLe(a, U32_SIZE), ToLe(b, U32_SIZE) + c, post);
    Regroup(ToLe(b, U32_SIZE), c, post);
    U32AtPrinted(a, ToLe(b, U32_SIZE) + (c + post));
    U32AtPrinted(b, c + post);
    DateRoundTrips(i.startDate);
    DateRoundTrips(i.endDate);
    SymbolCompletes(i.symbol, post);
  }

  lemma {:induction false} IntervalIsExact(rest: Bytes)
    ensures IntervalFormat().Accepts(rest)
  {
    if ParseInterval(rest).Ok? {
      var (i, post) := ParseInterval(rest).value;
      var second := rest[U32_SIZE..];
      U32AtIsPrinted(rest);
      U32AtIsPrinted(second);
      DateIsExact(U32At(rest));
      DateIsExact(U32At(second));
      SymbolIsExact(second[U32_SIZE..]);
      assert SymbolFormat().Accepts(second[U32_SIZE..]);
      Regroup(ToLe(U32At(second), U32_SIZE), PrintSymbol(i.symbol), post);
      Regroup(ToLe(U32At(rest), U32_SIZE), ToLe(U32At(second), U32_SIZE) + PrintSymbol(i.symbol), post);
    }
  }

  lemma IntervalRoundTrips()
    ensures IntervalFormat().RoundTrips()
  {
    forall i: DatedSymbol, post: Bytes | IntervalFits(i)
      ensures ParseInterval(PrintInterval(i) + post) == Ok((i, post))
    {
      IntervalCompletes(i, post);
    }
    forall rest: Bytes ensures IntervalFormat().Accepts(rest) {
      IntervalIsExact(rest);
    }
  }

  // Mappings: a symbol and the list of its intervals.

  type DatedMapping = SymbolMapping<Date, Bytes>

  predicate MappingFits(m: DatedMapping) {
    SymbolFits(m.rawSymbol) && CountedFits(IntervalFits, m.intervals)
  }

  function PrintMapping(m: DatedMapping): Bytes {
    PrintSymbol(m.rawSymbol) + PrintCounted(PrintInterval, m.intervals)
  }

  function ParseIntervals(rest: Bytes): Parsed<seq<DatedSymbol>> {
    ParseCounted(ParseInterval, INTERVAL_LEN, rest)
  }

  function ParseMapping(rest: Bytes): Parsed<DatedMapping> {
    if |rest| < MIN_MAPPING_LEN then Err(Decode)
    else
      match ParseSymbol(rest)
      case Err(e) => Err(e)
      case Ok((rawSymbol, after)) =>
        match ParseIntervals(after)
        case Err(e) => Err(e)
        case Ok((intervals, post)) => Ok((SymbolMapping(rawSymbol, intervals), post))
  }

  function MappingFormat(): Format<DatedMapping> {
    Format(ParseMapping, PrintMapping, MappingFits)
  }

  lemma MappingCompletes(m: DatedMapping, post: Bytes)
    requires MappingFits(m)
    ensures ParseMapping(PrintMapping(m) + post) == Ok((m, post))
  {
    var body := PrintCounted(PrintInterval, m.intervals);
    Regroup(PrintSymbol(m.rawSymbol), body, post);
    SymbolCompletes(m.rawSymbol, body + post);
    IntervalRoundTrips();
    CountedCompletes(IntervalFormat(), INTERVAL_LEN, m.intervals, post);
  }

  lemma {:induction false} MappingIsExact(rest: Bytes)
    ensures MappingFormat().Accepts(rest)
  {
    if ParseMapping(rest).Ok? {
      var (rawSymbol, after) := ParseSymbol(rest).value;
      var (intervals, post) := ParseIntervals(after).value;
      SymbolIsExact(rest);
      assert SymbolFormat().Accepts(rest);
      IntervalRoundTrips();
      CountedIsExact(IntervalFormat(), INTERVAL_LEN, after);
      Regroup(PrintSymbol(rawSymbol), PrintCounted(PrintInterval, intervals), post);
    }
  }

  lemma MappingRoundTrips()
    ensures MappingFormat().RoundTrips()
  {
    forall m: DatedMapping, post: Bytes | MappingFits(m)
      ensures ParseMapping(PrintMapping(m) + post) == Ok((m, post))
    {
      MappingCompletes(m, post);
    }
    forall rest: Bytes ensures MappingFormat().Accepts(rest) {
      MappingIsExact(rest);
    }
  }

  function ParseMappings(rest: Bytes): Parsed<seq<DatedMapping>> {
    ParseCounted(ParseMapping, 0, rest)
  }

  function PrintMappings(ms: seq<DatedMapping>): Bytes {
    PrintCounted(PrintMapping, ms)
  }

  predicate MappingsFit(ms: seq<DatedMapping>) {
    CountedFits(MappingFits, ms)
  }

  // The variable-length section: no schema definition, three lists of symbols, the mappings.

  datatype Symbology = Symbology(
    symbols: seq<Bytes>, partial: seq<Bytes>, notFound: seq<Bytes>, mappings: seq<DatedMapping>)
  {
    predicate Fits() {
      SymbolsFit(symbols) && SymbolsFit(partial) && SymbolsFit(notFound) && MappingsFit(mappings)
    }

    function Print(): (b: Bytes)
      ensures |b| >= U32_SIZE
    {
      ToLe(0, U32_SIZE)
      + (PrintSymbols(symbols) + (PrintSymbols(partial) + (PrintSymbols(notFound) + PrintMappings(mappings))))
    }
  }

  /** The section without the length of the schema definition. */
  function ParseLists(rest: Bytes): Parsed<Symbology> {
    var (symbols, rest1) :- ParseSymbols(rest);
    var (partial, rest2) :- ParseSymbols(rest1);
    var (notFound, rest3) :- ParseSymbols(rest2);
    var (mappings, post) :- ParseMappings(rest3);
    Ok((Symbology(symbols, partial, notFound, mappings), post))
  }

  function ParseSymbology(rest: Bytes): Parsed<Symbology>
    requires |rest| >= U32_SIZE
  {
    if U32At(rest) != 0 then Err(Decode) else ParseLists(rest[U32_SIZE..])
  }

  /** At a position there is the number of the symbols, and then each of them in 22 bytes. */
  ghost predicate HasSymbols(b: Bytes, at: nat, xs: seq<Bytes>) {
    && at + 4 + 22 * |xs| <= |b| && U32At(b[at..]) == |xs|
    && forall k :: 0 <= k < |xs| ==> HasSymbol(b, at + 4 + 22 * k, xs[k])
  }

  ghost predicate HasSymbol(b: Bytes, at: nat, s: Bytes) {
    |s| <= 22 && at + 22 <= |b| && b[at..at + 22] == s + Nuls(22 - |s|)
  }

  lemma MiddlePart<T>(a: seq<T>, b: seq<T>, c: seq<T>)
    ensures (a + b + c)[|a|..|a| + |b|] == b
  {
  }

  lemma {:induction false} SymbolsLength(xs: seq<Bytes>)
    requires AllFit(SymbolFits, xs)
    ensures |PrintMany(PrintSymbol, xs)| == 22 * |xs|
  {
    if xs != [] {
      SymbolsLength(xs[1..]);
    }
  }

  lemma {:induction false} ManySymbols(before: Bytes, xs: seq<Bytes>, post: Bytes, k: nat)
    requires AllFit(SymbolFits, xs) && k < |xs|
    ensures HasSymbol(before + PrintMany(PrintSymbol, xs) + post, |before| + 22 * k, xs[k])
    decreases |xs|
  {
    var head, tail := PrintSymbol(xs[0]), PrintMany(PrintSymbol, xs[1..]);
    assert before + (head + tail) + post == (before + head) + tail + post;
    if k == 0 {
      MiddlePart(before, head, tail + post);
      Regroup(before + head, tail, post);
    } else {
      ManySymbols(before + head, xs[1..], post, k - 1);
    }
  }

  lemma ListLayout(before: Bytes, xs: seq<Bytes>, post: Bytes)
    requires SymbolsFit(xs)
    ensures HasSymbols(before + (PrintSymbols(xs) + post), |before|, xs)
    ensures |PrintSymbols(xs)| == 4 + 22 * |xs|
  {
    var b, count, body := before + (PrintSymbols(xs) + post), ToLe(|xs|, 4), PrintMany(PrintSymbol, xs);
    SymbolsLength(xs);
    Regroup(count, body, post);
    assert b[|before|..] == count + (body + post);
    U32AtPrinted(|xs|, body + post);
    assert b == (before + count) + body + post;
    forall k | 0 <= k < |xs| ensures HasSymbol(b, |before| + 4 + 22 * k, xs[k]) {
      ManySymbols(before + count, xs, post, k);
    }
  }

  /** Where the parts of the section are: four zeros, the three lists of symbols one after another,
      and the number of mappings. */
  lemma SectionLayout(v: Symbology)
    requires v.Fits()
    ensures var b, n, p, q := v.Print(), |v.symbols|, |v.partial|, |v.notFound|;
            && b[..4] == [0, 0, 0, 0]
            && HasSymbols(b, 4, v.symbols)
            && HasSymbols(b, 8 + 22 * n, v.partial)
            && HasSymbols(b, 12 + 22 * (n + p), v.notFound)
            && 20 + 22 * (n + p + q) <= |b| && U32At(b[16 + 22 * (n + p + q)..]) == |v.mappings|
  {
    var s, p, q, m := PrintSymbols(v.symbols), PrintSymbols(v.partial), PrintSymbols(v.notFound), PrintMappings(v.mappings);
    hide HasSymbols, PrintSymbols, PrintMappings, ToLe, SymbolsFit, MappingsFit, U32At;
    FourZeros();
    ListLayout(ToLe(0, 4), v.symbols, p + (q + m));
    SecondPart(ToLe(0, 4), s, p + (q + m));
    ListLayout(ToLe(0, 4) + s, v.partial, q + m);
    SecondPart(ToLe(0, 4) + s, p, q + m);
    ListLayout(ToLe(0, 4) + s + p, v.notFound, m);
    SecondPart(ToLe(0, 4) + s + p, q, m);
    MappingCountFirst(v.mappings);
  }

  lemma SecondPart<T>(a: seq<T>, b: seq<T>, c: seq<T>)
    ensures a + (b + c) == (a + b) + c && a <= a + (b + c) && (a + (b + c))[|a| + |b|..] == c
  {
  }

  lemma FourZeros()
    ensures ToLe(0, 4) == [0, 0, 0, 0]
  {
  }

  lemma MappingCountFirst(ms: seq<DatedMapping>)
    requires MappingsFit(ms)
    ensures |PrintMappings(ms)| >= 4 && U32At(PrintMappings(ms)) == |ms|
  {
    U32AtPrinted(|ms|, PrintMany(PrintMapping, ms));
  }

  ghost predicate HasInterval(b: Bytes, at: nat, i: DatedSymbol) {
    at + 30 <= |b| && b[at..at + 30] == PrintInterval(i)
  }

  /** A mapping starts with its symbol and the number of its intervals, and each of these takes 30
      bytes. */
  lemma MappingLayout(m: DatedMapping)
    requires MappingFits(m)
    ensures var b := PrintMapping(m);
            && |b| == 26 + 30 * |m.intervals|
            && HasSymbol(b, 0, m.rawSymbol) && U32At(b[22..]) == |m.intervals|
            && forall k :: 0 <= k < |m.intervals| ==> HasInterval(b, 26 + 30 * k, m.intervals[k])
  {
    var raw, count, body := PrintSymbol(m.rawSymbol), ToLe(|m.intervals|, 4), PrintMany(PrintInterval, m.intervals);
    var b := PrintMapping(m);
    hide PrintInterval, IntervalFits, HasInterval;
    assert b[22..] == count + body;
    U32AtPrinted(|m.intervals|, body);
    assert b == raw + count + body;
    IntervalsLength(m.intervals);
    forall k | 0 <= k < |m.intervals| ensures HasInterval(b, 26 + 30 * k, m.intervals[k]) {
      ManyIntervals(raw + count, m.intervals, k);
    }
  }

  lemma {:induction false} IntervalsLength(xs: seq<DatedSymbol>)
    requires AllFit(IntervalFits, xs)
    ensures |PrintMany(PrintInterval, xs)| == 30 * |xs|
  {
    if xs != [] {
      IntervalsLength(xs[1..]);
    }
  }

  lemma {:induction false} ManyIntervals(before: Bytes, xs: seq<DatedSymbol>, k: nat)
    requires AllFit(IntervalFits, xs) && k < |xs|
    ensures HasInterval(before + PrintMany(PrintInterval, xs), |before| + 30 * k, xs[k])
    decreases |xs|
  {
    var head, tail := PrintInterval(xs[0]), PrintMany(PrintInterval, xs[1..]);
    Regroup(before, head, tail);
    if k == 0 {
      MiddlePart(before, head, tail);
    } else {
      ManyIntervals(before + head, xs[1..], k - 1);
    }
  }

  /** Fewer bytes than a mapping without intervals has are no mapping, whatever they are. */
  lemma MappingTooShort(rest: Bytes)
    requires |rest| < 26
    ensures ParseMapping(rest) == Err(Decode)
  {
  }

  /** Whatever was laid out is decoded, and decoding stops right behind it. */
  lemma {:induction false} DecodesWhatWasEncoded(v: Symbology, post: Bytes)
    requires v.Fits()
    ensures ParseSymbology(v.Print() + post) == Ok((v, post))
  {
    var d := PrintMappings(v.mappings);
    var c := PrintSymbols(v.notFound) + d;
    var b := PrintSymbols(v.partial) + c;
    var a := PrintSymbols(v.symbols) + b;
    Regroup(ToLe(0, U32_SIZE), a, post);
    Regroup(PrintSymbols(v.symbols), b, post);
    Regroup(PrintSymbols(v.partial), c, post);
    Regroup(PrintSymbols(v.notFound), d, post);
    U32AtPrinted(0, a + post);
    SymbolsComplete(v.symbols, b + post);
    SymbolsComplete(v.partial, c + post);
    SymbolsComplete(v.notFound, d + post);
    MappingRoundTrips();
    CountedCompletes(MappingFormat(), 0, v.mappings, post);
  }

  /** Decoding succeeds on nothing else: the bytes it read are the one layout of the result. */
  lemma {:induction false} EncodesWhatWasDecoded(rest: Bytes)
    requires |rest| >= U32_SIZE && ParseSymbology(rest).Ok?
    ensures var (v, post) := ParseSymbology(rest).value;
            v.Fits() && rest == v.Print() + post
  {
    var (v, post) := ParseSymbology(rest).value;
    U32AtIsPrinted(rest);
    ListsAreExact(rest[U32_SIZE..]);
    Regroup(ToLe(0, U32_SIZE),
            PrintSymbols(v.symbols) + (PrintSymbols(v.partial) + (PrintSymbols(v.notFound) + PrintMappings(v.mappings))),
            post);
  }

  lemma {:induction false} ListsAreExact(rest: Bytes)
    requires ParseLists(rest).Ok?
    ensures var (v, post) := ParseLists(rest).value;
            && v.Fits()
            && rest == PrintSymbols(v.symbols)
                       + (PrintSymbols(v.partial) + (PrintSymbols(v.notFound) + PrintMappings(v.mappings))) + post
  {
    var (v, post) := ParseLists(rest).value;
    var rest1 := ParseSymbols(rest).value.1;
    var rest2 := ParseSymbols(rest1).value.1;
    var rest3 := ParseSymbols(rest2).value.1;
    SymbolsAreExact(rest);
    SymbolsAreExact(rest1);
    SymbolsAreExact(rest2);
    MappingRoundTrips();
    CountedIsExact(MappingFormat(), 0, rest3);
    var d := PrintMappings(v.mappings);
    var c := PrintSymbols(v.notFound) + d;
    Regroup(PrintSymbols(v.notFound), d, post);
    Regroup(PrintSymbols(v.partial), c, post);
    Regroup(PrintSymbols(v.symbols), PrintSymbols(v.partial) + c, post);
  }

  /** Decoding a section yields a symbology exactly when the bytes start with its layout. */
  lemma SectionDecodesIffEncoded(rest: Bytes, v: Symbology, post: Bytes)
    requires |rest| >= U32_SIZE
    ensures ParseSymbology(rest) == Ok((v, post)) <==> v.Fits() && rest == v.Print() + post
  {
    if ParseSymbology(rest) == Ok((v, post)) {
      EncodesWhatWasDecoded(rest);
    }
    if v.Fits() && rest == v.Print() + post {
      DecodesWhatWasEncoded(v, post);
    }
  }
}
