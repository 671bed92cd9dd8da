/** The metadata at the start of a file. Dates and text are type parameters of the symbology
    records, which the legacy parser instantiates differently from the merge. */
module MetadataTypes {
  import opened Common

  datatype MappingInterval<+D, +T> = MappingInterval(startDate: D, endDate: D, symbol: T)

  datatype SymbolMapping<+D, +T> = SymbolMapping(rawSymbol: T, intervals: seq<MappingInterval<D, T>>)

  /** A half-open range of days, counted from some fixed day, and what the raw symbol is then. */
  type Interval = MappingInterval<int, string>

  type Mapping = SymbolMapping<int, string>

  type NonZeroU64 = x: int | 0 < x <= U64_MAX witness 1

  datatype SType = InstrumentId | RawSymbol | OtherSType(code: U8)

  datatype Schema =
    | Mbo | Mbp1 | Mbp10 | Tbbo | Trades
    | Ohlcv1S | Ohlcv1M | Ohlcv1H | Ohlcv1D | OhlcvEod
    | Definition | Statistics | Status | Imbalance
    | Cmbp1 | Cbbo1S | Cbbo1M | Tcbbo | Bbo1S | Bbo1M

  datatype Metadata = Metadata(
    version: U8,
    dataset: string,
    schema: Option<Schema>,
    start: U64,
    end: Option<NonZeroU64>,
    limit: Option<NonZeroU64>,
    stypeIn: Option<SType>,
    stypeOut: SType,
    tsOut: bool,
    symbolCstrLen: nat,
    symbols: seq<string>,
    partial: seq<string>,
    notFound: seq<string>,
    mappings: seq<Mapping>)

  ghost predicate UniqueRawSymbols(ms: seq<Mapping>) {
    forall i, j :: 0 <= i < j < |ms| ==> ms[i].rawSymbol != ms[j].rawSymbol
  }
}
