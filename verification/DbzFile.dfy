/** The whole metadata frame of a legacy DBZ file: prelude, fixed section, compressed section. */
module DbzFile {
  import opened Common
  import opened Dbz
  import opened DbzLayout
  import opened MetadataTypes
  import opened Utf8
  import opened Wire

  const PRELUDE_LEN: nat := 8
  const FIXED_LEN: nat := 96
  const DATASET_LEN: nat := 16
  const RECORD_COUNT_LEN: nat := 8
  const RESERVED_LEN: nat := 39

  const DBZ_PREFIX: Bytes := [0x44, 0x42, 0x5A]
  const SCHEMA_VERSION: U8 := 1

  /** The first code past the ones that each enumeration defines. */
  const SCHEMAS: nat := 20
  const STYPES: nat := 13
  const COMPRESSIONS: nat := 2

  predicate DatasetFits(s: Bytes) {
    |s| <= DATASET_LEN && ValidUtf8(s) && NoNulAtEnd(s)
  }

  /** What is kept of the fixed section; enumerations as their codes. */
  datatype Fixed = Fixed(
    dataset: Bytes, schema: nat, start: U64, end: Option<NonZeroU64>, limit: Option<NonZeroU64>,
    stypeIn: nat, stypeOut: nat)
  {
    predicate Fits() {
      && DatasetFits(dataset)
      && schema < SCHEMAS && stypeIn < STYPES && stypeOut < STYPES
    }
  }

  /** What is read over: any version so far, the record count, the compression, reserved bytes. */
  datatype Skipped = Skipped(version: U8, recordCount: Bytes, compression: U8, reserved: Bytes) {
    predicate Fits() {
      && version <= SCHEMA_VERSION && |recordCount| == RECORD_COUNT_LEN
      && compression < COMPRESSIONS && |reserved| == RESERVED_LEN
    }
  }

  /** Zero stands for no value. */
  function NonZero(n: U64): Option<NonZeroU64> {
    if n == 0 then None else Some(n)
  }

  function OrZero(n: Option<NonZeroU64>): U64 {
    if n.Some? then n.value else 0
  }

  function PrintDataset(s: Bytes): (b: Bytes)
    requires |s| <= DATASET_LEN
    ensures |b| == DATASET_LEN
  {
    s + Nuls(DATASET_LEN - |s|)
  }

  function PrintFixed(h: Fixed, x: Skipped): (b: Bytes)
    requires h.Fits() && x.Fits()
    ensures |b| == FIXED_LEN
  {
    DBZ_PREFIX + [x.version] + PrintDataset(h.dataset) + ToLe(h.schema, 2)
    + ToLe(h.start, 8) + ToLe(OrZero(h.end), 8) + ToLe(OrZero(h.limit), 8)
    + x.recordCount + [x.compression, h.stypeIn, h.stypeOut] + x.reserved
  }

  /** A `u64` of the three at the given position. */
  function U64At(buffer: Bytes, at: nat): (n: U64)
    requires at + 8 <= |buffer|
  {
    Limits();
    FromLe(buffer[at..at + 8])
  }

  function ParseFixed(buffer: Bytes): Result<Fixed>
    requires |buffer| >= FIXED_LEN
  {
    if buffer[..3] != DBZ_PREFIX || buffer[3] > SCHEMA_VERSION then Err(Decode)
    else if !ValidUtf8(buffer[4..20]) then Err(Error.Utf8)
    else if FromLe(buffer[20..22]) >= SCHEMAS then Err(Conversion)
    else if buffer[54] >= COMPRESSIONS || buffer[55] >= STYPES || buffer[56] >= STYPES then Err(Conversion)
    else Ok(Fixed(
      TrimNuls(buffer[4..20]), FromLe(buffer[20..22]),
      U64At(buffer, 22), NonZero(U64At(buffer, 30)), NonZero(U64At(buffer, 38)),
      buffer[55], buffer[56]))
  }

  function SkippedIn(buffer: Bytes): Skipped
    requires |buffer| >= FIXED_LEN
  {
    Skipped(buffer[3], buffer[46..54], buffer[54], buffer[57..FIXED_LEN])
  }

  /** The last field of a layout that the buffer starts with. */
  lemma LastField(buffer: Bytes, before: Bytes, field: Bytes)
    requires before + field <= buffer
    ensures before <= buffer && buffer[|before|..|before| + |field|] == field
  {
    assert (before + field)[|before|..] == field;
    assert buffer[..|before| + |field|] == before + field;
    assert buffer[|before|..|before| + |field|] == buffer[..|before| + |field|][|before|..];
  }

  lemma NextField(buffer: Bytes, at: nat, width: nat)
    requires at + width <= |buffer|
    ensures buffer[..at + width] == buffer[..at] + buffer[at..at + width]
  {
  }

  lemma U64AtPrinted(buffer: Bytes, at: nat, n: U64)
    requires at + 8 <= |buffer|
    ensures U64At(buffer, at) == n <==> buffer[at..at + 8] == ToLe(n, 8)
  {
    Limits();
    ReadsWhatWasWritten(n, 8);
    WritesWhatWasRead(buffer[at..at + 8]);
  }

  /** The fixed section is accepted exactly when it is the layout of the result around what is
      skipped. */
  lemma FixedDecodesIffEncoded(buffer: Bytes, h: Fixed)
    requires |buffer| >= FIXED_LEN
    ensures ParseFixed(buffer) == Ok(h) <==>
              h.Fits() && SkippedIn(buffer).Fits() && buffer[..FIXED_LEN] == PrintFixed(h, SkippedIn(buffer))
  {
    var x := SkippedIn(buffer);
    if ParseFixed(buffer) == Ok(h) {
      FixedIsExact(buffer, h);
    }
    if h.Fits() && x.Fits() && buffer[..FIXED_LEN] == PrintFixed(h, x) {
      FixedCompletes(buffer, h, x);
    }
  }

  lemma FixedCompletes(buffer: Bytes, h: Fixed, x: Skipped)
    requires h.Fits() && x.Fits()
    requires PrintFixed(h, x) <= buffer
    ensures ParseFixed(buffer) == Ok(h) && SkippedIn(buffer) == x
  {
    hide ToLe, PrintDataset, Nuls, ParseFixed, SkippedIn;
    var version := DBZ_PREFIX + [x.version];
    var dataset := version + PrintDataset(h.dataset);
    var schema := dataset + ToLe(h.schema, 2);
    var start := schema + ToLe(h.start, 8);
    var end := start + ToLe(OrZero(h.end), 8);
    var limit := end + ToLe(OrZero(h.limit), 8);
    var recordCount := limit + x.recordCount;
    var codes := recordCount + [x.compression, h.stypeIn, h.stypeOut];
    LastField(buffer, codes, x.reserved);
    LastField(buffer, recordCount, [x.compression, h.stypeIn, h.stypeOut]);
    LastField(buffer, limit, x.recordCount);
    LastField(buffer, end, ToLe(OrZero(h.limit), 8));
    LastField(buffer, start, ToLe(OrZero(h.end), 8));
    LastField(buffer, schema, ToLe(h.start, 8));
    LastField(buffer, dataset, ToLe(h.schema, 2));
    LastField(buffer, version, PrintDataset(h.dataset));
    LastField(buffer, DBZ_PREFIX, [x.version]);
    FieldsParse(buffer, h, x);
  }

  /** The fields of the layout, each at its place. */
  ghost predicate HasFields(buffer: Bytes, h: Fixed, x: Skipped)
    requires |buffer| >= FIXED_LEN && h.Fits() && x.Fits()
  {
    && buffer[..3] == DBZ_PREFIX
    && buffer[3..4] == [x.version]
    && buffer[4..20] == PrintDataset(h.dataset)
    && buffer[20..22] == ToLe(h.schema, 2)
    && buffer[22..30] == ToLe(h.start, 8)
    && buffer[30..38] == ToLe(OrZero(h.end), 8)
    && buffer[38..46] == ToLe(OrZero(h.limit), 8)
    && buffer[46..54] == x.recordCount
    && buffer[54..57] == [x.compression, h.stypeIn, h.stypeOut]
    && buffer[57..96] == x.reserved
  }

  lemma DatasetPrinted(field: Bytes, s: Bytes)
    requires |field| == DATASET_LEN
    ensures ValidUtf8(field) && TrimNuls(field) == s <==> DatasetFits(s) && field == PrintDataset(s)
  {
    hide ValidUtf8, TrimNuls;
    if TrimNuls(field) == s {
      PaddingUndoesTrim(field);
      PaddingKeepsValidity(s, DATASET_LEN - |s|);
    }
    if DatasetFits(s) && field == PrintDataset(s) {
      TrimUndoesPadding(s, DATASET_LEN - |s|);
      PaddingKeepsValidity(s, DATASET_LEN - |s|);
    }
  }

  lemma SchemaPrinted(field: Bytes, n: nat)
    requires |field| == 2 && n < SCHEMAS
    ensures FromLe(field) == n <==> field == ToLe(n, 2)
  {
    Limits();
    ReadsWhatWasWritten(n, 2);
    WritesWhatWasRead(field);
  }

  lemma FieldsParse(buffer: Bytes, h: Fixed, x: Skipped)
    requires |buffer| >= FIXED_LEN && h.Fits() && x.Fits() && HasFields(buffer, h, x)
    ensures ParseFixed(buffer) == Ok(h) && SkippedIn(buffer) == x
  {
    hide ValidUtf8, TrimNuls, FromLe, ToLe, DatasetFits, PrintDataset;
    assert buffer[3] == buffer[3..4][0];
    var codes := buffer[54..57];
    assert buffer[54] == codes[0] && buffer[55] == codes[1] && buffer[56] == codes[2];
    DatasetPrinted(buffer[4..20], h.dataset);
    SchemaPrinted(buffer[20..22], h.schema);
    U64AtPrinted(buffer, 22, h.start);
    U64AtPrinted(buffer, 30, OrZero(h.end));
    U64AtPrinted(buffer, 38, OrZero(h.limit));
  }

  lemma ParsedFields(buffer: Bytes, h: Fixed)
    requires |buffer| >= FIXED_LEN && ParseFixed(buffer) == Ok(h)
    ensures h.Fits() && SkippedIn(buffer).Fits() && HasFields(buffer, h, SkippedIn(buffer))
  {
    hide ValidUtf8, TrimNuls, FromLe, ToLe, DatasetFits, PrintDataset;
    DatasetPrinted(buffer[4..20], h.dataset);
    SchemaPrinted(buffer[20..22], h.schema);
    U64AtPrinted(buffer, 22, h.start);
    U64AtPrinted(buffer, 30, OrZero(h.end));
    U64AtPrinted(buffer, 38, OrZero(h.limit));
  }

  lemma FixedIsExact(buffer: Bytes, h: Fixed)
    requires |buffer| >= FIXED_LEN && ParseFixed(buffer) == Ok(h)
    ensures h.Fits() && SkippedIn(buffer).Fits()
    ensures buffer[..FIXED_LEN] == PrintFixed(h, SkippedIn(buffer))
  {
    ParsedFields(buffer, h);
    NextField(buffer, 3, 1);
    NextField(buffer, 4, 16);
    NextField(buffer, 20, 2);
    NextField(buffer, 22, 8);
    NextField(buffer, 30, 8);
    NextField(buffer, 38, 8);
    NextField(buffer, 46, 8);
    NextField(buffer, 54, 3);
    NextField(buffer, 57, 39);
  }

  lemma IsPrefixIff(buffer: Bytes)
    requires |buffer| >= 4
    ensures buffer[..3] == DBZ_PREFIX && buffer[3] <= SCHEMA_VERSION <==>
            buffer[0] == 0x44 && buffer[1] == 0x42 && buffer[2] == 0x5A && buffer[3] in {0, 1}
  {
    var front := buffer[..3];
    assert front[0] == buffer[0] && front[1] == buffer[1] && front[2] == buffer[2];
  }

  /** Which fixed sections are refused, and how. */
  lemma FixedErrors(buffer: Bytes)
    requires |buffer| >= FIXED_LEN
    ensures var known := buffer[0] == 0x44 && buffer[1] == 0x42 && buffer[2] == 0x5A && buffer[3] in {0, 1};
            var codes := (buffer[20] as int) + 256 * (buffer[21] as int) < 20
                         && buffer[54] < 2 && buffer[55] < 13 && buffer[56] < 13;
            match ParseFixed(buffer)
            case Ok(_) => known && ValidUtf8(buffer[4..20]) && codes
            case Err(e) =>
              if !known then e == Decode
              else if !ValidUtf8(buffer[4..20]) then e == Error.Utf8
              else !codes && e == Conversion
  {
    IsPrefixIff(buffer);
    assert buffer[20..22] == [buffer[20], buffer[21]];
    BytesOfNumbers(buffer[20], buffer[21], 0, 0);
    assert FromLe(buffer[20..22]) == (buffer[20] as int) + 256 * (buffer[21] as int);
    hide ValidUtf8, FromLe;
  }

  /** The fixed section of `decode`, field by field. */
  method DecodeFixed(buffer: Bytes) returns (r: Result<Fixed>)
    requires |buffer| >= FIXED_LEN
    ensures r == ParseFixed(buffer)
  {
    var pos := 0;
    if buffer[pos..pos + 3] != DBZ_PREFIX {
      return Err(Decode);
    }
    if buffer[pos + 3] > SCHEMA_VERSION {
      return Err(Decode);
    }
    pos := pos + 4;
    var dataset := buffer[pos..pos + DATASET_LEN];
    if !ValidUtf8(dataset) {
      return Err(Error.Utf8);
    }
    pos := pos + DATASET_LEN;
    var schema := FromLe(buffer[pos..pos + 2]);
    if schema >= SCHEMAS {
      return Err(Conversion);
    }
    pos := pos + 2;
    var start := U64At(buffer, pos);
    pos := pos + 8;
    var end := U64At(buffer, pos);
    pos := pos + 8;
    var limit := NonZero(U64At(buffer, pos));
    pos := pos + 8;
    pos := pos + RECORD_COUNT_LEN;
    if buffer[pos] >= COMPRESSIONS {
      return Err(Conversion);
    }
    pos := pos + 1;
    var stypeIn := buffer[pos];
    if stypeIn >= STYPES {
      return Err(Conversion);
    }
    pos := pos + 1;
    var stypeOut := buffer[pos];
    if stypeOut >= STYPES {
      return Err(Conversion);
    }
    return Ok(Fixed(TrimNuls(dataset), schema, start, NonZero(end), limit, stypeIn, stypeOut));
  }

  predicate IsSkippableMagic(magic: U32) {
    0x184D2A50 <= magic < 0x184D2A60
  }

  /** Bytes that fit into memory. */
  type Slice = s: Bytes | |s| <= SLICE_MAX

  /** Decompression of the variable-length section. */
  type Inflate = Bytes -> Result<Slice>

  type Frame = Outcome<Result<(Fixed, Symbology)>>

  /** A decompressed section without room for the length of the schema definition panics: these
      four bytes are read without a check. */
  function ParseFrame(buffer: Bytes, inflate: Inflate): Frame
    requires |buffer| >= FIXED_LEN
  {
    var fixed, section := ParseFixed(buffer), inflate(buffer[FIXED_LEN..]);
    if fixed.Err? then Returned(Err(fixed.error))
    else if section.Err? then Returned(Err(section.error))
    else if |section.value| < U32_SIZE then Panicked
    else
      match ParseSymbology(section.value)
      case Err(e) => Returned(Err(e))
      case Ok((symbology, _)) => Returned(Ok((fixed.value, symbology)))
  }

  method DecodeFrame(buffer: Bytes, inflate: Inflate) returns (r: Frame)
    requires |buffer| >= FIXED_LEN
    ensures r == ParseFrame(buffer, inflate)
  {
    var fixed := DecodeFixed(buffer);
    if fixed.Err? {
      return Returned(Err(fixed.error));
    }
    var section := inflate(buffer[FIXED_LEN..]);
    if section.Err? {
      return Returned(Err(section.error));
    }
    if |section.value| < U32_SIZE {
      return Panicked;
    }
    var cursor := new MetadataCursor(section.value);
    assert cursor.Rest() == section.value;
    var symbology := cursor.DecodeSymbology();
    if symbology.Err? {
      return Returned(Err(symbology.error));
    }
    return Returned(Ok((fixed.value, symbology.value)));
  }

  /** `read`: `short` is what a reader that ends too early reports. */
  method Read(stream: Bytes, inflate: Inflate, short: Error) returns (r: Frame)
    ensures |stream| < 8 ==> r == Returned(Err(short))
    ensures |stream| >= 8 && (U32At(stream) / 16 != 0x184D2A5 || U32At(stream[4..]) < 96) ==>
              r == Returned(Err(Decode))
    ensures |stream| >= 8 && U32At(stream) / 16 == 0x184D2A5 && U32At(stream[4..]) >= 96 ==>
              var (size, frame) := (U32At(stream[4..]), stream[8..]);
              r == if |frame| < size then Returned(Err(short)) else ParseFrame(frame[..size], inflate)
  {
    if |stream| < PRELUDE_LEN {
      return Returned(Err(short));
    }
    if !IsSkippableMagic(U32At(stream)) {
      return Returned(Err(Decode));
    }
    var frameSize := U32At(stream[U32_SIZE..]);
    if frameSize < FIXED_LEN {
      return Returned(Err(Decode));
    }
    if |stream| - PRELUDE_LEN < frameSize {
      return Returned(Err(short));
    }
    assert stream[PRELUDE_LEN..][..frameSize] == stream[PRELUDE_LEN..PRELUDE_LEN + frameSize];
    r := DecodeFrame(stream[PRELUDE_LEN..PRELUDE_LEN + frameSize], inflate);
  }

  /** A frame is decoded into given metadata exactly when it is the layout of the fixed part,
      followed by something that decompresses to the layout of the rest. */
  lemma {:induction false} FrameDecodesIffEncoded(buffer: Bytes, inflate: Inflate, h: Fixed, v: Symbology)
    requires |buffer| >= FIXED_LEN
    ensures ParseFrame(buffer, inflate) == Returned(Ok((h, v))) <==>
              && h.Fits() && SkippedIn(buffer).Fits() && buffer[..FIXED_LEN] == PrintFixed(h, SkippedIn(buffer))
              && v.Fits() && inflate(buffer[FIXED_LEN..]).Ok? && v.Print() <= inflate(buffer[FIXED_LEN..]).value
  {
    hide ParseFixed, PrintFixed, SkippedIn, ParseSymbology, Symbology.Print, Symbology.Fits;
    FixedDecodesIffEncoded(buffer, h);
    var z := inflate(buffer[FIXED_LEN..]);
    if z.Ok? && |z.value| >= U32_SIZE {
      var section := z.value;
      if v.Print() <= section {
        SectionDecodesIffEncoded(section, v, section[|v.Print()|..]);
      }
      if ParseSymbology(section).Ok? {
        var (w, post) := ParseSymbology(section).value;
        SectionDecodesIffEncoded(section, w, post);
      }
    }
  }
}
