/** C strings in fixed-size character arrays, and the wider arrays of newer record versions. */
module CStr {
  import opened Common
  import opened Utf8

  /** The position of the first NUL byte, or the length when there is none. */
  function FirstNul(s: Bytes): (k: nat)
    ensures k <= |s| && 0 !in s[..k] && (k < |s| ==> s[k] == 0)
    ensures 0 in s <==> k < |s|
  {
    if s == [] || s[0] == 0 then 0 else
      assert forall k :: 0 <= k < |s| ==> s[..k + 1] == [s[0]] + s[1..][..k];
      1 + FirstNul(s[1..])
  }

  lemma {:induction false} FirstNulIs(s: Bytes, k: nat)
    requires k < |s| && s[k] == 0 && 0 !in s[..k]
    ensures FirstNul(s) == k
  {
    if k > 0 {
      assert s[0] == s[..k][0];
      assert s[1..][..k - 1] == s[..k][1..];
      FirstNulIs(s[1..], k - 1);
    }
  }

  /** Padding does not move the first NUL byte. */
  lemma {:induction false} FirstNulOfPadded(s: Bytes, n: nat)
    requires |s| < n
    ensures FirstNul(s + Nuls(n - |s|)) == FirstNul(s)
  {
    var chars, k := s + Nuls(n - |s|), FirstNul(s);
    assert chars[..k] == s[..k];
    FirstNulIs(chars, k);
  }

  lemma PrefixIsValid(s: Bytes)
    requires ValidUtf8(s)
    ensures ValidUtf8(s[..FirstNul(s)])
  {
    var k := FirstNul(s);
    assert s == s[..k] + s[k..];
    SplitsAtAscii(s[..k], s[k..]);
  }

  /** `str_to_c_chars`: the text is copied over an array of zeros. */
  method StrToCChars(s: Bytes, n: nat) returns (r: Result<Bytes>)
    requires n > 0
    ensures r.Err? <==> |s| > n - 1
    ensures r.Err? ==> r.error == Encode
    ensures r.Ok? ==> r.value == s + Nuls(n - |s|)
  {
    if |s| > n - 1 {
      return Err(Encode);
    }
    var res := CopyOverZeros(s, n);
    return Ok(res);
  }

  /** A zeroed array whose front is overwritten. */
  method CopyOverZeros(s: Bytes, n: nat) returns (chars: Bytes)
    requires |s| <= n
    ensures chars == s + Nuls(n - |s|)
  {
    var res := new U8[n](_ => 0);
    for i := 0 to |s|
      invariant res[..i] == s[..i]
      invariant forall k :: i <= k < n ==> res[k] == 0
    {
      res[i] := s[i];
    }
    assert res[..] == res[..|s|] + res[|s|..];
    return res[..];
  }

  /** `c_chars_to_str`: the bytes before the first NUL, if there is one. */
  function CCharsToStr(chars: Bytes): Result<Bytes> {
    var k := FirstNul(chars);
    if k == |chars| then Err(Conversion)
    else if !ValidUtf8(chars[..k]) then Err(Error.Utf8)
    else Ok(chars[..k])
  }

  /** What was stored comes back up to its first NUL, so all of it exactly when it has none. */
  lemma {:induction false} StoredTextComesBack(s: Bytes, n: nat)
    requires ValidUtf8(s) && |s| < n
    ensures CCharsToStr(s + Nuls(n - |s|)) == Ok(s[..FirstNul(s)])
    ensures CCharsToStr(s + Nuls(n - |s|)) == Ok(s) <==> 0 !in s
  {
    var chars, k := s + Nuls(n - |s|), FirstNul(s);
    FirstNulOfPadded(s, n);
    PrefixIsValid(s);
    hide FirstNul, ValidUtf8;
    assert chars[..k] == s[..k];
    assert s[..|s|] == s;
  }

  /** Text that was read can be stored again: the array is the same up to the first NUL, and the
      same throughout exactly when only NULs follow it. */
  lemma ReadTextIsStored(chars: Bytes)
    requires CCharsToStr(chars).Ok?
    ensures var s := CCharsToStr(chars).value;
      && ValidUtf8(s) && 0 !in s && |s| < |chars|
      && (s + Nuls(|chars| - |s|))[..|s| + 1] == chars[..|s| + 1]
      && (s + Nuls(|chars| - |s|) == chars <==> forall i :: |s| <= i < |chars| ==> chars[i] == 0)
  {
    var s := CCharsToStr(chars).value;
    var stored := s + Nuls(|chars| - |s|);
    if forall i :: |s| <= i < |chars| ==> chars[i] == 0 {
      assert stored == chars;
    } else {
      var i :| |s| <= i < |chars| && chars[i] != 0;
      assert stored[i] != chars[i];
    }
  }

  /** A longer zeroed array with the old one copied over its front keeps the text, exactly when
      the old array was terminated. One that was not becomes readable by being widened. */
  lemma {:induction false} WideningKeepsText(narrow: Bytes, n: nat)
    requires |narrow| < n
    ensures CCharsToStr(narrow + Nuls(n - |narrow|)) == CCharsToStr(narrow) <==> 0 in narrow
    ensures 0 !in narrow ==>
              && CCharsToStr(narrow) == Err(Conversion)
              && CCharsToStr(narrow + Nuls(n - |narrow|)) == if ValidUtf8(narrow) then Ok(narrow) else Err(Error.Utf8)
  {
    var wide, k := narrow + Nuls(n - |narrow|), FirstNul(narrow);
    FirstNulOfPadded(narrow, n);
    assert wide[..k] == narrow[..k];
    if 0 !in narrow {
      assert narrow[..k] == narrow;
    }
  }

  const SYMBOL_CSTR_LEN_V1: nat := 22
  const SYMBOL_CSTR_LEN_V2: nat := 71

  /** The part of the header that an upgrade keeps; length and record type follow the struct. */
  datatype Header = Header(publisherId: int, instrumentId: U32, tsEvent: U64)

  datatype SymbolMappingV1 = SymbolMappingV1(
    hd: Header, stypeInSymbol: Bytes, stypeOutSymbol: Bytes, startTs: U64, endTs: U64)

  datatype SymbolMappingV2 = SymbolMappingV2(
    hd: Header, stypeIn: U8, stypeInSymbol: Bytes, stypeOut: U8, stypeOutSymbol: Bytes, startTs: U64, endTs: U64)

  method UpgradeSymbolMapping(v1: SymbolMappingV1) returns (v2: SymbolMappingV2)
    requires |v1.stypeInSymbol| == |v1.stypeOutSymbol| == SYMBOL_CSTR_LEN_V1
    ensures v2.hd == v1.hd && v2.startTs == v1.startTs && v2.endTs == v1.endTs
    ensures v2.stypeIn == 255 && v2.stypeOut == 255
    ensures |v2.stypeInSymbol| == |v2.stypeOutSymbol| == SYMBOL_CSTR_LEN_V2
    ensures 0 in v1.stypeInSymbol <==> CCharsToStr(v2.stypeInSymbol) == CCharsToStr(v1.stypeInSymbol)
    ensures 0 in v1.stypeOutSymbol <==> CCharsToStr(v2.stypeOutSymbol) == CCharsToStr(v1.stypeOutSymbol)
    ensures v2.stypeInSymbol == v1.stypeInSymbol + Nuls(SYMBOL_CSTR_LEN_V2 - SYMBOL_CSTR_LEN_V1)
    ensures v2.stypeOutSymbol == v1.stypeOutSymbol + Nuls(SYMBOL_CSTR_LEN_V2 - SYMBOL_CSTR_LEN_V1)
  {
    var stypeIn := CopyOverZeros(v1.stypeInSymbol, SYMBOL_CSTR_LEN_V2);
    var stypeOut := CopyOverZeros(v1.stypeOutSymbol, SYMBOL_CSTR_LEN_V2);
    WideningKeepsText(v1.stypeInSymbol, SYMBOL_CSTR_LEN_V2);
    WideningKeepsText(v1.stypeOutSymbol, SYMBOL_CSTR_LEN_V2);
    v2 := SymbolMappingV2(v1.hd, 255, stypeIn, 255, stypeOut, v1.startTs, v1.endTs);
  }

  /** The definition's symbol; its other fields are copied one by one. */
  method UpgradeRawSymbol(v1: Bytes) returns (v2: Bytes)
    requires |v1| == SYMBOL_CSTR_LEN_V1
    ensures |v2| == SYMBOL_CSTR_LEN_V2 && v2 == v1 + Nuls(SYMBOL_CSTR_LEN_V2 - SYMBOL_CSTR_LEN_V1)
    ensures 0 in v1 <==> CCharsToStr(v2) == CCharsToStr(v1)
  {
    v2 := CopyOverZeros(v1, SYMBOL_CSTR_LEN_V2);
    WideningKeepsText(v1, SYMBOL_CSTR_LEN_V2);
  }

  const ERR_LEN_V1: nat := 64
  const ERR_LEN_V2: nat := 302

  datatype ErrorV1 = ErrorV1(hd: Header, err: Bytes)

  datatype ErrorV2 = ErrorV2(hd: Header, err: Bytes, code: U8, isLast: U8)

  method UpgradeError(v1: ErrorV1) returns (v2: ErrorV2)
    requires |v1.err| == ERR_LEN_V1
    ensures v2.hd == v1.hd && v2.code == 255 && v2.isLast == 255
    ensures |v2.err| == ERR_LEN_V2 && v2.err == v1.err + Nuls(ERR_LEN_V2 - ERR_LEN_V1)
    ensures 0 in v1.err <==> CCharsToStr(v2.err) == CCharsToStr(v1.err)
  {
    var err := CopyOverZeros(v1.err, ERR_LEN_V2);
    WideningKeepsText(v1.err, ERR_LEN_V2);
    v2 := ErrorV2(v1.hd, err, 255, 255);
  }

  const MSG_LEN_V1: nat := 64
  const MSG_LEN_V2: nat := 303

  const HEARTBEAT_CODE: U8 := 0
  const SUBSCRIPTION_ACK_CODE: U8 := 1
  const SLOW_READER_CODE: U8 := 2
  const REPLAY_COMPLETED_CODE: U8 := 3
  const END_OF_INTERVAL_CODE: U8 := 4
  const UNSET_CODE: U8 := 255

  /** An ASCII literal as bytes. */
  function Ascii(s: string): (b: Bytes)
    ensures |b| == |s| && forall i :: 0 <= i < |s| && s[i] as int < 256 ==> b[i] == s[i] as int
  {
    seq(|s|, i requires 0 <= i < |s| => s[i] as int % 256)
  }

  predicate EndsWith(s: Bytes, suffix: Bytes) {
    |suffix| <= |s| && s[|s| - |suffix|..] == suffix
  }

  lemma EndsWithIff(s: Bytes, suffix: Bytes)
    ensures EndsWith(s, suffix) <==> exists front :: s == front + suffix
  {
    if EndsWith(s, suffix) {
      assert s == s[..|s| - |suffix|] + suffix;
    }
  }

  datatype SystemV1 = SystemV1(hd: Header, msg: Bytes) {
    predicate IsHeartbeat() {
      CCharsToStr(msg) == Ok(Ascii("Heartbeat"))
    }
  }

  datatype SystemV2 = SystemV2(hd: Header, msg: Bytes, code: U8) {
    /** The code decides when it names one of the known kinds, else the text does. */
    predicate IsHeartbeat() {
      if code <= END_OF_INTERVAL_CODE || code == UNSET_CODE then code == HEARTBEAT_CODE
      else CCharsToStr(msg) == Ok(Ascii("Heartbeat"))
    }
  }

  /** A code that names a kind decides alone, whatever the text says. */
  lemma HeartbeatIff(m: SystemV2)
    ensures m.code == 0 ==> m.IsHeartbeat()
    ensures m.code in {1, 2, 3, 4, 255} ==> !m.IsHeartbeat()
    ensures m.code !in {0, 1, 2, 3, 4, 255} ==> (m.IsHeartbeat() <==> CCharsToStr(m.msg) == Ok(Ascii("Heartbeat")))
  {
  }

  /** The kind that a version 1 text stands for. */
  function CodeOf(text: Bytes): (code: U8)
    ensures HEARTBEAT_CODE < code <= END_OF_INTERVAL_CODE || code == UNSET_CODE
  {
    if Ascii("End of interval for ") <= text then END_OF_INTERVAL_CODE
    else if Ascii("Subscription request ") <= text && EndsWith(text, Ascii(" succeeded")) then SUBSCRIPTION_ACK_CODE
    else if Ascii("Warning: slow reading") <= text then SLOW_READER_CODE
    else if Ascii("Finished ") <= text && EndsWith(text, Ascii(" replay")) then REPLAY_COMPLETED_CODE
    else UNSET_CODE
  }

  /** Which texts have which code. */
  ghost predicate HasCode(text: Bytes, code: U8) {
    && (Ascii("Subscription request ") <= text && EndsWith(text, Ascii(" succeeded")) ==> code == 1)
    && (Ascii("Warning: slow reading") <= text ==> code == 2)
    && (Ascii("Finished ") <= text && EndsWith(text, Ascii(" replay")) ==> code == 3)
    && (Ascii("End of interval for ") <= text ==> code == 4)
    && (text == Ascii("Heartbeat") ==> code == 0)
    && (code != 0 && code != 1 && code != 2 && code != 3 && code != 4 ==> code == 255)
    && (code == 0 ==> text == Ascii("Heartbeat"))
    && (code == 1 ==> Ascii("Subscription request ") <= text && EndsWith(text, Ascii(" succeeded")))
    && (code == 2 ==> Ascii("Warning: slow reading") <= text)
    && (code == 3 ==> Ascii("Finished ") <= text && EndsWith(text, Ascii(" replay")))
    && (code == 4 ==> Ascii("End of interval for ") <= text)
  }

  /** Texts that start with different letters are different, so the order of the tests does not
      matter. */
  lemma CodeOfText(text: Bytes)
    ensures HasCode(text, if text == Ascii("Heartbeat") then 0 else CodeOf(text))
  {
    assert Ascii("End of interval for ")[0] == 69 && Ascii("Subscription request ")[0] == 83;
    assert Ascii("Warning: slow reading")[0] == 87 && Ascii("Finished ")[0] == 70;
    assert Ascii("Heartbeat")[0] == 72;
  }

  method UpgradeSystem(v1: SystemV1) returns (v2: SystemV2)
    requires |v1.msg| == MSG_LEN_V1
    ensures v2.hd == v1.hd
    ensures |v2.msg| == MSG_LEN_V2 && v2.msg == v1.msg + Nuls(MSG_LEN_V2 - MSG_LEN_V1)
    ensures 0 in v1.msg <==> CCharsToStr(v2.msg) == CCharsToStr(v1.msg)
    ensures v2.IsHeartbeat() <==> v1.IsHeartbeat()
    ensures CCharsToStr(v1.msg).Err? ==> v2.code == UNSET_CODE
    ensures CCharsToStr(v1.msg) == Ok(Ascii("Heartbeat")) ==> v2.code == 0
    ensures CCharsToStr(v1.msg).Ok? ==> HasCode(CCharsToStr(v1.msg).value, v2.code)
  {
    if CCharsToStr(v1.msg).Ok? {
      CodeOfText(CCharsToStr(v1.msg).value);
    }
    hide CCharsToStr, CodeOf, Ascii, HasCode;
    var code := UNSET_CODE;
    var text := CCharsToStr(v1.msg);
    if v1.IsHeartbeat() {
      code := HEARTBEAT_CODE;
    } else if text.Ok? {
      code := CodeOf(text.value);
    }
    var msg := CopyOverZeros(v1.msg, MSG_LEN_V2);
    WideningKeepsText(v1.msg, MSG_LEN_V2);
    v2 := SystemV2(v1.hd, msg, code);
  }
}
