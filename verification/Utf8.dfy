/** Well-formed UTF-8 (Table 3-7 of the Unicode Standard) and text padded with NUL bytes. */
module Utf8 {
  import opened Common

  type Bytes = seq<U8>

  predicate Continues(b: U8) {
    0x80 <= b <= 0xBF
  }

  /** Which second byte may follow a lead byte. */
  predicate Second(lead: U8, b: U8) {
    if lead == 0xE0 then 0xA0 <= b <= 0xBF
    else if lead == 0xED then 0x80 <= b <= 0x9F
    else if lead == 0xF0 then 0x90 <= b <= 0xBF
    else if lead == 0xF4 then 0x80 <= b <= 0x8F
    else Continues(b)
  }

  /** How many bytes a lead byte announces; 0 if it cannot lead. */
  function Announced(lead: U8): (n: nat)
    ensures n <= 4
  {
    if lead < 0x80 then 1
    else if lead < 0xC2 then 0
    else if lead < 0xE0 then 2
    else if lead < 0xF0 then 3
    else if lead < 0xF5 then 4
    else 0
  }

  /** The length of the character in front, 0 if the front is malformed. */
  function Character(s: Bytes): (n: nat)
    requires s != []
    ensures n <= |s|
  {
    var n := Announced(s[0]);
    if n == 0 || n > |s| then 0
    else if n >= 2 && !Second(s[0], s[1]) then 0
    else if n >= 3 && !Continues(s[2]) then 0
    else if n == 4 && !Continues(s[3]) then 0
    else n
  }

  predicate ValidUtf8(s: Bytes)
    decreases |s|
  {
    s == [] || (Character(s) > 0 && ValidUtf8(s[Character(s)..]))
  }

  function Nuls(k: nat): (s: Bytes)
    ensures |s| == k && forall i :: 0 <= i < k ==> s[i] == 0
  {
    seq(k, _ => 0)
  }

  /** Text without the NUL characters at its end. */
  function TrimNuls(s: Bytes): (t: Bytes)
    ensures t <= s && NoNulAtEnd(t)
  {
    if s != [] && s[|s| - 1] == 0 then TrimNuls(s[..|s| - 1]) else s
  }

  predicate NoNulAtEnd(s: Bytes) {
    s == [] || s[|s| - 1] != 0
  }

  /** A byte that stands for itself splits text into two parts that are checked on their own. */
  lemma {:induction false} SplitsAtAscii(s: Bytes, t: Bytes)
    requires t == [] || t[0] < 0x80
    ensures ValidUtf8(s + t) <==> ValidUtf8(s) && ValidUtf8(t)
    decreases |s|
  {
    if s == [] {
      assert s + t == t;
    } else if t == [] {
      assert s + t == s;
    } else {
      assert Character(s + t) == Character(s);
      var n := Character(s);
      if n > 0 {
        assert (s + t)[n..] == s[n..] + t;
        SplitsAtAscii(s[n..], t);
      }
    }
  }

  lemma {:induction false} NulsAreValid(k: nat)
    ensures ValidUtf8(Nuls(k))
  {
    if k > 0 {
      assert Nuls(k)[1..] == Nuls(k - 1);
      NulsAreValid(k - 1);
    }
  }

  /** Padding with NUL bytes neither makes nor breaks text. */
  lemma PaddingKeepsValidity(s: Bytes, k: nat)
    ensures ValidUtf8(s + Nuls(k)) <==> ValidUtf8(s)
  {
    SplitsAtAscii(s, Nuls(k));
    NulsAreValid(k);
  }

  lemma {:induction false} TrimUndoesPadding(s: Bytes, k: nat)
    requires NoNulAtEnd(s)
    ensures TrimNuls(s + Nuls(k)) == s
  {
    if k == 0 {
      assert s + Nuls(0) == s;
    } else {
      assert (s + Nuls(k))[..|s| + k - 1] == s + Nuls(k - 1);
      TrimUndoesPadding(s, k - 1);
    }
  }

  lemma {:induction false} PaddingUndoesTrim(s: Bytes)
    ensures s == TrimNuls(s) + Nuls(|s| - |TrimNuls(s)|)
  {
    if s != [] && s[|s| - 1] == 0 {
      PaddingUndoesTrim(s[..|s| - 1]);
    }
  }
}
