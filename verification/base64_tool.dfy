/**
 * The Base64 tool's hand-written codecs: the "unicode" codec, which writes every UTF-16 code unit
 * as a `\uXXXX` escape and reads such escapes back, and the "hex" codec, which writes every code
 * unit as at least two lower-case hex digits and reads the text back two characters at a time.
 * Also the tool's convert and clear buttons. The Base64 and URL modes call library codecs, which
 * the model takes as a parameter.
 */
module Base64Tool {
  import opened Wrappers
  import opened JsText

  datatype Mode = Base64 | Url | Unicode | Hex
  datatype Direction = Encode | Decode

  const Backslash: CodeUnit := 0x5C
  const LowerU: CodeUnit := 0x75
  const UpperU: CodeUnit := 0x55
  const Zero: CodeUnit := 0x30

  predicate IsLowerHexUnit(c: int) {
    0x30 <= c <= 0x39 || 0x61 <= c <= 0x66
  }

  predicate AllLowerHex(s: seq<int>) {
    forall i :: 0 <= i < |s| ==> IsLowerHexUnit(s[i])
  }

  // ---- Number.prototype.toString(16) and String.prototype.padStart ----

  /** `n.toString(16)`: lower-case hex digits without leading zeros. */
  function ToHex(n: nat): (r: JsString)
    ensures r != [] && AllHex(r) && AllLowerHex(r)
    ensures HexValue(r) == n
    decreases n
  {
    if n < 16 then [LowerHexDigit(n)]
    else
      var r := ToHex(n / 16) + [LowerHexDigit(n % 16)];
      assert r[..|r| - 1] == ToHex(n / 16);
      r
  }

  /** `toString(16)` needs at most `k` digits for a number below 16^k. */
  lemma {:induction false} ToHexLength(n: nat, k: nat)
    requires 1 <= k && n < Pow16(k)
    ensures |ToHex(n)| <= k
    decreases n
  {
    if n >= 16 {
      ToHexLength(n / 16, k - 1);
    }
  }

  /** `s.padStart(width, fill)`. */
  function PadStart(s: JsString, width: nat, fill: CodeUnit): (r: JsString)
    ensures |r| == if |s| >= width then |s| else width
  {
    if |s| >= width then s else seq(width - |s|, _ => fill) + s
  }

  /** Padding puts `fill` in front and keeps the text as the tail. */
  lemma PadStartShape(s: JsString, width: nat, fill: CodeUnit)
    ensures var r := PadStart(s, width, fill);
      && r[|r| - |s|..] == s
      && forall i :: 0 <= i < |r| - |s| ==> r[i] == fill
  {
  }

  /** Leading zero digits do not change the value a run of hex digits denotes. */
  lemma {:induction false} HexValueLeadingZeros(z: seq<int>, s: seq<int>)
    requires forall i :: 0 <= i < |z| ==> z[i] == 0x30
    requires AllHex(s)
    ensures AllHex(z + s) && HexValue(z + s) == HexValue(s)
    decreases |s|
  {
    var zs := z + s;
    if s == [] {
      assert zs == z;
      ZerosValue(z);
    } else {
      assert zs[..|zs| - 1] == z + s[..|s| - 1];
      HexValueLeadingZeros(z, s[..|s| - 1]);
    }
  }

  lemma {:induction false} ZerosValue(z: seq<int>)
    requires forall i :: 0 <= i < |z| ==> z[i] == 0x30
    ensures AllHex(z) && HexValue(z) == 0
    decreases |z|
  {
    if z != [] {
      ZerosValue(z[..|z| - 1]);
    }
  }

  /** `toString(16).padStart(width, '0')` reads back as the number it was made from. */
  lemma PaddedHexValue(n: nat, width: nat)
    ensures AllHex(PadStart(ToHex(n), width, Zero))
    ensures AllLowerHex(PadStart(ToHex(n), width, Zero))
    ensures HexValue(PadStart(ToHex(n), width, Zero)) == n
  {
    var h := ToHex(n);
    var p := PadStart(h, width, Zero);
    PadStartShape(h, width, Zero);
    var z := p[..|p| - |h|];
    assert p == z + h;
    HexValueLeadingZeros(z, h);
  }

  // ---- the "unicode" codec ----

  /** The escape the unicode encoder writes for one code unit: `\u` and `toString(16).padStart(4, '0')`. */
  function UnicodeEscape(c: CodeUnit): (r: JsString)
    ensures |r| == 6 && r[0] == Backslash && r[1] == LowerU
  {
    assert Pow16(4) == 0x1_0000;
    ToHexLength(c, 4);
    [Backslash, LowerU] + PadStart(ToHex(c), 4, Zero)
  }

  /** The four digits of an escape are lower-case hex digits that denote the code unit. */
  lemma EscapeDigits(c: CodeUnit)
    ensures AllHex(UnicodeEscape(c)[2..]) && AllLowerHex(UnicodeEscape(c)[2..])
    ensures HexValue(UnicodeEscape(c)[2..]) == c
  {
    PaddedHexValue(c, 4);
    assert UnicodeEscape(c)[2..] == PadStart(ToHex(c), 4, Zero);
  }

  /** The unicode encoder: one escape per code unit, in order. */
  function UnicodeEncode(s: JsString): (r: JsString)
    ensures |r| == 6 * |s|
    decreases |s|
  {
    if s == [] then [] else UnicodeEscape(s[0]) + UnicodeEncode(s[1..])
  }

  /** Every code unit becomes exactly its own escape, at offset 6k. */
  lemma {:induction false} UnicodeEncodeAt(s: JsString, k: nat)
    requires k < |s|
    ensures UnicodeEncode(s)[6 * k..6 * k + 6] == UnicodeEscape(s[k])
    decreases k
  {
    var e := UnicodeEscape(s[0]);
    var rest := UnicodeEncode(s[1..]);
    var t := e + rest;
    assert UnicodeEncode(s) == t;
    if k > 0 {
      UnicodeEncodeAt(s[1..], k - 1);
      assert s[1..][k - 1] == s[k];
      assert 6 * (k - 1) == 6 * k - 6;
      SliceAfterPrefix(e, rest, 6 * k, 6 * k + 6);
    } else {
      assert t[..6] == e;
    }
  }

  lemma SliceAfterPrefix(e: JsString, rest: JsString, a: nat, b: nat)
    requires |e| <= a <= b <= |e| + |rest|
    ensures (e + rest)[a..b] == rest[a - |e|..b - |e|]
  {
  }

  /** A match of `/\\u[\dA-F]{4}/i` at the start of `s`: the `u` and the digits in either case. */
  predicate IsEscapeAt(s: JsString) {
    |s| >= 6 && s[0] == Backslash && (s[1] == LowerU || s[1] == UpperU) && AllHex(s[2..6])
  }

  /** No match of the decoder's pattern starts anywhere in `s`. */
  predicate NoEscape(s: JsString) {
    forall k :: 0 <= k < |s| ==> !IsEscapeAt(s[k..])
  }

  /** `m.replace(/\\u/g, '')`: drops every backslash followed by a lower-case `u`. */
  function DropBackslashU(m: JsString): (r: JsString)
    ensures |r| <= |m|
    decreases |m|
  {
    if |m| >= 2 && m[0] == Backslash && m[1] == LowerU then DropBackslashU(m[2..])
    else if m == [] then []
    else [m[0]] + DropBackslashU(m[1..])
  }

  /**
   * The unicode decoder as written: every match of `/\\u[\dA-F]{4}/gi`, taken left to right, is
   * replaced by `String.fromCharCode(parseInt(match.replace(/\\u/g, ''), 16))`.
   */
  function UnicodeDecodeAsWritten(s: JsString): (r: JsString)
    ensures |r| <= |s|
    decreases |s|
  {
    if s == [] then []
    else if IsEscapeAt(s) then
      [FromCharCode(ParseInt16(DropBackslashU(s[..6])))] + UnicodeDecodeAsWritten(s[6..])
    else [s[0]] + UnicodeDecodeAsWritten(s[1..])
  }

  /** The unicode decoder with `\U` read like `\u`: each escape becomes the code unit its digits denote. */
  function UnicodeDecode(s: JsString): (r: JsString)
    ensures |r| <= |s|
    decreases |s|
  {
    if s == [] then []
    else if IsEscapeAt(s) then
      assert Pow16(4) == 0x1_0000;
      [HexValue(s[2..6]) as CodeUnit] + UnicodeDecode(s[6..])
    else [s[0]] + UnicodeDecode(s[1..])
  }

  /** The two decoders agree on `\u` escapes: when `s` holds no `U` at all, they give the same text. */
  lemma {:induction false} DecodersAgreeWithoutUpperU(s: JsString)
    requires UpperU !in s
    ensures UnicodeDecodeAsWritten(s) == UnicodeDecode(s)
    decreases |s|
  {
    if s != [] {
      if IsEscapeAt(s) {
        var m := s[..6];
        assert m[2..] == s[2..6];
        assert DropBackslashU(m) == DropBackslashU(m[2..]);
        NoBackslashU(m[2..]);
        assert Pow16(4) == 0x1_0000;
        assert UpperU !in s[6..];
        DecodersAgreeWithoutUpperU(s[6..]);
      } else {
        assert UpperU !in s[1..];
        DecodersAgreeWithoutUpperU(s[1..]);
      }
    }
  }

  lemma {:induction false} NoBackslashU(m: JsString)
    requires AllHex(m)
    ensures DropBackslashU(m) == m
    decreases |m|
  {
    if m != [] {
      assert m[0] != Backslash;
      NoBackslashU(m[1..]);
      assert m == [m[0]] + m[1..];
    }
  }

  /** The counterexample: `\U0041` matches the pattern but is turned into U+0000, not `A`. */
  lemma UpperUEscapeDecodesToNul()
    ensures UnicodeDecodeAsWritten([Backslash, UpperU, 0x30, 0x30, 0x34, 0x31]) == [0]
    ensures UnicodeDecode([Backslash, UpperU, 0x30, 0x30, 0x34, 0x31]) == [0x41]
  {
    var s: JsString := [Backslash, UpperU, 0x30, 0x30, 0x34, 0x31];
    assert IsEscapeAt(s);
    assert s[6..] == [] && s[..6] == s && s[2..6] == [0x30, 0x30, 0x34, 0x31];
    UpperUMatchIsNaN(s);
    DigitsValue0041();
  }

  lemma UpperUMatchIsNaN(m: JsString)
    requires |m| == 6 && m[0] == Backslash && m[1] == UpperU && AllHex(m[2..])
    ensures DropBackslashU(m) == m
    ensures ParseInt16(m) == None
  {
    var tail := m[2..];
    NoBackslashU(tail);
    assert m[1..] == [UpperU] + tail;
    assert DropBackslashU(m[1..]) == m[1..];
    assert m == [Backslash] + m[1..];
    LeadingBackslashIsNaN(m);
  }

  lemma LeadingBackslashIsNaN(m: JsString)
    requires m != [] && m[0] == Backslash
    ensures ParseInt16(m) == None
  {
    var s: seq<int> := m;
    assert !IsSpaceCode(s[0]);
    var t := SkipSpace(s);
    assert t == s;
    assert StripSign(t) == s;
    assert StripHexPrefix(s) == s;
    assert HexPrefixLength(s) == 0;
  }

  lemma DigitsValue0041()
    ensures HexValue([0x30, 0x30, 0x34, 0x31]) == 0x41
  {
    var d1, d2, d3, d4 := [0x30], [0x30, 0x30], [0x30, 0x30, 0x34], [0x30, 0x30, 0x34, 0x31];
    assert d1[..0] == [] && HexValue(d1) == 0;
    assert d2[..1] == d1 && HexValue(d2) == 0;
    assert d3[..2] == d2 && HexValue(d3) == 4;
    assert d4[..3] == d3 && HexValue(d4) == 0x41;
  }

  /** Decoding an encoding gives the text back, for every string of code units. */
  lemma {:induction false} UnicodeRoundTrip(s: JsString)
    ensures UnicodeDecode(UnicodeEncode(s)) == s
    decreases |s|
  {
    if s != [] {
      var e := UnicodeEscape(s[0]);
      var rest := UnicodeEncode(s[1..]);
      var t := e + rest;
      assert UnicodeEncode(s) == t;
      assert t[..6] == e && t[2..6] == e[2..] && t[6..] == rest;
      EscapeDigits(s[0]);
      assert IsEscapeAt(t);
      UnicodeRoundTrip(s[1..]);
      assert s == [s[0]] + s[1..];
    }
  }

  /** The encoder writes only backslashes, `u` and lower-case digits: never a capital `U`. */
  lemma {:induction false} NoUpperUInEncode(s: JsString)
    ensures UpperU !in UnicodeEncode(s)
    decreases |s|
  {
    if s != [] {
      var e := UnicodeEscape(s[0]);
      EscapeDigits(s[0]);
      forall i | 0 <= i < 6 ensures e[i] != UpperU {
        if i >= 2 {
          assert e[2..][i - 2] == e[i];
        }
      }
      NoUpperUInEncode(s[1..]);
      assert UnicodeEncode(s) == e + UnicodeEncode(s[1..]);
    }
  }

  /** The decoder as the page runs it also gives back every encoded text. */
  lemma UnicodeRoundTripAsWritten(s: JsString)
    ensures UnicodeDecodeAsWritten(UnicodeEncode(s)) == s
  {
    NoUpperUInEncode(s);
    DecodersAgreeWithoutUpperU(UnicodeEncode(s));
    UnicodeRoundTrip(s);
  }

  /** An escape decodes to the code unit its four digits denote, whatever the case of `u` and digits. */
  lemma UnicodeDecodeEscape(u: CodeUnit, d: JsString, rest: JsString)
    requires u == LowerU || u == UpperU
    requires |d| == 4 && AllHex(d)
    ensures HexValue(d) < 0x1_0000
    ensures UnicodeDecode([Backslash, u] + d + rest) == [HexValue(d) as CodeUnit] + UnicodeDecode(rest)
  {
    var s := [Backslash, u] + d + rest;
    assert s[2..6] == d && s[6..] == rest;
    assert IsEscapeAt(s);
    assert Pow16(4) == 0x1_0000;
  }

  /** Upper-case hex digit letters become their lower-case forms; everything else is kept. */
  function LowerHexLetters(s: JsString): (r: JsString)
    ensures |r| == |s|
    ensures forall i :: 0 <= i < |s| ==> r[i] == if 0x41 <= s[i] <= 0x46 then s[i] + 0x20 else s[i]
  {
    seq(|s|, i requires 0 <= i < |s| => if 0x41 <= s[i] <= 0x46 then s[i] + 0x20 else s[i])
  }

  /** The digits' case does not matter: `A`-`F` and `a`-`f` read as the same value. */
  lemma {:induction false} HexValueIgnoresCase(s: JsString)
    requires AllHex(s)
    ensures AllHex(LowerHexLetters(s)) && HexValue(LowerHexLetters(s)) == HexValue(s)
    decreases |s|
  {
    var l := LowerHexLetters(s);
    if s != [] {
      assert LowerHexLetters(s[..|s| - 1]) == l[..|l| - 1];
      HexValueIgnoresCase(s[..|s| - 1]);
    }
  }

  /** The decoder leaves text without any escape untouched. */
  lemma {:induction false} UnicodeDecodeNoEscape(s: JsString)
    requires NoEscape(s)
    ensures UnicodeDecode(s) == s
    ensures UnicodeDecodeAsWritten(s) == s
    decreases |s|
  {
    if s != [] {
      assert s[0..] == s;
      assert !IsEscapeAt(s);
      assert NoEscape(s[1..]) by {
        forall k | 0 <= k < |s[1..]| ensures !IsEscapeAt(s[1..][k..]) {
          assert s[1..][k..] == s[k + 1..];
        }
      }
      UnicodeDecodeNoEscape(s[1..]);
      assert s == [s[0]] + s[1..];
    }
  }

  // ---- the "hex" codec ----

  /** What the hex encoder writes for one code unit: `toString(16).padStart(2, '0')`. */
  function HexUnit(c: CodeUnit): (r: JsString)
    ensures |r| >= 2
    ensures c < 256 ==> |r| == 2
  {
    assert c < 256 ==> |ToHex(c)| <= 2 by {
      if c < 256 {
        assert Pow16(2) == 256;
        ToHexLength(c, 2);
      }
    }
    PadStart(ToHex(c), 2, Zero)
  }

  /** The digits written for a code unit are lower-case hex digits that denote it. */
  lemma HexUnitDigits(c: CodeUnit)
    ensures AllHex(HexUnit(c)) && AllLowerHex(HexUnit(c)) && HexValue(HexUnit(c)) == c
  {
    PaddedHexValue(c, 2);
  }

  predicate IsByteString(s: JsString) {
    forall i :: 0 <= i < |s| ==> s[i] < 256
  }

  /** The hex encoder: the digits of every code unit, in order. */
  function HexEncode(s: JsString): (r: JsString)
    ensures IsByteString(s) ==> |r| == 2 * |s|
    decreases |s|
  {
    if s == [] then [] else HexUnit(s[0]) + HexEncode(s[1..])
  }

  /** The hex encoder writes only lower-case hex digits. */
  lemma {:induction false} HexEncodeDigits(s: JsString)
    ensures AllLowerHex(HexEncode(s))
    decreases |s|
  {
    if s != [] {
      HexUnitDigits(s[0]);
      HexEncodeDigits(s[1..]);
      var u, rest := HexUnit(s[0]), HexEncode(s[1..]);
      assert HexEncode(s) == u + rest;
      forall i | 0 <= i < |u + rest| ensures IsLowerHexUnit((u + rest)[i]) {
        if i >= |u| {
          assert (u + rest)[i] == rest[i - |u|];
        }
      }
    }
  }

  /**
   * The matches of `/.{1,2}/g`, left to right: runs of up to two code units; a line terminator,
   * which `.` does not match, is skipped and ends the run before it.
   */
  function HexChunks(s: JsString): (r: seq<JsString>)
    ensures forall i :: 0 <= i < |r| ==> 1 <= |r[i]| <= 2
    ensures forall i, j :: 0 <= i < |r| && 0 <= j < |r[i]| ==> !IsLineTerminator(r[i][j])
    decreases |s|
  {
    if s == [] then []
    else if IsLineTerminator(s[0]) then HexChunks(s[1..])
    else if |s| >= 2 && !IsLineTerminator(s[1]) then [s[..2]] + HexChunks(s[2..])
    else [s[..1]] + HexChunks(s[1..])
  }

  /**
   * The hex decoder: `str.match(/.{1,2}/g)?.map(b => String.fromCharCode(parseInt(b, 16))).join('') || ''`.
   * No match at all yields the empty string, as the `|| ''` does.
   */
  function HexDecode(s: JsString): (r: JsString)
    ensures |r| == |HexChunks(s)|
    ensures forall i :: 0 <= i < |r| ==> r[i] == FromCharCode(ParseInt16(HexChunks(s)[i]))
  {
    var chunks := HexChunks(s);
    seq(|chunks|, i requires 0 <= i < |chunks| => FromCharCode(ParseInt16(chunks[i])))
  }

  lemma HexDecodeEmpty()
    ensures HexDecode([]) == []
  {
  }

  predicate NoLineTerminator(s: JsString) {
    forall i :: 0 <= i < |s| ==> !IsLineTerminator(s[i])
  }

  /** Without line terminators the input is read in consecutive pairs; only the last chunk may be single. */
  lemma {:induction false} HexChunksPairs(s: JsString)
    requires NoLineTerminator(s)
    ensures |HexChunks(s)| == (|s| + 1) / 2
    ensures forall k :: 0 <= k < |HexChunks(s)| ==>
      HexChunks(s)[k] == s[2 * k..if 2 * k + 2 <= |s| then 2 * k + 2 else |s|]
    decreases |s|
  {
    if s != [] {
      var c := HexChunks(s);
      if |s| >= 2 {
        var rest := HexChunks(s[2..]);
        HexChunksPairs(s[2..]);
        assert c == [s[..2]] + rest;
        forall k | 1 <= k < |c|
          ensures c[k] == s[2 * k..if 2 * k + 2 <= |s| then 2 * k + 2 else |s|]
        {
          assert c[k] == rest[k - 1];
          PairAfterFirst(s, rest, k);
        }
      } else {
        assert c == [s[..1]] + HexChunks(s[1..]);
        assert s[1..] == [];
      }
    }
  }

  /** The (k-1)-th pair of `s[2..]` is the k-th pair of `s`. */
  lemma PairAfterFirst(s: JsString, rest: seq<JsString>, k: nat)
    requires 1 <= k && 2 * k < |s| && k - 1 < |rest|
    requires rest[k - 1] == s[2..][2 * (k - 1)..if 2 * (k - 1) + 2 <= |s[2..]| then 2 * (k - 1) + 2 else |s[2..]|]
    ensures rest[k - 1] == s[2 * k..if 2 * k + 2 <= |s| then 2 * k + 2 else |s|]
  {
    var e := if 2 * k + 2 <= |s| then 2 * k + 2 else |s|;
    assert s[2..][2 * k - 2..e - 2] == s[2 * k..e];
  }

  lemma HexUnitsChunk(s: JsString, rest: JsString)
    requires |s| == 2 && AllHex(s)
    ensures HexChunks(s + rest) == [s] + HexChunks(rest)
  {
    var t := s + rest;
    assert t[..2] == s && t[2..] == rest;
  }

  /** The hex encoding of byte-sized code units is chunked back into one digit pair per code unit. */
  lemma {:induction false} HexChunksOfEncode(s: JsString)
    requires IsByteString(s)
    ensures |HexChunks(HexEncode(s))| == |s|
    ensures forall i :: 0 <= i < |s| ==> HexChunks(HexEncode(s))[i] == HexUnit(s[i])
    decreases |s|
  {
    if s != [] {
      var tail := s[1..];
      HexChunksOfEncode(tail);
      var u := HexUnit(s[0]);
      HexUnitDigits(s[0]);
      var rest := HexChunks(HexEncode(tail));
      assert HexEncode(s) == u + HexEncode(tail);
      HexUnitsChunk(u, HexEncode(tail));
      var c := [u] + rest;
      assert HexChunks(HexEncode(s)) == c;
      forall i | 1 <= i < |s| ensures c[i] == HexUnit(s[i]) {
        assert c[i] == rest[i - 1];
        assert tail[i - 1] == s[i];
      }
    }
  }

  /** Decoding an encoding gives the text back when every code unit is below 256. */
  lemma HexRoundTrip(s: JsString)
    requires IsByteString(s)
    ensures HexDecode(HexEncode(s)) == s
  {
    HexChunksOfEncode(s);
    var r := HexDecode(HexEncode(s));
    forall i | 0 <= i < |s| ensures r[i] == s[i] {
      var u := HexUnit(s[i]);
      HexUnitDigits(s[i]);
      assert ParseInt16(u) == Some(HexValue(u));
    }
  }

  /** A code unit of 256 or more is written with more than two digits and does not come back. */
  lemma HexRoundTripFailsAbove255()
    ensures HexEncode([0x4E2D]) == [0x34, 0x65, 0x32, 0x64]
    ensures HexDecode(HexEncode([0x4E2D])) == [0x4E, 0x2D]
  {
    EncodeOf4E2D();
    var p: JsString := [0x34, 0x65];
    var q: JsString := [0x32, 0x64];
    assert [0x34, 0x65, 0x32, 0x64] == p + q;
    DecodeTwoPairs(p, q);
    PairValues();
  }

  /** Four hex digits decode to two code units, one per pair. */
  lemma DecodeTwoPairs(p: JsString, q: JsString)
    requires |p| == 2 && AllHex(p) && |q| == 2 && AllHex(q)
    ensures HexDecode(p + q) == [FromCharCode(Some(HexValue(p))), FromCharCode(Some(HexValue(q)))]
  {
    ChunksOfTwoPairs(p, q);
    var r := HexDecode(p + q);
    assert r[0] == FromCharCode(ParseInt16(p));
    assert r[1] == FromCharCode(ParseInt16(q));
  }

  lemma EncodeOf4E2D()
    ensures HexEncode([0x4E2D]) == [0x34, 0x65, 0x32, 0x64]
  {
    assert ToHex(4) == [0x34];
    assert ToHex(0x4E) == [0x34, 0x65];
    assert ToHex(0x4E2) == [0x34, 0x65, 0x32];
    assert ToHex(0x4E2D) == [0x34, 0x65, 0x32, 0x64];
    assert HexUnit(0x4E2D) == ToHex(0x4E2D);
    var s: JsString := [0x4E2D];
    assert s[1..] == [];
  }

  lemma ChunksOfTwoPairs(p: JsString, q: JsString)
    requires |p| == 2 && AllHex(p) && |q| == 2 && AllHex(q)
    ensures HexChunks(p + q) == [p, q]
  {
    HexUnitsChunk(p, q);
    assert q + [] == q;
    HexUnitsChunk(q, []);
  }

  lemma PairValues()
    ensures HexValue([0x34, 0x65]) == 0x4E && HexValue([0x32, 0x64]) == 0x2D
  {
    var p, q := [0x34, 0x65], [0x32, 0x64];
    assert p[..1] == [0x34] && p[..1][..0] == [] && HexValue([0x34]) == 4;
    assert q[..1] == [0x32] && q[..1][..0] == [] && HexValue([0x32]) == 2;
  }

  // ---- the convert button ----

  /**
   * The library codecs `btoa`, `atob`, `encodeURIComponent` and `decodeURIComponent`, which the
   * Base64 and URL modes call: a result, or the message of the thrown `Error` (`None` when what was
   * thrown is not an `Error`).
   */
  type LibraryCodec = (Mode, Direction, JsString) -> Result<JsString, Option<string>>

  const EmptyInputError := "请输入内容"
  const ConvertErrorPrefix := "转换错误："
  const BadFormatMessage := "输入格式不正确"

  /** `convert[mode][direction](input)`, with a thrown error turned into its message. */
  function Convert(mode: Mode, direction: Direction, s: JsString, library: LibraryCodec): (r: Result<JsString, string>)
    ensures mode == Unicode && direction == Encode ==> r == Ok(UnicodeEncode(s))
    ensures mode == Unicode && direction == Decode ==> r == Ok(UnicodeDecodeAsWritten(s))
    ensures mode == Hex && direction == Encode ==> r == Ok(HexEncode(s))
    ensures mode == Hex && direction == Decode ==> r == Ok(HexDecode(s))
  {
    match mode
    case Unicode => Ok(if direction == Encode then UnicodeEncode(s) else UnicodeDecodeAsWritten(s))
    case Hex => Ok(if direction == Encode then HexEncode(s) else HexDecode(s))
    case _ =>
      match library(mode, direction, s)
      case Ok(v) => Ok(v)
      case Err(message) => Err(if message.Some? then message.value else BadFormatMessage)
  }

  /** The tool's state: the `useState` fields of the component. */
  class Base64Tool {
    var input: JsString
    var output: JsString
    var mode: Mode
    var direction: Direction
    var error: Option<string>

    constructor ()
      ensures input == [] && output == [] && mode == Base64 && direction == Encode && error == None
    {
      input, output, mode, direction, error := [], [], Base64, Encode, None;
    }

    /**
     * `handleConvert`: a blank input (white space only) sets the "empty input" error; otherwise the
     * conversion's result replaces the output, or its error is shown and the output is kept.
     */
    method HandleConvert(library: LibraryCodec)
      modifies this
      ensures input == old(input) && mode == old(mode) && direction == old(direction)
      ensures AllSpace(input, IsSpaceUnit) ==> error == Some(EmptyInputError) && output == old(output)
      ensures !AllSpace(input, IsSpaceUnit) ==>
        match Convert(mode, direction, input, library)
        case Ok(v) => output == v && error == None
        case Err(m) => output == old(output) && error == Some(ConvertErrorPrefix + m)
    {
      error := None;
      TrimBlank(input, IsSpaceUnit);
      if Trim(input, IsSpaceUnit) == [] {
        error := Some(EmptyInputError);
        return;
      }
      var result := Convert(mode, direction, input, library);
      match result
      case Ok(v) =>
        output := v;
      case Err(m) =>
        error := Some(ConvertErrorPrefix + m);
    }

    /** The clear button: input, output and error emptied. */
    method Clear()
      modifies this
      ensures input == [] && output == [] && error == None
      ensures mode == old(mode) && direction == old(direction)
    {
      input, output, error := [], [], None;
    }
  }
}
