/** `Base64.encode` and `Base64.decode` of lib/errplane.js: the alphabet of
    section 4 of RFC 4648 applied to the output of `_utf8_encode`, and its
    inverse.  Strings are sequences of UTF-16 code units (module Utf8). */
module Base64 {
  import opened Bits
  import opened Utf8
  import opened Seqs

  /** `n` consecutive characters starting at `first`. */
  function Run(first: char, n: nat): (r: JsString)
    requires first as int + n <= 128
    ensures |r| == n
    ensures forall i :: 0 <= i < n ==> r[i] == first as int + i
  {
    seq(n, i requires 0 <= i < n => first as int + i)
  }

  /** `_keyStr`, "ABC...XYZabc...xyz0123456789+/=": the 64 digits and, at
      index 64, the pad character. */
  const KeyStr: JsString := Run('A', 26) + Run('a', 26) + Run('0', 10) + ['+' as int, '/' as int, '=' as int]

  const Pad: CodeUnit := '=' as int

  /** `_keyStr.charAt(e)`: the empty string past the end. */
  function CharAt(e: nat): (r: JsString)
    ensures e < 65 ==> r == [KeyStr[e]]
    ensures e >= 65 ==> r == []
  {
    if e < |KeyStr| then [KeyStr[e]] else []
  }

  /** `_keyStr.indexOf(c)` for a one-character string `c`: the first index
      holding `c`, or -1. */
  function IndexOf(c: CodeUnit): (r: int)
    ensures -1 <= r < |KeyStr|
    ensures r >= 0 ==> KeyStr[r] == c && forall j :: 0 <= j < r ==> KeyStr[j] != c
    ensures r == -1 ==> forall j :: 0 <= j < |KeyStr| ==> KeyStr[j] != c
  {
    if 'A' as int <= c <= 'Z' as int then c - 'A' as int
    else if 'a' as int <= c <= 'z' as int then c - 'a' as int + 26
    else if '0' as int <= c <= '9' as int then c - '0' as int + 52
    else if c == '+' as int then 62
    else if c == '/' as int then 63
    else if c == '=' as int then 64
    else -1
  }

  /** Membership in the character class `[A-Za-z0-9\+\/\=]`. */
  predicate IsKeyChar(c: CodeUnit)
  {
    IndexOf(c) >= 0
  }

  predicate AllKeyChars(s: JsString)
  {
    forall i :: 0 <= i < |s| ==> IsKeyChar(s[i])
  }

  lemma IndexOfKeyStr(e: nat)
    requires e < |KeyStr|
    ensures IndexOf(KeyStr[e]) == e
  {
  }

  /** `input.replace(/[^A-Za-z0-9\+\/\=]/g, "")`. */
  function StripNonAlphabet(s: JsString): (r: JsString)
    ensures |r| <= |s|
    ensures AllKeyChars(r)
    ensures AllKeyChars(s) ==> r == s
  {
    if s == [] then []
    else if IsKeyChar(s[0]) then [s[0]] + StripNonAlphabet(s[1..])
    else StripNonAlphabet(s[1..])
  }

  /** The four characters one round of `Base64.encode` appends for the
      units chr1 chr2 chr3; `nan2` and `nan3` say that the second and third
      were read past the end (`isNaN`). */
  function Group(chr1: nat, chr2: nat, chr3: nat, nan2: bool, nan3: bool): JsString
  {
    var enc1 := chr1 / 4;
    var enc2 := BitOr((chr1 % 4) * 16, chr2 / 16);
    var enc3 := if nan2 then 64 else BitOr((chr2 % 16) * 4, chr3 / 64);
    var enc4 := if nan2 || nan3 then 64 else chr3 % 64;
    CharAt(enc1) + CharAt(enc2) + CharAt(enc3) + CharAt(enc4)
  }

  /** The group for the (up to) three units at the head of `b`. */
  function Quad(b: JsString): JsString
    requires b != []
  {
    Group(b[0], CodeAtOrZero(b, 1), CodeAtOrZero(b, 2), |b| < 2, |b| < 3)
  }

  /** The encoding loop of `Base64.encode`, over UTF-8 text. */
  function EncodedBytes(b: JsString): JsString
    decreases |b|
  {
    if b == [] then [] else Quad(b) + EncodedBytes(Drop(b, 3))
  }

  /** `Base64.encode(input)`. */
  function Encoded(input: JsString): JsString
  {
    EncodedBytes(Utf8.Encoded(input))
  }

  /** `_keyStr.indexOf(input.charAt(i))` on filtered input: past the end
      `charAt` gives "", whose index is 0. */
  function EncAt(t: JsString, i: nat): (r: nat)
    requires AllKeyChars(t)
    ensures r < |KeyStr|
  {
    if i < |t| then IndexOf(t[i]) else 0
  }

  /** The one to three units one round of `Base64.decode` appends for the
      digits enc1..enc4; a digit 64 ('=') suppresses a unit. */
  function Units(enc1: nat, enc2: nat, enc3: nat, enc4: nat): JsString
  {
    var chr1 := BitOr(enc1 * 4, enc2 / 16);
    var chr2 := BitOr((enc2 % 16) * 16, enc3 / 4);
    var chr3 := BitOr((enc3 % 4) * 64, enc4);
    [FromCharCode(chr1)]
      + (if enc3 != 64 then [FromCharCode(chr2)] else [])
      + (if enc4 != 64 then [FromCharCode(chr3)] else [])
  }

  /** The units decoded from the (up to) four characters at the head of `t`. */
  function Triple(t: JsString): JsString
    requires AllKeyChars(t)
  {
    Units(EncAt(t, 0), EncAt(t, 1), EncAt(t, 2), EncAt(t, 3))
  }

  /** The decoding loop of `Base64.decode`, over filtered input. */
  function DecodedChars(t: JsString): JsString
    requires AllKeyChars(t)
    decreases |t|
  {
    if t == [] then [] else Triple(t) + DecodedChars(Drop(t, 4))
  }

  /** `Base64.decode(input)`. */
  function Decoded(input: JsString): JsString
  {
    Utf8.Decoded(DecodedChars(StripNonAlphabet(input)))
  }

  // Arithmetic of one group: three units c1 c2 c3 below 256 become four
  // six-bit digits e1 e2 e3 e4, and back.

  lemma SecondDigit(c1: nat, c2: nat)
    requires c2 < 256
    ensures BitOr((c1 % 4) * 16, c2 / 16) == (c1 % 4) * 16 + c2 / 16 < 64
  {
    OrShifted(c1 % 4, 16, c2 / 16);
  }

  lemma ThirdDigit(c2: nat, c3: nat)
    requires c3 < 256
    ensures BitOr((c2 % 16) * 4, c3 / 64) == (c2 % 16) * 4 + c3 / 64 < 64
  {
    OrShifted(c2 % 16, 4, c3 / 64);
  }

  lemma FirstUnitBack(c1: nat, c2: nat)
    requires c1 < 256 && c2 < 256
    ensures BitOr((c1 / 4) * 4, ((c1 % 4) * 16 + c2 / 16) / 16) == c1
  {
    assert ((c1 % 4) * 16 + c2 / 16) / 16 == c1 % 4;
    OrShifted(c1 / 4, 4, c1 % 4);
  }

  lemma SecondUnitBack(c1: nat, c2: nat, c3: nat)
    requires c2 < 256 && c3 < 256
    ensures BitOr((((c1 % 4) * 16 + c2 / 16) % 16) * 16, ((c2 % 16) * 4 + c3 / 64) / 4) == c2
  {
    assert ((c1 % 4) * 16 + c2 / 16) % 16 == c2 / 16;
    assert ((c2 % 16) * 4 + c3 / 64) / 4 == c2 % 16;
    OrShifted(c2 / 16, 16, c2 % 16);
  }

  lemma ThirdUnitBack(c2: nat, c3: nat)
    requires c3 < 256
    ensures BitOr((((c2 % 16) * 4 + c3 / 64) % 4) * 64, c3 % 64) == c3
  {
    assert ((c2 % 16) * 4 + c3 / 64) % 4 == c3 / 64;
    OrShifted(c3 / 64, 64, c3 % 64);
  }

  lemma KeyCharIsPad(e: nat)
    requires e < |KeyStr|
    ensures KeyStr[e] == Pad <==> e == 64
  {
    IndexOfKeyStr(e);
  }

  /** The digits `Quad` writes for UTF-8 text: all inside the alphabet. */
  lemma QuadDigits(b: JsString)
    requires b != [] && IsByteString(b)
    ensures var c1, c2, c3 := b[0], CodeAtOrZero(b, 1), CodeAtOrZero(b, 2);
      Quad(b) == [KeyStr[c1 / 4], KeyStr[(c1 % 4) * 16 + c2 / 16],
                  KeyStr[if |b| < 2 then 64 else (c2 % 16) * 4 + c3 / 64],
                  KeyStr[if |b| < 3 then 64 else c3 % 64]]
  {
    var c1, c2, c3 := b[0], CodeAtOrZero(b, 1), CodeAtOrZero(b, 2);
    SecondDigit(c1, c2);
    ThirdDigit(c2, c3);
  }

  /** Each group is four characters of the alphabet; the first two are never
      '=', the third is '=' exactly when the group had one unit, the fourth
      exactly when it had fewer than three. */
  lemma QuadShape(b: JsString)
    requires b != [] && IsByteString(b)
    ensures |Quad(b)| == 4 && AllKeyChars(Quad(b))
    ensures Quad(b)[0] != Pad && Quad(b)[1] != Pad
    ensures Quad(b)[2] == Pad <==> |b| < 2
    ensures Quad(b)[3] == Pad <==> |b| < 3
  {
    QuadDigits(b);
    var c1, c2, c3 := b[0], CodeAtOrZero(b, 1), CodeAtOrZero(b, 2);
    var e1, e2 := c1 / 4, (c1 % 4) * 16 + c2 / 16;
    var e3 := if |b| < 2 then 64 else (c2 % 16) * 4 + c3 / 64;
    var e4 := if |b| < 3 then 64 else c3 % 64;
    KeyCharIsPad(e1);
    KeyCharIsPad(e2);
    KeyCharIsPad(e3);
    KeyCharIsPad(e4);
    IndexOfKeyStr(e1);
    IndexOfKeyStr(e2);
    IndexOfKeyStr(e3);
    IndexOfKeyStr(e4);
  }

  /** Decoding four digits made from the units c1 c2 c3, of which the
      first n are real, gives back those n units. */
  lemma TripleOfDigits(t: JsString, c1: nat, c2: nat, c3: nat, n: nat)
    requires AllKeyChars(t) && 1 <= n <= 3
    requires c1 < 256 && c2 < 256 && c3 < 256
    requires EncAt(t, 0) == c1 / 4 && EncAt(t, 1) == (c1 % 4) * 16 + c2 / 16
    requires EncAt(t, 2) == if n < 2 then 64 else (c2 % 16) * 4 + c3 / 64
    requires EncAt(t, 3) == if n < 3 then 64 else c3 % 64
    ensures Triple(t) == [c1, c2, c3][..n]
  {
    assert c3 / 64 < 4 && c3 % 64 < 64;
    FirstUnitBack(c1, c2);
    FromCharCodeKeeps(c1);
    if n >= 2 {
      SecondUnitBack(c1, c2, c3);
      FromCharCodeKeeps(c2);
    }
    if n >= 3 {
      ThirdUnitBack(c2, c3);
      FromCharCodeKeeps(c3);
    }
  }

  /** Reading a group back with `indexOf` recovers its digits. */
  lemma QuadIndices(b: JsString, rest: JsString)
    requires b != [] && IsByteString(b) && AllKeyChars(rest)
    ensures AllKeyChars(Quad(b) + rest)
    ensures var t, c1, c2, c3 := Quad(b) + rest, b[0], CodeAtOrZero(b, 1), CodeAtOrZero(b, 2);
      EncAt(t, 0) == c1 / 4 && EncAt(t, 1) == (c1 % 4) * 16 + c2 / 16 &&
      EncAt(t, 2) == (if |b| < 2 then 64 else (c2 % 16) * 4 + c3 / 64) &&
      EncAt(t, 3) == (if |b| < 3 then 64 else c3 % 64)
  {
    QuadShape(b);
    QuadDigits(b);
    var c1, c2, c3 := b[0], CodeAtOrZero(b, 1), CodeAtOrZero(b, 2);
    IndexOfKeyStr(c1 / 4);
    IndexOfKeyStr((c1 % 4) * 16 + c2 / 16);
    IndexOfKeyStr(if |b| < 2 then 64 else (c2 % 16) * 4 + c3 / 64);
    IndexOfKeyStr(if |b| < 3 then 64 else c3 % 64);
  }

  /** Decoding a group gives back the (up to) three units it was made from. */
  lemma TripleOfQuad(b: JsString, rest: JsString)
    requires b != [] && IsByteString(b) && AllKeyChars(rest)
    ensures AllKeyChars(Quad(b) + rest)
    ensures Triple(Quad(b) + rest) == b[..if |b| < 3 then |b| else 3]
  {
    QuadIndices(b, rest);
    var n := if |b| < 3 then |b| else 3;
    TripleOfDigits(Quad(b) + rest, b[0], CodeAtOrZero(b, 1), CodeAtOrZero(b, 2), n);
    assert [b[0], CodeAtOrZero(b, 1), CodeAtOrZero(b, 2)][..n] == b[..n];
  }

  /** The decoding loop undoes the encoding loop on UTF-8 text. */
  lemma {:induction false} DecodeEncodedBytes(b: JsString)
    requires IsByteString(b)
    ensures AllKeyChars(EncodedBytes(b))
    ensures DecodedChars(EncodedBytes(b)) == b
    decreases |b|
  {
    if b != [] {
      var rest := Drop(b, 3);
      DecodeEncodedBytes(rest);
      TripleOfQuad(b, EncodedBytes(rest));
      QuadShape(b);
      assert Drop(Quad(b) + EncodedBytes(rest), 4) == EncodedBytes(rest);
      assert b == b[..if |b| < 3 then |b| else 3] + rest;
    }
  }

  /** `Base64.decode(Base64.encode(s)) == s` for every string without a
      CR LF pair. */
  lemma RoundTrip(s: JsString)
    requires !ContainsCrlf(s)
    ensures Decoded(Encoded(s)) == s
  {
    var b := Utf8.Encoded(s);
    DecodeEncodedBytes(b);
    assert StripNonAlphabet(EncodedBytes(b)) == EncodedBytes(b);
    Utf8.RoundTrip(s);
  }

  /** Four characters for every started group of three UTF-8 units. */
  lemma {:induction false} EncodedBytesLength(b: JsString)
    requires IsByteString(b)
    ensures |EncodedBytes(b)| == 4 * ((|b| + 2) / 3)
    decreases |b|
  {
    if b != [] {
      var rest := Drop(b, 3);
      assert |Quad(b)| == 4 by {
        QuadShape(b);
      }
      EncodedBytesLength(rest);
      assert |EncodedBytes(b)| == 4 + |EncodedBytes(rest)|;
      GroupCount(|b|);
    }
  }

  lemma GroupCount(n: nat)
    requires n > 0
    ensures 4 * ((n + 2) / 3) == 4 + 4 * (((if n <= 3 then 0 else n - 3) + 2) / 3)
  {
  }

  /** '=' occurs in `r` only as the padding for `n` units of text: in the
      last place when n is not a multiple of three, and also in the last
      but one when n % 3 == 1. */
  ghost predicate PaddedFor(r: JsString, n: nat)
  {
    forall k :: 0 <= k < |r| ==>
      (r[k] == Pad <==> (k == |r| - 1 && n % 3 != 0) || (k == |r| - 2 && n % 3 == 1))
  }

  lemma LastGroupPadding(b: JsString)
    requires b != [] && |b| <= 3 && IsByteString(b)
    ensures PaddedFor(EncodedBytes(b), |b|)
  {
    SingleGroup(b);
    QuadShape(b);
    PaddedGroup(Quad(b), |b|);
  }

  /** Up to three units encode as one group. */
  lemma SingleGroup(b: JsString)
    requires b != [] && |b| <= 3
    ensures EncodedBytes(b) == Quad(b)
  {
    assert Drop(b, 3) == [];
    assert EncodedBytes(b) == Quad(b) + EncodedBytes([]);
  }

  lemma PaddedGroup(r: JsString, n: nat)
    requires |r| == 4 && 1 <= n <= 3
    requires r[0] != Pad && r[1] != Pad
    requires r[2] == Pad <==> n < 2
    requires r[3] == Pad <==> n < 3
    ensures PaddedFor(r, n)
  {
  }

  lemma InnerGroupPadding(b: JsString, r': JsString)
    requires |b| > 3 && IsByteString(b)
    requires |r'| >= 4 && PaddedFor(r', |b| - 3)
    ensures PaddedFor(Quad(b) + r', |b|)
  {
    QuadShape(b);
    var r := Quad(b) + r';
    forall k | 0 <= k < |r|
      ensures r[k] == Pad <==> (k == |r| - 1 && |b| % 3 != 0) || (k == |r| - 2 && |b| % 3 == 1)
    {
      if k >= 4 {
        assert r[k] == r'[k - 4];
      }
    }
  }

  /** '=' appears in the encoding of UTF-8 text only as trailing padding. */
  lemma {:induction false} EncodedBytesPadding(b: JsString)
    requires IsByteString(b)
    ensures PaddedFor(EncodedBytes(b), |b|)
    decreases |b|
  {
    if |b| > 3 {
      var rest := Drop(b, 3);
      EncodedBytesPadding(rest);
      EncodedBytesLength(rest);
      InnerGroupPadding(b, EncodedBytes(rest));
    } else if b != [] {
      LastGroupPadding(b);
    }
  }

  /** The output of `Base64.encode`: 4 * ceil(m / 3) characters of the
      alphabet, m being the length of the UTF-8 text, with '=' only as
      trailing padding. */
  lemma EncodedShape(s: JsString)
    ensures var m, r := |Utf8.Encoded(s)|, Encoded(s);
      |r| == 4 * ((m + 2) / 3) && AllKeyChars(r) && PaddedFor(r, m)
  {
    EncodedBytesLength(Utf8.Encoded(s));
    EncodedBytesPadding(Utf8.Encoded(s));
    DecodeEncodedBytes(Utf8.Encoded(s));
  }

  lemma {:induction false} StripAppend(a: JsString, b: JsString)
    ensures StripNonAlphabet(a + b) == StripNonAlphabet(a) + StripNonAlphabet(b)
    decreases |a|
  {
    if a == [] {
      assert a + b == b;
    } else {
      assert (a + b)[0] == a[0];
      assert (a + b)[1..] == a[1..] + b;
      StripAppend(a[1..], b);
    }
  }

  /** `Base64.decode` first drops every character outside the alphabet, so
      inserting such characters anywhere changes nothing. */
  lemma DecodeIgnoresNonAlphabet(x: JsString, junk: JsString, y: JsString)
    requires forall i :: 0 <= i < |junk| ==> !IsKeyChar(junk[i])
    ensures Decoded(x + junk + y) == Decoded(x + y)
  {
    StripAppend(x + junk, y);
    StripAppend(x, junk);
    StripAppend(x, y);
    JunkStripped(junk);
    assert StripNonAlphabet(x + junk) == StripNonAlphabet(x);
    assert StripNonAlphabet(x + junk + y) == StripNonAlphabet(x + y);
  }

  lemma {:induction false} JunkStripped(junk: JsString)
    requires forall i :: 0 <= i < |junk| ==> !IsKeyChar(junk[i])
    ensures StripNonAlphabet(junk) == []
    decreases |junk|
  {
    if junk != [] {
      JunkStripped(junk[1..]);
    }
  }

  /** `Base64.encode`: the UTF-8 text is read three units at a time
      (`charCodeAt(i++)`, NaN past the end) and four characters are
      appended per round. */
  method Encode(input: JsString) returns (output: JsString)
    ensures output == Encoded(input)
  {
    output := [];
    var text := Utf8.Encode(input);
    var i := 0;
    while i < |text|
      invariant output + EncodedBytes(Drop(text, i)) == EncodedBytes(text)
      decreases |text| - i
    {
      ghost var before := output;
      var chr1 := text[i];
      i := i + 1;
      var chr2 := CodeAtOrZero(text, i);
      var nan2 := i >= |text|;
      i := i + 1;
      var chr3 := CodeAtOrZero(text, i);
      var nan3 := i >= |text|;
      i := i + 1;

      var enc1 := chr1 / 4;
      var enc2 := BitOr((chr1 % 4) * 16, chr2 / 16);
      var enc3 := BitOr((chr2 % 16) * 4, chr3 / 64);
      var enc4 := chr3 % 64;

      if nan2 {
        enc3, enc4 := 64, 64;
      } else if nan3 {
        enc4 := 64;
      }
      AppendFour(before, CharAt(enc1), CharAt(enc2), CharAt(enc3), CharAt(enc4));
      GroupDigits(chr1, chr2, chr3, nan2, nan3, enc1, enc2, enc3, enc4);

      output := output + CharAt(enc1) + CharAt(enc2) + CharAt(enc3) + CharAt(enc4);
      EncodeStep(text, i - 3, before, output, chr1, chr2, chr3, nan2, nan3);
    }
  }

  /** The digits the encoding loop computes, padding branches included, are
      those of `Group`. */
  lemma GroupDigits(chr1: nat, chr2: nat, chr3: nat, nan2: bool, nan3: bool, enc1: nat, enc2: nat, enc3: nat, enc4: nat)
    requires enc1 == chr1 / 4 && enc2 == BitOr((chr1 % 4) * 16, chr2 / 16)
    requires nan2 ==> enc3 == 64 && enc4 == 64
    requires !nan2 ==> enc3 == BitOr((chr2 % 16) * 4, chr3 / 64)
    requires !nan2 && nan3 ==> enc4 == 64
    requires !nan2 && !nan3 ==> enc4 == chr3 % 64
    ensures Group(chr1, chr2, chr3, nan2, nan3) == CharAt(enc1) + CharAt(enc2) + CharAt(enc3) + CharAt(enc4)
  {
  }

  /** One round of the `Base64.encode` loop appends the group of the three
      units read at `i`, which keeps the loop invariant. */
  lemma EncodeStep(text: JsString, i: nat, before: JsString, output: JsString,
                   chr1: nat, chr2: nat, chr3: nat, nan2: bool, nan3: bool)
    requires i < |text|
    requires before + EncodedBytes(Drop(text, i)) == EncodedBytes(text)
    requires chr1 == text[i] && chr2 == CodeAtOrZero(text, i + 1) && chr3 == CodeAtOrZero(text, i + 2)
    requires nan2 == (i + 1 >= |text|) && nan3 == (i + 2 >= |text|)
    requires output == before + Group(chr1, chr2, chr3, nan2, nan3)
    ensures output + EncodedBytes(Drop(text, i + 3)) == EncodedBytes(text)
  {
    var rest := Drop(text, i);
    assert Group(chr1, chr2, chr3, nan2, nan3) == Quad(rest) by {
      assert chr1 == rest[0] && chr2 == CodeAtOrZero(rest, 1) && chr3 == CodeAtOrZero(rest, 2);
      assert nan2 <==> |rest| < 2;
      assert nan3 <==> |rest| < 3;
    }
    assert Drop(rest, 3) == Drop(text, i + 3);
    ConcatAssoc(before, Quad(rest), EncodedBytes(Drop(text, i + 3)));
  }

  lemma AppendUnits(before: JsString, raw: JsString, enc1: nat, enc2: nat, enc3: nat, enc4: nat)
    requires var chr1, chr2, chr3 := BitOr(enc1 * 4, enc2 / 16), BitOr((enc2 % 16) * 16, enc3 / 4), BitOr((enc3 % 4) * 64, enc4);
      var after1 := before + [FromCharCode(chr1)];
      var after2 := if enc3 != 64 then after1 + [FromCharCode(chr2)] else after1;
      raw == if enc4 != 64 then after2 + [FromCharCode(chr3)] else after2
    ensures raw == before + Units(enc1, enc2, enc3, enc4)
  {
  }

  /** One round of the `Base64.decode` loop appends the units of the four
      digits read at `i`, which keeps the loop invariant. */
  lemma DecodeStep(t: JsString, i: nat, before: JsString, raw: JsString, enc1: nat, enc2: nat, enc3: nat, enc4: nat)
    requires AllKeyChars(t) && i < |t|
    requires before + DecodedChars(Drop(t, i)) == DecodedChars(t)
    requires enc1 == EncAt(t, i) && enc2 == EncAt(t, i + 1) && enc3 == EncAt(t, i + 2) && enc4 == EncAt(t, i + 3)
    requires raw == before + Units(enc1, enc2, enc3, enc4)
    ensures raw + DecodedChars(Drop(t, i + 4)) == DecodedChars(t)
  {
    var rest := Drop(t, i);
    assert Units(enc1, enc2, enc3, enc4) == Triple(rest) by {
      assert EncAt(rest, 0) == enc1 && EncAt(rest, 1) == enc2 && EncAt(rest, 2) == enc3 && EncAt(rest, 3) == enc4;
    }
    assert Drop(rest, 4) == Drop(t, i + 4);
    ConcatAssoc(before, Triple(rest), DecodedChars(Drop(t, i + 4)));
  }

  /** `Base64.decode`: after filtering, four characters are read per round
      (`indexOf(charAt(i++))`) and one to three units appended; the result
      goes through `_utf8_decode`. */
  method Decode(input: JsString) returns (output: JsString)
    ensures output == Decoded(input)
  {
    var raw: JsString := [];
    var t := StripNonAlphabet(input);
    var i := 0;
    while i < |t|
      invariant raw + DecodedChars(Drop(t, i)) == DecodedChars(t)
      decreases |t| - i
    {
      ghost var before := raw;
      var enc1 := EncAt(t, i);
      i := i + 1;
      var enc2 := EncAt(t, i);
      i := i + 1;
      var enc3 := EncAt(t, i);
      i := i + 1;
      var enc4 := EncAt(t, i);
      i := i + 1;

      var chr1 := BitOr(enc1 * 4, enc2 / 16);
      var chr2 := BitOr((enc2 % 16) * 16, enc3 / 4);
      var chr3 := BitOr((enc3 % 4) * 64, enc4);

      raw := raw + [FromCharCode(chr1)];
      if enc3 != 64 {
        raw := raw + [FromCharCode(chr2)];
      }
      if enc4 != 64 {
        raw := raw + [FromCharCode(chr3)];
      }
      AppendUnits(before, raw, enc1, enc2, enc3, enc4);

      DecodeStep(t, i - 4, before, raw, enc1, enc2, enc3, enc4);
    }
    assert Drop(t, i) == [];
    assert raw == DecodedChars(t);
    output := Utf8.Decode(raw);
  }
}
