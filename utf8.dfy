/** `Base64._utf8_encode` and `Base64._utf8_decode` of lib/errplane.js.
    A JavaScript string is modelled as its sequence of UTF-16 code units,
    so `charCodeAt` is indexing and `String.fromCharCode` keeps the low 16
    bits of its argument.  The encoder turns each code unit on its own into
    one, two or three units below 256 (it knows nothing of surrogate pairs);
    the decoder reverses that. */
module Utf8 {
  import opened Bits
  import opened Seqs

  type CodeUnit = c: int | 0 <= c < 0x10000
  type JsString = seq<CodeUnit>

  const CR: CodeUnit := 13
  const LF: CodeUnit := 10

  /** `String.fromCharCode(x)`: ToUint16 of its argument. */
  function FromCharCode(x: nat): CodeUnit
  {
    x % 0x10000
  }

  /** `s.charCodeAt(i)` as an operand of a bit operation: past the end it is
      NaN, which every bit operation reads as 0. */
  function CodeAtOrZero(s: JsString, i: nat): CodeUnit
  {
    if i < |s| then s[i] else 0
  }

  /** What is left of `s` after the first `k` units, empty once `k` passes the end. */
  function Drop(s: JsString, k: nat): (r: JsString)
    ensures k <= |s| ==> r == s[k..]
    ensures k >= |s| ==> r == []
  {
    if k <= |s| then s[k..] else []
  }

  /** Every unit fits in a byte. */
  predicate IsByteString(s: JsString)
  {
    forall i :: 0 <= i < |s| ==> s[i] < 256
  }

  predicate ContainsCrlf(s: JsString)
  {
    exists i :: 0 <= i < |s| - 1 && s[i] == CR && s[i + 1] == LF
  }

  /** `string.replace(/\r\n/g, "\n")`: every CR LF pair, scanning from the
      left, becomes a single LF. */
  function CrlfToLf(s: JsString): (r: JsString)
    ensures |r| <= |s|
    ensures !ContainsCrlf(s) ==> r == s
  {
    if |s| >= 2 && s[0] == CR && s[1] == LF then
      [LF] + CrlfToLf(s[2..])
    else if s == [] then
      []
    else
      assert !ContainsCrlf(s) ==> !ContainsCrlf(s[1..]) by {
        if ContainsCrlf(s[1..]) {
          var i :| 0 <= i < |s[1..]| - 1 && s[1..][i] == CR && s[1..][i + 1] == LF;
          assert s[i + 1] == CR && s[i + 2] == LF;
        }
      }
      [s[0]] + CrlfToLf(s[1..])
  }

  /** The number of units `_utf8_encode` writes for the code unit `c`. */
  function Width(c: CodeUnit): nat
  {
    if c < 128 then 1 else if c < 2048 then 2 else 3
  }

  /** The units `_utf8_encode` appends for one code unit. */
  function EncodeUnit(c: CodeUnit): (r: JsString)
    ensures |r| == Width(c)
    ensures IsByteString(r)
  {
    if c < 128 then
      [FromCharCode(c)]
    else if c > 127 && c < 2048 then
      LeadUnit(c / 64, 192);
      ContinuationUnit(c);
      [FromCharCode(BitOr(c / 64, 192)), FromCharCode(BitOr(c % 64, 128))]
    else
      LeadUnit(c / 4096, 224);
      ContinuationUnit(c / 64);
      ContinuationUnit(c);
      [FromCharCode(BitOr(c / 4096, 224)), FromCharCode(BitOr((c / 64) % 64, 128)), FromCharCode(BitOr(c % 64, 128))]
  }

  /** The encoding loop of `_utf8_encode`, applied to the whole string. */
  function EncodedUnits(s: JsString): (r: JsString)
    ensures IsByteString(r)
    ensures |s| <= |r| <= 3 * |s|
  {
    if s == [] then [] else EncodeUnit(s[0]) + EncodedUnits(s[1..])
  }

  /** `_utf8_encode(s)`: CR LF pairs are first folded into LF. */
  function Encoded(s: JsString): JsString
  {
    EncodedUnits(CrlfToLf(s))
  }

  /** `_utf8_decode(t)`.  A lead unit below 128 stands for itself; one in
      192..223 opens a two-unit sequence; every other unit (128..191 and
      224 upwards alike) opens a three-unit sequence.  Continuation units
      missing at the end read as 0. */
  function Decoded(t: JsString): (r: JsString)
    ensures |r| <= |t|
    decreases |t|
  {
    if t == [] then
      []
    else
      var c := t[0];
      if c < 128 then
        [FromCharCode(c)] + Decoded(t[1..])
      else if c > 191 && c < 224 then
        var c2 := CodeAtOrZero(t, 1);
        [FromCharCode(BitOr((c % 32) * 64, c2 % 64))] + Decoded(Drop(t, 2))
      else
        var c2 := CodeAtOrZero(t, 1);
        var c3 := CodeAtOrZero(t, 2);
        [FromCharCode(BitOr(BitOr((c % 16) * 4096, (c2 % 64) * 64), c3 % 64))] + Decoded(Drop(t, 3))
  }

  /** `_utf8_encode`: index loop over the string, appending to `utftext`. */
  method Encode(input: JsString) returns (utftext: JsString)
    ensures utftext == Encoded(input)
  {
    var s := CrlfToLf(input);
    utftext := [];
    for n := 0 to |s|
      invariant utftext + EncodedUnits(s[n..]) == EncodedUnits(s)
    {
      ghost var before := utftext;
      var c := s[n];
      if c < 128 {
        utftext := utftext + [FromCharCode(c)];
      } else if c > 127 && c < 2048 {
        ghost var u1, u2 := FromCharCode(BitOr(c / 64, 192)), FromCharCode(BitOr(c % 64, 128));
        utftext := utftext + [FromCharCode(BitOr(c / 64, 192))];
        utftext := utftext + [FromCharCode(BitOr(c % 64, 128))];
        assert utftext == before + [u1, u2];
      } else {
        ghost var u1, u2, u3 := FromCharCode(BitOr(c / 4096, 224)), FromCharCode(BitOr((c / 64) % 64, 128)), FromCharCode(BitOr(c % 64, 128));
        utftext := utftext + [FromCharCode(BitOr(c / 4096, 224))];
        utftext := utftext + [FromCharCode(BitOr((c / 64) % 64, 128))];
        utftext := utftext + [FromCharCode(BitOr(c % 64, 128))];
        assert utftext == before + [u1, u2, u3];
      }
      EncodeStep(s, n, before, utftext);
    }
    assert s[|s|..] == [];
  }

  /** One round of the `_utf8_encode` loop appends the units of `s[n]`,
      which keeps the loop invariant. */
  lemma EncodeStep(s: JsString, n: nat, before: JsString, utftext: JsString)
    requires n < |s|
    requires before + EncodedUnits(s[n..]) == EncodedUnits(s)
    requires utftext == before + EncodeUnit(s[n])
    ensures utftext + EncodedUnits(s[n + 1..]) == EncodedUnits(s)
  {
    assert s[n..][1..] == s[n + 1..];
    assert EncodedUnits(s[n..]) == EncodeUnit(s[n]) + EncodedUnits(s[n + 1..]);
    ConcatAssoc(before, EncodeUnit(s[n]), EncodedUnits(s[n + 1..]));
  }

  /** `_utf8_decode`: a loop whose index advances by 1, 2 or 3. */
  method Decode(utftext: JsString) returns (text: JsString)
    ensures text == Decoded(utftext)
  {
    text := [];
    var i := 0;
    while i < |utftext|
      invariant text + Decoded(Drop(utftext, i)) == Decoded(utftext)
      decreases |utftext| - i
    {
      ghost var before, rest, start := text, utftext[i..], i;
      var c := utftext[i];
      if c < 128 {
        text := text + [FromCharCode(c)];
        i := i + 1;
      } else if c > 191 && c < 224 {
        var c2 := CodeAtOrZero(utftext, i + 1);
        assert c2 == CodeAtOrZero(rest, 1);
        text := text + [FromCharCode(BitOr((c % 32) * 64, c2 % 64))];
        i := i + 2;
      } else {
        var c2 := CodeAtOrZero(utftext, i + 1);
        var c3 := CodeAtOrZero(utftext, i + 2);
        assert c2 == CodeAtOrZero(rest, 1) && c3 == CodeAtOrZero(rest, 2);
        text := text + [FromCharCode(BitOr(BitOr((c % 16) * 4096, (c2 % 64) * 64), c3 % 64))];
        i := i + 3;
      }
      ghost var unit := text[|before|];
      assert text == before + [unit];
      assert Drop(rest, i - start) == Drop(utftext, i);
      assert Decoded(rest) == [unit] + Decoded(Drop(utftext, i));
      ConcatAssoc(before, [unit], Decoded(Drop(utftext, i)));
    }
  }

  lemma FromCharCodeKeeps(x: nat)
    requires x < 0x10000
    ensures FromCharCode(x) == x
  {
  }

  /** The continuation unit `(x & 63) | 128` is 128 plus the six bits. */
  lemma ContinuationUnit(x: nat)
    ensures FromCharCode(BitOr(x % 64, 128)) == 128 + x % 64
  {
    BitOrCommutes(x % 64, 128);
    OrShifted(2, 64, x % 64);
    FromCharCodeKeeps(128 + x % 64);
  }

  /** The lead unit `x | tag` of a two- or three-unit sequence is `tag + x`. */
  lemma LeadUnit(x: nat, tag: nat)
    requires (tag == 192 && x < 32) || (tag == 224 && x < 16)
    ensures FromCharCode(BitOr(x, tag)) == tag + x
  {
    BitOrCommutes(x, tag);
    if tag == 192 {
      OrShifted(3, 64, x);
    } else {
      OrShifted(14, 16, x);
    }
    FromCharCodeKeeps(tag + x);
  }

  lemma EncodeTwoUnits(c: CodeUnit)
    requires 128 <= c < 2048
    ensures EncodeUnit(c) == [192 + c / 64, 128 + c % 64]
  {
    LeadUnit(c / 64, 192);
    ContinuationUnit(c);
  }

  lemma EncodeThreeUnits(c: CodeUnit)
    requires 2048 <= c
    ensures EncodeUnit(c) == [224 + c / 4096, 128 + (c / 64) % 64, 128 + c % 64]
  {
    LeadUnit(c / 4096, 224);
    ContinuationUnit(c / 64);
    ContinuationUnit(c);
  }

  lemma SixBitDigits(c: nat)
    ensures c == (c / 64) * 64 + c % 64
    ensures c == (c / 4096) * 4096 + ((c / 64) % 64) * 64 + c % 64
  {
    var q, lo := c / 64, c % 64;
    var h, mid := q / 64, q % 64;
    assert q == h * 64 + mid;
    assert c == h * 4096 + mid * 64 + lo;
  }

  lemma LowBits16(k: nat, x: nat)
    requires x < 16
    ensures (k * 16 + x) % 16 == x
  {
  }

  lemma LowBits64(k: nat, x: nat)
    requires x < 64
    ensures (k * 64 + x) % 64 == x
  {
  }

  /** How `_utf8_decode` reads a lead unit in 192..223. */
  lemma DecodedLeadTwo(t: JsString)
    requires t != [] && 191 < t[0] < 224
    ensures Decoded(t) == [FromCharCode(BitOr((t[0] % 32) * 64, CodeAtOrZero(t, 1) % 64))] + Decoded(Drop(t, 2))
  {
  }

  lemma LowBits32(k: nat, x: nat)
    requires x < 32
    ensures (k * 32 + x) % 32 == x
  {
  }

  lemma DecodeTwoUnits(c: CodeUnit, rest: JsString)
    requires 128 <= c < 2048
    ensures Decoded(EncodeUnit(c) + rest) == [c] + Decoded(rest)
  {
    EncodeTwoUnits(c);
    var t := EncodeUnit(c) + rest;
    var hi, lo := c / 64, c % 64;
    assert t[0] == 192 + hi && CodeAtOrZero(t, 1) == 128 + lo;
    DecodedLeadTwo(t);
    LowBits32(6, hi);
    LowBits64(2, lo);
    OrShifted(hi, 64, lo);
    SixBitDigits(c);
    FromCharCodeKeeps(c);
    assert Drop(t, 2) == rest;
  }

  /** How `_utf8_decode` reads a lead unit of 224 or more. */
  lemma DecodedLeadThree(t: JsString)
    requires t != [] && t[0] >= 224
    ensures Decoded(t) == [FromCharCode(BitOr(BitOr((t[0] % 16) * 4096, (CodeAtOrZero(t, 1) % 64) * 64), CodeAtOrZero(t, 2) % 64))]
      + Decoded(Drop(t, 3))
  {
  }

  lemma ThreeUnitValue(hi: nat, mid: nat, lo: nat)
    requires mid < 64 && lo < 64
    ensures BitOr(BitOr(hi * 4096, mid * 64), lo) == hi * 4096 + mid * 64 + lo
  {
    OrShifted(hi, 4096, mid * 64);
    assert hi * 4096 + mid * 64 == (hi * 64 + mid) * 64;
    OrShifted(hi * 64 + mid, 64, lo);
  }

  /** The arithmetic of decoding three encoded units. */
  lemma ThreeUnitsBack(c: CodeUnit)
    requires 2048 <= c
    ensures FromCharCode(BitOr(BitOr(((224 + c / 4096) % 16) * 4096, ((128 + (c / 64) % 64) % 64) * 64), (128 + c % 64) % 64)) == c
  {
    var hi, mid, lo := c / 4096, (c / 64) % 64, c % 64;
    LowBits16(14, hi);
    LowBits64(2, mid);
    LowBits64(2, lo);
    ThreeUnitValue(hi, mid, lo);
    SixBitDigits(c);
    FromCharCodeKeeps(c);
  }

  lemma DecodeThreeUnits(c: CodeUnit, rest: JsString)
    requires 2048 <= c
    ensures Decoded(EncodeUnit(c) + rest) == [c] + Decoded(rest)
  {
    EncodeThreeUnits(c);
    var t := EncodeUnit(c) + rest;
    assert t[0] == 224 + c / 4096 && CodeAtOrZero(t, 1) == 128 + (c / 64) % 64 && CodeAtOrZero(t, 2) == 128 + c % 64;
    DecodedLeadThree(t);
    ThreeUnitsBack(c);
    assert Drop(t, 3) == rest;
  }

  /** Decoding the units of one encoded code unit gives that code unit back
      and resumes right after them. */
  lemma DecodeEncodeUnit(c: CodeUnit, rest: JsString)
    ensures Decoded(EncodeUnit(c) + rest) == [c] + Decoded(rest)
  {
    if c < 128 {
      FromCharCodeKeeps(c);
      assert (EncodeUnit(c) + rest)[1..] == rest;
    } else if c < 2048 {
      DecodeTwoUnits(c, rest);
    } else {
      DecodeThreeUnits(c, rest);
    }
  }

  /** `_utf8_decode` undoes the unit-by-unit encoding loop. */
  lemma {:induction false} DecodeEncodedUnits(s: JsString)
    ensures Decoded(EncodedUnits(s)) == s
  {
    if s != [] {
      DecodeEncodeUnit(s[0], EncodedUnits(s[1..]));
      DecodeEncodedUnits(s[1..]);
    }
  }

  /** `_utf8_decode(_utf8_encode(s)) == s` for every string without a CR LF
      pair (those come back as a lone LF). */
  lemma RoundTrip(s: JsString)
    requires !ContainsCrlf(s)
    ensures Decoded(Encoded(s)) == s
  {
    DecodeEncodedUnits(s);
  }

  /** The CR LF folding is why the round trip needs its precondition. */
  lemma CrlfIsFolded()
    ensures Decoded(Encoded([CR, LF])) == [LF]
  {
    assert CrlfToLf([CR, LF]) == [LF] + CrlfToLf([]);
    DecodeEncodedUnits([LF]);
  }
}
