/** C strings: a text is its bytes, and reading at or past its end finds the terminating NUL. */
module CString {
  function At(s: string, p: nat): char {
    if p < |s| then s[p] else '\0'
  }

  /** `t` stands in `s` at position `p`. */
  predicate OccursAt(s: string, p: nat, t: string) {
    p + |t| <= |s| && s[p..p + |t|] == t
  }

  lemma OccursSplit(s: string, p: nat, a: string, b: string)
    ensures OccursAt(s, p, a + b) <==> OccursAt(s, p, a) && OccursAt(s, p + |a|, b)
  {
    if p + |a| + |b| <= |s| {
      assert s[p..p + |a + b|] == s[p..p + |a|] + s[p + |a|..p + |a| + |b|];
      assert (a + b)[..|a|] == a && (a + b)[|a|..] == b;
    }
  }

  lemma OccursChar(s: string, p: nat, t: string, k: nat)
    requires OccursAt(s, p, t) && k < |t|
    ensures p + k < |s| && s[p + k] == t[k] == At(s, p + k)
  {
    assert s[p..p + |t|][k] == t[k];
  }

  predicate IsSpace(c: char) {
    c == ' ' || '\t' <= c <= '\r'
  }

  /** SKIP_WHITESPACES. */
  function SkipSpaces(s: string, p: nat): (q: nat)
    ensures p <= q && (p <= |s| ==> q <= |s|)
    ensures !IsSpace(At(s, q))
    ensures forall k :: p <= k < q ==> IsSpace(At(s, k))
    decreases |s| - p
  {
    if p < |s| && IsSpace(s[p]) then SkipSpaces(s, p + 1) else p
  }
}

/** UTF-8 (section 3 of RFC 3629) and the `\u` escapes of UTF-16 units (section 2.2 of RFC 2781). A shift by
    k bits is written as a division by 2^k, a mask of the low k bits as a remainder, and `|` of disjoint bits
    as a sum. */
module Unicode {
  import opened Options
  import opened CString

  predicate IsScalar(cp: nat) {
    cp < 0xD800 || 0xDFFF < cp <= 0x10FFFF
  }

  /** `c` is the hexadecimal digit `d`, in either case. */
  predicate IsHexOf(c: char, d: nat) {
    d < 16 && (c == "0123456789abcdef"[d] || c == "0123456789ABCDEF"[d])
  }

  function Cont(x: nat): char {
    (0x80 + x % 0x40) as char
  }

  /** The bytes that parse_utf16 stores for a code point. */
  function Encode(cp: nat): (bytes: string)
    requires IsScalar(cp)
    ensures 1 <= |bytes| <= 4
  {
    if cp < 0x80 then [cp as char]
    else if cp < 0x800 then [(0xC0 + cp / 0x40 % 0x20) as char, Cont(cp)]
    else if cp < 0x10000 then [(0xE0 + cp / 0x1000 % 0x10) as char, Cont(cp / 0x40), Cont(cp)]
    else [(0xF0 + cp / 0x40000 % 8) as char, Cont(cp / 0x1000), Cont(cp / 0x40), Cont(cp)]
  }

  predicate IsCont(c: char) {
    0x80 <= c as int < 0xC0
  }

  /** num_bytes_in_utf8_sequence. */
  function SequenceLength(c: char): nat {
    var b := c as int;
    if b == 0xC0 || b == 0xC1 || b > 0xF4 || IsCont(c) then 0
    else if b < 0x80 then 1
    else if b < 0xE0 then 2
    else if b < 0xF0 then 3
    else 4
  }

  // The payload bits of a sequence of two, three and four bytes.

  function Bits2(b0: char, b1: char): nat {
    b0 as int % 0x20 * 0x40 + b1 as int % 0x40
  }

  function Bits3(b0: char, b1: char, b2: char): nat {
    (b0 as int % 0x10 * 0x40 + b1 as int % 0x40) * 0x40 + b2 as int % 0x40
  }

  function Bits4(b0: char, b1: char, b2: char, b3: char): nat {
    ((b0 as int % 8 * 0x40 + b1 as int % 0x40) * 0x40 + b2 as int % 0x40) * 0x40 + b3 as int % 0x40
  }

  datatype Decoded = Decoded(cp: nat, len: nat)

  /** verify_utf8_sequence, with the code point it computes. */
  function VerifySequence(s: string, p: nat): (r: Option<Decoded>)
    ensures r.Some? ==> 1 <= r.value.len <= 4 && IsScalar(r.value.cp)
  {
    var len := SequenceLength(At(s, p));
    var b0, b1, b2, b3 := At(s, p), At(s, p + 1), At(s, p + 2), At(s, p + 3);
    var cp: int :=
      if len == 1 then b0 as int
      else if len == 2 && IsCont(b1) then Bits2(b0, b1)
      else if len == 3 && IsCont(b1) && IsCont(b2) then Bits3(b0, b1, b2)
      else if len == 4 && IsCont(b1) && IsCont(b2) && IsCont(b3) then Bits4(b0, b1, b2, b3)
      else -1;
    if cp < 0 then None
    else if (cp < 0x80 && len > 1) || (cp < 0x800 && len > 2) || (cp < 0x10000 && len > 3) then None
    else if cp > 0x10FFFF then None
    else if 0xD800 <= cp <= 0xDFFF then None
    else Some(Decoded(cp, len))
  }

  lemma Bits2OfEncode(cp: nat)
    requires 0x80 <= cp < 0x800
    ensures Bits2(Encode(cp)[0], Encode(cp)[1]) == cp && SequenceLength(Encode(cp)[0]) == 2
    ensures |Encode(cp)| == 2 && IsCont(Encode(cp)[1])
  {
  }

  lemma Bits3OfEncode(cp: nat)
    requires 0x800 <= cp < 0x10000 && IsScalar(cp)
    ensures Bits3(Encode(cp)[0], Encode(cp)[1], Encode(cp)[2]) == cp && SequenceLength(Encode(cp)[0]) == 3
    ensures |Encode(cp)| == 3 && IsCont(Encode(cp)[1]) && IsCont(Encode(cp)[2])
  {
    hide Encode, Bits3, SequenceLength;
    var d2, d1, d0 := cp / 0x1000, cp / 0x40 % 0x40, cp % 0x40;
    assert cp == d2 * 0x1000 + d1 * 0x40 + d0;
    EncodeDigits3(d2, d1, d0);
    Bits3OfDigits(d2, d1, d0);
  }

  lemma Bits3OfDigits(x0: nat, x1: nat, x2: nat)
    requires x0 < 0x10 && x1 < 0x40 && x2 < 0x40
    ensures Bits3((0xE0 + x0) as char, (0x80 + x1) as char, (0x80 + x2) as char) == x0 * 0x1000 + x1 * 0x40 + x2
    ensures SequenceLength((0xE0 + x0) as char) == 3
  {
  }

  lemma Bits4OfEncode(cp: nat)
    requires 0x10000 <= cp && IsScalar(cp)
    ensures Bits4(Encode(cp)[0], Encode(cp)[1], Encode(cp)[2], Encode(cp)[3]) == cp
    ensures SequenceLength(Encode(cp)[0]) == 4
    ensures |Encode(cp)| == 4 && IsCont(Encode(cp)[1]) && IsCont(Encode(cp)[2]) && IsCont(Encode(cp)[3])
  {
    hide Encode, Bits4, SequenceLength;
    var d3, d2, d1, d0 := cp / 0x40000, cp / 0x1000 % 0x40, cp / 0x40 % 0x40, cp % 0x40;
    assert cp == d3 * 0x40000 + d2 * 0x1000 + d1 * 0x40 + d0;
    EncodeDigits4(d3, d2, d1, d0);
    Bits4OfDigits(d3, d2, d1, d0);
  }

  lemma Bits4OfDigits(x0: nat, x1: nat, x2: nat, x3: nat)
    requires x0 <= 4 && x1 < 0x40 && x2 < 0x40 && x3 < 0x40
    ensures Bits4((0xF0 + x0) as char, (0x80 + x1) as char, (0x80 + x2) as char, (0x80 + x3) as char) ==
            x0 * 0x40000 + x1 * 0x1000 + x2 * 0x40 + x3
    ensures SequenceLength((0xF0 + x0) as char) == 4
  {
  }

  /** Every encoding is accepted as one sequence and decodes to its code point. */
  lemma EncodeThenVerify(s: string, p: nat, cp: nat)
    requires IsScalar(cp) && OccursAt(s, p, Encode(cp))
    ensures VerifySequence(s, p) == Some(Decoded(cp, |Encode(cp)|))
  {
    var bytes := Encode(cp);
    forall k | 0 <= k < |bytes| ensures At(s, p + k) == bytes[k] {
      OccursChar(s, p, bytes, k);
    }
    if cp < 0x80 {
      assert bytes[0] as int == cp;
    } else if cp < 0x800 {
      Bits2OfEncode(cp);
    } else if cp < 0x10000 {
      Bits3OfEncode(cp);
    } else {
      Bits4OfEncode(cp);
    }
    hide Encode, SequenceLength, Bits2, Bits3, Bits4, IsCont;
    assert At(s, p + 0) == bytes[0];
  }

  lemma EncodeOfBits2(b0: char, b1: char)
    requires SequenceLength(b0) == 2 && IsCont(b1)
    ensures 0x80 <= Bits2(b0, b1) < 0x800 && Encode(Bits2(b0, b1)) == [b0, b1]
  {
    hide Encode;
    var x0, x1 := b0 as int - 0xC0, b1 as int - 0x80;
    assert Bits2(b0, b1) == x0 * 0x40 + x1;
    EncodeDigits2(x0, x1);
  }

  lemma EncodeDigits2(x0: nat, x1: nat)
    requires x0 < 0x20 && x1 < 0x40 && 0x80 <= x0 * 0x40 + x1
    ensures Encode(x0 * 0x40 + x1) == [(0xC0 + x0) as char, (0x80 + x1) as char]
  {
    var cp := x0 * 0x40 + x1;
    assert cp / 0x40 == x0 && cp % 0x40 == x1;
  }

  lemma EncodeOfBits3(b0: char, b1: char, b2: char)
    requires SequenceLength(b0) == 3 && IsCont(b1) && IsCont(b2)
    requires 0x800 <= Bits3(b0, b1, b2) && IsScalar(Bits3(b0, b1, b2))
    ensures Bits3(b0, b1, b2) < 0x10000 && Encode(Bits3(b0, b1, b2)) == [b0, b1, b2]
  {
    hide Encode;
    var x0, x1, x2 := b0 as int - 0xE0, b1 as int - 0x80, b2 as int - 0x80;
    assert Bits3(b0, b1, b2) == x0 * 0x1000 + x1 * 0x40 + x2;
    EncodeDigits3(x0, x1, x2);
  }

  lemma EncodeDigits3(x0: nat, x1: nat, x2: nat)
    requires x0 < 0x10 && x1 < 0x40 && x2 < 0x40
    requires 0x800 <= x0 * 0x1000 + x1 * 0x40 + x2 && IsScalar(x0 * 0x1000 + x1 * 0x40 + x2)
    ensures Encode(x0 * 0x1000 + x1 * 0x40 + x2) ==
            [(0xE0 + x0) as char, (0x80 + x1) as char, (0x80 + x2) as char]
  {
    Digits(0, x0, x1, x2);
  }

  lemma Digits(x0: nat, x1: nat, x2: nat, x3: nat)
    requires x0 < 8 && x1 < 0x40 && x2 < 0x40 && x3 < 0x40
    ensures var cp := x0 * 0x40000 + x1 * 0x1000 + x2 * 0x40 + x3;
            && cp % 0x40 == x3
            && cp / 0x40 == x0 * 0x1000 + x1 * 0x40 + x2 && cp / 0x40 % 0x40 == x2
            && cp / 0x1000 == x0 * 0x40 + x1 && cp / 0x1000 % 0x40 == x1
            && cp / 0x40000 % 8 == x0
  {
  }

  lemma EncodeOfBits4(b0: char, b1: char, b2: char, b3: char)
    requires SequenceLength(b0) == 4 && IsCont(b1) && IsCont(b2) && IsCont(b3)
    requires 0x10000 <= Bits4(b0, b1, b2, b3) && IsScalar(Bits4(b0, b1, b2, b3))
    ensures Encode(Bits4(b0, b1, b2, b3)) == [b0, b1, b2, b3]
  {
    var x0, x1, x2, x3 := b0 as int - 0xF0, b1 as int - 0x80, b2 as int - 0x80, b3 as int - 0x80;
    assert Bits4(b0, b1, b2, b3) == x0 * 0x40000 + x1 * 0x1000 + x2 * 0x40 + x3;
    EncodeDigits4(x0, x1, x2, x3);
    hide Bits4, Encode;
  }

  lemma EncodeDigits4(x0: nat, x1: nat, x2: nat, x3: nat)
    requires x0 < 8 && x1 < 0x40 && x2 < 0x40 && x3 < 0x40
    requires 0x10000 <= x0 * 0x40000 + x1 * 0x1000 + x2 * 0x40 + x3 <= 0x10FFFF
    ensures Encode(x0 * 0x40000 + x1 * 0x1000 + x2 * 0x40 + x3) ==
            [(0xF0 + x0) as char, (0x80 + x1) as char, (0x80 + x2) as char, (0x80 + x3) as char]
  {
    Digits(x0, x1, x2, x3);
  }

  /** Every accepted sequence is the encoding of the code point it decodes to: no overlong, truncated or
      surrogate form is let through. */
  lemma VerifyThenEncode(s: string, p: nat)
    requires VerifySequence(s, p).Some? && p < |s|
    ensures OccursAt(s, p, Encode(VerifySequence(s, p).value.cp))
    ensures |Encode(VerifySequence(s, p).value.cp)| == VerifySequence(s, p).value.len
  {
    var len := SequenceLength(At(s, p));
    var b0, b1, b2, b3 := At(s, p), At(s, p + 1), At(s, p + 2), At(s, p + 3);
    if len == 1 {
    } else if len == 2 {
      EncodeOfBits2(b0, b1);
    } else if len == 3 {
      EncodeOfBits3(b0, b1, b2);
    } else {
      EncodeOfBits4(b0, b1, b2, b3);
    }
    hide Encode, Bits2, Bits3, Bits4;
    assert p + len <= |s|;
  }

  /** The bytes of section 3 of RFC 3629: the range of the value gives their number and the marks at their starts, and
      the bits behind the marks, first byte first, are the value. */
  lemma EncodingIsUtf8(cp: nat)
    requires IsScalar(cp)
    ensures var t := Encode(cp);
            && (forall k :: 0 < k < |t| ==> 0x80 <= t[k] as int < 0xC0)
            && if cp < 0x80 then |t| == 1 && t[0] as int == cp
               else if cp < 0x800 then
                 && |t| == 2 && 0xC0 <= t[0] as int < 0xE0
                 && cp == 0x40 * (t[0] as int - 0xC0) + (t[1] as int - 0x80)
               else if cp < 0x10000 then
                 && |t| == 3 && 0xE0 <= t[0] as int < 0xF0
                 && cp == 0x1000 * (t[0] as int - 0xE0) + 0x40 * (t[1] as int - 0x80) + (t[2] as int - 0x80)
               else
                 && |t| == 4 && 0xF0 <= t[0] as int < 0xF8
                 && cp == 0x40000 * (t[0] as int - 0xF0) + 0x1000 * (t[1] as int - 0x80)
                          + 0x40 * (t[2] as int - 0x80) + (t[3] as int - 0x80)
  {
    hide Encode;
    if cp < 0x80 {
      AsciiIsItself(cp);
    } else if cp < 0x800 {
      EncodeDigits2(cp / 0x40, cp % 0x40);
    } else if cp < 0x10000 {
      assert cp == cp / 0x1000 * 0x1000 + cp / 0x40 % 0x40 * 0x40 + cp % 0x40;
      EncodeDigits3(cp / 0x1000, cp / 0x40 % 0x40, cp % 0x40);
    } else {
      assert cp == cp / 0x40000 * 0x40000 + cp / 0x1000 % 0x40 * 0x1000 + cp / 0x40 % 0x40 * 0x40 + cp % 0x40;
      EncodeDigits4(cp / 0x40000, cp / 0x1000 % 0x40, cp / 0x40 % 0x40, cp % 0x40);
    }
  }

  lemma AsciiIsItself(cp: nat)
    requires cp < 0x80
    ensures Encode(cp) == [cp as char]
  {
  }

  /** The text of a sequence of code points. */
  function EncodeAll(cps: seq<nat>): string
    requires forall i :: 0 <= i < |cps| ==> IsScalar(cps[i])
  {
    if cps == [] then "" else Encode(cps[0]) + EncodeAll(cps[1..])
  }

  /** is_valid_utf8 on the bytes from `p` on, for a text that ends at its terminating NUL. */
  function IsValidUtf8(s: string, p: nat): bool
    decreases |s| - p
  {
    p >= |s| || (VerifySequence(s, p).Some? && IsValidUtf8(s, p + VerifySequence(s, p).value.len))
  }

  ghost predicate IsEncoding(t: string, cps: seq<nat>) {
    (forall i :: 0 <= i < |cps| ==> IsScalar(cps[i])) && t == EncodeAll(cps)
  }

  lemma {:induction false} ValidImpliesEncoding(s: string, p: nat) returns (cps: seq<nat>)
    requires p <= |s| && IsValidUtf8(s, p)
    ensures IsEncoding(s[p..], cps)
    decreases |s| - p
  {
    hide Encode, VerifySequence;
    if p == |s| { return []; }
    VerifyThenEncode(s, p);
    var first := VerifySequence(s, p).value;
    var rest := ValidImpliesEncoding(s, p + first.len);
    cps := [first.cp] + rest;
    assert s[p..] == s[p..p + first.len] + s[p + first.len..];
  }

  lemma {:induction false} EncodingImpliesValid(s: string, p: nat, cps: seq<nat>)
    requires p <= |s| && IsEncoding(s[p..], cps)
    ensures IsValidUtf8(s, p)
    decreases |cps|
  {
    hide Encode, VerifySequence;
    if cps != [] {
      var first, rest := Encode(cps[0]), EncodeAll(cps[1..]);
      assert s[p..][..|first|] == first == s[p..p + |first|];
      EncodeThenVerify(s, p, cps[0]);
      assert s[p + |first|..] == s[p..][|first|..] == rest;
      EncodingImpliesValid(s, p + |first|, cps[1..]);
    }
  }

  /** Exactly the concatenations of encodings of scalar values are valid. */
  lemma ValidIffEncoding(s: string)
    ensures IsValidUtf8(s, 0) <==> exists cps :: IsEncoding(s, cps)
  {
    assert s[0..] == s;
    if IsValidUtf8(s, 0) {
      var cps := ValidImpliesEncoding(s, 0);
    }
    forall cps | IsEncoding(s, cps) ensures IsValidUtf8(s, 0) {
      EncodingImpliesValid(s, 0, cps);
    }
  }

  /** The loop of is_valid_utf8. */
  method CheckUtf8(s: string) returns (valid: bool)
    ensures valid == IsValidUtf8(s, 0)
  {
    var p: nat := 0;
    while p < |s|
      invariant IsValidUtf8(s, 0) == IsValidUtf8(s, p)
    {
      var r := VerifySequence(s, p);
      if r.None? { return false; }
      p := p + r.value.len;
    }
    valid := true;
  }
}
