/** Byte strings and the UTF-8 encoding form of RFC 3629, section 3 (with the byte ranges of its
    section 4), as far as cutting a string at character boundaries needs them. */
module Utf8 {
  newtype byte = b: int | 0 <= b < 256
  type Bytes = seq<byte>

  const SPACE: byte := 0x20
  /** U+2581, the SentencePiece space marker. */
  const MARK: Bytes := [0xE2, 0x96, 0x81]

  predicate EndsWith(s: Bytes, u: Bytes) {
    |u| <= |s| && s[|s| - |u|..] == u
  }

  predicate StartsWith(s: Bytes, u: Bytes) {
    |u| <= |s| && s[..|u|] == u
  }

  predicate OccursAt(s: Bytes, u: Bytes, p: int) {
    0 <= p <= |s| - |u| && s[p..p + |u|] == u
  }

  predicate Contains(s: Bytes, u: Bytes) {
    exists p :: 0 <= p <= |s| && OccursAt(s, u, p)
  }

  lemma OccursInPrefix(text: Bytes, u: Bytes, p: nat, s: int)
    requires p <= |text|
    ensures OccursAt(text[..p], u, s) <==> OccursAt(text, u, s) && s + |u| <= p
  {
    if 0 <= s && s + |u| <= p {
      assert text[..p][s..s + |u|] == text[s..s + |u|];
    }
  }

  lemma OccursInSuffix(text: Bytes, u: Bytes, p: nat, s: nat)
    requires p <= |text|
    ensures OccursAt(text[p..], u, s) <==> OccursAt(text, u, s + p)
  {
    if s + p + |u| <= |text| {
      assert text[p..][s..s + |u|] == text[s + p..s + p + |u|];
    }
  }

  /** 0x80..0xBF: the bytes that continue a character and never start one. */
  predicate IsCont(b: byte) {
    0x80 <= b < 0xC0
  }

  /** Length in bytes of the character `s` starts with; 0 when it starts with none. */
  function CharLen(s: Bytes): (n: nat)
    ensures n <= |s| && n <= 4
    ensures forall k :: 1 <= k < n ==> IsCont(s[k])
    ensures n > 0 ==> !IsCont(s[0])
    ensures n > 0 && s[0] == 0xE2 ==> n == 3
    ensures |s| > 0 && s[0] < 0x80 ==> n == 1
    ensures n > 0 && s[0] >= 0x80 ==> n > 1
  {
    if |s| >= 1 && s[0] < 0x80 then 1
    else if |s| >= 2 && 0xC2 <= s[0] < 0xE0 && IsCont(s[1]) then 2
    else if |s| >= 3 && 0xE0 <= s[0] < 0xF0 && IsCont(s[1]) && IsCont(s[2])
      && (s[0] == 0xE0 ==> s[1] >= 0xA0) && (s[0] == 0xED ==> s[1] < 0xA0) then 3
    else if |s| >= 4 && 0xF0 <= s[0] < 0xF5 && IsCont(s[1]) && IsCont(s[2]) && IsCont(s[3])
      && (s[0] == 0xF0 ==> s[1] >= 0x90) && (s[0] == 0xF4 ==> s[1] < 0x90) then 4
    else 0
  }

  // ---------------------------------------------------------------------------
  // Characters are the encoded scalar values
  // ---------------------------------------------------------------------------

  /** The Unicode scalar values: every code point but the surrogates. */
  predicate IsScalar(c: int) {
    0 <= c < 0x11_0000 && !(0xD800 <= c < 0xE000)
  }

  /** The octet sequence of a scalar value (RFC 3629, section 3). */
  function Encode(c: nat): (s: Bytes)
    requires IsScalar(c)
  {
    if c < 0x80 then [c as byte]
    else if c < 0x800 then [(0xC0 + c / 0x40) as byte, (0x80 + c % 0x40) as byte]
    else if c < 0x1_0000 then [(0xE0 + c / 0x1000) as byte, (0x80 + c / 0x40 % 0x40) as byte, (0x80 + c % 0x40) as byte]
    else [(0xF0 + c / 0x4_0000) as byte, (0x80 + c / 0x1000 % 0x40) as byte, (0x80 + c / 0x40 % 0x40) as byte, (0x80 + c % 0x40) as byte]
  }

  /** An encoded scalar value is one character, whatever follows. */
  lemma EncodeIsChar(c: nat, t: Bytes)
    requires IsScalar(c)
    ensures CharLen(Encode(c) + t) == |Encode(c)| > 0
  {
  }

  lemma EncodeTwo(x: nat, y: nat)
    requires 2 <= x < 0x20 && y < 0x40
    ensures var c := x * 0x40 + y; IsScalar(c) && Encode(c) == [(0xC0 + x) as byte, (0x80 + y) as byte]
  {
  }

  lemma EncodeThree(x: nat, y: nat, z: nat)
    requires x < 0x10 && y < 0x40 && z < 0x40 && (x == 0 ==> y >= 0x20) && (x == 0xD ==> y < 0x20)
    ensures var c := x * 0x1000 + y * 0x40 + z;
      IsScalar(c) && Encode(c) == [(0xE0 + x) as byte, (0x80 + y) as byte, (0x80 + z) as byte]
  {
    var c := x * 0x1000 + y * 0x40 + z;
    assert c / 0x1000 == x && c / 0x40 == x * 0x40 + y && c % 0x40 == z;
  }

  lemma EncodeFour(w: nat, x: nat, y: nat, z: nat)
    requires w < 5 && x < 0x40 && y < 0x40 && z < 0x40 && (w == 0 ==> x >= 0x10) && (w == 4 ==> x < 0x10)
    ensures var c := w * 0x4_0000 + x * 0x1000 + y * 0x40 + z;
      IsScalar(c) && Encode(c) == [(0xF0 + w) as byte, (0x80 + x) as byte, (0x80 + y) as byte, (0x80 + z) as byte]
  {
    hide CharLen;
    var c := w * 0x4_0000 + x * 0x1000 + y * 0x40 + z;
    assert 0x1_0000 <= c <= 0x10_FFFF;
    assert c / 0x4_0000 == w && c / 0x1000 == w * 0x40 + x && c / 0x40 == w * 0x1000 + x * 0x40 + y && c % 0x40 == z;
  }

  /** Every character is an encoded scalar value. */
  lemma CharIsEncoded(s: Bytes) returns (c: nat)
    requires CharLen(s) > 0
    ensures IsScalar(c) && Encode(c) == s[..CharLen(s)]
  {
    hide Encode, IsScalar;
    var n := CharLen(s);
    var bits := (k: nat) => if k < |s| && s[k] >= 0x80 then s[k] as nat - 0x80 else 0;
    if n == 1 {
      c := s[0] as nat;
      EncodeOne(c);
      assert s[..1] == [s[0]];
    } else if n == 2 {
      EncodeTwo(bits(0) - 0x40, bits(1));
      c := (bits(0) - 0x40) * 0x40 + bits(1);
      assert s[..2] == [s[0], s[1]];
    } else if n == 3 {
      EncodeThree(bits(0) - 0x60, bits(1), bits(2));
      c := (bits(0) - 0x60) * 0x1000 + bits(1) * 0x40 + bits(2);
      assert s[..3] == [s[0], s[1], s[2]];
    } else {
      EncodeFour(bits(0) - 0x70, bits(1), bits(2), bits(3));
      c := (bits(0) - 0x70) * 0x4_0000 + bits(1) * 0x1000 + bits(2) * 0x40 + bits(3);
      assert s[..4] == [s[0], s[1], s[2], s[3]];
    }
  }

  lemma EncodeOne(c: nat)
    requires c < 0x80
    ensures IsScalar(c) && Encode(c) == [c as byte]
  {
  }

  predicate Valid(s: Bytes)
    decreases |s|
  {
    s == [] || (CharLen(s) > 0 && Valid(s[CharLen(s)..]))
  }

  /** A position where a character of a valid string may start, or its end. */
  predicate Boundary(s: Bytes, p: int) {
    0 <= p <= |s| && (p < |s| ==> !IsCont(s[p]))
  }

  lemma CharLenPrefix(a: Bytes, b: Bytes)
    requires CharLen(a) > 0
    ensures CharLen(a + b) == CharLen(a)
  {
  }

  lemma CharLenTake(s: Bytes)
    requires CharLen(s) > 0
    ensures CharLen(s[..CharLen(s)]) == CharLen(s)
  {
  }

  lemma ValidCons(c: Bytes, t: Bytes)
    requires CharLen(c) == |c| > 0 && Valid(t)
    ensures Valid(c + t)
  {
    CharLenPrefix(c, t);
    hide CharLen;
    assert (c + t)[|c|..] == t;
  }

  lemma ValidTail(s: Bytes)
    requires Valid(s) && s != []
    ensures 0 < CharLen(s) <= |s| && Valid(s[CharLen(s)..])
  {
  }

  /** A boundary past the start lies past the first character. */
  lemma BoundaryPast(s: Bytes, p: nat)
    requires Valid(s) && Boundary(s, p) && p > 0
    ensures CharLen(s) <= p <= |s| && Boundary(s[CharLen(s)..], p - CharLen(s))
  {
    hide CharLen, Valid;
    ValidTail(s);
    assert p < |s| && p >= CharLen(s) ==> s[CharLen(s)..][p - CharLen(s)] == s[p];
  }

  lemma {:induction false} ValidConcat(a: Bytes, b: Bytes)
    requires Valid(a) && Valid(b)
    ensures Valid(a + b)
    decreases |a|
  {
    hide *;
    if a == [] {
      assert a + b == b;
    } else {
      var n := CharLen(a);
      ValidTail(a);
      CharLenTake(a);
      ValidConcat(a[n..], b);
      ValidCons(a[..n], a[n..] + b);
      assert a + b == a[..n] + (a[n..] + b);
    }
  }

  lemma ValidEmpty()
    ensures Valid([])
  {
  }

  /** Cutting a valid string at a boundary leaves two valid strings. */
  lemma {:induction false} ValidSplit(s: Bytes, p: nat)
    requires Valid(s) && Boundary(s, p)
    ensures Valid(s[..p]) && Valid(s[p..])
    decreases |s|
  {
    hide *;
    if p == 0 {
      assert s[p..] == s && s[..p] == [];
      ValidEmpty();
    } else {
      var n := CharLen(s);
      BoundaryPast(s, p);
      ValidTail(s);
      var rest := s[n..];
      ValidSplit(rest, p - n);
      assert s[p..] == rest[p - n..];
      CharLenTake(s);
      ValidCons(s[..n], rest[..p - n]);
      assert s[..p] == s[..n] + rest[..p - n];
    }
  }

  lemma ValidStart(s: Bytes)
    requires Valid(s) && s != []
    ensures !IsCont(s[0])
  {
  }

  /** A valid string never ends inside the mark. */
  lemma {:induction false} ValidEnd(s: Bytes)
    requires Valid(s)
    ensures !EndsWith(s, [0xE2]) && !EndsWith(s, [0xE2, 0x96])
    decreases |s|
  {
    if EndsWith(s, [0xE2]) {
      ValidSplit(s, |s| - 1);
      assert false;
    } else if EndsWith(s, [0xE2, 0x96]) {
      assert s[|s| - 2..][0] == 0xE2;
      ValidSplit(s, |s| - 2);
      assert false;
    }
  }
}
