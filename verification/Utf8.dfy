/** Well-formed UTF-8 (section 4 of RFC 3629), and where it may be cut. */
module Utf8 {
  import opened Paths

  /** The bytes of an ASCII literal. */
  function Ascii(s: string): (b: Bytes)
    ensures |b| == |s|
    ensures forall i | 0 <= i < |s| :: b[i] as int == s[i] as int % 0x80
  {
    seq(|s|, i requires 0 <= i < |s| => (s[i] as int % 0x80) as byte)
  }

  predicate IsContinuation(b: byte) {
    0x80 <= b <= 0xBF
  }

  /** Length of the well-formed character `b` starts with; 0 if there is none. */
  function CharLength(b: Bytes): (n: nat)
    ensures n <= |b|
    ensures n > 0 ==> !IsContinuation(b[0])
    ensures forall i | 1 <= i < n :: IsContinuation(b[i])
  {
    if b == [] then 0
    else if b[0] <= 0x7F then 1
    else if |b| >= 2 && 0xC2 <= b[0] <= 0xDF && IsContinuation(b[1]) then 2
    else if |b| >= 3 && ThreeByteStart(b[0], b[1]) && IsContinuation(b[2]) then 3
    else if |b| >= 4 && FourByteStart(b[0], b[1]) && IsContinuation(b[2]) && IsContinuation(b[3]) then 4
    else 0
  }

  predicate ThreeByteStart(first: byte, second: byte) {
    || (first == 0xE0 && 0xA0 <= second <= 0xBF)
    || (0xE1 <= first <= 0xEC && IsContinuation(second))
    || (first == 0xED && 0x80 <= second <= 0x9F)
    || (0xEE <= first <= 0xEF && IsContinuation(second))
  }

  predicate FourByteStart(first: byte, second: byte) {
    || (first == 0xF0 && 0x90 <= second <= 0xBF)
    || (0xF1 <= first <= 0xF3 && IsContinuation(second))
    || (first == 0xF4 && 0x80 <= second <= 0x8F)
  }

  predicate ValidUtf8(b: Bytes)
    decreases |b|
  {
    b == [] || (CharLength(b) > 0 && ValidUtf8(b[CharLength(b)..]))
  }

  /** `k` is a character boundary of `b`. */
  predicate IsBoundary(b: Bytes, k: nat) {
    k >= |b| || !IsContinuation(b[k])
  }

  /** Whether a character is there depends only on its own bytes. */
  lemma CharLengthOfPrefix(b: Bytes, k: nat)
    requires CharLength(b) > 0 && k <= |b|
    ensures CharLength(b[..k]) == if k < CharLength(b) then 0 else CharLength(b)
  {
  }

  /** Valid text cut anywhere is valid exactly when the cut is between characters. */
  lemma {:induction false} PrefixValidIff(b: Bytes, k: nat)
    requires ValidUtf8(b) && k <= |b|
    ensures ValidUtf8(b[..k]) <==> IsBoundary(b, k)
    decreases |b|
  {
    var n := CharLength(b);
    if b == [] || k == 0 {
      assert b[..k] == [];
    } else if k < n {
      CharLengthOfPrefix(b, k);
    } else {
      CharLengthOfPrefix(b, k);
      PrefixValidIff(b[n..], k - n);
      assert b[..k][n..] == b[n..][..k - n];
    }
  }

  lemma {:induction false} ConcatValid(a: Bytes, b: Bytes)
    requires ValidUtf8(a)
    ensures ValidUtf8(a + b) <==> ValidUtf8(b)
    decreases |a|
  {
    if a == [] {
      assert a + b == b;
    } else {
      var n := CharLength(a);
      assert CharLength(a + b) == n;
      assert (a + b)[n..] == a[n..] + b;
      ConcatValid(a[n..], b);
    }
  }

  lemma AsciiTextValid(s: string)
    ensures ValidUtf8(Ascii(s))
  {
    AsciiValid(Ascii(s));
  }

  lemma {:induction false} AsciiValid(b: Bytes)
    requires forall i | 0 <= i < |b| :: b[i] < 0x80
    ensures ValidUtf8(b)
  {
    if b != [] {
      assert CharLength(b) == 1;
      AsciiValid(b[1..]);
    }
  }

  lemma {:induction false} BoundaryAfterAscii(b: Bytes, i: nat)
    requires ValidUtf8(b) && i < |b| && b[i] < 0x80
    ensures IsBoundary(b, i + 1)
    decreases |b|
  {
    var n := CharLength(b);
    var rest := b[n..];
    if i < n {
      assert n == 1;
      assert rest != [] ==> b[1] == rest[0];
    } else {
      assert rest[i - n] == b[i];
      BoundaryAfterAscii(rest, i - n);
      assert i + 1 < |b| ==> rest[i + 1 - n] == b[i + 1];
    }
  }

  lemma DropTwice(b: Bytes, n: nat, rest: Bytes, k: nat, suffix: Bytes)
    requires n <= k <= |b| && rest == b[n..] && suffix == b[k..]
    ensures suffix == rest[k - n..]
  {
  }

  /** What follows a boundary of valid text is valid. */
  lemma {:induction false} SuffixValid(b: Bytes, k: nat, suffix: Bytes)
    requires ValidUtf8(b) && k <= |b| && IsBoundary(b, k) && suffix == b[k..]
    ensures ValidUtf8(suffix)
    decreases |b|
  {
    if k == 0 {
      assert suffix == b;
    } else if k < |b| {
      var n := CharLength(b);
      var rest := b[n..];
      assert k >= n && rest[k - n] == b[k];
      DropTwice(b, n, rest, k, suffix);
      SuffixValid(rest, k - n, suffix);
    }
  }

  /** Valid text splits into two valid texts after an ASCII character. */
  lemma SplitAfterAscii(b: Bytes, i: nat)
    requires ValidUtf8(b) && i < |b| && b[i] < 0x80
    ensures ValidUtf8(b[..i + 1]) && ValidUtf8(b[i + 1..])
  {
    BoundaryAfterAscii(b, i);
    PrefixValidIff(b, i + 1);
    SuffixValid(b, i + 1, b[i + 1..]);
  }

  // ---- the characters behind the bytes ---------------------------------------------

  /** A Unicode scalar value: a code point that is no surrogate. */
  predicate IsScalar(c: int) {
    0 <= c < 0xD800 || 0xE000 <= c <= 0x10FFFF
  }

  /** The table of section 3 of RFC 3629. */
  function Encode(c: int): (e: Bytes)
    requires IsScalar(c)
    ensures e != []
  {
    if c < 0x80 then [c as byte]
    else if c < 0x800 then [(0xC0 + c / 0x40) as byte, (0x80 + c % 0x40) as byte]
    else if c < 0x10000 then [(0xE0 + c / 0x1000) as byte, (0x80 + c / 0x40 % 0x40) as byte, (0x80 + c % 0x40) as byte]
    else [(0xF0 + c / 0x40000) as byte, (0x80 + c / 0x1000 % 0x40) as byte, (0x80 + c / 0x40 % 0x40) as byte,
          (0x80 + c % 0x40) as byte]
  }

  predicate AllScalar(text: seq<int>) {
    forall i | 0 <= i < |text| :: IsScalar(text[i])
  }

  function EncodeAll(text: seq<int>): Bytes
    requires AllScalar(text)
  {
    if text == [] then [] else Encode(text[0]) + EncodeAll(text[1..])
  }

  /** The encoding of one character is one character, whatever follows. */
  lemma CharOfEncode(c: int, rest: Bytes)
    requires IsScalar(c)
    ensures CharLength(Encode(c) + rest) == |Encode(c)|
  {
    var b := Encode(c) + rest;
    assert forall i | 0 <= i < |Encode(c)| :: b[i] == Encode(c)[i];
  }

  lemma TwoDigits(x: int, y: int)
    requires 0 <= y < 0x40
    ensures (x * 0x40 + y) / 0x40 == x && (x * 0x40 + y) % 0x40 == y
  {
  }

  lemma ThreeDigits(x: int, y: int, z: int)
    requires 0 <= y < 0x40 && 0 <= z < 0x40
    ensures var c := x * 0x1000 + y * 0x40 + z; c / 0x1000 == x && c / 0x40 % 0x40 == y && c % 0x40 == z
  {
    var c := x * 0x1000 + y * 0x40 + z;
    assert c == (x * 0x40 + y) * 0x40 + z;
    TwoDigits(x * 0x40 + y, z);
    TwoDigits(x, y);
  }

  lemma FourDigits(w: int, x: int, y: int, z: int)
    requires 0 <= x < 0x40 && 0 <= y < 0x40 && 0 <= z < 0x40
    ensures var c := w * 0x40000 + x * 0x1000 + y * 0x40 + z;
            c / 0x40000 == w && c / 0x1000 % 0x40 == x && c / 0x40 % 0x40 == y && c % 0x40 == z
  {
    var c := w * 0x40000 + x * 0x1000 + y * 0x40 + z;
    assert c == (w * 0x40 + x) * 0x1000 + y * 0x40 + z;
    ThreeDigits(w * 0x40 + x, y, z);
    TwoDigits(w, x);
  }

  lemma TwoBytes(b: Bytes) returns (c: int)
    requires CharLength(b) == 2
    ensures IsScalar(c) && Encode(c) == b[..2]
  {
    c := (b[0] as int - 0xC0) * 0x40 + (b[1] as int - 0x80);
    TwoDigits(b[0] as int - 0xC0, b[1] as int - 0x80);
  }

  lemma ThreeBytes(b: Bytes) returns (c: int)
    requires CharLength(b) == 3
    ensures IsScalar(c) && Encode(c) == b[..3]
  {
    c := (b[0] as int - 0xE0) * 0x1000 + (b[1] as int - 0x80) * 0x40 + (b[2] as int - 0x80);
    ThreeDigits(b[0] as int - 0xE0, b[1] as int - 0x80, b[2] as int - 0x80);
  }

  lemma FourBytes(b: Bytes) returns (c: int)
    requires CharLength(b) == 4
    ensures IsScalar(c) && Encode(c) == b[..4]
  {
    c := (b[0] as int - 0xF0) * 0x40000 + (b[1] as int - 0x80) * 0x1000 + (b[2] as int - 0x80) * 0x40 + (b[3] as int - 0x80);
    FourDigits(b[0] as int - 0xF0, b[1] as int - 0x80, b[2] as int - 0x80, b[3] as int - 0x80);
  }

  /** One character is the encoding of a scalar value: shortest form, no surrogate. */
  lemma EncodeOfChar(b: Bytes) returns (c: int)
    requires CharLength(b) > 0
    ensures IsScalar(c) && Encode(c) == b[..CharLength(b)]
  {
    match CharLength(b)
    case 1 => c := b[0] as int;
    case 2 => c := TwoBytes(b);
    case 3 => c := ThreeBytes(b);
    case _ => c := FourBytes(b);
  }

  lemma {:induction false} EncodedIsValid(text: seq<int>)
    requires AllScalar(text)
    ensures ValidUtf8(EncodeAll(text))
  {
    if text != [] {
      var first, rest := Encode(text[0]), EncodeAll(text[1..]);
      EncodedIsValid(text[1..]);
      CharOfEncode(text[0], rest);
      assert (first + rest)[|first|..] == rest;
    }
  }

  lemma {:induction false} ValidIsEncoded(b: Bytes) returns (text: seq<int>)
    requires ValidUtf8(b)
    ensures AllScalar(text) && EncodeAll(text) == b
    decreases |b|
  {
    text := [];
    if b != [] {
      var n := CharLength(b);
      var c := EncodeOfChar(b);
      var rest := ValidIsEncoded(b[n..]);
      text := [c] + rest;
      EncodeAllCons(c, rest);
      Rejoined(b, n, Encode(c), EncodeAll(rest));
    }
  }

  lemma Rejoined(b: Bytes, n: nat, front: Bytes, back: Bytes)
    requires n <= |b| && front == b[..n] && back == b[n..]
    ensures front + back == b
  {
  }

  lemma EncodeAllCons(c: int, rest: seq<int>)
    requires IsScalar(c) && AllScalar(rest)
    ensures AllScalar([c] + rest) && EncodeAll([c] + rest) == Encode(c) + EncodeAll(rest)
  {
    assert ([c] + rest)[1..] == rest;
  }

  /** Well-formed text is exactly what encodes a sequence of scalar values. */
  lemma ValidIff(b: Bytes)
    ensures ValidUtf8(b) <==> exists text: seq<int> :: AllScalar(text) && EncodeAll(text) == b
  {
    if ValidUtf8(b) {
      var text := ValidIsEncoded(b);
    }
    if text: seq<int> :| AllScalar(text) && EncodeAll(text) == b {
      EncodedIsValid(text);
    }
  }
}
