/**
 * The text primitives the CSV upload path relies on: decoding the uploaded bytes
 * as UTF-8, splitting text on a separator character, and Python's int()/str()
 * between integers and their decimal text.
 */
module Text {
  import opened Wrappers

  type Byte = b: int | 0 <= b < 0x100

  // ---------------------------------------------------------------------------
  // UTF-8

  predicate IsContinuation(b: Byte) {
    0x80 <= b < 0xC0
  }

  /**
   * The scalar value encoded by the well-formed UTF-8 sequence at the start of
   * `b`, with the number of bytes it takes; None when `b` does not start with
   * one (stray continuation byte, overlong form, surrogate, value past U+10FFFF,
   * truncated sequence).
   */
  function DecodeFirst(b: seq<Byte>): (r: Option<(char, nat)>)
    requires |b| > 0
    ensures r.Some? ==> 1 <= r.value.1 <= 4 && r.value.1 <= |b|
    ensures IsContinuation(b[0]) ==> r.None?
  {
    var b0: int := b[0];
    if b0 < 0x80 then
      Some((b0 as char, 1))
    else if 0xC2 <= b0 < 0xE0 then
      if |b| >= 2 && IsContinuation(b[1]) then
        Some((Scalar2(b0, b[1]) as char, 2))
      else None
    else if 0xE0 <= b0 < 0xF0 then
      if && |b| >= 3 && IsContinuation(b[1]) && IsContinuation(b[2])
         && (b0 == 0xE0 ==> 0xA0 <= b[1])
         && (b0 == 0xED ==> b[1] < 0xA0)
      then
        Some((Scalar3(b0, b[1], b[2]) as char, 3))
      else None
    else if 0xF0 <= b0 < 0xF5 then
      if && |b| >= 4 && IsContinuation(b[1]) && IsContinuation(b[2]) && IsContinuation(b[3])
         && (b0 == 0xF0 ==> 0x90 <= b[1])
         && (b0 == 0xF4 ==> b[1] < 0x90)
      then
        Some((Scalar4(b0, b[1], b[2], b[3]) as char, 4))
      else None
    else None
  }

  /** The value of a two-byte sequence: U+0080 to U+07FF. */
  function Scalar2(b0: int, b1: int): (v: int)
    requires 0xC2 <= b0 < 0xE0 && 0x80 <= b1 < 0xC0
    ensures 0x80 <= v < 0x800
  {
    (b0 - 0xC0) * 0x40 + (b1 - 0x80)
  }

  /** The value of a three-byte sequence: U+0800 to U+FFFF without the surrogates. */
  function Scalar3(b0: int, b1: int, b2: int): (v: int)
    requires 0xE0 <= b0 < 0xF0 && 0x80 <= b1 < 0xC0 && 0x80 <= b2 < 0xC0
    requires b0 == 0xE0 ==> 0xA0 <= b1
    requires b0 == 0xED ==> b1 < 0xA0
    ensures 0x800 <= v < 0xD800 || 0xE000 <= v < 0x10000
  {
    (b0 - 0xE0) * 0x1000 + (b1 - 0x80) * 0x40 + (b2 - 0x80)
  }

  /** The value of a four-byte sequence: U+10000 to U+10FFFF. */
  function Scalar4(b0: int, b1: int, b2: int, b3: int): (v: int)
    requires 0xF0 <= b0 < 0xF5 && 0x80 <= b1 < 0xC0 && 0x80 <= b2 < 0xC0 && 0x80 <= b3 < 0xC0
    requires b0 == 0xF0 ==> 0x90 <= b1
    requires b0 == 0xF4 ==> b1 < 0x90
    ensures 0x10000 <= v < 0x110000
  {
    (b0 - 0xF0) * 0x40000 + (b1 - 0x80) * 0x1000 + (b2 - 0x80) * 0x40 + (b3 - 0x80)
  }

  /** `bytes.decode('utf-8')`: the decoded text, or None when the bytes are not UTF-8. */
  function DecodeUtf8(b: seq<Byte>): (r: Option<string>)
    ensures r.Some? ==> |r.value| <= |b| <= 4 * |r.value|
    decreases |b|
  {
    if b == [] then Some([])
    else
      match DecodeFirst(b)
      case None => None
      case Some((c, n)) =>
        match DecodeUtf8(b[n..])
        case None => None
        case Some(s) => Some([c] + s)
  }

  /** The UTF-8 encoding of one scalar value. */
  function EncodeChar(c: char): (r: seq<Byte>)
    ensures 1 <= |r| <= 4
  {
    var v := c as int;
    if v < 0x80 then [v]
    else if v < 0x800 then [0xC0 + v / 0x40, 0x80 + v % 0x40]
    else if v < 0x10000 then [0xE0 + v / 0x1000, 0x80 + (v / 0x40) % 0x40, 0x80 + v % 0x40]
    else [0xF0 + v / 0x40000, 0x80 + (v / 0x1000) % 0x40, 0x80 + (v / 0x40) % 0x40, 0x80 + v % 0x40]
  }

  /** `str.encode('utf-8')`. */
  function EncodeUtf8(s: string): seq<Byte> {
    if s == [] then [] else EncodeChar(s[0]) + EncodeUtf8(s[1..])
  }

  /** Decoding the first encoded scalar value gives back that value. */
  lemma DecodeFirstEncodeChar(c: char, rest: seq<Byte>)
    ensures DecodeFirst(EncodeChar(c) + rest) == Some((c, |EncodeChar(c)|))
  {
    var v := c as int;
    var e := EncodeChar(c) + rest;
    if v < 0x80 {
    } else if v < 0x800 {
      assert e[0] == 0xC0 + v / 0x40 && e[1] == 0x80 + v % 0x40;
      Scalar2Inverse(v);
    } else if v < 0x10000 {
      assert e[0] == 0xE0 + v / 0x1000 && e[1] == 0x80 + (v / 0x40) % 0x40 && e[2] == 0x80 + v % 0x40;
      Scalar3Inverse(v);
    } else {
      assert e[0] == 0xF0 + v / 0x40000 && e[1] == 0x80 + (v / 0x1000) % 0x40;
      assert e[2] == 0x80 + (v / 0x40) % 0x40 && e[3] == 0x80 + v % 0x40;
      Scalar4Inverse(v);
    }
  }

  lemma Scalar2Inverse(v: int)
    requires 0x80 <= v < 0x800
    ensures 0xC2 <= 0xC0 + v / 0x40 < 0xE0
    ensures Scalar2(0xC0 + v / 0x40, 0x80 + v % 0x40) == v
  {
  }

  lemma Scalar3Inverse(v: int)
    requires 0x800 <= v < 0xD800 || 0xE000 <= v < 0x10000
    ensures 0xE0 <= 0xE0 + v / 0x1000 < 0xF0
    ensures 0xE0 + v / 0x1000 == 0xE0 ==> 0xA0 <= 0x80 + (v / 0x40) % 0x40
    ensures 0xE0 + v / 0x1000 == 0xED ==> 0x80 + (v / 0x40) % 0x40 < 0xA0
    ensures Scalar3(0xE0 + v / 0x1000, 0x80 + (v / 0x40) % 0x40, 0x80 + v % 0x40) == v
  {
    var hi, mid, lo := v / 0x1000, (v / 0x40) % 0x40, v % 0x40;
    assert v / 0x40 == hi * 0x40 + mid;
    assert v == hi * 0x1000 + mid * 0x40 + lo;
  }

  lemma Scalar4Inverse(v: int)
    requires 0x10000 <= v < 0x110000
    ensures 0xF0 <= 0xF0 + v / 0x40000 < 0xF5
    ensures 0xF0 + v / 0x40000 == 0xF0 ==> 0x90 <= 0x80 + (v / 0x1000) % 0x40
    ensures 0xF0 + v / 0x40000 == 0xF4 ==> 0x80 + (v / 0x1000) % 0x40 < 0x90
    ensures Scalar4(0xF0 + v / 0x40000, 0x80 + (v / 0x1000) % 0x40, 0x80 + (v / 0x40) % 0x40, 0x80 + v % 0x40) == v
  {
    var b0, b1, b2, b3 := v / 0x40000, (v / 0x1000) % 0x40, (v / 0x40) % 0x40, v % 0x40;
    assert v / 0x1000 == b0 * 0x40 + b1;
    assert v / 0x40 == (v / 0x1000) * 0x40 + b2;
    assert v == b0 * 0x40000 + b1 * 0x1000 + b2 * 0x40 + b3;
  }

  /** Every text survives the encode/decode round trip. */
  lemma {:induction false} DecodeEncodeUtf8(s: string)
    ensures DecodeUtf8(EncodeUtf8(s)) == Some(s)
  {
    if s != [] {
      var e := EncodeChar(s[0]);
      var b := EncodeUtf8(s);
      DecodeFirstEncodeChar(s[0], EncodeUtf8(s[1..]));
      assert b[|e|..] == EncodeUtf8(s[1..]);
      DecodeEncodeUtf8(s[1..]);
      assert [s[0]] + s[1..] == s;
    }
  }

  /** Bytes that start with a continuation byte, such as 80 81 82, are not UTF-8. */
  lemma StrayContinuationRejected(b: seq<Byte>)
    requires |b| > 0 && IsContinuation(b[0])
    ensures DecodeUtf8(b) == None
  {
  }

  /** A two-byte sequence the decoder accepts is the encoding of its value. */
  lemma Scalar2Canonical(b0: int, b1: int)
    requires 0xC2 <= b0 < 0xE0 && 0x80 <= b1 < 0xC0
    ensures EncodeChar(Scalar2(b0, b1) as char) == [b0, b1]
  {
    var v := Scalar2(b0, b1);
    assert v / 0x40 == b0 - 0xC0 && v % 0x40 == b1 - 0x80;
  }

  /** A three-byte sequence the decoder accepts is the encoding of its value. */
  lemma Scalar3Canonical(b0: int, b1: int, b2: int)
    requires 0xE0 <= b0 < 0xF0 && 0x80 <= b1 < 0xC0 && 0x80 <= b2 < 0xC0
    requires b0 == 0xE0 ==> 0xA0 <= b1
    requires b0 == 0xED ==> b1 < 0xA0
    ensures EncodeChar(Scalar3(b0, b1, b2) as char) == [b0, b1, b2]
  {
    var v := Scalar3(b0, b1, b2);
    assert v / 0x40 == (b0 - 0xE0) * 0x40 + (b1 - 0x80) && v % 0x40 == b2 - 0x80;
    assert v / 0x1000 == b0 - 0xE0;
  }

  /** A four-byte sequence the decoder accepts is the encoding of its value. */
  lemma Scalar4Canonical(b0: int, b1: int, b2: int, b3: int)
    requires 0xF0 <= b0 < 0xF5 && 0x80 <= b1 < 0xC0 && 0x80 <= b2 < 0xC0 && 0x80 <= b3 < 0xC0
    requires b0 == 0xF0 ==> 0x90 <= b1
    requires b0 == 0xF4 ==> b1 < 0x90
    ensures EncodeChar(Scalar4(b0, b1, b2, b3) as char) == [b0, b1, b2, b3]
  {
    var v := Scalar4(b0, b1, b2, b3);
    assert v / 0x40 == (b0 - 0xF0) * 0x1000 + (b1 - 0x80) * 0x40 + (b2 - 0x80) && v % 0x40 == b3 - 0x80;
    assert v / 0x1000 == (b0 - 0xF0) * 0x40 + (b1 - 0x80);
    assert v / 0x40000 == b0 - 0xF0;
  }

  /**
   * Whatever the decoder accepts at the start of the bytes is exactly the
   * encoding of the value it yields: no overlong forms, surrogates or values
   * past U+10FFFF get through.
   */
  lemma DecodeFirstCanonical(b: seq<Byte>)
    requires |b| > 0 && DecodeFirst(b).Some?
    ensures EncodeChar(DecodeFirst(b).value.0) == b[..DecodeFirst(b).value.1]
  {
    var b0: int := b[0];
    if b0 < 0x80 {
    } else if b0 < 0xE0 {
      Scalar2Canonical(b0, b[1]);
    } else if b0 < 0xF0 {
      Scalar3Canonical(b0, b[1], b[2]);
    } else {
      Scalar4Canonical(b0, b[1], b[2], b[3]);
    }
  }

  /** A successful decode is the first scalar value followed by the decode of the rest. */
  lemma DecodeUtf8Step(b: seq<Byte>)
    requires b != [] && DecodeUtf8(b).Some?
    ensures DecodeFirst(b).Some?
    ensures var n := DecodeFirst(b).value.1;
            && DecodeUtf8(b[n..]).Some?
            && DecodeUtf8(b).value == [DecodeFirst(b).value.0] + DecodeUtf8(b[n..]).value
  {
  }

  /** Bytes that decode are the UTF-8 encoding of the text they decode to. */
  lemma {:induction false} EncodeDecodeUtf8(b: seq<Byte>)
    requires DecodeUtf8(b).Some?
    ensures EncodeUtf8(DecodeUtf8(b).value) == b
  {
    if b != [] {
      DecodeUtf8Step(b);
      var c, n := DecodeFirst(b).value.0, DecodeFirst(b).value.1;
      var rest := DecodeUtf8(b[n..]).value;
      DecodeFirstCanonical(b);
      EncodeDecodeUtf8(b[n..]);
      var s := [c] + rest;
      assert s[0] == c && s[1..] == rest;
      assert EncodeUtf8(s) == EncodeChar(c) + EncodeUtf8(rest);
      assert b[..n] + b[n..] == b;
    }
  }

  /** An overlong form, an encoded surrogate and a value past U+10FFFF are not UTF-8. */
  lemma IllFormedRejected()
    ensures DecodeUtf8([0xC0, 0x80]) == None
    ensures DecodeUtf8([0xED, 0xA0, 0x80]) == None
    ensures DecodeUtf8([0xF5, 0x80, 0x80, 0x80]) == None
  {
  }

  // ---------------------------------------------------------------------------
  // Splitting on a separator

  /** `s.split(sep)`: the maximal separator-free pieces, always at least one. */
  function Split(s: string, sep: char): (parts: seq<string>)
    ensures |parts| >= 1
    ensures forall i :: 0 <= i < |parts| ==> sep !in parts[i]
    decreases |s|
  {
    if s == [] then [[]]
    else
      var rest := Split(s[1..], sep);
      if s[0] == sep then [[]] + rest
      else [[s[0]] + rest[0]] + rest[1..]
  }

  /** `sep.join(parts)`. */
  function Join(parts: seq<string>, sep: char): string
    requires |parts| >= 1
  {
    if |parts| == 1 then parts[0] else parts[0] + [sep] + Join(parts[1..], sep)
  }

  /** A separator-free head stays glued to the first piece of what follows it. */
  lemma {:induction false} SplitSeparatorFreePrefix(p: string, t: string, sep: char)
    requires sep !in p
    ensures Split(p + t, sep) == [p + Split(t, sep)[0]] + Split(t, sep)[1..]
  {
    if p != [] {
      assert (p + t)[1..] == p[1..] + t;
      SplitSeparatorFreePrefix(p[1..], t, sep);
      assert [p[0]] + (p[1..] + Split(t, sep)[0]) == p + Split(t, sep)[0];
    } else {
      assert p + t == t;
      assert p + Split(t, sep)[0] == Split(t, sep)[0];
      assert Split(t, sep) == [Split(t, sep)[0]] + Split(t, sep)[1..];
    }
  }

  /** Joining separator-free pieces and splitting again gives back the pieces. */
  lemma {:induction false} SplitJoin(parts: seq<string>, sep: char)
    requires |parts| >= 1
    requires forall i :: 0 <= i < |parts| ==> sep !in parts[i]
    ensures Split(Join(parts, sep), sep) == parts
  {
    var p := parts[0];
    if |parts| == 1 {
      SplitSeparatorFreePrefix(p, [], sep);
      assert p + [] == p;
    } else {
      var t := Join(parts[1..], sep);
      SplitJoin(parts[1..], sep);
      assert p + [sep] + t == p + ([sep] + t);
      SplitSeparatorFreePrefix(p, [sep] + t, sep);
      assert ([sep] + t)[1..] == t;
      assert p + [] == p;
      assert [p] + parts[1..] == parts;
    }
  }

  /** Joining pieces that lack a character other than the separator leaves that character out. */
  lemma {:induction false} JoinLacks(parts: seq<string>, sep: char, c: char)
    requires |parts| >= 1 && c != sep
    requires forall i :: 0 <= i < |parts| ==> c !in parts[i]
    ensures c !in Join(parts, sep)
  {
    if |parts| > 1 {
      JoinLacks(parts[1..], sep, c);
    }
  }

  /** Splitting and joining again gives back the text. */
  lemma {:induction false} JoinSplit(s: string, sep: char)
    ensures Join(Split(s, sep), sep) == s
  {
    if s != [] {
      JoinSplit(s[1..], sep);
      var rest := Split(s[1..], sep);
      if s[0] != sep {
        if |rest| > 1 {
          assert ([[s[0]] + rest[0]] + rest[1..])[1..] == rest[1..];
        }
      }
      assert [s[0]] + s[1..] == s;
    }
  }

  // ---------------------------------------------------------------------------
  // int() and str() between integers and decimal text

  predicate IsDigit(c: char) {
    '0' <= c <= '9'
  }

  predicate AllDigits(s: string) {
    forall i :: 0 <= i < |s| ==> IsDigit(s[i])
  }

  /** A text that int() accepts: an optional sign and at least one decimal digit. */
  predicate IsIntegerLiteral(s: string) {
    if |s| > 0 && (s[0] == '-' || s[0] == '+') then |s| > 1 && AllDigits(s[1..])
    else |s| > 0 && AllDigits(s)
  }

  function DigitsValue(s: string): nat
    requires AllDigits(s)
  {
    if s == [] then 0 else DigitsValue(s[..|s| - 1]) * 10 + (s[|s| - 1] as int - '0' as int)
  }

  /** `int(s)` on a text field: the integer it denotes, or None (a ValueError) when it is no integer literal. */
  function ParseInt(s: string): (r: Option<int>)
    ensures r.Some? <==> IsIntegerLiteral(s)
  {
    if |s| > 0 && (s[0] == '-' || s[0] == '+') then
      if |s| > 1 && AllDigits(s[1..]) then
        Some(if s[0] == '-' then 0 - DigitsValue(s[1..]) else DigitsValue(s[1..]))
      else None
    else if |s| > 0 && AllDigits(s) then Some(DigitsValue(s))
    else None
  }

  function DigitChar(d: nat): (c: char)
    requires d < 10
    ensures IsDigit(c) && c as int - '0' as int == d
  {
    ('0' as int + d) as char
  }

  /** The shortest decimal text of a natural number. */
  function FormatNat(n: nat): (s: string)
    ensures |s| >= 1 && AllDigits(s)
  {
    if n < 10 then [DigitChar(n)] else FormatNat(n / 10) + [DigitChar(n % 10)]
  }

  /** `str(n)` for an integer. */
  function FormatInt(n: int): (s: string)
    ensures forall i :: 0 <= i < |s| ==> s[i] == '-' || IsDigit(s[i])
  {
    if n < 0 then "-" + FormatNat(-n) else FormatNat(n)
  }

  lemma {:induction false} DigitsValueFormatNat(n: nat)
    ensures DigitsValue(FormatNat(n)) == n
  {
    if n >= 10 {
      var s := FormatNat(n);
      assert s[..|s| - 1] == FormatNat(n / 10);
      DigitsValueFormatNat(n / 10);
    }
  }

  /** int(str(n)) == n. */
  lemma ParseFormatInt(n: int)
    ensures ParseInt(FormatInt(n)) == Some(n)
  {
    if n < 0 {
      assert FormatInt(n)[1..] == FormatNat(-n);
      DigitsValueFormatNat(-n);
    } else {
      DigitsValueFormatNat(n);
    }
  }
}
