/**
 The percent codec of src/uri.cpp (sections 2.1 and 2.3 of RFC 3986).
 Here a `char` is a byte: strings range over the values below 256.
 */
module Percent {
  import opened Bytes

  predicate IsBytes(s: string) {
    forall i :: 0 <= i < |s| ==> s[i] as int < 256
  }

  /** `isalnum(c) || c == '-' || c == '_' || c == '.' || c == '~'` in the C locale. */
  predicate Unreserved(c: char) {
    IsDigit(c) || 'A' <= c <= 'Z' || 'a' <= c <= 'z' || c == '-' || c == '_' || c == '.' || c == '~'
  }

  function HexDigit(n: nat): (c: char)
    requires n < 16
  {
    if n < 10 then (n + 48) as char else (n + 55) as char
  }

  /** One byte as the stream manipulators print it: two upper-case digits. */
  function EncodeByte(c: char): string
    requires c as int < 256
  {
    if Unreserved(c) then [c] else ['%', HexDigit(c as int / 16), HexDigit(c as int % 16)]
  }

  function Encode(s: string): string
    requires IsBytes(s)
  {
    if s == "" then "" else EncodeByte(s[0]) + Encode(s[1..])
  }

  /** helper::from_hex as a byte: the subtraction wraps around for what is no hex digit. */
  function FromHex(c: char): (n: nat)
    ensures n < 256
  {
    (if IsDigit(c) then c as int - '0' as int else ToLower(c) as int - 'a' as int + 10) % 256
  }

  /** Bitwise or. */
  function BitOr(x: nat, y: nat): nat {
    if x == 0 || y == 0 then x + y
    else 2 * BitOr(x / 2, y / 2) + (if x % 2 == 1 || y % 2 == 1 then 1 else 0)
  }

  /** `from_hex(a) << 4 | from_hex(b)`, cut to a byte. */
  function HexByte(a: char, b: char): (c: char)
    ensures c as int < 256
  {
    (BitOr(16 * FromHex(a) % 256, FromHex(b)) % 256) as char
  }

  function Decode(t: string): (s: string)
    requires IsBytes(t)
    ensures IsBytes(s)
    decreases |t|
  {
    if t == "" then ""
    else if t[0] == '%' then
      if |t| > 2 && t[1] != '\0' && t[2] != '\0' then [HexByte(t[1], t[2])] + Decode(t[3..])
      else Decode(t[1..])
    else if t[0] == '+' then [' '] + Decode(t[1..])
    else [t[0]] + Decode(t[1..])
  }

  lemma FromHexOfDigit(n: nat)
    requires n < 16
    ensures HexDigit(n) != '\0' && HexDigit(n) as int < 256 && FromHex(HexDigit(n)) == n
  {
  }

  lemma Or1(x: nat)
    ensures BitOr(x, 0) == x
  {
  }

  lemma Or2(x: nat, y: nat)
    requires y < 2
    ensures BitOr(2 * x, y) == 2 * x + y
  {
    Or1(x);
  }

  lemma Or4(x: nat, y: nat)
    requires y < 4
    ensures BitOr(4 * x, y) == 4 * x + y
  {
    Or2(x, y / 2);
  }

  lemma Or8(x: nat, y: nat)
    requires y < 8
    ensures BitOr(8 * x, y) == 8 * x + y
  {
    Or4(x, y / 2);
  }

  /** The or of two nibbles in their places is their sum. */
  lemma Or16(x: nat, y: nat)
    requires y < 16
    ensures BitOr(16 * x, y) == 16 * x + y
  {
    Or8(x, y / 2);
  }

  lemma OrOfNibbles(x: nat, y: nat)
    requires x < 16 && y < 16
    ensures BitOr(16 * x % 256, y) % 256 == 16 * x + y
  {
    hide BitOr;
    assert 16 * x % 256 == 16 * x;
    Or16(x, y);
  }

  lemma HexByteOfDigits(c: char)
    requires c as int < 256
    ensures HexByte(HexDigit(c as int / 16), HexDigit(c as int % 16)) == c
  {
    var hi, lo := c as int / 16, c as int % 16;
    FromHexOfDigit(hi);
    FromHexOfDigit(lo);
    hide FromHex, HexDigit, BitOr;
    OrOfNibbles(hi, lo);
  }

  // ---------- the codec by codes ----------

  /** Digits, letters and `-._~` by their codes. */
  predicate StaysByCode(n: int) {
    48 <= n <= 57 || 65 <= n <= 90 || 97 <= n <= 122 || n == 45 || n == 46 || n == 95 || n == 126
  }

  /** Which bytes are left alone, and how the others are printed. */
  lemma EncodeByCode(c: char, rest: string)
    requires c as int < 256 && IsBytes(rest)
    ensures IsBytes([c] + rest)
    ensures Encode([c] + rest) ==
      (if StaysByCode(c as int) then [c]
       else ['%', "0123456789ABCDEF"[c as int / 16], "0123456789ABCDEF"[c as int % 16]]) + Encode(rest)
  {
    assert ([c] + rest)[1..] == rest;
    DigitByCode(c as int / 16);
    DigitByCode(c as int % 16);
  }

  lemma DigitByCode(n: nat)
    requires n < 16
    ensures HexDigit(n) == "0123456789ABCDEF"[n]
  {
    if n < 10 {
      assert "0123456789ABCDEF"[n] == "0123456789"[n];
    }
  }

  /** `n` is the value of the digit `c`, in either case. */
  predicate IsDigitOf(c: char, n: nat) {
    n < 16 && (c == "0123456789ABCDEF"[n] || c == "0123456789abcdef"[n])
  }

  /** A plus is a space, a percent sign without two bytes behind it that are not NUL is dropped, and
      any other byte stays. */
  lemma DecodeByCode(c: char, rest: string)
    requires c as int < 256 && IsBytes(rest)
    ensures IsBytes([c] + rest)
    ensures c as int == 43 ==> Decode([c] + rest) == [32 as char] + Decode(rest)
    ensures c as int == 37 && (|rest| < 2 || rest[0] as int == 0 || rest[1] as int == 0) ==>
      Decode([c] + rest) == Decode(rest)
    ensures c as int != 37 && c as int != 43 ==> Decode([c] + rest) == [c] + Decode(rest)
  {
    DecodeHead([c] + rest);
    hide HexByte, Decode;
    assert ([c] + rest)[1..] == rest;
    assert |rest| >= 2 ==> ([c] + rest)[1] == rest[0] && ([c] + rest)[2] == rest[1];
  }

  lemma DecodeHead(t: string)
    requires IsBytes(t) && t != ""
    ensures Decode(t) ==
      if t[0] == '%' then
        if |t| > 2 && t[1] != '\0' && t[2] != '\0' then [HexByte(t[1], t[2])] + Decode(t[3..])
        else Decode(t[1..])
      else [if t[0] == '+' then ' ' else t[0]] + Decode(t[1..])
  {
    hide HexByte;
  }

  /** A triplet of digits, in either case, is the byte of that value. */
  lemma TripletByCode(a: char, x: nat, b: char, y: nat, rest: string)
    requires IsDigitOf(a, x) && IsDigitOf(b, y) && IsBytes(rest)
    ensures IsBytes(['%', a, b] + rest) && Decode(['%', a, b] + rest) == [(16 * x + y) as char] + Decode(rest)
  {
    FromHexByCode(a, x);
    FromHexByCode(b, y);
    hide FromHex, IsDigitOf, BitOr;
    OrOfNibbles(x, y);
    assert (['%', a, b] + rest)[3..] == rest;
  }

  lemma FromHexByCode(c: char, n: nat)
    requires IsDigitOf(c, n)
    ensures FromHex(c) == n && c as int < 256 && c != '\0'
  {
    if n < 10 {
      assert "0123456789ABCDEF"[n] == "0123456789"[n] == "0123456789abcdef"[n];
    }
  }

  /** Bytes that are no digits are not rejected: `%zz` is the byte 51. */
  lemma NotADigitWitness()
    ensures IsBytes("%zz") && Decode("%zz") == "3"
  {
    hide BitOr;
    OrWitness();
    assert HexByte('z', 'z') == '3';
    hide HexByte;
    assert "%zz"[3..] == "";
  }

  lemma OrWitness()
    ensures BitOr(48, 35) == 51
  {
    assert BitOr(3, 2) == 3;
    assert BitOr(6, 4) == 6;
    assert BitOr(12, 8) == 12;
    assert BitOr(24, 17) == 25;
    assert BitOr(48, 35) == 51;
  }

  // ---------- the codec is a bijection ----------

  lemma DecodeStep(c: char, rest: string)
    requires c as int < 256 && IsBytes(rest)
    ensures IsBytes(EncodeByte(c) + rest)
    ensures Decode(EncodeByte(c) + rest) == [c] + Decode(rest)
  {
    var t := EncodeByte(c) + rest;
    if !Unreserved(c) {
      FromHexOfDigit(c as int / 16);
      FromHexOfDigit(c as int % 16);
      HexByteOfDigits(c);
      assert t[3..] == rest;
    } else {
      assert t[1..] == rest;
    }
  }

  /** Decoding undoes encoding for every byte string. */
  lemma {:induction false} DecodeEncode(s: string)
    requires IsBytes(s)
    ensures IsBytes(Encode(s)) && Decode(Encode(s)) == s
  {
    if s != "" {
      DecodeEncode(s[1..]);
      DecodeStep(s[0], Encode(s[1..]));
      assert s == [s[0]] + s[1..];
    }
  }

  lemma {:induction false} EncodeConcat(a: string, b: string)
    requires IsBytes(a) && IsBytes(b)
    ensures IsBytes(a + b) && Encode(a + b) == Encode(a) + Encode(b)
  {
    if a == "" {
      assert a + b == b;
    } else {
      assert (a + b)[1..] == a[1..] + b;
      EncodeConcat(a[1..], b);
    }
  }

  lemma EncodeInjective(a: string, b: string)
    requires IsBytes(a) && IsBytes(b) && Encode(a) == Encode(b)
    ensures a == b
  {
    DecodeEncode(a);
    DecodeEncode(b);
  }

  /** A digit in the form the encoder prints. */
  predicate IsUpperHex(c: char) {
    IsDigit(c) || 'A' <= c <= 'F'
  }

  /** Unreserved bytes and upper-case triplets of other bytes, and nothing else. */
  predicate Canonical(t: string) {
    t == ""
    || (Unreserved(t[0]) && Canonical(t[1..]))
    || (|t| > 2 && t[0] == '%' && IsUpperHex(t[1]) && IsUpperHex(t[2])
        && !Unreserved(HexByte(t[1], t[2])) && Canonical(t[3..]))
  }

  lemma CanonicalStep(c: char, rest: string)
    requires c as int < 256 && Canonical(rest)
    ensures Canonical(EncodeByte(c) + rest)
  {
    var t := EncodeByte(c) + rest;
    if Unreserved(c) {
      assert t[1..] == rest;
    } else {
      HexByteOfDigits(c);
      assert t[3..] == rest;
    }
  }

  lemma {:induction false} EncodeIsCanonical(s: string)
    requires IsBytes(s)
    ensures Canonical(Encode(s))
  {
    if s != "" {
      EncodeIsCanonical(s[1..]);
      CanonicalStep(s[0], Encode(s[1..]));
    }
  }

  lemma DigitOfHex(a: char)
    requires IsUpperHex(a)
    ensures FromHex(a) < 16 && HexDigit(FromHex(a)) == a
  {
  }

  lemma DigitsOfHexByte(a: char, b: char)
    requires IsUpperHex(a) && IsUpperHex(b)
    ensures var c := HexByte(a, b) as int; HexDigit(c / 16) == a && HexDigit(c % 16) == b
  {
    DigitOfHex(a);
    DigitOfHex(b);
    OrOfNibbles(FromHex(a), FromHex(b));
    hide FromHex, HexDigit, IsUpperHex, BitOr;
    var c := HexByte(a, b) as int;
    assert c == 16 * FromHex(a) + FromHex(b);
    assert c / 16 == FromHex(a) && c % 16 == FromHex(b);
  }

  lemma {:induction false} EncodeDecode(t: string)
    requires IsBytes(t) && Canonical(t)
    ensures Encode(Decode(t)) == t
    decreases |t|
  {
    hide HexByte, HexDigit, Encode;
    if t == "" {
      EncodeStep("");
    } else if Unreserved(t[0]) {
      EncodeDecode(t[1..]);
      EncodeStep(Decode(t));
      assert Decode(t)[1..] == Decode(t[1..]);
      assert t == [t[0]] + t[1..];
    } else {
      EncodeDecode(t[3..]);
      DigitsOfHexByte(t[1], t[2]);
      EncodeStep(Decode(t));
      assert Decode(t)[1..] == Decode(t[3..]);
      assert t == ['%', t[1], t[2]] + t[3..];
    }
  }

  lemma EncodeStep(s: string)
    requires IsBytes(s)
    ensures Encode(s) == if s == "" then "" else EncodeByte(s[0]) + Encode(s[1..])
  {
  }

  /** Encoding undoes decoding exactly on the canonical strings. */
  lemma EncodeDecodeIff(t: string)
    requires IsBytes(t)
    ensures Encode(Decode(t)) == t <==> Canonical(t)
  {
    if Canonical(t) {
      EncodeDecode(t);
    }
    EncodeIsCanonical(Decode(t));
  }

  // ---------- the code ----------

  /** uri::encode */
  method EncodeString(value: string) returns (escaped: string)
    requires IsBytes(value)
    ensures escaped == Encode(value)
  {
    hide Encode, HexDigit, Unreserved;
    escaped := "";
    var i := 0;
    assert value[0..] == value;
    while i != |value|
      invariant 0 <= i <= |value|
      invariant escaped + Encode(value[i..]) == Encode(value)
    {
      var c := value[i];
      EncodeStep(value[i..]);
      assert value[i..][1..] == value[i + 1..];
      ghost var before := escaped;
      if Unreserved(c) {
        escaped := escaped + [c];
      } else {
        escaped := escaped + ['%', HexDigit(c as int / 16), HexDigit(c as int % 16)];
      }
      assert escaped == before + EncodeByte(c);
      assert before + (EncodeByte(c) + Encode(value[i + 1..])) == escaped + Encode(value[i + 1..]);
      i := i + 1;
    }
    EncodeStep(value[i..]);
  }

  /** The byte an iterator sees; the end of the string reads as NUL. */
  function At(s: string, i: nat): char {
    if i < |s| then s[i] else '\0'
  }

  lemma DecodeAt(s: string, i: nat)
    requires i <= |s| && IsBytes(s)
    ensures Decode(s[i..]) ==
      if i == |s| then ""
      else if s[i] == '%' then
        if At(s, i + 1) != '\0' && At(s, i + 2) != '\0' then [HexByte(s[i + 1], s[i + 2])] + Decode(s[i + 3..])
        else Decode(s[i + 1..])
      else [if s[i] == '+' then ' ' else s[i]] + Decode(s[i + 1..])
  {
    hide HexByte;
    var t := s[i..];
    assert i < |s| ==> t[1..] == s[i + 1..];
    assert i + 3 <= |s| ==> t[3..] == s[i + 3..];
  }

  /** uri::decode */
  method DecodeString(value: string) returns (escaped: string)
    requires IsBytes(value)
    ensures escaped == Decode(value)
  {
    hide Decode, HexByte;
    escaped := "";
    var i := 0;
    assert value[0..] == value;
    while i != |value|
      invariant 0 <= i <= |value|
      invariant escaped + Decode(value[i..]) == Decode(value)
      decreases |value| - i
    {
      var c := value[i];
      DecodeAt(value, i);
      if c == '%' {
        if At(value, i + 1) != '\0' && At(value, i + 2) != '\0' {
          escaped := escaped + [HexByte(value[i + 1], value[i + 2])];
          i := i + 2;
        }
      } else if c == '+' {
        escaped := escaped + [' '];
      } else {
        escaped := escaped + [c];
      }
      i := i + 1;
    }
    DecodeAt(value, i);
  }
}
