/** Character and digit-string helpers shared by the value types (ASCII only). */
module Text {

  predicate IsDigit(c: char) { '0' <= c <= '9' }

  predicate IsLower(c: char) { 'a' <= c <= 'z' }

  predicate IsUpper(c: char) { 'A' <= c <= 'Z' }

  /** Java's \p{Alnum}: an ASCII letter or digit. */
  predicate IsAlnum(c: char) { IsDigit(c) || IsLower(c) || IsUpper(c) }

  predicate AllDigits(s: string) {
    forall i :: 0 <= i < |s| ==> IsDigit(s[i])
  }

  function UpperChar(c: char): (u: char)
    ensures IsLower(c) ==> IsUpper(u)
    ensures !IsLower(c) ==> u == c
  {
    if IsLower(c) then (c as int - 32) as char else c
  }

  /** String.toUpperCase restricted to ASCII letters. */
  function ToUpper(s: string): (r: string)
    ensures |r| == |s|
    ensures forall i :: 0 <= i < |s| ==> r[i] == UpperChar(s[i])
  {
    if s == [] then [] else [UpperChar(s[0])] + ToUpper(s[1..])
  }

  lemma ToUpperIdempotent(s: string)
    ensures ToUpper(ToUpper(s)) == ToUpper(s)
  {
    assert forall i :: 0 <= i < |s| ==> UpperChar(UpperChar(s[i])) == UpperChar(s[i]);
  }

  lemma ToUpperKeepsDigits(s: string)
    requires AllDigits(s)
    ensures ToUpper(s) == s
  {
  }

  lemma ToUpperSlice(s: string, i: int, j: int)
    requires 0 <= i <= j <= |s|
    ensures ToUpper(s)[i..j] == ToUpper(s[i..j])
  {
    var u, m := ToUpper(s)[i..j], s[i..j];
    forall k | 0 <= k < |m|
      ensures u[k] == UpperChar(m[k])
    {
      assert u[k] == ToUpper(s)[i + k];
    }
    UpperPointwise(u, m);
  }

  /** A string that upper-cases another character by character is its ToUpper. */
  lemma UpperPointwise(u: string, m: string)
    requires |u| == |m|
    requires forall k :: 0 <= k < |m| ==> u[k] == UpperChar(m[k])
    ensures u == ToUpper(m)
  {
    var w := ToUpper(m);
    assert forall k :: 0 <= k < |m| ==> u[k] == w[k];
  }

  lemma ToUpperConcat(a: string, b: string)
    ensures ToUpper(a + b) == ToUpper(a) + ToUpper(b)
  {
  }

  function DigitValue(c: char): nat
    requires IsDigit(c)
  {
    c as int - '0' as int
  }

  function DigitChar(d: nat): (c: char)
    requires d < 10
    ensures IsDigit(c) && DigitValue(c) == d
  {
    ('0' as int + d) as char
  }

  /** The value of a decimal digit string (empty string is 0). */
  function DigitsValue(s: string): nat
    requires AllDigits(s)
  {
    if s == [] then 0 else 10 * DigitsValue(s[..|s| - 1]) + DigitValue(s[|s| - 1])
  }

  /** Decimal digits of n without leading zeros ("0" for zero). */
  function NatToString(n: nat): (s: string)
    ensures AllDigits(s) && |s| >= 1
    decreases n
  {
    if n < 10 then [DigitChar(n)] else NatToString(n / 10) + [DigitChar(n % 10)]
  }

  lemma {:induction false} NatToStringValue(n: nat)
    ensures DigitsValue(NatToString(n)) == n
    decreases n
  {
    if n >= 10 {
      var s := NatToString(n);
      assert s[..|s| - 1] == NatToString(n / 10);
      NatToStringValue(n / 10);
    }
  }

  lemma {:induction false} NatToStringLength(n: nat, k: nat)
    requires n < Pow10(k)
    ensures |NatToString(n)| <= (if k == 0 then 1 else k)
    decreases n
  {
    if n >= 10 {
      assert k >= 2;
      NatToStringLength(n / 10, k - 1);
    }
  }

  function Pow10(k: nat): (p: nat)
    ensures p >= 1
  {
    if k == 0 then 1 else 10 * Pow10(k - 1)
  }

  /** n written in decimal, left-padded with zeros to at least w digits. */
  function PadNat(n: nat, w: nat): (s: string)
    ensures AllDigits(s) && |s| >= w
  {
    var d := NatToString(n);
    if |d| >= w then d else seq(w - |d|, _ => '0') + d
  }

  lemma {:induction false} LeadingZerosValue(z: nat, d: string)
    requires AllDigits(d)
    ensures AllDigits(seq(z, _ => '0') + d)
    ensures DigitsValue(seq(z, _ => '0') + d) == DigitsValue(d)
    decreases |d|
  {
    var s := seq(z, _ => '0') + d;
    if d == [] {
      ZerosValue(z);
      assert s == seq(z, _ => '0');
    } else {
      assert s[..|s| - 1] == seq(z, _ => '0') + d[..|d| - 1];
      LeadingZerosValue(z, d[..|d| - 1]);
    }
  }

  lemma {:induction false} ZerosValue(z: nat)
    ensures AllDigits(seq(z, _ => '0'))
    ensures DigitsValue(seq(z, _ => '0')) == 0
    decreases z
  {
    if z > 0 {
      assert seq(z, _ => '0')[..z - 1] == seq(z - 1, _ => '0');
      ZerosValue(z - 1);
    }
  }

  lemma PadNatValue(n: nat, w: nat)
    ensures DigitsValue(PadNat(n, w)) == n
  {
    NatToStringValue(n);
    var d := NatToString(n);
    if |d| < w {
      LeadingZerosValue(w - |d|, d);
    }
  }

  lemma PadNatLength(n: nat, w: nat)
    requires w >= 1 && n < Pow10(w)
    ensures |PadNat(n, w)| == w
  {
    NatToStringLength(n, w);
  }

  /** Index of the first occurrence of c in s, or |s| if there is none. */
  function IndexOf(s: string, c: char): (i: nat)
    ensures i <= |s|
    ensures i < |s| ==> s[i] == c
    ensures forall j :: 0 <= j < i ==> s[j] != c
  {
    if s == [] then 0
    else if s[0] == c then 0
    else 1 + IndexOf(s[1..], c)
  }

  predicate AllZeros(s: string) {
    forall i :: 0 <= i < |s| ==> s[i] == '0'
  }

  /** Removes every leading '0' character (the regular expression ^0+). */
  function DropLeadingZeros(s: string): (r: string)
    ensures |r| <= |s| && r == s[|s| - |r|..]
    ensures r == [] || r[0] != '0'
    ensures AllZeros(s[..|s| - |r|])
  {
    if s != [] && s[0] == '0' then
      var r := DropLeadingZeros(s[1..]);
      assert s[..|s| - |r|] == [s[0]] + s[1..][..|s| - 1 - |r|];
      r
    else s
  }

  /** Dropping the leading zeros of a digit string keeps its value. */
  lemma DropLeadingZerosValue(s: string)
    requires AllDigits(s)
    ensures AllDigits(DropLeadingZeros(s))
    ensures DigitsValue(DropLeadingZeros(s)) == DigitsValue(s)
  {
    var r := DropLeadingZeros(s);
    var k := |s| - |r|;
    assert s == seq(k, _ => '0') + r;
    LeadingZerosValue(k, r);
  }

  /** A digit string is at least its leading digit. */
  lemma {:induction false} LeadingDigitBound(s: string)
    requires |s| >= 1 && AllDigits(s)
    ensures DigitsValue(s) >= DigitValue(s[0])
    decreases |s|
  {
    if |s| > 1 {
      LeadingDigitBound(s[..|s| - 1]);
    } else {
      assert s[..0] == [];
    }
  }

  /** A digit string without a superfluous leading zero is how its value is printed. */
  lemma {:induction false} NatToStringOfDigits(a: string)
    requires |a| >= 1 && AllDigits(a) && (a[0] != '0' || |a| == 1)
    ensures NatToString(DigitsValue(a)) == a
    decreases |a|
  {
    var n := DigitsValue(a);
    var c := a[|a| - 1];
    if |a| == 1 {
      assert a[..0] == [];
      assert a == [DigitChar(DigitValue(c))];
    } else {
      var p := a[..|a| - 1];
      LeadingDigitBound(p);
      NatToStringOfDigits(p);
      assert n / 10 == DigitsValue(p) && n % 10 == DigitValue(c);
      assert a == p + [DigitChar(DigitValue(c))];
    }
  }

  const TwoTo32: int := 0x1_0000_0000
  const TwoTo31: int := 0x8000_0000

  /** Reads a 32-bit pattern as a signed Java int. */
  function ToInt32(u: int): (r: int)
    requires 0 <= u < TwoTo32
    ensures -TwoTo31 <= r < TwoTo31
    ensures (r - u) % TwoTo32 == 0
  {
    if u >= TwoTo31 then u - TwoTo32 else u
  }

  /** The 32-bit pattern of String.hashCode: h = 31 * h + c, wrapping. */
  function HashBits(s: string): (h: int)
    ensures 0 <= h < TwoTo32
  {
    if s == [] then 0 else (31 * HashBits(s[..|s| - 1]) + s[|s| - 1] as int) % TwoTo32
  }

  /** The polynomial String.hashCode documents, s[0]*31^(n-1) + ... + s[n-1], without wrapping. */
  function PolyHash(s: string): int {
    if s == [] then 0 else 31 * PolyHash(s[..|s| - 1]) + s[|s| - 1] as int
  }

  /**
   * String.hashCode: the documented polynomial reduced to a signed 32-bit
   * int, and the polynomial itself when that fits.
   */
  function StringHash(s: string): (h: int)
    ensures -TwoTo31 <= h < TwoTo31
    ensures (h - PolyHash(s)) % TwoTo32 == 0
    ensures 0 <= PolyHash(s) < TwoTo31 ==> h == PolyHash(s)
  {
    var u := HashBits(s);
    var h := ToInt32(u);
    HashBitsIsPolyHash(s);
    CongruentTrans(h, u, PolyHash(s));
    if 0 <= PolyHash(s) < TwoTo31 then
      CongruentInRange(h, PolyHash(s));
      h
    else h
  }

  /** Wrapping at every step leaves the same residue as wrapping once at the end. */
  lemma {:induction false} HashBitsIsPolyHash(s: string)
    ensures (HashBits(s) - PolyHash(s)) % TwoTo32 == 0
    decreases |s|
  {
    if s != [] {
      var p := s[..|s| - 1];
      HashBitsIsPolyHash(p);
      var a, b := HashBits(p), PolyHash(p);
      var q := (a - b) / TwoTo32;
      assert a - b == TwoTo32 * q;
      var x := 31 * a + s[|s| - 1] as int;
      assert x - (31 * b + s[|s| - 1] as int) == TwoTo32 * (31 * q);
      assert HashBits(s) == x % TwoTo32;
      assert HashBits(s) - PolyHash(s) == TwoTo32 * (31 * q - x / TwoTo32);
      MultipleOfWidth(31 * q - x / TwoTo32);
    }
  }

  /** Congruence modulo 2^32 is transitive. */
  lemma CongruentTrans(a: int, b: int, c: int)
    requires (a - b) % TwoTo32 == 0 && (b - c) % TwoTo32 == 0
    ensures (a - c) % TwoTo32 == 0
  {
    var q1, q2 := (a - b) / TwoTo32, (b - c) / TwoTo32;
    assert a - c == TwoTo32 * (q1 + q2);
    MultipleOfWidth(q1 + q2);
  }

  /** A signed int and a non-negative int below 2^31 that are congruent modulo 2^32 are equal. */
  lemma CongruentInRange(h: int, p: int)
    requires -TwoTo31 <= h < TwoTo31 && 0 <= p < TwoTo31 && (h - p) % TwoTo32 == 0
    ensures h == p
  {
    var q := (h - p) / TwoTo32;
    assert h - p == TwoTo32 * q;
  }

  lemma MultipleOfWidth(t: int)
    ensures (TwoTo32 * t) % TwoTo32 == 0
  {
  }

  /** A digit string of length k denotes a number below 10^k. */
  lemma {:induction false} DigitsValueBelowPow10(s: string)
    requires AllDigits(s)
    ensures DigitsValue(s) < Pow10(|s|)
    decreases |s|
  {
    if s != [] {
      DigitsValueBelowPow10(s[..|s| - 1]);
    }
  }
}
