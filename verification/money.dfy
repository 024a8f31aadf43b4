/**
 * Monetary fields (lesson rate, outstanding fees, payments): text of the
 * form `digits[.d[d]]`, stored in a canonical `dollars.cc` layout.
 */
module Monies {
  import opened Wrappers
  import opened Text

  /** The message shown for invalid monetary text, e.g. when a stored rate is rejected. */
  const MessageConstraints: string :=
    "Money-related fields should be formatted with a decimal point '.' "
    + "as a separator between the dollars and cents, "
    + "and adhere to the following constraints:\n"
    + "1. Money-related fields should only contain numbers and at most one decimal point.\n"
    + "2. Money-related fields should not start or end with a decimal point"
    + " and should have at most two decimal places."

  datatype Money = Money(value: string)

  /** The regular expression ^[0-9]+(\.[0-9]{1,2})?$. */
  predicate MatchesMoney(s: string) {
    var k := IndexOf(s, '.');
    1 <= k && AllDigits(s[..k])
    && (k == |s| || (2 <= |s| - k <= 3 && AllDigits(s[k + 1..])))
  }

  /**
   * The constraints MessageConstraints lists, stated directly: only digits
   * and decimal points, at most one point, not at either end, and at most
   * two places after it.
   */
  predicate MeetsConstraints(s: string) {
    s != []
    && (forall i :: 0 <= i < |s| ==> IsDigit(s[i]) || s[i] == '.')
    && (forall i, j :: 0 <= i < j < |s| && s[i] == '.' ==> s[j] != '.')
    && s[0] != '.' && s[|s| - 1] != '.'
    && (forall i :: 0 <= i < |s| && s[i] == '.' ==> |s| - i <= 3)
  }

  /** The pattern accepts exactly the texts meeting the documented constraints. */
  lemma MatchesIffConstraints(s: string)
    ensures MatchesMoney(s) <==> MeetsConstraints(s)
  {
    var k := IndexOf(s, '.');
    if MatchesMoney(s) {
      forall i | k < i < |s|
        ensures IsDigit(s[i])
      {
        assert s[i] == s[k + 1..][i - k - 1];
      }
      forall i | 0 <= i < k
        ensures IsDigit(s[i])
      {
        assert s[i] == s[..k][i];
      }
    }
    if MeetsConstraints(s) {
      assert k >= 1;
      forall i | 0 <= i < k
        ensures IsDigit(s[..k][i])
      {
        assert s[..k][i] == s[i];
      }
      if k < |s| {
        var t := s[k + 1..];
        forall i | 0 <= i < |t|
          ensures IsDigit(t[i])
        {
          assert t[i] == s[k + 1 + i];
        }
      }
    }
  }

  /**
   * Money.isValidMonetaryField: empty, or matching the pattern. Valid text
   * is exactly the empty text and the text meeting the documented
   * constraints.
   */
  function IsValidMonetaryField(s: string): (r: bool)
    ensures r <==> s == [] || MeetsConstraints(s)
    ensures r ==> forall i :: 0 <= i < |s| ==> IsDigit(s[i]) || s[i] == '.'
    ensures r && s != [] ==> s[0] != '.' && s[|s| - 1] != '.'
  {
    MatchesIffConstraints(s);
    s == [] || MatchesMoney(s)
  }

  function FillEmptyString(s: string): (r: string)
    ensures r != []
    ensures s != [] ==> r == s
  {
    if s == [] then "0.00" else s
  }

  /** Drops leading zeros only when there is one; the same as dropping them always. */
  function StripIfLeadingZero(s: string): (r: string)
    ensures r == DropLeadingZeros(s)
  {
    if |s| > 0 && s[0] == '0' then DropLeadingZeros(s) else s
  }

  /** Puts back the zero before a leading '.', and, as intended, for an empty text. */
  function PrefixZero(f: string): (r: string)
    ensures r != []
  {
    if f == [] || f[0] == '.' then "0" + f else f
  }

  /** The step as written: an empty text is left empty. */
  function PrefixZeroAsWritten(f: string): string {
    if |f| > 0 && f[0] == '.' then "0" + f else f
  }

  /** Appends ".00" to a non-empty text without a '.'. */
  function AppendPlaces(f: string): (r: string)
    ensures f != [] ==> '.' in r
  {
    if f != [] && IndexOf(f, '.') == |f| then
      assert (f + ".00")[|f|] == '.';
      f + ".00"
    else
      assert f != [] ==> f[IndexOf(f, '.')] == '.';
      f
  }

  /** Appends "0" when the ORIGINAL text v has a single decimal place. */
  function PadOnePlace(v: string, f: string): (r: string)
    ensures '.' in f ==> '.' in r
  {
    if |v| >= 2 && v[|v| - 2] == '.' then f + "0" else f
  }

  /**
   * Money.formattedValue as written. An amount made only of zeros ("0",
   * "000") loses every character: see ZeroAmountLosesValue.
   */
  function FormattedValueAsWritten(v: string): (r: string)
    ensures DropLeadingZeros(v) != [] ==> r == FormattedValue(v)
  {
    PadOnePlace(v, AppendPlaces(PrefixZeroAsWritten(StripIfLeadingZero(v))))
  }

  /**
   * The intended formatting: the zero that stripping removed is put back
   * also when nothing is left after stripping.
   */
  function FormattedValue(v: string): (r: string)
    ensures r != [] && '.' in r
  {
    PadOnePlace(v, AppendPlaces(PrefixZero(StripIfLeadingZero(v))))
  }

  /**
   * The Money constructor, using the intended formatting. Invalid text is
   * refused by a bare argument check that carries no message, so the
   * failure is None here.
   */
  function Make(s: string): (r: Option<Money>)
    ensures r.None? <==> !IsValidMonetaryField(s)
    ensures r.Some? ==> Wf(r.value)
    ensures r.Some? ==> CentsOf(r.value.value) == (if s == [] then 0 else CentsOf(s))
  {
    if !IsValidMonetaryField(s) then None
    else
      FormattedIsCanonical(FillEmptyString(s));
      FormattedKeepsCents(FillEmptyString(s));
      ZeroDollarsCents();
      Some(Money(FormattedValue(FillEmptyString(s))))
  }

  /** The invariant of a constructed amount. */
  predicate Wf(m: Money) {
    Canonical(m.value) && MatchesMoney(m.value)
  }

  /** Money.equals compares the stored texts, which between constructed amounts is comparing amounts. */
  function Equals(a: Money, b: Money): (r: bool)
    ensures Wf(a) && Wf(b) ==> (r <==> CentsOf(a.value) == CentsOf(b.value))
  {
    if Wf(a) && Wf(b) && CentsOf(a.value) == CentsOf(b.value) then
      CanonicalInjective(a.value, b.value);
      a.value == b.value
    else a.value == b.value
  }

  // ---------------------------------------------------------------------
  // The stored layout and the amount it denotes
  // ---------------------------------------------------------------------

  /** `dollars.cc` with no superfluous leading zero in the dollars. */
  predicate Canonical(t: string) {
    |t| >= 4 && t[|t| - 3] == '.'
    && AllDigits(t[..|t| - 3]) && AllDigits(t[|t| - 2..])
    && (t[0] != '0' || |t| == 4)
  }

  /** The amount in cents denoted by a valid, non-empty monetary text. */
  function CentsOf(s: string): nat
    requires MatchesMoney(s)
  {
    var k := IndexOf(s, '.');
    var dollars := DigitsValue(s[..k]);
    if k == |s| then 100 * dollars
    else if |s| - k == 2 then 100 * dollars + 10 * DigitValue(s[k + 1])
    else 100 * dollars + DigitsValue(s[k + 1..])
  }

  // ---------------------------------------------------------------------
  // Lemmas
  // ---------------------------------------------------------------------

  /** Leading zeros of a digit string followed by an optional fraction. */
  lemma {:induction false} DropZerosBeforeFraction(a: string, b: string)
    requires AllDigits(a) && (b == [] || b[0] == '.')
    ensures DropLeadingZeros(a + b) ==
      (if AllZeros(a) then b else DropLeadingZeros(a) + b)
    decreases |a|
  {
    if a == [] {
      assert a + b == b;
    } else if a[0] == '0' {
      ZeroHeadStep(a, b);
      DropZerosBeforeFraction(a[1..], b);
    } else {
      NonZeroHead(a, b);
    }
  }

  /** A leading zero is dropped from a + b as from a alone. */
  lemma ZeroHeadStep(a: string, b: string)
    requires |a| >= 1 && a[0] == '0'
    ensures DropLeadingZeros(a + b) == DropLeadingZeros(a[1..] + b)
    ensures DropLeadingZeros(a) == DropLeadingZeros(a[1..])
    ensures AllZeros(a) <==> AllZeros(a[1..])
  {
    var s := a + b;
    assert s[0] == '0' && s[1..] == a[1..] + b;
    AllZerosCons(a);
  }

  /** Nothing is dropped from a text that starts with a non-zero character. */
  lemma NonZeroHead(a: string, b: string)
    requires |a| >= 1 && a[0] != '0'
    ensures DropLeadingZeros(a + b) == a + b && DropLeadingZeros(a) == a
    ensures !AllZeros(a)
  {
    assert (a + b)[0] == a[0];
  }

  lemma AllZerosCons(a: string)
    requires |a| >= 1 && a[0] == '0'
    ensures AllZeros(a) <==> AllZeros(a[1..])
  {
    if AllZeros(a[1..]) {
      forall i | 0 <= i < |a| ensures a[i] == '0' {
        if i > 0 { assert a[i] == a[1..][i - 1]; }
      }
    }
  }

  lemma IndexOfPrefix(t: string, c: char, k: nat)
    requires k <= |t| && forall j :: 0 <= j < k ==> t[j] != c
    requires k < |t| ==> t[k] == c
    ensures IndexOf(t, c) == k
  {
  }

  /** The structure of a valid non-empty text: digits, then an optional fraction. */
  lemma SplitMoney(s: string) returns (a: string, f: string)
    requires MatchesMoney(s)
    ensures s == a + f && a == s[..IndexOf(s, '.')] && f == s[IndexOf(s, '.')..]
    ensures |a| >= 1 && AllDigits(a)
    ensures IsFraction(f)
  {
    var k := IndexOf(s, '.');
    a, f := s[..k], s[k..];
    assert s == a + f;
    if f != [] {
      assert f[1..] == s[k + 1..];
    }
  }

  /** The dollars left once leading zeros are dropped: at least one digit. */
  lemma DollarsHead(a: string) returns (head: string)
    requires |a| >= 1 && AllDigits(a)
    ensures head == (if AllZeros(a) then "0" else DropLeadingZeros(a))
    ensures |head| >= 1 && AllDigits(head) && DigitsValue(head) == DigitsValue(a)
    ensures head[0] != '0' || |head| == 1
  {
    head := if AllZeros(a) then "0" else DropLeadingZeros(a);
    DropLeadingZerosValue(a);
    if AllZeros(a) {
      assert a == seq(|a|, _ => '0');
      ZerosValue(|a|);
      assert DigitsValue("0") == 0;
    } else {
      assert DropLeadingZeros(a) != [] by {
        assert a[..|a|] == a;
      }
    }
  }

  /** The first two steps: leading zeros dropped, and a zero put back if needed. */
  lemma StripThenPrefix(a: string, f: string) returns (head: string)
    requires |a| >= 1 && AllDigits(a) && (f == [] || f[0] == '.')
    ensures |head| >= 1 && AllDigits(head) && DigitsValue(head) == DigitsValue(a)
    ensures head[0] != '0' || |head| == 1
    ensures PrefixZero(StripIfLeadingZero(a + f)) == head + f
  {
    DropZerosBeforeFraction(a, f);
    head := DollarsHead(a);
    var f1 := StripIfLeadingZero(a + f);
    assert f1 == (if AllZeros(a) then f else head + f);
    PrefixZeroStep(head, f, f1, AllZeros(a));
  }

  /** Only a text left without dollars gets its zero back. */
  lemma PrefixZeroStep(head: string, f: string, f1: string, zeros: bool)
    requires |head| >= 1 && AllDigits(head) && (f == [] || f[0] == '.')
    requires zeros ==> head == "0" && f1 == f
    requires !zeros ==> f1 == head + f
    ensures PrefixZero(f1) == head + f
  {
    if !zeros {
      assert f1[0] == head[0] && IsDigit(head[0]);
    }
  }

  /** The third step: ".00" is appended exactly when there is no fraction. */
  lemma AppendStep(head: string, f: string)
    requires |head| >= 1 && AllDigits(head) && (f == [] || f[0] == '.')
    ensures AppendPlaces(head + f) == (if f == [] then head + ".00" else head + f)
  {
    var g := head + f;
    assert forall j :: 0 <= j < |head| ==> g[j] == head[j];
    IndexOfPrefix(g, '.', |head|);
  }

  /** The last step looks at the original text: one decimal place gets a "0". */
  lemma PadStep(a: string, f: string, g: string)
    requires |a| >= 1 && AllDigits(a)
    requires IsFraction(f)
    ensures PadOnePlace(a + f, g) == (if |f| == 2 then g + "0" else g)
  {
    var v := a + f;
    if f == [] {
      if |v| >= 2 { assert v[|v| - 2] == a[|a| - 2]; }
    } else if |f| == 3 {
      assert v[|v| - 2] == f[1] == f[1..][0];
    } else {
      assert v[|v| - 2] == f[0];
    }
  }

  /** A fraction of one or two places, or none. */
  predicate IsFraction(f: string) {
    f == [] || (f[0] == '.' && 2 <= |f| <= 3 && AllDigits(f[1..]))
  }

  /** The fraction the formatting writes: always two places. */
  function TwoPlaces(f: string): string {
    if f == [] then ".00" else if |f| == 2 then f + "0" else f
  }

  /** The formatted text is the dollars without leading zeros, then two places. */
  lemma FormattedParts(a: string, f: string) returns (head: string, c: string)
    requires |a| >= 1 && AllDigits(a) && IsFraction(f)
    ensures |head| >= 1 && AllDigits(head) && DigitsValue(head) == DigitsValue(a)
    ensures head[0] != '0' || |head| == 1
    ensures |c| == 2 && AllDigits(c) && DigitsValue(c) == FractionCents(f)
    ensures FormattedValue(a + f) == head + "." + c
  {
    head := FormattedHead(a, f);
    c := TwoPlacesCents(f);
    AppendAssoc(head, ".", c);
  }

  lemma FormattedHead(a: string, f: string) returns (head: string)
    requires |a| >= 1 && AllDigits(a) && IsFraction(f)
    ensures |head| >= 1 && AllDigits(head) && DigitsValue(head) == DigitsValue(a)
    ensures head[0] != '0' || |head| == 1
    ensures FormattedValue(a + f) == head + TwoPlaces(f)
  {
    head := StripThenPrefix(a, f);
    AppendStep(head, f);
    var g := AppendPlaces(head + f);
    assert FormattedValue(a + f) == PadOnePlace(a + f, g);
    PadStep(a, f, g);
    if f == [] {
      assert g == head + TwoPlaces(f);
    } else if |f| == 2 {
      AppendAssoc(head, f, "0");
    } else {
      assert g == head + TwoPlaces(f);
    }
  }

  lemma AppendAssoc(a: string, b: string, c: string)
    ensures (a + b) + c == a + (b + c)
  {
  }

  /** The cents of a text of the form dollars.cc. */
  lemma TwoPlaceCents(head: string, c: string)
    requires |head| >= 1 && AllDigits(head) && |c| == 2 && AllDigits(c)
    requires head[0] != '0' || |head| == 1
    ensures Canonical(head + "." + c)
    ensures MatchesMoney(head + "." + c)
    ensures CentsOf(head + "." + c) == 100 * DigitsValue(head) + DigitsValue(c)
  {
    var t := head + "." + c;
    IndexOfPrefix(t, '.', |head|);
    assert t[..|head|] == head && t[|head| + 1..] == c;
    assert t[..|t| - 3] == head && t[|t| - 2..] == c;
  }

  /** The cents contributed by an optional fraction of one or two places. */
  function FractionCents(f: string): nat
    requires IsFraction(f)
  {
    if f == [] then 0
    else if |f| == 2 then 10 * DigitValue(f[1])
    else DigitsValue(f[1..])
  }

  lemma SplitCents(v: string, a: string, f: string)
    requires MatchesMoney(v) && v == a + f && |a| >= 1 && AllDigits(a) && IsFraction(f)
    ensures CentsOf(v) == 100 * DigitsValue(a) + FractionCents(f)
  {
    var k := |a|;
    assert forall j :: 0 <= j < k ==> v[j] == a[j];
    IndexOfPrefix(v, '.', k);
    assert v[..k] == a;
    if f != [] {
      assert v[k + 1..] == f[1..];
    }
  }

  /** The two places the formatting writes denote the same cents as the fraction. */
  lemma TwoPlacesCents(f: string) returns (c: string)
    requires IsFraction(f)
    ensures TwoPlaces(f) == "." + c
    ensures |c| == 2 && AllDigits(c) && DigitsValue(c) == FractionCents(f)
  {
    c := TwoPlaces(f)[1..];
    DigitsValueBound(c);
    if |f| == 2 {
      assert c == [f[1], '0'];
    }
  }

  /** Formatting a valid non-empty amount gives the canonical layout. */
  lemma FormattedIsCanonical(v: string)
    requires MatchesMoney(v)
    ensures Canonical(FormattedValue(v)) && MatchesMoney(FormattedValue(v))
  {
    var a, f := SplitMoney(v);
    var head, c := FormattedParts(a, f);
    TwoPlaceCents(head, c);
  }

  /** Formatting a valid non-empty amount keeps the number of cents. */
  lemma FormattedKeepsCents(v: string)
    requires MatchesMoney(v)
    ensures MatchesMoney(FormattedValue(v))
    ensures CentsOf(FormattedValue(v)) == CentsOf(v)
  {
    var a, f := SplitMoney(v);
    var head, c := FormattedParts(a, f);
    var t := head + "." + c;
    RebuiltKeepsCents(v, a, f, head, c);
    assert FormattedValue(v) == t;
  }

  /** The text rebuilt from the stripped dollars and two places denotes the same cents. */
  lemma RebuiltKeepsCents(v: string, a: string, f: string, head: string, c: string)
    requires MatchesMoney(v) && v == a + f && |a| >= 1 && AllDigits(a) && IsFraction(f)
    requires |head| >= 1 && AllDigits(head) && DigitsValue(head) == DigitsValue(a)
    requires head[0] != '0' || |head| == 1
    requires |c| == 2 && AllDigits(c) && DigitsValue(c) == FractionCents(f)
    ensures MatchesMoney(head + "." + c) && CentsOf(head + "." + c) == CentsOf(v)
  {
    TwoPlaceCents(head, c);
    SplitCents(v, a, f);
  }

  /** Formatting a stored amount again changes nothing. */
  lemma FormattedIdempotent(v: string)
    requires MatchesMoney(v)
    ensures FormattedValue(FormattedValue(v)) == FormattedValue(v)
  {
    FormattedIsCanonical(v);
    CanonicalIsFixed(FormattedValue(v));
  }

  /** A canonical text is left as it is. */
  lemma CanonicalIsFixed(t: string)
    requires Canonical(t)
    ensures FormattedValue(t) == t
  {
    var head := t[..|t| - 3];
    var f := t[|t| - 3..];
    assert t == head + f;
    assert AllDigits(head);
    DropZerosBeforeFraction(head, f);
    var f1 := StripIfLeadingZero(t);
    if AllZeros(head) {
      assert head == "0" by {
        assert t[0] == head[0] == '0';
      }
      assert f1 == f;
    } else {
      assert DropLeadingZeros(head) == head;
    }
    assert PrefixZero(f1) == t;
    IndexOfPrefix(t, '.', |t| - 3);
    assert t[|t| - 2] != '.';
  }

  lemma CanonicalCents(t: string)
    requires Canonical(t)
    ensures MatchesMoney(t)
    ensures CentsOf(t) == 100 * DigitsValue(t[..|t| - 3]) + DigitsValue(t[|t| - 2..])
  {
    IndexOfPrefix(t, '.', |t| - 3);
  }

  /** Two canonical texts for the same amount are the same text. */
  lemma CanonicalInjective(t1: string, t2: string)
    requires Canonical(t1) && Canonical(t2)
    requires MatchesMoney(t1) && MatchesMoney(t2)
    requires CentsOf(t1) == CentsOf(t2)
    ensures t1 == t2
  {
    CanonicalCents(t1);
    CanonicalCents(t2);
    var c1, c2 := t1[|t1| - 2..], t2[|t2| - 2..];
    DigitsValueBound(c1);
    DigitsValueBound(c2);
    var h1, h2 := t1[..|t1| - 3], t2[..|t2| - 3];
    HundredsUnique(DigitsValue(h1), DigitsValue(c1), DigitsValue(h2), DigitsValue(c2));
    TwoDigitsInjective(c1, c2);
    NoLeadingZeroInjective(h1, h2);
    assert t1 == h1 + "." + c1;
    assert t2 == h2 + "." + c2;
  }

  lemma HundredsUnique(x: nat, y: nat, u: nat, w: nat)
    requires y < 100 && w < 100 && 100 * x + y == 100 * u + w
    ensures x == u && y == w
  {
  }

  lemma DigitsValueBound(s: string)
    requires AllDigits(s) && |s| == 2
    ensures DigitsValue(s) == 10 * DigitValue(s[0]) + DigitValue(s[1]) < 100
  {
    var p := s[..1];
    assert p[..0] == [] && p[0] == s[0];
    assert DigitsValue(p) == DigitValue(s[0]);
  }

  lemma TwoDigitsInjective(a: string, b: string)
    requires AllDigits(a) && AllDigits(b) && |a| == 2 && |b| == 2
    requires DigitsValue(a) == DigitsValue(b)
    ensures a == b
  {
    DigitsValueBound(a);
    DigitsValueBound(b);
    DigitInjective(a[1], b[1]);
    DigitInjective(a[0], b[0]);
  }

  lemma DigitInjective(c: char, d: char)
    requires IsDigit(c) && IsDigit(d) && DigitValue(c) == DigitValue(d)
    ensures c == d
  {
  }

  /** Digit strings without a superfluous leading zero are determined by their value. */
  lemma NoLeadingZeroInjective(a: string, b: string)
    requires |a| >= 1 && |b| >= 1 && AllDigits(a) && AllDigits(b)
    requires a[0] != '0' || |a| == 1
    requires b[0] != '0' || |b| == 1
    requires DigitsValue(a) == DigitsValue(b)
    ensures a == b
  {
    NatToStringOfDigits(a);
    NatToStringOfDigits(b);
  }

  lemma ZeroDollarsCents()
    ensures MatchesMoney("0.00") && CentsOf("0.00") == 0
  {
    var s := "0.00";
    IndexOfPrefix(s, '.', 1);
    assert s[..1] == "0" && s[2..] == "00";
    assert DigitsValue("0") == 0;
    DigitsValueBound("00");
  }

  /** The empty amount becomes zero dollars. */
  lemma EmptyIsZero()
    ensures Make("") == Some(Money("0.00"))
  {
    var s := "0.00";
    assert MatchesMoney(s) by { IndexOfPrefix(s, '.', 1); assert s[..1] == "0"; assert s[2..] == "00"; }
    CanonicalIsFixed(s);
  }

  /**
   * The formatting as written turns the valid amount "0" into the empty
   * text, which no longer denotes a number.
   */
  lemma ZeroAmountLosesValue()
    ensures IsValidMonetaryField("0")
    ensures FormattedValueAsWritten(FillEmptyString("0")) == ""
    ensures FormattedValue("0") == "0.00"
  {
    assert IndexOf("0", '.') == 1 by { IndexOfPrefix("0", '.', 1); }
    assert "0"[..1] == "0";
    assert DropLeadingZeros("0") == "";
    IndexOfPrefix("0", '.', 1);
  }

  /** Away from the all-zero amounts the two formattings agree. */
  lemma AsWrittenAgreesOffZero(v: string)
    requires MatchesMoney(v) && !AllZeros(v)
    ensures FormattedValueAsWritten(v) == FormattedValue(v)
  {
    assert DropLeadingZeros(v) != [] by {
      assert v[..|v|] == v;
    }
  }
}
