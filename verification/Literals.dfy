/** Integer literals: the digit-string comparison orders numbers, so it rejects exactly what overflows. */
module Literals {
  import opened Words
  import opened Typing

  /** INTEGER in the grammar: 0, or digits without a leading zero. */
  predicate IsInteger(text: string) {
    && text != []
    && (forall c | c in text :: '0' <= c <= '9')
    && (|text| > 1 ==> text[0] != '0')
  }

  predicate AllDigits(text: string) {
    forall i | 0 <= i < |text| :: '0' <= text[i] <= '9'
  }

  function Pow10(n: nat): nat {
    if n == 0 then 1 else 10 * Pow10(n - 1)
  }

  lemma {:induction false} NumeralBound(text: string)
    requires AllDigits(text)
    ensures 0 <= Numeral(text) < Pow10(|text|)
    decreases |text|
  {
    if text != [] { NumeralBound(text[..|text| - 1]); }
  }

  lemma {:induction false} NumeralAppend(a: string, b: string)
    ensures Numeral(a + b) == Numeral(a) * Pow10(|b|) + Numeral(b)
    decreases |b|
  {
    if b == [] {
      assert a + b == a;
    } else {
      var n := |b| - 1;
      assert (a + b)[..|a + b| - 1] == a + b[..n];
      NumeralAppend(a, b[..n]);
      assert Numeral(a) * Pow10(|b|) == 10 * (Numeral(a) * Pow10(n));
    }
  }

  lemma NumeralStep(a: string, c: char)
    ensures Numeral(a + [c]) == 10 * Numeral(a) + Digit(c)
  {
    assert (a + [c])[..|a|] == a;
  }

  /** A number without a leading zero needs all its digits. */
  lemma LongIsLarge(text: string)
    requires IsInteger(text) && |text| > 1
    ensures Numeral(text) >= Pow10(|text| - 1)
  {
    assert text == text[..1] + text[1..];
    assert text[0] in text;
    forall i | 0 <= i < |text[1..]| ensures '0' <= text[1..][i] <= '9' { assert text[i + 1] in text; }
    NumeralAppend(text[..1], text[1..]);
    NumeralBound(text[1..]);
    assert Numeral(text[..1]) == Digit(text[0]) >= 1 by { assert Numeral(text[..1][..0]) == 0; }
  }

  lemma {:induction false} Pow10Grows(m: nat, n: nat)
    requires m <= n
    ensures Pow10(m) <= Pow10(n)
    decreases n
  {
    if m < n { Pow10Grows(m, n - 1); }
  }

  /** From the first differing digit on, the comparison is the order of the numbers. */
  lemma {:induction false} CompareFromOrders(s: string, t: string, i: nat)
    requires |s| == |t| && i <= |s| && s[..i] == t[..i] && AllDigits(s) && AllDigits(t)
    ensures CompareFrom(s, t, i) == if Numeral(s) < Numeral(t) then -1 else if Numeral(s) == Numeral(t) then 0 else 1
    decreases |s| - i
  {
    if i == |s| {
      assert s == s[..i] && t == t[..i];
    } else if s[i] == t[i] {
      assert s[..i + 1] == s[..i] + [s[i]] && t[..i + 1] == t[..i] + [t[i]];
      CompareFromOrders(s, t, i + 1);
    } else {
      DifferAt(s, i);
      DifferAt(t, i);
      var p := Pow10(|s| - i - 1);
      if s[i] < t[i] { DigitDecides(Digit(s[i]), Digit(t[i]), p); } else { DigitDecides(Digit(t[i]), Digit(s[i]), p); }
    }
  }

  lemma DigitDecides(a: int, b: int, p: nat)
    requires a < b
    ensures (a + 1) * p <= b * p && (a + 1) * p == a * p + p
  {
  }

  /** A numeral split at digit i. */
  lemma DifferAt(s: string, i: nat)
    requires i < |s| && AllDigits(s)
    ensures var p := Pow10(|s| - i - 1);
            var high := Numeral(s[..i]) * (10 * p);
            high + Digit(s[i]) * p <= Numeral(s) < high + Digit(s[i]) * p + p
  {
    hide Numeral;
    var tail := s[i + 1..];
    assert s == s[..i + 1] + tail;
    NumeralAppend(s[..i + 1], tail);
    assert s[..i + 1] == s[..i] + [s[i]];
    NumeralStep(s[..i], s[i]);
    NumeralBound(tail);
    Distribute(Numeral(s[..i]), Digit(s[i]), Pow10(|tail|));
  }

  lemma Distribute(h: int, d: int, p: int)
    ensures (10 * h + d) * p == h * (10 * p) + d * p
  {
  }

  /** compare agrees with the order of the numbers on integers of any length. */
  lemma CompareOrders(s: string, t: string)
    requires IsInteger(s) && IsInteger(t)
    ensures Compare(s, t) == if Numeral(s) < Numeral(t) then -1 else if Numeral(s) == Numeral(t) then 0 else 1
  {
    forall i | 0 <= i < |s| ensures '0' <= s[i] <= '9' { assert s[i] in s; }
    forall i | 0 <= i < |t| ensures '0' <= t[i] <= '9' { assert t[i] in t; }
    if |s| == |t| {
      CompareFromOrders(s, t, 0);
    } else if |s| < |t| {
      ShorterIsSmaller(s, t);
    } else {
      ShorterIsSmaller(t, s);
    }
  }

  lemma ShorterIsSmaller(s: string, t: string)
    requires IsInteger(s) && IsInteger(t) && |s| < |t| && AllDigits(s)
    ensures Numeral(s) < Numeral(t)
  {
    NumeralBound(s);
    LongIsLarge(t);
    Pow10Grows(|s|, |t| - 1);
  }

  lemma NumeralEmpty()
    ensures Numeral("") == 0
  {
  }

  lemma MaxText()
    ensures IsInteger(INT_MAX_TEXT) && Numeral(INT_MAX_TEXT) == TWO_31 - 1
  {
    hide Numeral;
    assert Numeral("") == 0 by { NumeralEmpty(); }
    NumeralStep("", '2');
    NumeralStep("2", '1');
    NumeralStep("21", '4');
    NumeralStep("214", '7');
    NumeralStep("2147", '4');
    NumeralStep("21474", '8');
    NumeralStep("214748", '3');
    NumeralStep("2147483", '6');
    NumeralStep("21474836", '4');
    NumeralStep("214748364", '7');
    assert "" + ['2'] == "2" && "2" + ['1'] == "21" && "21" + ['4'] == "214" && "214" + ['7'] == "2147";
    assert "2147" + ['4'] == "21474" && "21474" + ['8'] == "214748" && "214748" + ['3'] == "2147483";
    assert "2147483" + ['6'] == "21474836" && "21474836" + ['4'] == "214748364";
    assert "214748364" + ['7'] == INT_MAX_TEXT;
  }

  /** A literal is rejected exactly when its number exceeds the largest int. */
  lemma RejectedWhenTooLarge(text: string)
    requires IsInteger(text)
    ensures TooLarge(text) <==> Numeral(text) > 2147483647
  {
    MaxText();
    CompareOrders(INT_MAX_TEXT, text);
  }
}
