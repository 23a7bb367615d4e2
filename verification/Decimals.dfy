/** Numbers in decimal, written and read. */
module Decimals {

  predicate Digits(s: string) { forall i | 0 <= i < |s| :: '0' <= s[i] <= '9' }

  function Decimal(n: nat): (s: string)
    ensures s != "" && Digits(s)
  {
    (if n < 10 then "" else Decimal(n / 10)) + [('0' as int + n % 10) as char]
  }

  function ValueOf(s: string): nat
    requires Digits(s)
  {
    if s == "" then 0 else ValueOf(s[..|s| - 1]) * 10 + (s[|s| - 1] as int - '0' as int)
  }

  lemma {:induction false} DecimalReads(n: nat)
    ensures ValueOf(Decimal(n)) == n
  {
    var s := Decimal(n);
    if n < 10 {
      assert s == [s[0]] && s[..0] == "";
    } else {
      DecimalReads(n / 10);
      assert s[..|s| - 1] == Decimal(n / 10);
    }
  }

  /** A number has no other spelling without a leading zero. */
  lemma {:induction false} DecimalIsOnly(s: string)
    requires Digits(s) && s != "" && (|s| == 1 || s[0] != '0')
    ensures Decimal(ValueOf(s)) == s && (s[0] != '0' ==> ValueOf(s) > 0)
    decreases |s|
  {
    hide Decimal;
    var front, d := s[..|s| - 1], s[|s| - 1];
    assert s == front + [d];
    if |s| == 1 {
      OneMoreDigit(0, d);
      assert front == "" && s == [d];
    } else {
      assert front[0] == s[0];
      DecimalIsOnly(front);
      OneMoreDigit(ValueOf(front), d);
    }
  }

  lemma OneMoreDigit(v: nat, d: char)
    requires '0' <= d <= '9'
    ensures Decimal(v * 10 + (d as int - '0' as int)) == (if v == 0 then "" else Decimal(v)) + [d]
  {
    var n := v * 10 + (d as int - '0' as int);
    assert n / 10 == v && n % 10 == d as int - '0' as int;
  }

  /** No leading zero, and no more digits than needed. */
  lemma {:induction false} DecimalIsShort(n: nat)
    ensures |Decimal(n)| == 1 || (n >= 10 && Decimal(n)[0] != '0')
    ensures n < 1000 ==> |Decimal(n)| <= 3
    ensures n < 100 ==> |Decimal(n)| <= 2
    ensures n != 0 ==> Decimal(n)[0] != '0'
  {
    if n < 10 {
    } else {
      DecimalIsShort(n / 10);
    }
  }
}
