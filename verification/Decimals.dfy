/** Decimal numbers as text. */
module Decimals {

  predicate IsDigit(c: char) { '0' <= c <= '9' }

  function DigitOf(n: nat): (c: char)
    requires n < 10
    ensures IsDigit(c) && c as int - '0' as int == n
  {
    ('0' as int + n) as char
  }

  /** strconv.Itoa of a number that is not negative. */
  function Itoa(n: nat): (s: string)
    ensures s != [] && forall k :: 0 <= k < |s| ==> IsDigit(s[k])
  {
    if n < 10 then [DigitOf(n)] else Itoa(n / 10) + [DigitOf(n % 10)]
  }

  /** The number a text of digits reads as. */
  function Value(s: string): nat
    requires forall k :: 0 <= k < |s| ==> IsDigit(s[k])
  {
    if s == [] then 0
    else
      assert IsDigit(s[|s| - 1]);
      10 * Value(s[..|s| - 1]) + (s[|s| - 1] as int - '0' as int)
  }

  lemma {:induction false} ItoaReads(n: nat)
    ensures Value(Itoa(n)) == n
  {
    var s := Itoa(n);
    if n < 10 {
      assert s[..0] == [];
    } else {
      ItoaReads(n / 10);
      assert s[..|s| - 1] == Itoa(n / 10);
    }
  }

  /** A text of digits that does not begin with a zero is how its number is written. */
  lemma {:induction false} ItoaOfValue(s: string)
    requires s != [] && s[0] != '0' && forall k :: 0 <= k < |s| ==> IsDigit(s[k])
    ensures 0 < Value(s) && Itoa(Value(s)) == s
  {
    var last := |s| - 1;
    var digit := s[last] as int - '0' as int;
    assert IsDigit(s[last]);
    if last == 0 {
      assert s[..0] == [];
      assert s == [DigitOf(digit)];
    } else {
      ItoaOfValue(s[..last]);
      assert s == s[..last] + [s[last]];
      assert Value(s) / 10 == Value(s[..last]) && Value(s) % 10 == digit;
    }
  }

  lemma {:induction false} ItoaStarts(n: nat)
    requires 0 < n
    ensures Itoa(n)[0] != '0'
  {
    if n < 10 {
    } else {
      ItoaStarts(n / 10);
    }
  }

  /** The places of a number count ones, tens, hundreds and so on. */
  lemma {:induction false} ValueCountsTens(s: string, t: string)
    requires (forall k :: 0 <= k < |s| ==> IsDigit(s[k])) && forall k :: 0 <= k < |t| ==> IsDigit(t[k])
    ensures Value(s + t) == Value(s) * Tens(|t|) + Value(t)
  {
    if t == [] {
      assert s + t == s;
    } else {
      var last := |t| - 1;
      assert IsDigit(t[last]);
      assert (s + t)[..|s + t| - 1] == s + t[..last];
      ValueCountsTens(s, t[..last]);
      Shift(Value(s), Tens(last), Value(t[..last]));
    }
  }

  lemma Shift(v: nat, p: nat, w: nat)
    ensures 10 * (v * p + w) == v * (10 * p) + 10 * w
  {
  }

  function Tens(n: nat): nat {
    if n == 0 then 1 else 10 * Tens(n - 1)
  }

  lemma ItoaInjective(m: nat, n: nat)
    requires Itoa(m) == Itoa(n)
    ensures m == n
  {
    ItoaReads(m);
    ItoaReads(n);
  }

  /** What stands behind the last separator of a text is determined by the text. */
  lemma SplitLast(a: string, x: string, b: string, y: string, separator: char)
    requires a + [separator] + x == b + [separator] + y
    requires separator !in x && separator !in y
    ensures a == b && x == y
  {
    var s := a + [separator] + x;
    assert s[|a|] == separator && s[|b|] == separator;
    assert a == s[..|a|] == b;
    assert x == s[|a| + 1..] == y;
  }
}
