/** Strings as the sources use them: ordering, decimal numerals and small scans. */
module Text {

  datatype Option<+T> = None | Some(value: T) {
    predicate IsFailure() {
      None?
    }

    function PropagateFailure<U>(): Option<U>
      requires None?
    {
      None
    }

    function Extract(): T
      requires Some?
    {
      value
    }
  }

  // ---- ordering -----------------------------------------------------------

  /** Python's and JavaScript's `<` on strings of scalar values. */
  predicate StrLess(s: string, t: string) {
    if t == [] then false
    else if s == [] then true
    else if s[0] != t[0] then s[0] < t[0]
    else StrLess(s[1..], t[1..])
  }

  lemma {:induction false} StrLessTotal(s: string, t: string)
    ensures s == t <==> !StrLess(s, t) && !StrLess(t, s)
    ensures !(StrLess(s, t) && StrLess(t, s))
  {
    if s != [] && t != [] && s[0] == t[0] {
      StrLessTotal(s[1..], t[1..]);
      assert s == [s[0]] + s[1..] && t == [t[0]] + t[1..];
    }
  }

  lemma {:induction false} StrLessTransitive(s: string, t: string, u: string)
    requires StrLess(s, t) && StrLess(t, u)
    ensures StrLess(s, u)
  {
    if s != [] && s[0] == t[0] == u[0] {
      StrLessTransitive(s[1..], t[1..], u[1..]);
    }
  }

  /** Comparing equal-length heads first. */
  lemma {:induction false} StrLessAppend(a: string, b: string, c: string, d: string)
    requires |a| == |c|
    ensures StrLess(a + b, c + d) <==> StrLess(a, c) || (a == c && StrLess(b, d))
  {
    if a == [] {
      assert a + b == b && c + d == d;
    } else {
      assert (a + b)[1..] == a[1..] + b && (c + d)[1..] == c[1..] + d;
      StrLessAppend(a[1..], b, c[1..], d);
      assert a == [a[0]] + a[1..] && c == [c[0]] + c[1..];
    }
  }

  // ---- digits -------------------------------------------------------------

  predicate IsDigit(c: char) { '0' <= c <= '9' }

  predicate AllDigits(s: string) { forall i :: 0 <= i < |s| ==> IsDigit(s[i]) }

  function DigitOf(c: char): (d: nat)
    requires IsDigit(c)
    ensures d < 10
  {
    c as int - '0' as int
  }

  function DigitChar(d: nat): (c: char)
    requires d < 10
    ensures IsDigit(c) && DigitOf(c) == d
  {
    '0' + d as char
  }

  /** The number a run of digits spells. */
  function DigitsValue(s: string): nat
    requires AllDigits(s)
  {
    if s == [] then 0 else 10 * DigitsValue(s[..|s| - 1]) + DigitOf(s[|s| - 1])
  }

  /** A number's shortest decimal spelling. */
  function Decimal(n: nat): (s: string)
    ensures AllDigits(s) && |s| > 0
  {
    if n < 10 then [DigitChar(n)] else Decimal(n / 10) + [DigitChar(n % 10)]
  }

  lemma {:induction false} DecimalValue(n: nat)
    ensures DigitsValue(Decimal(n)) == n
  {
    var s := Decimal(n);
    if n < 10 {
      assert s[..0] == [];
    } else {
      assert s[..|s| - 1] == Decimal(n / 10);
      DecimalValue(n / 10);
    }
  }

  /** Only zero is spelled with a leading zero, and alone. */
  lemma {:induction false} DecimalLeadingZero(n: nat)
    ensures Decimal(n)[0] == '0' <==> n == 0
    ensures Decimal(n)[0] == '0' ==> |Decimal(n)| == 1
  {
    if n >= 10 {
      DecimalLeadingZero(n / 10);
    }
  }

  lemma {:induction false} DigitsValueBound(s: string)
    requires AllDigits(s)
    ensures DigitsValue(s) < Pow10(|s|)
  {
    if s != [] {
      DigitsValueBound(s[..|s| - 1]);
    }
  }

  function Pow10(k: nat): nat {
    if k == 0 then 1 else 10 * Pow10(k - 1)
  }

  /** Fixed-width digits compare as strings exactly as they compare as numbers. */
  lemma {:induction false} DigitsOrder(s: string, t: string)
    requires |s| == |t| && AllDigits(s) && AllDigits(t)
    ensures StrLess(s, t) <==> DigitsValue(s) < DigitsValue(t)
    ensures s == t <==> DigitsValue(s) == DigitsValue(t)
  {
    if s != [] {
      var n := |s| - 1;
      var a, b, c, d := s[..n], s[n..], t[..n], t[n..];
      assert s == a + b && t == c + d;
      DigitsOrder(a, c);
      StrLessAppend(a, b, c, d);
      assert b == [s[n]] && d == [t[n]];
      assert StrLess(b, d) <==> s[n] < t[n];
      StrLessTotal(a, c);
    }
  }

  // ---- concatenation ------------------------------------------------------

  lemma Assoc(a: string, b: string, c: string)
    ensures a + b + c == a + (b + c)
  {
    assert (a + b + c)[|a|..] == b + c;
  }

  /** Behind its first character. */
  lemma Behind(c: char, t: string)
    ensures ([c] + t)[0] == c && ([c] + t)[1..] == t
  {
  }

  /** Each half of a concatenation. */
  lemma Halves(a: string, b: string)
    ensures (a + b)[..|a|] == a && (a + b)[|a|..] == b
  {
  }

  lemma Assoc4(a: string, b: string, c: string, d: string)
    ensures a + b + c + d == a + (b + (c + d))
  {
    Assoc(a, b, c);
    Assoc(a, b + c, d);
    Assoc(b, c, d);
  }

  // ---- places in a list ---------------------------------------------------

  predicate Increasing(at: seq<nat>) {
    forall i, j :: 0 <= i < j < |at| ==> at[i] < at[j]
  }

  /** The same places one further on. */
  function Shifted(at: seq<nat>): (r: seq<nat>)
    ensures |r| == |at| && forall k :: 0 <= k < |at| ==> r[k] == at[k] + 1
  {
    seq(|at|, k requires 0 <= k < |at| => at[k] + 1)
  }

  lemma ShiftedHolds(at: seq<nat>)
    ensures forall i: nat :: i in Shifted(at) <==> i > 0 && i - 1 in at
    ensures Increasing(at) ==> Increasing(Shifted(at)) && Increasing([0] + Shifted(at))
  {
    forall i: nat | i > 0 && i - 1 in at ensures i in Shifted(at) {
      var k :| 0 <= k < |at| && at[k] == i - 1;
      assert Shifted(at)[k] == i;
    }
  }

  /** What is at some places of a list. */
  predicate At<T(==)>(s: seq<T>, at: seq<nat>, r: seq<T>) {
    |r| == |at| && forall k :: 0 <= k < |at| ==> at[k] < |s| && r[k] == s[at[k]]
  }

  lemma AtShifted<T>(s: seq<T>, at: seq<nat>, r: seq<T>)
    requires s != [] && At(s[1..], at, r)
    ensures At(s, Shifted(at), r) && At(s, [0] + Shifted(at), [s[0]] + r)
  {
    forall k | 0 <= k < |at| ensures r[k] == s[at[k] + 1] {
      assert s[1..][at[k]] == s[at[k] + 1];
    }
  }

  // ---- scans --------------------------------------------------------------

  predicate StartsWith(s: string, prefix: string) {
    prefix <= s
  }

  predicate EndsWith(s: string, suffix: string) {
    |suffix| <= |s| && s[|s| - |suffix|..] == suffix
  }

  /** `indexOf`: the first position of `c`, or the length when it is absent. */
  function IndexOf(s: string, c: char): (i: nat)
    ensures i <= |s| && (i < |s| ==> s[i] == c)
    ensures forall k :: 0 <= k < i ==> s[k] != c
  {
    if s == [] || s[0] == c then 0 else 1 + IndexOf(s[1..], c)
  }

  /** `lastIndexOf`: the last position of `c`, or -1. */
  function LastIndexOf(s: string, c: char): (i: int)
    ensures -1 <= i < |s| && (i >= 0 ==> s[i] == c)
    ensures forall k :: i < k < |s| ==> s[k] != c
  {
    if s == [] then -1
    else if s[|s| - 1] == c then |s| - 1
    else LastIndexOf(s[..|s| - 1], c)
  }

  lemma IndexOfIs(s: string, c: char, i: nat)
    requires i <= |s| && (i < |s| ==> s[i] == c) && forall k :: 0 <= k < i ==> s[k] != c
    ensures IndexOf(s, c) == i
  {
  }

  /** The first occurrence is at the joint. */
  lemma IndexOfJoint(a: string, b: string, c: char)
    requires c !in a && (b != [] ==> b[0] == c)
    ensures IndexOf(a + b, c) == |a|
  {
    IndexOfIs(a + b, c, |a|);
  }

  lemma IndexOfAbsent(s: string, c: char)
    ensures c !in s <==> IndexOf(s, c) == |s|
  {
  }
}
