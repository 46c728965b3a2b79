/**
 * Event times: `YYYY-MM-DDTHH:MM:SSZ` strings (section 5.1 of RFC 3339), which
 * the marker test compares as strings where it means instants.
 */
module EventTime {
  import opened Text
  import opened CivilTime

  predicate DigitsAt(s: string, i: nat, j: nat) {
    i <= j <= |s| && AllDigits(s[i..j])
  }

  predicate Shaped(s: string) {
    && |s| == 20
    && s[4] == '-' && s[7] == '-' && s[10] == 'T' && s[13] == ':' && s[16] == ':' && s[19] == 'Z'
    && DigitsAt(s, 0, 4) && DigitsAt(s, 5, 7) && DigitsAt(s, 8, 10)
    && DigitsAt(s, 11, 13) && DigitsAt(s, 14, 16) && DigitsAt(s, 17, 19)
  }

  function DateOf(s: string): Date
    requires Shaped(s)
  {
    Date(DigitsValue(s[0..4]), DigitsValue(s[5..7]), DigitsValue(s[8..10]))
  }

  /** A time of day that exists, on a day that exists. */
  predicate Valid(s: string) {
    && Shaped(s)
    && DateOf(s).Valid()
    && DigitsValue(s[11..13]) < 24 && DigitsValue(s[14..16]) < 60 && DigitsValue(s[17..19]) < 60
  }

  function SecondOfDay(s: string): (n: int)
    requires Valid(s)
    ensures 0 <= n < 86400
  {
    3600 * DigitsValue(s[11..13]) + 60 * DigitsValue(s[14..16]) + DigitsValue(s[17..19])
  }

  /** Seconds since the epoch. */
  function Instant(s: string): int
    requires Valid(s)
  {
    86400 * DateOf(s).Day() + SecondOfDay(s)
  }

  /** Two fields and a separator compare field by field. */
  lemma FieldFirst(a: string, b: string, c: string, d: string, sep: char)
    requires |a| == |c| && AllDigits(a) && AllDigits(c)
    ensures StrLess(a + ([sep] + b), c + ([sep] + d))
       <==> DigitsValue(a) < DigitsValue(c) || (DigitsValue(a) == DigitsValue(c) && StrLess(b, d))
  {
    StrLessAppend(a, [sep] + b, c, [sep] + d);
    StrLessAppend([sep], b, [sep], d);
    StrLessTotal([sep], [sep]);
    DigitsOrder(a, c);
  }

  /** The tail from position `i`: a field of `w` digits, its separator, and what follows. */
  lemma FieldAt(s: string, t: string, i: nat, w: nat)
    requires Shaped(s) && Shaped(t) && i + w < 20 && s[i + w] == t[i + w]
    requires DigitsAt(s, i, i + w) && DigitsAt(t, i, i + w)
    ensures StrLess(s[i..], t[i..])
       <==> var x, y := DigitsValue(s[i..i + w]), DigitsValue(t[i..i + w]);
            x < y || (x == y && StrLess(s[i + w + 1..], t[i + w + 1..]))
  {
    var j := i + w;
    assert s[i..] == s[i..j] + ([s[j]] + s[j + 1..]);
    assert t[i..] == t[i..j] + ([t[j]] + t[j + 1..]);
    FieldFirst(s[i..j], s[j + 1..], t[i..j], t[j + 1..], s[j]);
  }

  lemma TimeOrder(s: string, t: string)
    requires Valid(s) && Valid(t)
    ensures StrLess(s[11..], t[11..]) <==> SecondOfDay(s) < SecondOfDay(t)
  {
    FieldAt(s, t, 11, 2);
    FieldAt(s, t, 14, 2);
    FieldAt(s, t, 17, 2);
    assert s[20..] == [] == t[20..];
  }

  lemma DateFieldsOrder(s: string, t: string)
    requires Valid(s) && Valid(t)
    ensures StrLess(s, t) <==> Before(DateOf(s), DateOf(t)) || (DateOf(s) == DateOf(t) && StrLess(s[11..], t[11..]))
  {
    hide DigitsValue, StrLess;
    assert s == s[0..] && t == t[0..];
    FieldAt(s, t, 0, 4);
    FieldAt(s, t, 5, 2);
    FieldAt(s, t, 8, 2);
  }

  /** Comparing event times as strings compares the instants they name. */
  lemma StringOrderIsTimeOrder(s: string, t: string)
    requires Valid(s) && Valid(t)
    ensures StrLess(s, t) <==> Instant(s) < Instant(t)
    ensures s == t <==> Instant(s) == Instant(t)
  {
    TimeOrder(s, t);
    TimeOrder(t, s);
    DateFieldsOrder(s, t);
    DateFieldsOrder(t, s);
    DayOrder(DateOf(s), DateOf(t));
    DayOrder(DateOf(t), DateOf(s));
    StrLessTotal(s, t);
  }
}
