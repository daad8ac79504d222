/** Python string behaviour the loader relies on: the `<=` order that `sorted` uses on
    column names, and the `repr` of a list of names that goes into the schema error. */
module Strings {
  import opened Sorting

  /** Python's `a <= b` on `str`: lexicographic by code point, a prefix before its extensions. */
  predicate LexLe(a: string, b: string) {
    |a| == 0 || (|b| > 0 && (a[0] < b[0] || (a[0] == b[0] && LexLe(a[1..], b[1..]))))
  }

  lemma {:induction false} LexLeTotal(a: string, b: string)
    ensures LexLe(a, b) || LexLe(b, a)
  {
    if |a| > 0 && |b| > 0 && a[0] == b[0] {
      LexLeTotal(a[1..], b[1..]);
    }
  }

  lemma {:induction false} LexLeTransitive(a: string, b: string, c: string)
    requires LexLe(a, b) && LexLe(b, c)
    ensures LexLe(a, c)
  {
    if |a| > 0 && a[0] == b[0] && b[0] == c[0] {
      LexLeTransitive(a[1..], b[1..], c[1..]);
    }
  }

  lemma {:induction false} LexLeAntisymmetric(a: string, b: string)
    requires LexLe(a, b) && LexLe(b, a)
    ensures a == b
  {
    if |a| > 0 {
      LexLeAntisymmetric(a[1..], b[1..]);
      assert a == [a[0]] + a[1..];
      assert b == [b[0]] + b[1..];
    }
  }

  /** `LexLe` is a total order, which is what `Sort` and `SortedUnique` need. */
  lemma LexLeIsTotalOrder()
    ensures Total(LexLe) && Transitive(LexLe) && Antisymmetric(LexLe)
  {
    forall a: string, b: string ensures LexLe(a, b) || LexLe(b, a) {
      LexLeTotal(a, b);
    }
    forall a: string, b: string, c: string | LexLe(a, b) && LexLe(b, c) ensures LexLe(a, c) {
      LexLeTransitive(a, b, c);
    }
    forall a: string, b: string | LexLe(a, b) && LexLe(b, a) ensures a == b {
      LexLeAntisymmetric(a, b);
    }
  }

  /** `t` occurs in `s` starting at position `i`. */
  predicate OccursAt(s: string, t: string, i: int) {
    0 <= i && i + |t| <= |s| && s[i..i + |t|] == t
  }

  ghost predicate Contains(s: string, t: string) {
    exists i :: OccursAt(s, t, i)
  }

  /** Python's `repr` of a list of strings that hold no quote or backslash: `['a', 'b']`. */
  function ListRepr(names: seq<string>): string {
    "[" + Items(names) + "]"
  }

  function Items(names: seq<string>): string {
    if |names| == 0 then ""
    else if |names| == 1 then "'" + names[0] + "'"
    else "'" + names[0] + "', " + Items(names[1..])
  }

  lemma ContainsInContext(pre: string, s: string, post: string, t: string)
    requires Contains(s, t)
    ensures Contains(pre + s + post, t)
  {
    var i :| OccursAt(s, t, i);
    assert (pre + s + post)[|pre| + i..|pre| + i + |t|] == s[i..i + |t|];
    assert OccursAt(pre + s + post, t, |pre| + i);
  }

  lemma OccursWhole(pre: string, t: string, post: string)
    ensures Contains(pre + t + post, t)
  {
    assert (pre + t + post)[|pre|..|pre| + |t|] == t;
    assert OccursAt(pre + t + post, t, |pre|);
  }

  /** Every name in the list appears verbatim in its repr. */
  lemma {:induction false} ListReprContains(names: seq<string>, k: nat)
    requires k < |names|
    ensures Contains(ListRepr(names), names[k])
  {
    ItemsContains(names, k);
    ContainsInContext("[", Items(names), "]", names[k]);
  }

  lemma {:induction false} ItemsContains(names: seq<string>, k: nat)
    requires k < |names|
    ensures Contains(Items(names), names[k])
  {
    if |names| == 1 {
      OccursWhole("'", names[0], "'");
    } else if k == 0 {
      OccursWhole("'", names[0], "', " + Items(names[1..]));
      assert "'" + names[0] + ("', " + Items(names[1..])) == Items(names);
    } else {
      ItemsContains(names[1..], k - 1);
      ContainsInContext("'" + names[0] + "', ", Items(names[1..]), "", names[k]);
      assert "'" + names[0] + "', " + Items(names[1..]) + "" == Items(names);
    }
  }

  /** Python's `str` of an integer: decimal digits, with a leading '-' when negative. */
  function Decimal(n: int): string {
    if n < 0 then "-" + Digits(-n) else Digits(n)
  }

  function Digits(n: nat): string {
    if n < 10 then [DigitChar(n)] else Digits(n / 10) + [DigitChar(n % 10)]
  }

  function DigitChar(d: nat): char
    requires d < 10
  {
    "0123456789"[d]
  }

  /** The number a string of decimal digits spells, most significant digit first, as `int(s)`
      reads it. */
  function Value(s: string): nat {
    if |s| == 0 then 0 else 10 * Value(s[..|s| - 1]) + DigitValue(s[|s| - 1])
  }

  function DigitValue(c: char): nat {
    if '0' <= c <= '9' then (c as int - '0' as int) else 0
  }

  /** Python's `str` of a natural number is its canonical decimal form: at least one digit,
      digits only, no leading zero unless the number is 0, and reading it back gives the number. */
  lemma {:induction false} DigitsAreCanonical(n: nat)
    ensures |Digits(n)| > 0
    ensures forall i :: 0 <= i < |Digits(n)| ==> '0' <= Digits(n)[i] <= '9'
    ensures Digits(n)[0] == '0' <==> n == 0
    ensures Value(Digits(n)) == n
  {
    DigitCharValue(n % 10);
    if n >= 10 {
      DigitsAreCanonical(n / 10);
      assert Digits(n) == Digits(n / 10) + [DigitChar(n % 10)];
      assert Digits(n)[..|Digits(n)| - 1] == Digits(n / 10);
    }
  }

  lemma DigitCharValue(d: nat)
    requires d < 10
    ensures '0' <= DigitChar(d) <= '9' && DigitValue(DigitChar(d)) == d
  {
    assert d == 0 || d == 1 || d == 2 || d == 3 || d == 4 || d == 5 || d == 6 || d == 7 || d == 8 || d == 9;
  }
}
