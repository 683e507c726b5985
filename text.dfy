/**
 * String helpers that stand in for the Python built-ins the core relies on:
 * `str.lower`, the `in` operator on strings, `str.split`, `str(int)` and the
 * `,` (thousands separator) format option.
 */
module Text {
  import opened Seqs

  /** ASCII lower-casing of one character. */
  function LowerChar(c: char): char {
    if 'A' <= c <= 'Z' then (c as int - 'A' as int + 'a' as int) as char else c
  }

  /** `s.lower()`, restricted to ASCII letters. */
  function Lower(s: string): string {
    seq(|s|, i requires 0 <= i < |s| => LowerChar(s[i]))
  }

  /** `p` occurs in `s` starting at index `i`. */
  predicate OccursAt(p: string, s: string, i: int) {
    0 <= i && i + |p| <= |s| && s[i..i + |p|] == p
  }

  /** Dropping the first character moves every occurrence one place to the left. */
  lemma OccursShift(p: string, s: string, i: int)
    requires s != [] && 0 <= i
    ensures OccursAt(p, s[1..], i) <==> OccursAt(p, s, i + 1)
  {
    if 0 <= i && i + |p| <= |s| - 1 {
      assert s[1..][i..i + |p|] == s[i + 1..i + 1 + |p|];
    }
  }

  /** Python's `p in s` for strings: a left-to-right scan for `p`. */
  function Contains(s: string, p: string): bool
    decreases |s|
  {
    if p <= s then true
    else if |s| == 0 then false
    else Contains(s[1..], p)
  }

  /** An occurrence found by the scan is a real occurrence. */
  lemma {:induction false} ContainsSound(s: string, p: string)
    requires Contains(s, p)
    ensures exists i :: OccursAt(p, s, i)
    decreases |s|
  {
    if p <= s {
      assert s[0..|p|] == p;
      assert OccursAt(p, s, 0);
    } else {
      ContainsSound(s[1..], p);
      var i :| OccursAt(p, s[1..], i);
      OccursShift(p, s, i);
    }
  }

  /** Every occurrence is found by the scan. */
  lemma {:induction false} ContainsComplete(s: string, p: string, i: int)
    requires OccursAt(p, s, i)
    ensures Contains(s, p)
    decreases i
  {
    if i == 0 {
      assert s[..|p|] == p;
    } else if !(p <= s) {
      OccursShift(p, s, i - 1);
      ContainsComplete(s[1..], p, i - 1);
    }
  }

  /** The scan finds `p` exactly when `p` occurs somewhere in `s`. */
  lemma ContainsIff(s: string, p: string)
    ensures Contains(s, p) <==> exists i :: OccursAt(p, s, i)
  {
    if Contains(s, p) {
      ContainsSound(s, p);
    }
    if exists i :: OccursAt(p, s, i) {
      var i :| OccursAt(p, s, i);
      ContainsComplete(s, p, i);
    }
  }

  /** Whatever stands between two strings is contained in their concatenation. */
  lemma ContainsInfix(a: string, b: string, c: string)
    ensures Contains(a + b + c, b)
  {
    var s := a + b + c;
    assert s[|a|..|a| + |b|] == b;
    ContainsComplete(s, b, |a|);
  }

  /** Whatever is put around a string keeps what the string contains. */
  lemma ContainsWithin(s: string, p: string, a: string, b: string)
    requires Contains(s, p)
    ensures Contains(a + s + b, p)
  {
    ContainsSound(s, p);
    var i :| OccursAt(p, s, i);
    assert (a + s + b)[|a| + i..|a| + i + |p|] == s[i..i + |p|];
    ContainsComplete(a + s + b, p, |a| + i);
  }

  /** The empty string is contained in every string. */
  lemma ContainsEmpty(s: string)
    ensures Contains(s, "")
  {
    assert OccursAt("", s, 0);
    ContainsComplete(s, "", 0);
  }

  /** `s.split(sep)` for a one-character separator. */
  function Split(s: string, sep: char): (parts: seq<string>)
    ensures |parts| == multiset(s)[sep] + 1
    decreases |s|
  {
    if s == [] then [""]
    else
      assert s == [s[0]] + s[1..];
      var rest := Split(s[1..], sep);
      if s[0] == sep then [""] + rest
      else [[s[0]] + rest[0]] + rest[1..]
  }

  /** `sep.join(parts)`. */
  function Join(parts: seq<string>, sep: char): string
    decreases |parts|
  {
    if |parts| == 0 then ""
    else if |parts| == 1 then parts[0]
    else parts[0] + [sep] + Join(parts[1..], sep)
  }

  /** Splitting and re-joining on the same separator gives back the string. */
  lemma {:induction false} JoinSplit(s: string, sep: char)
    ensures Join(Split(s, sep), sep) == s
    decreases |s|
  {
    if s != [] {
      JoinSplit(s[1..], sep);
      var rest := Split(s[1..], sep);
      FirstRest(s);
      if s[0] == sep {
        JoinCons("", rest, sep);
      } else {
        JoinConsChar(s[0], rest, sep);
      }
    }
  }

  lemma JoinCons(head: string, tail: seq<string>, sep: char)
    requires |tail| >= 1
    ensures Join([head] + tail, sep) == head + [sep] + Join(tail, sep)
  {
    assert ([head] + tail)[1..] == tail;
  }

  /** Putting a character in front of the first part puts it in front of the joined string. */
  lemma JoinConsChar(c: char, parts: seq<string>, sep: char)
    requires |parts| >= 1
    ensures Join([[c] + parts[0]] + parts[1..], sep) == [c] + Join(parts, sep)
  {
    if |parts| > 1 {
      JoinCons([c] + parts[0], parts[1..], sep);
      JoinCons(parts[0], parts[1..], sep);
      assert [parts[0]] + parts[1..] == parts;
    }
  }

  /** A string without the separator splits into itself alone. */
  lemma {:induction false} SplitWithoutSeparator(s: string, sep: char)
    requires sep !in s
    ensures Split(s, sep) == [s]
    decreases |s|
  {
    if s != [] {
      SplitWithoutSeparator(s[1..], sep);
      assert [s[0]] + s[1..] == s;
    }
  }

  /** Splitting `a + sep + b` cuts at the first separator when `a` has none. */
  lemma {:induction false} SplitAtFirst(a: string, sep: char, b: string)
    requires sep !in a
    ensures Split(a + [sep] + b, sep) == [a] + Split(b, sep)
    decreases |a|
  {
    var s := a + [sep] + b;
    if a == [] {
      assert s[1..] == b;
    } else {
      assert s[1..] == a[1..] + [sep] + b;
      SplitAtFirst(a[1..], sep, b);
      assert [a[0]] + a[1..] == a;
    }
  }

  /** `"A/B".split('/') == ["A", "B"]` when neither part holds a `/`. */
  lemma SplitTwo(a: string, sep: char, b: string)
    requires sep !in a && sep !in b
    ensures Split(a + [sep] + b, sep) == [a, b]
  {
    SplitAtFirst(a, sep, b);
    SplitWithoutSeparator(b, sep);
  }

  // ---------------------------------------------------------------------
  // Decimal rendering (`str(n)`) and the `,` format option (`f"{n:,}"`).
  // ---------------------------------------------------------------------

  predicate IsDigit(c: char) {
    '0' <= c <= '9'
  }

  function DigitChar(d: nat): (c: char)
    requires d < 10
    ensures IsDigit(c) && c != ','
  {
    ('0' as int + d) as char
  }

  function DigitValue(c: char): int {
    c as int - '0' as int
  }

  /** `str(n)` for a non-negative integer. */
  function Decimal(n: nat): string
    decreases n
  {
    if n < 10 then [DigitChar(n)] else Decimal(n / 10) + [DigitChar(n % 10)]
  }

  /** `str(x)` for any integer. */
  function IntToString(x: int): string {
    if x < 0 then "-" + Decimal(-x) else Decimal(x)
  }

  /** The number a string of decimal digits denotes (most significant first). */
  function ValueOf(s: string): int
    decreases |s|
  {
    if s == [] then 0 else 10 * ValueOf(s[..|s| - 1]) + DigitValue(s[|s| - 1])
  }

  /** `str(n)` is a canonical decimal numeral of `n`: digits only, no leading zero, and it reads back as `n`. */
  lemma {:induction false} DecimalRoundTrip(n: nat)
    ensures forall i :: 0 <= i < |Decimal(n)| ==> IsDigit(Decimal(n)[i])
    ensures Decimal(n)[0] == '0' ==> n == 0
    ensures ValueOf(Decimal(n)) == n
    decreases n
  {
    if n >= 10 {
      DecimalRoundTrip(n / 10);
      var s := Decimal(n);
      assert s[..|s| - 1] == Decimal(n / 10);
    }
  }

  /** One more digit on the right of a numeral. */
  lemma DecimalSnoc(q: nat, d: nat)
    requires 1 <= q && d < 10
    ensures Decimal(10 * q + d) == Decimal(q) + [DigitChar(d)]
  {
    assert (10 * q + d) / 10 == q;
    assert (10 * q + d) % 10 == d;
  }

  /** A numeral of less than 1000 has at most three digits. */
  lemma {:induction false} DecimalShort(n: nat)
    ensures 1 <= |Decimal(n)|
    ensures n < 1000 ==> |Decimal(n)| <= 3
    ensures n < 100 ==> |Decimal(n)| <= 2
    decreases n
  {
    if n >= 10 {
      DecimalShort(n / 10);
    }
  }

  /** Three digits, zero-padded: the groups after the first in `f"{n:,}"`. */
  function Pad3(n: nat): string
    requires n < 1000
  {
    [DigitChar(n / 100), DigitChar(n / 10 % 10), DigitChar(n % 10)]
  }

  /** The numeral of `1000 * a + b` is the numeral of `a` followed by `b` padded to three digits. */
  lemma DecimalThousands(a: nat, b: nat)
    requires 1 <= a && b < 1000
    ensures Decimal(1000 * a + b) == Decimal(a) + Pad3(b)
  {
    var x, y, z := b / 100, b / 10 % 10, b % 10;
    assert b == 100 * x + 10 * y + z;
    assert 1000 * a + b == 10 * (10 * (10 * a + x) + y) + z;
    calc {
      Decimal(1000 * a + b);
      { DecimalSnoc(10 * (10 * a + x) + y, z); }
      Decimal(10 * (10 * a + x) + y) + [DigitChar(z)];
      { DecimalSnoc(10 * a + x, y); }
      Decimal(10 * a + x) + [DigitChar(y)] + [DigitChar(z)];
      { DecimalSnoc(a, x); }
      Decimal(a) + [DigitChar(x)] + [DigitChar(y)] + [DigitChar(z)];
      Decimal(a) + Pad3(b);
    }
  }

  /** `f"{n:,}"` for a non-negative integer. */
  function Grouped(n: nat): string
    decreases n
  {
    if n < 1000 then Decimal(n) else Grouped(n / 1000) + "," + Pad3(n % 1000)
  }

  /** `f"{x:,}"` for any integer: the sign, then the grouped magnitude. */
  function ThousandsSep(x: int): string {
    if x < 0 then "-" + Grouped(-x) else Grouped(x)
  }

  /** `s.replace(",", "")`. */
  function RemoveCommas(s: string): string
    decreases |s|
  {
    if s == [] then ""
    else (if s[0] == ',' then "" else [s[0]]) + RemoveCommas(s[1..])
  }

  lemma {:induction false} RemoveCommasAppend(a: string, b: string)
    ensures RemoveCommas(a + b) == RemoveCommas(a) + RemoveCommas(b)
    decreases |a|
  {
    if a == [] {
      assert a + b == b;
    } else {
      var x := if a[0] == ',' then "" else [a[0]];
      assert (a + b)[0] == a[0];
      assert (a + b)[1..] == a[1..] + b;
      RemoveCommasAppend(a[1..], b);
      calc {
        RemoveCommas(a + b);
        x + RemoveCommas(a[1..] + b);
        x + (RemoveCommas(a[1..]) + RemoveCommas(b));
        (x + RemoveCommas(a[1..])) + RemoveCommas(b);
      }
    }
  }

  lemma {:induction false} RemoveCommasNone(s: string)
    requires forall i :: 0 <= i < |s| ==> IsDigit(s[i])
    ensures RemoveCommas(s) == s
    decreases |s|
  {
    if s != [] {
      RemoveCommasNone(s[1..]);
      assert [s[0]] + s[1..] == s;
    }
  }

  /** Dropping the separators from `f"{n:,}"` gives back `str(n)`. */
  lemma {:induction false} GroupedUngroups(n: nat)
    ensures RemoveCommas(Grouped(n)) == Decimal(n)
    decreases n
  {
    if n < 1000 {
      DecimalRoundTrip(n);
      RemoveCommasNone(Decimal(n));
    } else {
      GroupedUngroups(n / 1000);
      RemoveCommasAppend(Grouped(n / 1000) + ",", Pad3(n % 1000));
      RemoveCommasAppend(Grouped(n / 1000), ",");
      RemoveCommasNone(Pad3(n % 1000));
      DecimalThousands(n / 1000, n % 1000);
    }
  }

  /**
   * The separators sit exactly where a multiple of four characters remain to
   * the end, and every other character is a digit: so every group after the
   * first has three digits and the first, which opens with a digit, has one
   * to three.
   */
  predicate ThousandsLayout(s: string) {
    && s != [] && IsDigit(s[0])
    && forall i :: 0 <= i < |s| ==>
      (s[i] == ',' <==> (|s| - i) % 4 == 0) && (s[i] != ',' ==> IsDigit(s[i]))
  }

  lemma LayoutExtend(g: string, p: string)
    requires ThousandsLayout(g)
    requires |p| == 3 && IsDigit(p[0]) && IsDigit(p[1]) && IsDigit(p[2])
    ensures ThousandsLayout(g + "," + p)
  {
    var s := g + "," + p;
    assert s[0] == g[0];
    forall i | 0 <= i < |s|
      ensures (s[i] == ',' <==> (|s| - i) % 4 == 0) && (s[i] != ',' ==> IsDigit(s[i]))
    {
      if i < |g| {
        assert s[i] == g[i];
        assert (|s| - i) % 4 == (|g| - i) % 4;
      } else if i > |g| {
        assert s[i] == p[i - |g| - 1];
      }
    }
  }

  /** `f"{n:,}"` has the three-digit group layout. */
  lemma {:induction false} GroupedLayout(n: nat)
    ensures ThousandsLayout(Grouped(n))
    decreases n
  {
    if n < 1000 {
      DecimalRoundTrip(n);
      DecimalShort(n);
    } else {
      GroupedLayout(n / 1000);
      LayoutExtend(Grouped(n / 1000), Pad3(n % 1000));
    }
  }

  /** Dropping the separators from `f"{x:,}"` gives back `str(x)`, for negative `x` too. */
  lemma ThousandsSepUngroups(x: int)
    ensures RemoveCommas(ThousandsSep(x)) == IntToString(x)
  {
    if x < 0 {
      GroupedUngroups(-x);
      RemoveCommasAppend("-", Grouped(-x));
    } else {
      GroupedUngroups(x);
    }
  }

  /** Rendered numbers never break a line. */
  lemma ThousandsSepOneLine(x: int)
    ensures '\n' !in ThousandsSep(x)
  {
    var n := if x < 0 then -x else x;
    GroupedLayout(n);
    var g := Grouped(n);
    assert forall i :: 0 <= i < |g| ==> g[i] != '\n';
  }

  lemma IntToStringOneLine(x: int)
    ensures '\n' !in IntToString(x)
  {
    var n := if x < 0 then -x else x;
    DecimalRoundTrip(n);
    var d := Decimal(n);
    assert forall i :: 0 <= i < |d| ==> d[i] != '\n';
  }
}
