/** String helpers the scraper relies on: list joining and decimal page numbers. */
module Text {

  /** The separator used to flatten a multi-valued field into one cell. */
  const ListSeparator: string := ", "

  predicate StartsWith(s: string, prefix: string) {
    |prefix| <= |s| && s[..|prefix|] == prefix
  }

  predicate EndsWith(s: string, suffix: string) {
    |suffix| <= |s| && s[|s| - |suffix|..] == suffix
  }

  /** `sep.join(items)`: the items in order with `sep` between neighbours. */
  function Join(sep: string, items: seq<string>): string
  {
    if |items| == 0 then ""
    else if |items| == 1 then items[0]
    else items[0] + sep + Join(sep, items[1..])
  }

  /** Joining two non-empty runs one after another puts one separator between
      them, and a single item joins to itself. */
  lemma {:induction false} JoinAppend(sep: string, a: seq<string>, b: seq<string>)
    requires |a| >= 1 && |b| >= 1
    ensures Join(sep, a + b) == Join(sep, a) + sep + Join(sep, b)
    ensures |a| == 1 ==> Join(sep, a) == a[0]
    decreases |a|
  {
    var ab := a + b;
    assert ab[0] == a[0];
    if |a| == 1 {
      assert ab[1..] == b;
    } else {
      assert ab[1..] == a[1..] + b;
      JoinAppend(sep, a[1..], b);
      calc {
        Join(sep, ab);
        a[0] + sep + Join(sep, a[1..] + b);
        a[0] + sep + (Join(sep, a[1..]) + sep + Join(sep, b));
        (a[0] + sep + Join(sep, a[1..])) + sep + Join(sep, b);
        Join(sep, a) + sep + Join(sep, b);
      }
    }
  }

  /** `s.split(", ")`: cuts `s` at every occurrence of the list separator, scanning left to right. */
  function SplitList(s: string): (parts: seq<string>)
    ensures |parts| >= 1
    decreases |s|
  {
    if |s| < 2 then [s]
    else if s[0] == ',' && s[1] == ' ' then [""] + SplitList(s[2..])
    else
      var rest := SplitList(s[1..]);
      [[s[0]] + rest[0]] + rest[1..]
  }

  /** An item that holds no comma can be told apart from the separator. */
  predicate CommaFree(s: string) {
    ',' !in s
  }

  lemma {:induction false} SplitCommaFree(x: string)
    requires CommaFree(x)
    ensures SplitList(x) == [x]
    decreases |x|
  {
    if |x| >= 2 {
      assert x[0] != ',' by { assert x[0] in x; }
      assert CommaFree(x[1..]) by {
        forall c | c in x[1..] ensures c != ',' { assert c in x; }
      }
      SplitCommaFree(x[1..]);
      assert [x[0]] + x[1..] == x;
    }
  }

  lemma {:induction false} SplitAfterItem(x: string, t: string)
    requires CommaFree(x)
    ensures SplitList(x + ListSeparator + t) == [x] + SplitList(t)
    decreases |x|
  {
    var s := x + ListSeparator + t;
    if |x| == 0 {
      assert s[0] == ',' && s[1] == ' ';
      assert s[2..] == t;
    } else {
      assert x[0] != ',' by { assert x[0] in x; }
      assert CommaFree(x[1..]) by {
        forall c | c in x[1..] ensures c != ',' { assert c in x; }
      }
      assert s[0] == x[0];
      assert s[1..] == x[1..] + ListSeparator + t;
      SplitAfterItem(x[1..], t);
      assert [x[0]] + x[1..] == x;
    }
  }

  /** Joining comma-free items with ", " loses nothing: splitting gives the items back. */
  lemma {:induction false} SplitJoin(items: seq<string>)
    requires |items| >= 1
    requires forall i :: 0 <= i < |items| ==> CommaFree(items[i])
    ensures SplitList(Join(ListSeparator, items)) == items
    decreases |items|
  {
    if |items| == 1 {
      SplitCommaFree(items[0]);
    } else {
      SplitJoin(items[1..]);
      SplitAfterItem(items[0], Join(ListSeparator, items[1..]));
      assert [items[0]] + items[1..] == items;
    }
  }

  predicate IsDigit(c: char) {
    '0' <= c <= '9'
  }

  predicate IsDecimal(s: string) {
    |s| >= 1 && forall i :: 0 <= i < |s| ==> IsDigit(s[i])
  }

  function DigitChar(d: nat): (c: char)
    requires d < 10
    ensures IsDigit(c)
  {
    ('0' as int + d) as char
  }

  function DigitValue(c: char): (d: nat)
    requires IsDigit(c)
    ensures d < 10 && DigitChar(d) == c
  {
    c as int - '0' as int
  }

  /** Python's `str(n)` for a non-negative int: decimal digits, no leading zero. */
  function NatToString(n: nat): (s: string)
    ensures IsDecimal(s)
    ensures |s| > 1 ==> s[0] != '0'
  {
    if n < 10 then [DigitChar(n)]
    else NatToString(n / 10) + [DigitChar(n % 10)]
  }

  /** The value of a string of decimal digits. */
  function ParseNat(s: string): nat
    requires IsDecimal(s)
    decreases |s|
  {
    if |s| == 1 then DigitValue(s[0])
    else ParseNat(s[..|s| - 1]) * 10 + DigitValue(s[|s| - 1])
  }

  /** Reading back a decimal rendering gives the number that was rendered. */
  lemma {:induction false} ParseNatToString(n: nat)
    ensures ParseNat(NatToString(n)) == n
  {
    if n >= 10 {
      var s := NatToString(n);
      assert s[..|s| - 1] == NatToString(n / 10);
      ParseNatToString(n / 10);
    }
  }
}
