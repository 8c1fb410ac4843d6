/** String helpers shared by the model: ASCII case folding, prefix and suffix
    tests, splitting at a character, decimal rendering and byte-wise ordering. */
module Text {
  import opened Wrappers

  /** ASCII lower-casing of one character (`char::to_ascii_lowercase`). */
  function LowerChar(c: char): char {
    if 'A' <= c <= 'Z' then (c as int + 32) as char else c
  }

  /** `str::to_ascii_lowercase`; SQLite's NOCASE collation folds the same way. */
  function Lower(s: string): (r: string)
    ensures |r| == |s|
    ensures forall i :: 0 <= i < |s| ==> r[i] == LowerChar(s[i])
  {
    if s == [] then [] else [LowerChar(s[0])] + Lower(s[1..])
  }

  lemma {:induction false} LowerIdempotent(s: string)
    ensures Lower(Lower(s)) == Lower(s)
  {
    if s != [] {
      LowerIdempotent(s[1..]);
      assert Lower(s)[1..] == Lower(s[1..]);
    }
  }

  /** `str::eq_ignore_ascii_case`, and equality under COLLATE NOCASE. */
  predicate EqIgnoreCase(a: string, b: string) {
    Lower(a) == Lower(b)
  }

  predicate StartsWith(s: string, p: string) {
    |p| <= |s| && s[..|p|] == p
  }

  /** A prefix of a prefix is a prefix. */
  lemma StartsWithTrans(s: string, m: string, p: string)
    requires StartsWith(s, m) && StartsWith(m, p)
    ensures StartsWith(s, p)
  {
    assert s[..|p|] == s[..|m|][..|p|];
  }

  /** A prefix stays a prefix when more is appended. */
  lemma StartsWithAppend(s: string, t: string, p: string)
    requires StartsWith(s, p)
    ensures StartsWith(s + t, p) && StartsWith(s + t, s)
  {
    assert (s + t)[..|s|] == s;
    assert (s + t)[..|p|] == s[..|p|];
  }

  predicate EndsWith(s: string, p: string) {
    |p| <= |s| && s[|s| - |p|..] == p
  }

  /** The index of the last occurrence of c in s. */
  function LastIndexOf(s: string, c: char): (r: Option<nat>)
    ensures r.None? <==> c !in s
    ensures r.Some? ==> r.value < |s| && s[r.value] == c && c !in s[r.value + 1..]
  {
    if s == [] then None
    else if s[|s| - 1] == c then Some(|s| - 1)
    else
      var r := LastIndexOf(s[..|s| - 1], c);
      assert s == s[..|s| - 1] + [s[|s| - 1]];
      r
  }

  /** `str::rsplit_once(c)`: the parts before and after the last c. */
  function RSplitOnce(s: string, c: char): (r: Option<(string, string)>)
    ensures r.None? <==> c !in s
    ensures r.Some? ==> s == r.value.0 + [c] + r.value.1 && c !in r.value.1
  {
    match LastIndexOf(s, c)
    case None => None
    case Some(i) =>
      assert s == s[..i] + [c] + s[i + 1..];
      Some((s[..i], s[i + 1..]))
  }

  /** A split at a character the left parts do not contain is unique. */
  lemma SplitAtFirstUnique(a1: string, b1: string, a2: string, b2: string, c: char)
    requires a1 + [c] + b1 == a2 + [c] + b2
    requires c !in a1 && c !in a2
    ensures a1 == a2 && b1 == b2
  {
    var s := a1 + [c] + b1;
    assert (a2 + [c] + b2)[|a1|] == c;
    assert (a1 + [c] + b1)[|a2|] == c;
    assert |a1| == |a2|;
    assert a1 == s[..|a1|] == a2;
    assert b1 == s[|a1| + 1..] == b2;
  }

  /** A split at a character the right parts do not contain is unique. */
  lemma SplitAtLastUnique(a1: string, b1: string, a2: string, b2: string, c: char)
    requires a1 + [c] + b1 == a2 + [c] + b2
    requires c !in b1 && c !in b2
    ensures a1 == a2 && b1 == b2
  {
    var s := a1 + [c] + b1;
    assert (a2 + [c] + b2)[|a1|] == c;
    assert (a1 + [c] + b1)[|a2|] == c;
    assert |a1| == |a2|;
    assert a1 == s[..|a1|] == a2;
    assert b1 == s[|a1| + 1..] == b2;
  }

  /** Splitting at every c (`str::split`): the parts between separators, empties included. */
  function Split(s: string, c: char): (parts: seq<string>)
    ensures |parts| >= 1
    ensures forall i :: 0 <= i < |parts| ==> c !in parts[i]
  {
    match LastIndexOf(s, c)
    case None => [s]
    case Some(i) => Split(s[..i], c) + [s[i + 1..]]
  }

  lemma {:induction false} SplitAppend(a: string, c: char, b: string)
    requires c !in b
    ensures Split(a + [c] + b, c) == Split(a, c) + [b]
  {
    var s := a + [c] + b;
    assert s[..|a|] == a && s[|a| + 1..] == b;
    assert s[|a|] == c;
    var li := LastIndexOf(s, c);
    assert li == Some(|a|) by {
      assert c !in s[|a| + 1..];
    }
  }

  /** Joining strings with a separator (`strings.Join`). */
  function Join(parts: seq<string>, sep: string): string {
    if parts == [] then ""
    else if |parts| == 1 then parts[0]
    else Join(parts[..|parts| - 1], sep) + sep + parts[|parts| - 1]
  }

  function DigitChar(d: nat): (c: char)
    requires d < 10
  {
    ('0' as int + d) as char
  }

  /** Decimal rendering of a natural number (`{}` / `%d`). */
  function NatToDecimal(n: nat): (s: string)
    ensures |s| >= 1
    ensures forall i :: 0 <= i < |s| ==> '0' <= s[i] <= '9'
    decreases n
  {
    if n < 10 then [DigitChar(n)] else NatToDecimal(n / 10) + [DigitChar(n % 10)]
  }

  /** The value of a string of decimal digits. */
  function DecimalValue(s: string): nat
    requires forall i :: 0 <= i < |s| ==> '0' <= s[i] <= '9'
  {
    if s == [] then 0 else DecimalValue(s[..|s| - 1]) * 10 + (s[|s| - 1] as int - '0' as int)
  }

  /** Decimal rendering reads back as the number it renders. */
  lemma {:induction false} DecimalRoundTrip(n: nat)
    ensures DecimalValue(NatToDecimal(n)) == n
    decreases n
  {
    if n >= 10 {
      DecimalRoundTrip(n / 10);
      var s := NatToDecimal(n);
      assert s[..|s| - 1] == NatToDecimal(n / 10);
    }
  }

  /** Distinct numbers render differently. */
  lemma DecimalInjective(a: nat, b: nat)
    requires NatToDecimal(a) == NatToDecimal(b)
    ensures a == b
  {
    DecimalRoundTrip(a);
    DecimalRoundTrip(b);
  }

  /** Decimal rendering of an integer, with a leading '-' when negative (`%d`). */
  function IntToDecimal(i: int): string {
    if i < 0 then "-" + NatToDecimal(-i) else NatToDecimal(i)
  }

  /** Strict byte-wise lexicographic order of strings (Go's `<` on strings, SQLite's
      BINARY collation); for valid UTF-8 this is code-point order, which is what
      comparing `char`s gives. */
  predicate Less(a: string, b: string)
    decreases |a|
  {
    if a == [] then b != []
    else if b == [] then false
    else if a[0] != b[0] then a[0] < b[0]
    else Less(a[1..], b[1..])
  }

  predicate LessEq(a: string, b: string) {
    a == b || Less(a, b)
  }

  lemma {:induction false} LessIrreflexive(a: string)
    ensures !Less(a, a)
  {
    if a != [] {
      LessIrreflexive(a[1..]);
    }
  }

  lemma {:induction false} LessTotal(a: string, b: string)
    ensures a == b || Less(a, b) || Less(b, a)
    decreases |a|
  {
    if a != [] && b != [] && a[0] == b[0] {
      LessTotal(a[1..], b[1..]);
      if a[1..] == b[1..] {
        assert a == [a[0]] + a[1..] && b == [b[0]] + b[1..];
      }
    }
  }

  lemma {:induction false} LessTransitive(a: string, b: string, c: string)
    requires Less(a, b) && Less(b, c)
    ensures Less(a, c)
    decreases |a|
  {
    if a != [] && b != [] && c != [] && a[0] == b[0] && b[0] == c[0] {
      LessTransitive(a[1..], b[1..], c[1..]);
    }
  }

  lemma LessAsymmetric(a: string, b: string)
    requires Less(a, b)
    ensures !Less(b, a)
  {
    if Less(b, a) {
      LessTransitive(a, b, a);
      LessIrreflexive(a);
    }
  }

  /** Sortedness of a string list. */
  predicate SortedStrings(s: seq<string>) {
    forall i :: 0 <= i < |s| - 1 ==> LessEq(s[i], s[i + 1])
  }

  /** Sortedness of a list by a string key: each key is LessEq its successor's. */
  predicate SortedBy<T>(s: seq<T>, key: T -> string) {
    forall i :: 0 <= i < |s| - 1 ==> LessEq(key(s[i]), key(s[i + 1]))
  }

  /** Insertion of x into a sorted list, after every element whose key is not greater. */
  function InsertBy<T(==)>(s: seq<T>, x: T, key: T -> string): (r: seq<T>)
    ensures multiset(r) == multiset(s) + multiset{x}
    ensures |r| == |s| + 1
    ensures r[0] == x || (s != [] && r[0] == s[0])
  {
    if s == [] then [x]
    else if Less(key(x), key(s[0])) then [x] + s
    else
      assert s == [s[0]] + s[1..];
      [s[0]] + InsertBy(s[1..], x, key)
  }

  lemma {:induction false} InsertByKeepsSorted<T>(s: seq<T>, x: T, key: T -> string)
    requires SortedBy(s, key)
    ensures SortedBy(InsertBy(s, x, key), key)
  {
    if s != [] && !Less(key(x), key(s[0])) {
      assert SortedBy(s[1..], key) by {
        forall i | 0 <= i < |s[1..]| - 1
          ensures LessEq(key(s[1..][i]), key(s[1..][i + 1]))
        {
          assert s[1..][i] == s[i + 1] && s[1..][i + 1] == s[i + 2];
        }
      }
      InsertByKeepsSorted(s[1..], x, key);
      var t := InsertBy(s[1..], x, key);
      var r := InsertBy(s, x, key);
      assert r == [s[0]] + t;
      assert LessEq(key(s[0]), key(t[0])) by {
        if t[0] == x {
          LessTotal(key(x), key(s[0]));
        } else {
          assert t[0] == s[1];
        }
      }
      forall i | 0 <= i < |r| - 1
        ensures LessEq(key(r[i]), key(r[i + 1]))
      {
        if i > 0 {
          assert r[i] == t[i - 1] && r[i + 1] == t[i];
        }
      }
    }
  }

  /** Stable insertion sort by a string key (the order an `ORDER BY` on that
      column returns; rows with equal keys keep their table order). */
  function SortBy<T(==)>(s: seq<T>, key: T -> string): (r: seq<T>)
    ensures multiset(r) == multiset(s)
    ensures |r| == |s|
  {
    if s == [] then []
    else
      assert s == s[..|s| - 1] + [s[|s| - 1]];
      InsertBy(SortBy(s[..|s| - 1], key), s[|s| - 1], key)
  }

  lemma {:induction false} SortBySorted<T>(s: seq<T>, key: T -> string)
    ensures SortedBy(SortBy(s, key), key)
  {
    if s != [] {
      SortBySorted(s[..|s| - 1], key);
      InsertByKeepsSorted(SortBy(s[..|s| - 1], key), s[|s| - 1], key);
    }
  }
}
