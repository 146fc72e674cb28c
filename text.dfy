/** String helpers for the few JavaScript string operations the registry
    relies on: decimal numerals (template literals and `parseInt`),
    `String.prototype.replace` with a one-character pattern, `startsWith`,
    `toUpperCase` and the name order in which a directory is listed. */
module Text {

  import opened Wrappers

  predicate IsDigit(c: char) {
    '0' <= c <= '9'
  }

  predicate AllDigits(s: string) {
    forall i :: 0 <= i < |s| ==> IsDigit(s[i])
  }

  function DigitChar(d: nat): (c: char)
    requires d < 10
    ensures IsDigit(c) && c as int - '0' as int == d
  {
    ('0' as int + d) as char
  }

  /** The decimal numeral of `n` as a template literal prints it. */
  function Decimal(n: nat): (s: string)
    ensures |s| > 0 && AllDigits(s)
  {
    if n < 10 then [DigitChar(n)] else Decimal(n / 10) + [DigitChar(n % 10)]
  }

  /** The value `parseInt` reads from a non-empty string of digits. */
  function DigitsValue(s: string): nat
    requires AllDigits(s)
  {
    if s == [] then 0
    else 10 * DigitsValue(s[..|s| - 1]) + (s[|s| - 1] as int - '0' as int)
  }

  /** Reading back a printed number gives the number. */
  lemma {:induction false} DecimalRoundTrip(n: nat)
    ensures DigitsValue(Decimal(n)) == n
  {
    var s := Decimal(n);
    if n >= 10 {
      assert s[..|s| - 1] == Decimal(n / 10);
      DecimalRoundTrip(n / 10);
    }
  }

  /** Two numbers with the same numeral are equal. */
  lemma DecimalInjective(m: nat, n: nat)
    requires Decimal(m) == Decimal(n)
    ensures m == n
  {
    DecimalRoundTrip(m);
    DecimalRoundTrip(n);
  }

  /** `s.replace(c, '')`: a one-character pattern removes only the first
      occurrence of `c` (see `ReplaceFirstRemovesFirst`). */
  function ReplaceFirst(s: string, c: char): (r: string)
    ensures c !in s ==> r == s
    ensures |s| > 0 && s[0] == c ==> r == s[1..]
    ensures c in s ==> |r| == |s| - 1
  {
    if s == [] then []
    else if s[0] == c then s[1..]
    else [s[0]] + ReplaceFirst(s[1..], c)
  }

  /** With `i` the first position of `c`, `replace` cuts out exactly that
      position: the characters before and after it are kept, in order. */
  lemma {:induction false} ReplaceFirstRemovesFirst(s: string, c: char, i: nat)
    requires i < |s| && s[i] == c && c !in s[..i]
    ensures ReplaceFirst(s, c) == s[..i] + s[i + 1..]
  {
    if i > 0 {
      assert s[0] in s[..i];
      assert s[1..][..i - 1] == s[1..i];
      ReplaceFirstRemovesFirst(s[1..], c, i - 1);
      assert s[..i] == [s[0]] + s[1..i];
      assert s[1..][i - 1 + 1..] == s[i + 1..];
    }
  }

  predicate StartsWith(s: string, prefix: string) {
    |prefix| <= |s| && s[..|prefix|] == prefix
  }

  /** A string is truthy in JavaScript when it is present and not empty. */
  predicate Truthy(s: Option<string>) {
    s.Some? && s.value != ""
  }

  function UpperChar(c: char): char {
    if 'a' <= c <= 'z' then (c as int - 32) as char else c
  }

  predicate IsUpper(s: string) {
    forall i :: 0 <= i < |s| ==> !('a' <= s[i] <= 'z')
  }

  /** `toUpperCase` on the ASCII letters; every other character is kept
      (the case mapping of letters outside ASCII is not modelled). */
  function Upper(s: string): (r: string)
    ensures |r| == |s| && IsUpper(r)
    ensures forall i :: 0 <= i < |s| && !('a' <= s[i] <= 'z') ==> r[i] == s[i]
    ensures IsUpper(s) ==> r == s
  {
    if s == [] then [] else [UpperChar(s[0])] + Upper(s[1..])
  }

  /** The status filter of the list handlers: no filter for a falsy query,
      otherwise equality with the upper-cased query. */
  predicate StatusMatches(status: Option<string>, value: string) {
    !Truthy(status) || value == Upper(status.value)
  }

  /** The query `active` filters exactly as `ACTIVE` does. */
  lemma StatusQueryIgnoresCase(query: string, value: string)
    ensures StatusMatches(Some(query), value) == StatusMatches(Some(Upper(query)), value)
  {
    assert |Upper(query)| == |query|;
    assert Upper(Upper(query)) == Upper(query);
  }

  /** Byte-wise (here: character-wise) name order, as a sorted directory
      listing presents folder names. */
  predicate LexLe(a: string, b: string) {
    |a| == 0 || (|b| > 0 && (a[0] < b[0] || (a[0] == b[0] && LexLe(a[1..], b[1..]))))
  }

  lemma {:induction false} LexTotal(a: string, b: string)
    ensures LexLe(a, b) || LexLe(b, a)
  {
    if |a| > 0 && |b| > 0 && a[0] == b[0] {
      LexTotal(a[1..], b[1..]);
    }
  }

  lemma {:induction false} LexAntisymmetric(a: string, b: string)
    requires LexLe(a, b) && LexLe(b, a)
    ensures a == b
  {
    if |a| > 0 {
      LexAntisymmetric(a[1..], b[1..]);
      assert a == [a[0]] + a[1..] && b == [b[0]] + b[1..];
    }
  }

  lemma {:induction false} LexTransitive(a: string, b: string, c: string)
    requires LexLe(a, b) && LexLe(b, c)
    ensures LexLe(a, c)
  {
    if |a| > 0 && a[0] == b[0] && b[0] == c[0] {
      LexTransitive(a[1..], b[1..], c[1..]);
    }
  }

  predicate IsLeastName(k: string, names: set<string>) {
    k in names && forall j :: j in names ==> LexLe(k, j)
  }

  lemma {:induction false} LexLeastExists(names: set<string>)
    requires names != {}
    ensures exists k :: IsLeastName(k, names)
  {
    var x :| x in names;
    LexTotal(x, x);
    if names != {x} {
      var rest := names - {x};
      LexLeastExists(rest);
      var m :| IsLeastName(m, rest);
      LexTotal(x, m);
      if LexLe(x, m) {
        forall j | j in names ensures LexLe(x, j) {
          if j != x { LexTransitive(x, m, j); }
        }
        assert IsLeastName(x, names);
      } else {
        assert IsLeastName(m, names);
      }
    } else {
      assert IsLeastName(x, names);
    }
  }

  lemma LeastNameUnique(names: set<string>)
    ensures forall a, b :: IsLeastName(a, names) && IsLeastName(b, names) ==> a == b
  {
    forall a, b | IsLeastName(a, names) && IsLeastName(b, names) ensures a == b {
      LexAntisymmetric(a, b);
    }
  }

  /** The first of a non-empty set of names in listing order. */
  function LeastName(names: set<string>): (k: string)
    requires names != {}
    ensures IsLeastName(k, names)
  {
    LexLeastExists(names);
    LeastNameUnique(names);
    var k :| IsLeastName(k, names);
    k
  }

  predicate InNameOrder(names: seq<string>) {
    forall i, j :: 0 <= i < j < |names| ==> LexLe(names[i], names[j])
  }

  /** A directory listing: every name once, in name order. */
  function SortedNames(names: set<string>): (r: seq<string>)
    ensures |r| == |names|
    ensures forall k :: k in r <==> k in names
    ensures InNameOrder(r)
    decreases |names|
  {
    if names == {} then []
    else
      var k := LeastName(names);
      var rest := SortedNames(names - {k});
      assert forall j :: j in rest ==> j in names;
      [k] + rest
  }
}
