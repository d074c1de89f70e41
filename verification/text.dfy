/** The string primitives the sort engine relies on: `toLowerCase`, `trim`,
    `split`/`join`, `includes`, the relational `<` on strings and the decimal
    rendering of integers inside template literals. Characters are compared by
    code point and case and white space are ASCII-only. */
module Text {

  /** White space as `trim` and the regular expression class `\s` see it
      (ASCII part: space, tab, line feed, vertical tab, form feed, carriage return). */
  predicate IsSpace(c: char) {
    c == ' ' || '\t' <= c <= '\r'
  }

  predicate NoSpace(s: string) {
    forall i :: 0 <= i < |s| ==> !IsSpace(s[i])
  }

  function ToLower(c: char): char {
    if 'A' <= c <= 'Z' then (c as int + 32) as char else c
  }

  /** `s.toLowerCase()`: every capital letter becomes its small letter, every
      other character stays, and no capital letter is left. */
  function Lower(s: string): (r: string)
    ensures |r| == |s|
    ensures forall i :: 0 <= i < |s| ==> r[i] == ToLower(s[i])
    ensures forall i :: 0 <= i < |s| && 'A' <= s[i] <= 'Z' ==> 'a' <= r[i] <= 'z' && r[i] as int - s[i] as int == 32
    ensures forall i :: 0 <= i < |s| && !('A' <= s[i] <= 'Z') ==> r[i] == s[i]
    ensures forall i :: 0 <= i < |r| ==> !('A' <= r[i] <= 'Z')
  {
    seq(|s|, i requires 0 <= i < |s| => ToLower(s[i]))
  }

  /** Lower-casing twice is lower-casing once. */
  lemma LowerIdempotent(s: string)
    ensures Lower(Lower(s)) == Lower(s)
  {
    var r := Lower(s);
    assert forall i :: 0 <= i < |r| ==> Lower(r)[i] == r[i];
  }

  /** `s.includes("at")` */
  predicate ContainsAt(s: string) {
    exists i :: 0 <= i < |s| - 1 && s[i] == 'a' && s[i + 1] == 't'
  }

  // ---------------------------------------------------------------------------
  // The relational operators on strings: lexicographic by character, a proper
  // prefix being smaller.
  // ---------------------------------------------------------------------------

  /** `a < b` on two strings */
  predicate Less(a: string, b: string) {
    if |a| == 0 then |b| > 0
    else if |b| == 0 then false
    else if a[0] == b[0] then Less(a[1..], b[1..])
    else a[0] < b[0]
  }

  lemma {:induction false} LessIrreflexive(a: string)
    ensures !Less(a, a)
  {
    if |a| > 0 {
      LessIrreflexive(a[1..]);
    }
  }

  lemma {:induction false} LessAsymmetric(a: string, b: string)
    ensures !(Less(a, b) && Less(b, a))
  {
    if |a| > 0 && |b| > 0 && a[0] == b[0] {
      LessAsymmetric(a[1..], b[1..]);
    }
  }

  lemma {:induction false} LessTotal(a: string, b: string)
    ensures a == b || Less(a, b) || Less(b, a)
  {
    if |a| > 0 && |b| > 0 && a[0] == b[0] {
      LessTotal(a[1..], b[1..]);
      if a[1..] == b[1..] {
        assert a == [a[0]] + a[1..] && b == [b[0]] + b[1..];
      }
    }
  }

  lemma {:induction false} LessTransitive(a: string, b: string, c: string)
    requires Less(a, b) && Less(b, c)
    ensures Less(a, c)
  {
    if |a| > 0 && a[0] == b[0] && b[0] == c[0] {
      LessTransitive(a[1..], b[1..], c[1..]);
    }
  }

  // ---------------------------------------------------------------------------
  // trim
  // ---------------------------------------------------------------------------

  function TrimStart(s: string): (r: string)
    ensures |r| <= |s| && r == s[|s| - |r|..]
    ensures forall k :: 0 <= k < |s| - |r| ==> IsSpace(s[k])
    ensures r == [] || !IsSpace(r[0])
  {
    if |s| > 0 && IsSpace(s[0]) then TrimStart(s[1..]) else s
  }

  function TrimEnd(s: string): (r: string)
    ensures |r| <= |s| && r == s[..|r|]
    ensures forall k :: |r| <= k < |s| ==> IsSpace(s[k])
    ensures r == [] || !IsSpace(r[|r| - 1])
  {
    if |s| > 0 && IsSpace(s[|s| - 1]) then TrimEnd(s[..|s| - 1]) else s
  }

  /** `s.trim()`: white space removed at both ends and nowhere else. */
  function Trim(s: string): (r: string)
    ensures Trimmed(r)
    ensures |r| <= |s|
    ensures forall ch :: ch in r ==> ch in s
    ensures |r| == 0 ==> forall k :: 0 <= k < |s| ==> IsSpace(s[k])
    ensures TrimmedSlice(s, r)
  {
    var t := TrimStart(s);
    var r := TrimEnd(t);
    assert TrimParts(s, t, r);
    TrimSlice(s, t, r);
    r
  }

  /** `r` is a slice of `s` with only white space outside it. */
  ghost predicate TrimmedSlice(s: string, r: string) {
    exists i, j :: 0 <= i <= j <= |s| && r == s[i..j]
                   && (forall k :: 0 <= k < i ==> IsSpace(s[k]))
                   && (forall k :: j <= k < |s| ==> IsSpace(s[k]))
  }

  /** What the two passes of `Trim` guarantee: `t` is `s` without its
      leading white space, `r` is `t` without its trailing white space. */
  predicate TrimParts(s: string, t: string, r: string) {
    && |t| <= |s| && t == s[|s| - |t|..]
    && (forall k :: 0 <= k < |s| - |t| ==> IsSpace(s[k]))
    && (t == [] || !IsSpace(t[0]))
    && |r| <= |t| && r == t[..|r|]
    && (forall k :: |r| <= k < |t| ==> IsSpace(t[k]))
    && (r == [] || !IsSpace(r[|r| - 1]))
  }

  /** The two passes cut a slice out of `s` with only white space outside it. */
  lemma TrimSlice(s: string, t: string, r: string)
    requires TrimParts(s, t, r)
    ensures Trimmed(r)
    ensures |r| <= |s|
    ensures forall ch :: ch in r ==> ch in s
    ensures |r| == 0 ==> forall k :: 0 <= k < |s| ==> IsSpace(s[k])
    ensures TrimmedSlice(s, r)
  {
    var i, j := |s| - |t|, |s| - |t| + |r|;
    TrimOutside(s, t, r);
    assert |r| > 0 ==> r[0] == t[0];
    SliceChars(s, i, j);
    TrimEmptyAllSpace(s, t, r);
    assert 0 <= i <= j <= |s| && r == s[i..j]
           && (forall k :: 0 <= k < i ==> IsSpace(s[k]))
           && (forall k :: j <= k < |s| ==> IsSpace(s[k]));
  }

  lemma TrimOutside(s: string, t: string, r: string)
    requires TrimParts(s, t, r)
    ensures var i, j := |s| - |t|, |s| - |t| + |r|;
            && 0 <= i <= j <= |s| && r == s[i..j]
            && (forall k :: j <= k < |s| ==> IsSpace(s[k]))
  {
    var i, j := |s| - |t|, |s| - |t| + |r|;
    forall k | j <= k < |s|
      ensures IsSpace(s[k])
    {
      assert s[k] == t[k - i];
    }
  }

  lemma SliceChars(s: string, i: nat, j: nat)
    requires i <= j <= |s|
    ensures forall ch :: ch in s[i..j] ==> ch in s
  {
    forall ch | ch in s[i..j]
      ensures ch in s
    {
      var k :| 0 <= k < j - i && s[i..j][k] == ch;
      assert s[i + k] == ch;
    }
  }

  lemma TrimEmptyAllSpace(s: string, t: string, r: string)
    requires TrimParts(s, t, r)
    ensures |r| == 0 ==> forall k :: 0 <= k < |s| ==> IsSpace(s[k])
  {
    // An empty `r` leaves `t` all white space, so `t` itself is empty.
    BlankStartEmpty(t);
  }

  lemma BlankStartEmpty(t: string)
    ensures (t == [] || !IsSpace(t[0])) && (forall k :: 0 <= k < |t| ==> IsSpace(t[k])) ==> t == []
  {
  }

  /** No white space at either end. */
  predicate Trimmed(s: string) {
    s == [] || (!IsSpace(s[0]) && !IsSpace(s[|s| - 1]))
  }

  lemma TrimOfTrimmed(s: string)
    requires Trimmed(s)
    ensures Trim(s) == s
  {
  }

  // ---------------------------------------------------------------------------
  // split and join on a one-character separator
  // ---------------------------------------------------------------------------

  /** `s.split(d)`: the maximal separator-free pieces, always at least one. */
  function Split(s: string, d: char): (r: seq<string>)
    ensures |r| >= 1
    ensures forall i :: 0 <= i < |r| ==> d !in r[i]
    ensures d !in s ==> r == [s]
  {
    if |s| == 0 then [""]
    else
      var rest := Split(s[1..], d);
      if s[0] == d then [""] + rest
      else
        assert d !in s ==> rest == [s[1..]] && [s[0]] + s[1..] == s;
        [[s[0]] + rest[0]] + rest[1..]
  }

  /** `ps.join(d)` */
  function Join(ps: seq<string>, d: char): string {
    if |ps| == 0 then ""
    else if |ps| == 1 then ps[0]
    else ps[0] + [d] + Join(ps[1..], d)
  }

  /** Joining the pieces puts back exactly the separators that were removed. */
  lemma {:induction false} JoinSplit(s: string, d: char)
    ensures Join(Split(s, d), d) == s
  {
    if |s| > 0 {
      var rest := Split(s[1..], d);
      JoinSplit(s[1..], d);
      assert s == [s[0]] + s[1..];
      if s[0] == d {
        JoinEmptyFirst(rest, d);
      } else {
        JoinExtendFirst(s[0], rest, d);
      }
    }
  }

  lemma JoinEmptyFirst(ps: seq<string>, d: char)
    requires |ps| >= 1
    ensures Join([""] + ps, d) == [d] + Join(ps, d)
  {
    assert ([""] + ps)[1..] == ps;
  }

  lemma JoinExtendFirst(c: char, ps: seq<string>, d: char)
    requires |ps| >= 1
    ensures Join([[c] + ps[0]] + ps[1..], d) == [c] + Join(ps, d)
  {
    var qs := [[c] + ps[0]] + ps[1..];
    assert qs[1..] == ps[1..];
    if |ps| > 1 {
      assert Join(qs, d) == ([c] + ps[0]) + [d] + Join(ps[1..], d);
      assert Join(ps, d) == ps[0] + [d] + Join(ps[1..], d);
    }
  }

  /** A string whose every character is `c` but which does not contain `c` is empty. */
  lemma NoneLeft(s: string, c: char)
    ensures (forall ch :: ch in s ==> ch == c) && c !in s ==> s == []
  {
    if |s| > 0 {
      assert s[0] in s;
    }
  }

  /** Each piece's characters occur in the joined string. */
  lemma {:induction false} JoinContains(ps: seq<string>, d: char, i: nat)
    requires i < |ps|
    ensures forall ch :: ch in ps[i] ==> ch in Join(ps, d)
  {
    if |ps| > 1 {
      if i == 0 {
        assert Join(ps, d) == ps[0] + ([d] + Join(ps[1..], d));
      } else {
        JoinContains(ps[1..], d, i - 1);
        assert Join(ps, d) == ps[0] + [d] + Join(ps[1..], d);
      }
    }
  }

  /** Each piece of a split uses only characters of the string. */
  lemma SplitPieceIn(s: string, d: char, i: nat)
    requires i < |Split(s, d)|
    ensures forall ch :: ch in Split(s, d)[i] ==> ch in s
  {
    JoinSplit(s, d);
    JoinContains(Split(s, d), d, i);
  }

  /** The first piece is the text before the first separator: a
      separator-free prefix that is followed by the separator or ends the
      string; the remaining pieces are the pieces of what follows. */
  lemma {:induction false} SplitHead(s: string, d: char)
    ensures var h := Split(s, d)[0];
            && h <= s && d !in h
            && (if |h| == |s| then |Split(s, d)| == 1
                else s[|h|] == d && Split(s, d)[1..] == Split(s[|h| + 1..], d))
  {
    if |s| > 0 && s[0] != d {
      SplitHead(s[1..], d);
    }
  }

  lemma PrefixAt(h: string, s: string, k: int)
    ensures h <= s && 0 <= k < |h| ==> s[k] == h[k]
  {
  }

  /** Only one prefix fits that description. */
  lemma HeadUnique(s: string, d: char, h: string)
    requires h <= s && d !in h && (|h| == |s| || s[|h|] == d)
    ensures Split(s, d)[0] == h
  {
    SplitHead(s, d);
    var g := Split(s, d)[0];
    if |g| < |h| {
      PrefixAt(h, s, |g|);
    } else if |h| < |g| {
      PrefixAt(g, s, |h|);
    }
  }

  /** A separator-free prefix followed by the separator becomes the first piece. */
  lemma {:induction false} SplitCons(p: string, d: char, t: string)
    requires d !in p
    ensures Split(p + [d] + t, d) == [p] + Split(t, d)
  {
    if |p| == 0 {
      assert p + [d] + t == [d] + t;
      assert ([d] + t)[1..] == t;
    } else {
      SplitCons(p[1..], d, t);
      assert (p + [d] + t)[1..] == p[1..] + [d] + t;
      assert [p[0]] + p[1..] == p;
    }
  }

  /** Splitting undoes joining when no piece holds the separator. */
  lemma {:induction false} SplitJoin(ps: seq<string>, d: char)
    requires |ps| >= 1
    requires forall i :: 0 <= i < |ps| ==> d !in ps[i]
    ensures Split(Join(ps, d), d) == ps
  {
    if |ps| > 1 {
      SplitJoin(ps[1..], d);
      SplitCons(ps[0], d, Join(ps[1..], d));
      assert ps == [ps[0]] + ps[1..];
    }
  }

  // ---------------------------------------------------------------------------
  // decimal rendering of a non-negative integer, as in `${n}`
  // ---------------------------------------------------------------------------

  predicate IsDigit(c: char) {
    '0' <= c <= '9'
  }

  function DigitChar(d: nat): (c: char)
    requires d < 10
    ensures IsDigit(c) && c as int - '0' as int == d
  {
    ('0' as int + d) as char
  }

  /** The shortest decimal rendering: digits only, and no leading zero
      except for `0` itself. */
  function Decimal(n: nat): (r: string)
    ensures |r| >= 1
    ensures forall i :: 0 <= i < |r| ==> IsDigit(r[i])
    ensures r[0] == '0' ==> n == 0 && |r| == 1
  {
    if n < 10 then [DigitChar(n)] else Decimal(n / 10) + [DigitChar(n % 10)]
  }

  /** The value a string of decimal digits denotes. */
  function DigitsValue(s: string): nat
    requires forall i :: 0 <= i < |s| ==> IsDigit(s[i])
  {
    if |s| == 0 then 0
    else
      assert IsDigit(s[|s| - 1]);
      DigitsValue(s[..|s| - 1]) * 10 + (s[|s| - 1] as int - '0' as int)
  }

  /** Reading back a rendered integer gives the integer. */
  lemma {:induction false} DecimalRoundTrip(n: nat)
    ensures DigitsValue(Decimal(n)) == n
  {
    if n >= 10 {
      DecimalRoundTrip(n / 10);
      var s := Decimal(n);
      assert s[..|s| - 1] == Decimal(n / 10);
    }
  }

  lemma DecimalInjective(m: nat, n: nat)
    requires Decimal(m) == Decimal(n)
    ensures m == n
  {
    DecimalRoundTrip(m);
    DecimalRoundTrip(n);
  }

  /** The text after the last occurrence of `c` (all of `s` when there is none). */
  function AfterLast(s: string, c: char): (r: string)
    ensures c !in r
  {
    if |s| == 0 then s
    else if s[|s| - 1] == c then []
    else AfterLast(s[..|s| - 1], c) + [s[|s| - 1]]
  }

  lemma {:induction false} AfterLastOf(x: string, c: char, t: string)
    requires c !in t
    ensures AfterLast(x + [c] + t, c) == t
  {
    if |t| > 0 {
      var s := x + [c] + t;
      assert s[..|s| - 1] == x + [c] + t[..|t| - 1];
      AfterLastOf(x, c, t[..|t| - 1]);
      assert t == t[..|t| - 1] + [t[|t| - 1]];
    } else {
      assert x + [c] + t == x + [c];
    }
  }

  /** Two strings of the form `x_<m>` and `y_<n>` are equal only when `m == n`:
      the text after the last underscore is the rendered number. */
  lemma IndexSuffixInjective(x: string, m: nat, y: string, n: nat)
    requires x + "_" + Decimal(m) == y + "_" + Decimal(n)
    ensures m == n
  {
    assert '_' !in Decimal(m) && '_' !in Decimal(n);
    AfterLastOf(x, '_', Decimal(m));
    AfterLastOf(y, '_', Decimal(n));
    DecimalInjective(m, n);
  }
}
