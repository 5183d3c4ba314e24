/**
 * The PHP string built-ins the store relies on: `trim`, `empty`, `strcasecmp`,
 * `strcmp` ordering, `array_unique` and `sort` on lists of strings.
 * PHP strings are byte strings; here a character stands for one code point,
 * and the orders below compare code points, which agrees with byte order of
 * the UTF-8 encoding.
 */
module PhpStrings {

  // ---------------------------------------------------------------- trim

  /** The characters PHP's `trim` strips by default: " \t\n\r\0\x0B". */
  predicate IsTrimmable(c: char) {
    c == ' ' || c == '\t' || c == '\n' || c == '\r' || c == '\0' || c == '\U{000B}'
  }

  function TrimLeft(s: string): (r: string)
    ensures |r| <= |s| && r == s[|s| - |r|..]
    ensures forall i :: 0 <= i < |s| - |r| ==> IsTrimmable(s[i])
    ensures |r| > 0 ==> !IsTrimmable(r[0])
  {
    if |s| > 0 && IsTrimmable(s[0]) then TrimLeft(s[1..]) else s
  }

  function TrimRight(s: string): (r: string)
    ensures |r| <= |s| && r == s[..|r|]
    ensures forall i :: |r| <= i < |s| ==> IsTrimmable(s[i])
    ensures |r| > 0 ==> !IsTrimmable(r[|r| - 1])
  {
    if |s| > 0 && IsTrimmable(s[|s| - 1]) then TrimRight(s[..|s| - 1]) else s
  }

  /** PHP `trim($s)`: trimmable characters are removed from both ends. */
  function Trim(s: string): (r: string)
    ensures |r| <= |s|
    ensures |r| > 0 ==> !IsTrimmable(r[0]) && !IsTrimmable(r[|r| - 1])
  {
    TrimRight(TrimLeft(s))
  }

  /**
   * `trim` removes only trimmable characters: its result is an infix of `s`,
   * and everything before and after that infix is trimmable.
   */
  lemma TrimRemovesOnlyTrimmable(s: string)
    ensures exists k ::
              && 0 <= k <= |s| - |Trim(s)|
              && Trim(s) == Infix(s, k, |Trim(s)|)
              && (forall i :: 0 <= i < k ==> IsTrimmable(s[i]))
              && (forall i :: k + |Trim(s)| <= i < |s| ==> IsTrimmable(s[i]))
  {
    var left := TrimLeft(s);
    var r := TrimRight(left);
    var k := |s| - |left|;
    assert r == Trim(s);
    assert left == s[k..] && r == left[..|r|];
    assert r == Infix(s, k, |r|) by {
      assert left[..|r|] == s[k..k + |r|];
    }
    assert forall i :: 0 <= i < k ==> IsTrimmable(s[i]);
    assert forall i :: k + |r| <= i < |s| ==> IsTrimmable(s[i]) by {
      forall i | k + |r| <= i < |s| ensures IsTrimmable(s[i]) {
        assert s[i] == left[i - k];
      }
    }
  }

  /** The `n` characters of `s` starting at `k`. */
  function Infix(s: string, k: nat, n: nat): string
    requires k + n <= |s|
  {
    s[k..k + n]
  }

  lemma {:induction false} TrimLeftNoop(s: string)
    requires |s| == 0 || !IsTrimmable(s[0])
    ensures TrimLeft(s) == s
  {
  }

  lemma {:induction false} TrimRightNoop(s: string)
    requires |s| == 0 || !IsTrimmable(s[|s| - 1])
    ensures TrimRight(s) == s
  {
  }

  /** A string that neither starts nor ends with a trimmable character is its own trim. */
  lemma TrimNoop(s: string)
    requires |s| == 0 || (!IsTrimmable(s[0]) && !IsTrimmable(s[|s| - 1]))
    ensures Trim(s) == s
  {
    TrimLeftNoop(s);
    TrimRightNoop(s);
  }

  /** Trimming twice is trimming once. */
  lemma TrimIdempotent(s: string)
    ensures Trim(Trim(s)) == Trim(s)
  {
    var t := Trim(s);
    assert TrimLeft(t) == t by { TrimLeftNoop(t); }
  }

  // ---------------------------------------------------------------- empty

  /** PHP `empty($s)` for a string: true for "" and for "0". */
  predicate IsEmpty(s: string) {
    s == "" || s == "0"
  }

  /**
   * `empty` and `trim` disagree on blank strings: a string of trimmable
   * characters only is not empty, yet trims to "", while an empty string
   * is left as it is by `trim`.
   */
  lemma EmptyAndTrim(s: string)
    ensures IsEmpty(s) ==> |s| <= 1 && Trim(s) == s
    ensures |s| > 0 && (forall i :: 0 <= i < |s| ==> IsTrimmable(s[i])) ==> !IsEmpty(s) && Trim(s) == ""
  {
    if IsEmpty(s) {
      TrimNoop(s);
    }
    if |s| > 0 && forall i :: 0 <= i < |s| ==> IsTrimmable(s[i]) {
      var left := TrimLeft(s);
      assert left == [];
    }
  }

  // ---------------------------------------------------------------- strcasecmp

  /** ASCII lower-casing, as `strcasecmp` applies it byte by byte. */
  function LowerAscii(c: char): (d: char)
    ensures 'A' <= c <= 'Z' ==> d as int == c as int + 32
    ensures !('A' <= c <= 'Z') ==> d == c
  {
    if 'A' <= c <= 'Z' then (c as int + 32) as char else c
  }

  /** A string with every ASCII upper-case letter lowered, as `strcasecmp` compares it. */
  function Lower(s: string): (r: string)
    ensures |r| == |s| && forall i :: 0 <= i < |s| ==> r[i] == LowerAscii(s[i])
  {
    seq(|s|, i requires 0 <= i < |s| => LowerAscii(s[i]))
  }

  /** `strcasecmp($a, $b) === 0`: equal lengths and equal after ASCII lower-casing, byte by byte. */
  predicate SameIgnoringCase(a: string, b: string) {
    Lower(a) == Lower(b)
  }

  /** "Bob" and "bob" are the same name to `strcasecmp`, though different strings. */
  lemma SameIgnoringCaseExample()
    ensures "Bob" != "bob" && SameIgnoringCase("Bob", "bob")
  {
    assert Lower("Bob") == "bob";
    assert Lower("bob") == "bob";
  }

  // ---------------------------------------------------------------- strcmp order

  /** `strcmp($a, $b) < 0`: lexicographic order, a proper prefix comes first. */
  predicate Less(a: string, b: string) {
    if |a| == 0 then |b| > 0
    else if |b| == 0 then false
    else if a[0] != b[0] then a[0] < b[0]
    else Less(a[1..], b[1..])
  }

  predicate LessEq(a: string, b: string) {
    a == b || Less(a, b)
  }

  lemma {:induction false} LessIrreflexive(a: string)
    ensures !Less(a, a)
  {
    if |a| > 0 {
      LessIrreflexive(a[1..]);
    }
  }

  lemma {:induction false} LessTransitive(a: string, b: string, c: string)
    requires Less(a, b) && Less(b, c)
    ensures Less(a, c)
  {
    if |a| > 0 && |b| > 0 && |c| > 0 && a[0] == b[0] == c[0] {
      LessTransitive(a[1..], b[1..], c[1..]);
    }
  }

  lemma {:induction false} LessTotal(a: string, b: string)
    requires a != b
    ensures Less(a, b) || Less(b, a)
  {
    if |a| > 0 && |b| > 0 && a[0] == b[0] {
      assert a == [a[0]] + a[1..] && b == [b[0]] + b[1..];
      LessTotal(a[1..], b[1..]);
    }
  }

  lemma LessAsymmetric(a: string, b: string)
    requires Less(a, b)
    ensures !Less(b, a)
  {
    if Less(b, a) {
      LessTransitive(a, b, a);
      LessIrreflexive(a);
    }
  }

  lemma LessEqTransitive(a: string, b: string, c: string)
    requires LessEq(a, b) && LessEq(b, c)
    ensures LessEq(a, c)
  {
    if Less(a, b) && Less(b, c) {
      LessTransitive(a, b, c);
    }
  }

  // ---------------------------------------------------------------- array_unique

  predicate NoDuplicates(s: seq<string>) {
    forall i, j :: 0 <= i < j < |s| ==> s[i] != s[j]
  }

  /**
   * PHP `array_unique` on strings: exact duplicates are removed and the first
   * occurrence of each value is kept, in its original place.
   */
  function Unique(s: seq<string>): (r: seq<string>)
    ensures NoDuplicates(r)
    ensures forall x :: x in r <==> x in s
    ensures |r| <= |s|
  {
    if s == [] then []
    else
      var u := Unique(s[..|s| - 1]);
      assert forall x :: x in s <==> x in s[..|s| - 1] || x == s[|s| - 1] by {
        assert s == s[..|s| - 1] + [s[|s| - 1]];
      }
      if s[|s| - 1] in u then u else u + [s[|s| - 1]]
  }

  // ---------------------------------------------------------------- sort

  predicate Sorted(s: seq<string>) {
    forall i, j :: 0 <= i < j < |s| ==> LessEq(s[i], s[j])
  }

  predicate StrictlySorted(s: seq<string>) {
    forall i, j :: 0 <= i < j < |s| ==> Less(s[i], s[j])
  }

  function Insert(x: string, s: seq<string>): (r: seq<string>)
    requires Sorted(s)
    ensures Sorted(r)
    ensures multiset(r) == multiset(s) + multiset{x}
  {
    if s == [] then [x]
    else if LessEq(x, s[0]) then
      BelowSorted(x, s);
      [x] + s
    else
      var t := Insert(x, s[1..]);
      assert s == [s[0]] + s[1..];
      BelowInsert(x, s, t);
      [s[0]] + t
  }

  /** A string at or below the head of a sorted list may be put in front of it. */
  lemma BelowSorted(x: string, s: seq<string>)
    requires Sorted(s) && s != [] && LessEq(x, s[0])
    ensures Sorted([x] + s)
  {
    forall j | 0 <= j < |s| ensures LessEq(x, s[j]) {
      LessEqTransitive(x, s[0], s[j]);
    }
    assert forall j :: 0 < j < |[x] + s| ==> ([x] + s)[j] == s[j - 1];
  }

  /** The head of a sorted list stays in front when a larger string is inserted in its tail. */
  lemma BelowInsert(x: string, s: seq<string>, t: seq<string>)
    requires Sorted(s) && s != [] && !LessEq(x, s[0])
    requires Sorted(t) && multiset(t) == multiset(s[1..]) + multiset{x}
    ensures Sorted([s[0]] + t)
  {
    assert LessEq(s[0], x) by { LessTotal(x, s[0]); }
    forall j | 0 <= j < |t| ensures LessEq(s[0], t[j]) {
      var y := t[j];
      assert y in multiset(t);
      if y != x {
        assert y in multiset(s[1..]);
        var k :| 0 <= k < |s[1..]| && s[1..][k] == y;
        assert s[k + 1] == y;
      }
    }
    assert forall j :: 0 < j < |[s[0]] + t| ==> ([s[0]] + t)[j] == t[j - 1];
  }

  /** PHP `sort` on strings compared with `strcmp`: an ordered permutation. */
  function Sort(s: seq<string>): (r: seq<string>)
    ensures Sorted(r)
    ensures multiset(r) == multiset(s)
  {
    if s == [] then []
    else
      assert s == s[..|s| - 1] + [s[|s| - 1]];
      Insert(s[|s| - 1], Sort(s[..|s| - 1]))
  }

  /** Sorting a list without duplicates orders it strictly and keeps its elements. */
  lemma SortDistinct(s: seq<string>)
    requires NoDuplicates(s)
    ensures StrictlySorted(Sort(s))
    ensures forall x :: x in Sort(s) <==> x in s
  {
    var r := Sort(s);
    assert forall x :: x in r <==> x in s by {
      forall x ensures x in r <==> x in s {
        assert x in r <==> x in multiset(r);
        assert x in s <==> x in multiset(s);
      }
    }
    assert NoDuplicates(r) by { SortedPermutationOfDistinct(s, r); }
  }

  lemma SortedPermutationOfDistinct(s: seq<string>, r: seq<string>)
    requires NoDuplicates(s) && multiset(r) == multiset(s)
    ensures NoDuplicates(r)
  {
    forall x ensures multiset(s)[x] <= 1 {
      CountDistinct(s, x);
    }
    forall i, j | 0 <= i < j < |r| ensures r[i] != r[j] {
      var x := r[i];
      assert r == r[..i] + [r[i]] + r[i + 1..j] + [r[j]] + r[j + 1..];
      assert multiset(r)[x] >= multiset([r[i]])[x] + multiset([r[j]])[x];
      assert multiset(r)[x] <= 1;
    }
  }

  lemma {:induction false} CountDistinct(s: seq<string>, x: string)
    requires NoDuplicates(s)
    ensures multiset(s)[x] <= 1
  {
    if s != [] {
      var t := s[..|s| - 1];
      assert s == t + [s[|s| - 1]];
      CountDistinct(t, x);
      if s[|s| - 1] == x {
        assert x !in t;
      }
    }
  }
}
