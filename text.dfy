/** String operations the controller relies on, with Python's `str` semantics:
    `in`, `rsplit(sep, 1)`, `strip()`, `strip(chars)`, `lower()`, `endswith`,
    and the code-point order used by `sorted`. */
module Text {

  datatype Option<T> = None | Some(value: T)

  /** The characters Python's `str.isspace()` accepts, which `str.strip()` removes. */
  const Whitespace: set<char> := {
    '\t', '\n', '\U{0B}', '\U{0C}', '\r', '\U{1C}', '\U{1D}', '\U{1E}', '\U{1F}', ' ',
    '\U{85}', '\U{A0}', '\U{1680}',
    '\U{2000}', '\U{2001}', '\U{2002}', '\U{2003}', '\U{2004}', '\U{2005}', '\U{2006}',
    '\U{2007}', '\U{2008}', '\U{2009}', '\U{200A}',
    '\U{2028}', '\U{2029}', '\U{202F}', '\U{205F}', '\U{3000}'
  }

  // ---------------------------------------------------------------------------
  // Substring search

  /** `p` occurs in `s` starting at index `j`. */
  predicate OccursAt(s: string, p: string, j: int) {
    0 <= j && j + |p| <= |s| && s[j..j + |p|] == p
  }

  /** Python's `p in s`. */
  predicate Contains(s: string, p: string)
    ensures Contains(s, p) ==> |p| <= |s|
  {
    exists j | 0 <= j <= |s| :: OccursAt(s, p, j)
  }

  /** The last occurrence of `p` in `s` that starts before `n`, found by
      scanning from the right. */
  function LastBefore(s: string, p: string, n: nat): (r: Option<nat>)
    ensures r.Some? ==> r.value < n && OccursAt(s, p, r.value)
    ensures forall j :: (if r.Some? then r.value else -1) < j < n ==> !OccursAt(s, p, j)
  {
    if n == 0 then None
    else if OccursAt(s, p, n - 1) then Some(n - 1)
    else LastBefore(s, p, n - 1)
  }

  /** The index at which `s.rsplit(p, 1)` splits: the last occurrence of `p`. */
  function FindLast(s: string, p: string): (r: Option<nat>)
    ensures r.Some? ==> OccursAt(s, p, r.value)
    ensures r.Some? ==> forall j :: OccursAt(s, p, j) ==> j <= r.value
    ensures r.None? <==> !Contains(s, p)
  {
    LastBefore(s, p, |s| + 1)
  }

  /** An occurrence inside the right part of a concatenation is an occurrence
      in that part, shifted. */
  lemma OccursRight(a: string, b: string, p: string, j: int)
    requires j >= |a|
    ensures OccursAt(a + b, p, j) <==> OccursAt(b, p, j - |a|)
  {
    if j + |p| <= |a + b| {
      assert (a + b)[j..j + |p|] == b[j - |a|..j - |a| + |p|];
    }
  }

  /** A string without a given character contains no pattern that has it. */
  lemma AbsentCharNotContained(s: string, p: string, c: char)
    requires c in p && c !in s
    ensures !Contains(s, p)
  {
    var i :| 0 <= i < |p| && p[i] == c;
    forall j | 0 <= j <= |s| ensures !OccursAt(s, p, j) {
      if j + |p| <= |s| {
        assert s[j..j + |p|][i] == s[j + i] != p[i];
      }
    }
  }

  // ---------------------------------------------------------------------------
  // Stripping

  /** The index of the first character at or after `i` that is not in `drop`
      (`|s|` if there is none). */
  function FirstKept(s: string, drop: set<char>, i: nat): (n: nat)
    requires i <= |s|
    ensures i <= n <= |s|
    ensures forall k :: i <= k < n ==> s[k] in drop
    ensures n < |s| ==> s[n] !in drop
    decreases |s| - i
  {
    if i < |s| && s[i] in drop then FirstKept(s, drop, i + 1) else i
  }

  /** The index just past the last character before `j` that is not in `drop`
      (`0` if there is none). */
  function KeptEnd(s: string, drop: set<char>, j: nat): (n: nat)
    requires j <= |s|
    ensures n <= j
    ensures forall k :: n <= k < j ==> s[k] in drop
    ensures n > 0 ==> s[n - 1] !in drop
  {
    if j > 0 && s[j - 1] in drop then KeptEnd(s, drop, j - 1) else j
  }

  /** Python's `s.strip(chars)`: the infix left once every leading and trailing
      character in `drop` is removed. */
  function Strip(s: string, drop: set<char>): (r: string)
    ensures |r| <= |s|
    ensures r != [] ==> r[0] !in drop && r[|r| - 1] !in drop
  {
    var i, j := FirstKept(s, drop, 0), KeptEnd(s, drop, |s|);
    if i == |s| then [] else s[i..j]
  }

  /** `Strip` removes exactly the dropped characters at both ends: it is empty
      when every character is dropped, and otherwise it is `s[i..j]` where
      everything before `i` and from `j` on is dropped. */
  lemma StripSpec(s: string, drop: set<char>)
    ensures Strip(s, drop) == [] <==> forall k :: 0 <= k < |s| ==> s[k] in drop
    ensures Strip(s, drop) != [] ==>
      var i, j := FirstKept(s, drop, 0), KeptEnd(s, drop, |s|);
      i < j && Strip(s, drop) == s[i..j]
  {
  }

  /** A string that neither starts nor ends with a dropped character strips to itself. */
  lemma StripKeeps(s: string, drop: set<char>)
    requires s != [] ==> s[0] !in drop && s[|s| - 1] !in drop
    ensures Strip(s, drop) == s
  {
    if s != [] {
      assert FirstKept(s, drop, 0) == 0;
      assert KeptEnd(s, drop, |s|) == |s|;
    }
  }

  /** Padding made of dropped characters around a kept core strips off exactly. */
  lemma StripPadded(pre: string, core: string, post: string, drop: set<char>)
    requires forall k :: 0 <= k < |pre| ==> pre[k] in drop
    requires forall k :: 0 <= k < |post| ==> post[k] in drop
    requires core != [] && core[0] !in drop && core[|core| - 1] !in drop
    ensures Strip(pre + core + post, drop) == core
  {
    var s := pre + core + post;
    var i, j := FirstKept(s, drop, 0), KeptEnd(s, drop, |s|);
    assert s[|pre|] == core[0];
    assert s[|pre| + |core| - 1] == core[|core| - 1];
    assert forall k :: 0 <= k < |pre| ==> s[k] == pre[k];
    assert forall k :: |pre| + |core| <= k < |s| ==> s[k] == post[k - |pre| - |core|];
    assert i == |pre| && j == |pre| + |core|;
    assert s[i..j] == core;
  }

  /** Stripping twice is stripping once. */
  lemma StripIdempotent(s: string, drop: set<char>)
    ensures Strip(Strip(s, drop), drop) == Strip(s, drop)
  {
    StripKeeps(Strip(s, drop), drop);
  }

  // ---------------------------------------------------------------------------
  // Lower-casing

  /** Python's `c.lower()` as far as it can produce an ASCII letter: `A`-`Z`,
      the KELVIN SIGN (lower-cased to `k`) and LATIN CAPITAL LETTER I WITH DOT
      ABOVE (lower-cased to `i` followed by COMBINING DOT ABOVE). Every other
      character is kept; Python maps some of them to other non-ASCII characters,
      which compare unequal to any ASCII text either way. */
  function LowerChar(c: char): (r: string)
    ensures |r| >= 1
    ensures forall k :: 0 <= k < |r| ==> !('A' <= r[k] <= 'Z')
    ensures 'a' <= c <= 'z' || '0' <= c <= '9' ==> r == [c]
  {
    if 'A' <= c <= 'Z' then [(c as int + 32) as char]
    else if c == '\U{212A}' then "k"
    else if c == '\U{130}' then "i\U{307}"
    else [c]
  }

  /** Python's `s.lower()`, character by character. */
  function Lower(s: string): (r: string)
    ensures |r| >= |s|
  {
    if s == [] then [] else LowerChar(s[0]) + Lower(s[1..])
  }

  /** Lower-cased text holds no ASCII capital. */
  lemma {:induction false} LowerHasNoCapitals(s: string)
    ensures forall k :: 0 <= k < |Lower(s)| ==> !('A' <= Lower(s)[k] <= 'Z')
  {
    if s != [] {
      LowerHasNoCapitals(s[1..]);
      var c, rest := LowerChar(s[0]), Lower(s[1..]);
      assert Lower(s) == c + rest;
      forall k | 0 <= k < |Lower(s)| ensures !('A' <= Lower(s)[k] <= 'Z') {
        if k >= |c| {
          assert Lower(s)[k] == rest[k - |c|];
        }
      }
    }
  }

  /** Lower-casing distributes over concatenation. */
  lemma {:induction false} LowerAppend(a: string, b: string)
    ensures Lower(a + b) == Lower(a) + Lower(b)
  {
    if a != [] {
      assert (a + b)[0] == a[0];
      assert (a + b)[1..] == a[1..] + b;
      LowerAppend(a[1..], b);
      calc {
        Lower(a + b);
        LowerChar(a[0]) + Lower(a[1..] + b);
        LowerChar(a[0]) + (Lower(a[1..]) + Lower(b));
        (LowerChar(a[0]) + Lower(a[1..])) + Lower(b);
      }
    } else {
      assert a + b == b;
    }
  }

  /** Text with no character that `Lower` changes. */
  predicate IsLower(s: string) {
    forall k :: 0 <= k < |s| ==> LowerChar(s[k]) == [s[k]]
  }

  /** Lower-casing leaves lower-case text alone. */
  lemma {:induction false} LowerOfLower(s: string)
    requires IsLower(s)
    ensures Lower(s) == s
  {
    if s != [] {
      assert LowerChar(s[0]) == [s[0]];
      LowerOfLower(s[1..]);
    }
  }

  /** Lower-casing is idempotent. */
  lemma {:induction false} LowerIdempotent(s: string)
    ensures Lower(Lower(s)) == Lower(s)
  {
    if s != [] {
      var c := LowerChar(s[0]);
      assert IsLower(c);
      LowerOfLower(c);
      LowerAppend(c, Lower(s[1..]));
      LowerIdempotent(s[1..]);
    }
  }

  // ---------------------------------------------------------------------------
  // Suffixes and order

  /** Python's `s.endswith(suffix)`. */
  predicate EndsWith(s: string, suffix: string)
    ensures EndsWith(s, suffix) ==> Contains(s, suffix)
  {
    if |suffix| <= |s| && s[|s| - |suffix|..] == suffix then
      assert OccursAt(s, suffix, |s| - |suffix|);
      true
    else false
  }

  /** Python's `a <= b` on strings: code-point lexicographic order, with a proper
      prefix ordered first. */
  predicate NameLe(a: string, b: string)
    ensures |a| <= |b| && a == b[..|a|] ==> NameLe(a, b)
  {
    if a == [] then true
    else if b == [] then false
    else if a[0] != b[0] then a[0] < b[0]
    else NameLe(a[1..], b[1..])
  }

  lemma {:induction false} NameLeTotal(a: string, b: string)
    ensures NameLe(a, b) || NameLe(b, a)
  {
    if a != [] && b != [] && a[0] == b[0] {
      NameLeTotal(a[1..], b[1..]);
    }
  }

  lemma {:induction false} NameLeAntisymmetric(a: string, b: string)
    requires NameLe(a, b) && NameLe(b, a)
    ensures a == b
  {
    if a != [] && b != [] {
      NameLeAntisymmetric(a[1..], b[1..]);
      assert a == [a[0]] + a[1..];
      assert b == [b[0]] + b[1..];
    }
  }

  lemma {:induction false} NameLeTransitive(a: string, b: string, c: string)
    requires NameLe(a, b) && NameLe(b, c)
    ensures NameLe(a, c)
  {
    if a != [] && b != [] && c != [] && a[0] == b[0] == c[0] {
      NameLeTransitive(a[1..], b[1..], c[1..]);
    }
  }

  /** `NameLe` orders all strings. */
  lemma NameOrderIsTotal()
    ensures TotalOrder(NameLe)
  {
    forall a, b ensures NameLe(a, b) || NameLe(b, a) {
      NameLeTotal(a, b);
    }
    forall a, b | NameLe(a, b) && NameLe(b, a) ensures a == b {
      NameLeAntisymmetric(a, b);
    }
    forall a, b, c | NameLe(a, b) && NameLe(b, c) ensures NameLe(a, c) {
      NameLeTransitive(a, b, c);
    }
  }

  // ---------------------------------------------------------------------------
  // Sorting by a total order

  ghost predicate TotalOrder<T(!new)>(le: (T, T) -> bool) {
    && (forall a, b :: le(a, b) || le(b, a))
    && (forall a, b :: le(a, b) && le(b, a) ==> a == b)
    && (forall a, b, c :: le(a, b) && le(b, c) ==> le(a, c))
  }

  predicate SortedBy<T>(xs: seq<T>, le: (T, T) -> bool) {
    forall i, j :: 0 <= i < j < |xs| ==> le(xs[i], xs[j])
  }

  /** An element at or below every element of a sorted list can go in front. */
  lemma PrependSorted<T(!new)>(h: T, xs: seq<T>, le: (T, T) -> bool)
    requires SortedBy(xs, le)
    requires forall y :: y in xs ==> le(h, y)
    ensures SortedBy([h] + xs, le)
  {
    var r := [h] + xs;
    forall i, j | 0 <= i < j < |r| ensures le(r[i], r[j]) {
      if i == 0 {
        assert r[j] == xs[j - 1];
      } else {
        assert r[i] == xs[i - 1] && r[j] == xs[j - 1];
      }
    }
  }

  /** Inserts `x` into a sorted list, before the first element above it. */
  function Insert<T(!new)>(x: T, xs: seq<T>, le: (T, T) -> bool): (r: seq<T>)
    requires TotalOrder(le) && SortedBy(xs, le)
    ensures SortedBy(r, le)
    ensures multiset(r) == multiset(xs) + multiset{x}
  {
    if xs == [] then [x]
    else if le(x, xs[0]) then
      assert forall y :: y in xs ==> le(x, y) by {
        forall y | y in xs ensures le(x, y) {
          SortedHeadIsLeast(xs, y, le);
        }
      }
      PrependSorted(x, xs, le);
      [x] + xs
    else
      var rest := Insert(x, xs[1..], le);
      assert forall y :: y in rest ==> le(xs[0], y) by {
        forall y | y in rest ensures le(xs[0], y) {
          assert y in multiset(rest);
          if y != x {
            assert y in multiset(xs[1..]);
            SortedHeadIsLeast(xs, y, le);
          }
        }
      }
      PrependSorted(xs[0], rest, le);
      assert xs == [xs[0]] + xs[1..];
      [xs[0]] + rest
  }

  /** Insertion sort, standing for Python's `sorted`. */
  function SortBy<T(!new)>(xs: seq<T>, le: (T, T) -> bool): (r: seq<T>)
    requires TotalOrder(le)
    ensures SortedBy(r, le)
    ensures multiset(r) == multiset(xs)
  {
    if xs == [] then []
    else
      assert xs == [xs[0]] + xs[1..];
      Insert(xs[0], SortBy(xs[1..], le), le)
  }

  /** The head of a sorted list is at or below each of its elements. */
  lemma SortedHeadIsLeast<T(!new)>(xs: seq<T>, x: T, le: (T, T) -> bool)
    requires TotalOrder(le) && SortedBy(xs, le)
    requires x in xs
    ensures le(xs[0], x)
  {
    var i :| 0 <= i < |xs| && xs[i] == x;
    if i == 0 {
      assert le(x, x) || le(x, x);
    }
  }

  /** Two sorted lists holding the same elements are the same list: the result
      of sorting does not depend on the order of its input. */
  lemma {:induction false} SortedUnique<T(!new)>(a: seq<T>, b: seq<T>, le: (T, T) -> bool)
    requires TotalOrder(le)
    requires SortedBy(a, le) && SortedBy(b, le)
    requires multiset(a) == multiset(b)
    ensures a == b
  {
    if a != [] {
      assert a[0] in multiset(b);
      assert b[0] in multiset(a);
      SortedHeadIsLeast(b, a[0], le);
      SortedHeadIsLeast(a, b[0], le);
      assert a[0] == b[0];
      assert a == [a[0]] + a[1..];
      assert b == [b[0]] + b[1..];
      assert multiset(a[1..]) == multiset(a) - multiset{a[0]};
      assert multiset(b[1..]) == multiset(b) - multiset{b[0]};
      SortedUnique(a[1..], b[1..], le);
    } else {
      assert |multiset(b)| == 0;
    }
  }
}
