/** Text helpers standing for the `std::string` library calls the source makes:
    substring search (`find`), decimal output (`operator<<` on integers), byte-wise
    ordering (`operator<`, used by `std::sort` and `std::set`), sorting and `::tolower`. */
module Strings {
  import opened Wrappers

  /** Concatenation regroups freely. */
  lemma ConcatAssoc<T>(a: seq<T>, b: seq<T>, c: seq<T>)
    ensures (a + b) + c == a + (b + c)
  {
  }

  /** `sub` occurs in `s` starting at index `i`. */
  predicate OccursAt(s: string, sub: string, i: nat) {
    i + |sub| <= |s| && s[i..i + |sub|] == sub
  }

  /** `s.find(sub) != npos`. */
  predicate Contains(s: string, sub: string) {
    exists i: nat | i <= |s| :: OccursAt(s, sub, i)
  }

  /** `s.find(sub, from)`: the first occurrence at or after `from`. */
  function FindFrom(s: string, sub: string, from: nat): (r: Option<nat>)
    requires from <= |s|
    ensures r.Some? ==> from <= r.value && OccursAt(s, sub, r.value)
    ensures r.Some? ==> forall j: nat | from <= j < r.value :: !OccursAt(s, sub, j)
    ensures r.None? ==> forall j: nat | from <= j <= |s| :: !OccursAt(s, sub, j)
    decreases |s| - from
  {
    if OccursAt(s, sub, from) then Some(from)
    else if from == |s| then None
    else FindFrom(s, sub, from + 1)
  }

  /** `s.find(sub)`: the first occurrence, if any. */
  function Find(s: string, sub: string): (r: Option<nat>)
    ensures r.Some? ==> OccursAt(s, sub, r.value)
    ensures r.Some? ==> forall j: nat | j < r.value :: !OccursAt(s, sub, j)
    ensures r.None? <==> !Contains(s, sub)
  {
    FindFrom(s, sub, 0)
  }

  /** A one-character pattern occurs exactly where that character is. */
  lemma ContainsChar(s: string, c: char)
    ensures Contains(s, [c]) <==> c in s
  {
    if c in s {
      var i :| 0 <= i < |s| && s[i] == c;
      assert OccursAt(s, [c], i);
    }
    if Contains(s, [c]) {
      var i: nat :| i <= |s| && OccursAt(s, [c], i);
      assert s[i..i + 1] == [c];
      assert s[i] == c;
    }
  }

  /** A text containing a non-empty pattern contains the pattern's first character. */
  lemma ContainsFirst(s: string, sub: string)
    ensures Contains(s, sub) && sub != [] ==> sub[0] in s
  {
    if Contains(s, sub) && sub != [] {
      var i: nat :| i <= |s| && OccursAt(s, sub, i);
      assert s[i..i + |sub|][0] == s[i];
    }
  }

  // ---------------------------------------------------------------------------
  // Decimal text

  predicate IsDigit(c: char) {
    '0' <= c <= '9'
  }

  function DigitChar(d: nat): (c: char)
    requires d < 10
    ensures IsDigit(c) && (c as int) - ('0' as int) == d
  {
    ['0', '1', '2', '3', '4', '5', '6', '7', '8', '9'][d]
  }

  /** Decimal text of a natural number, as `operator<<` writes it. */
  function NatToString(n: nat): (s: string)
    ensures |s| > 0 && forall c | c in s :: IsDigit(c)
    ensures |s| > 1 ==> s[0] != '0'
    decreases n
  {
    if n < 10 then [DigitChar(n)] else NatToString(n / 10) + [DigitChar(n % 10)]
  }

  /** Decimal text of an integer, with a leading '-' for negative values. */
  function IntToString(i: int): (s: string)
    ensures i >= 0 ==> s == NatToString(i)
    ensures i < 0 ==> s == "-" + NatToString(-i)
  {
    if i < 0 then "-" + NatToString(-i) else NatToString(i)
  }

  /** The value of a string of decimal digits. */
  function DigitsValue(s: string): nat
    requires forall c | c in s :: IsDigit(c)
  {
    if s == [] then 0
    else
      var last := s[|s| - 1];
      assert last in s && IsDigit(last);
      10 * DigitsValue(s[..|s| - 1]) + ((last as int) - ('0' as int))
  }

  /** Decimal output reads back as the number written. */
  lemma {:induction false} NatToStringRoundTrip(n: nat)
    ensures DigitsValue(NatToString(n)) == n
    decreases n
  {
    if n >= 10 {
      NatToStringRoundTrip(n / 10);
      var s := NatToString(n);
      assert s[..|s| - 1] == NatToString(n / 10);
    }
  }

  /** Distinct numbers are written differently. */
  lemma NatToStringInjective(m: nat, n: nat)
    ensures NatToString(m) == NatToString(n) ==> m == n
  {
    NatToStringRoundTrip(m);
    NatToStringRoundTrip(n);
  }

  /** The length of the run of digits `s` starts with. */
  function DigitRun(s: string): (n: nat)
    ensures n <= |s|
  {
    if s == [] || !IsDigit(s[0]) then 0 else 1 + DigitRun(s[1..])
  }

  lemma {:induction false} DigitRunOf(x: string, q: string)
    requires forall c | c in x :: IsDigit(c)
    requires q != [] && !IsDigit(q[0])
    ensures DigitRun(x + q) == |x|
  {
    if x == [] {
      assert x + q == q;
    } else {
      assert (x + q)[1..] == x[1..] + q;
      assert x[0] in x;
      DigitRunOf(x[1..], q);
    }
  }

  /** Digits followed by a non-digit end where the non-digit starts. */
  lemma DigitsSplit(x: string, q: string, y: string, r: string)
    requires forall c | c in x :: IsDigit(c)
    requires forall c | c in y :: IsDigit(c)
    requires q != [] && r != [] && !IsDigit(q[0]) && !IsDigit(r[0])
    requires x + q == y + r
    ensures x == y && q == r
  {
    DigitRunOf(x, q);
    DigitRunOf(y, r);
    assert x == (x + q)[..|x|];
    assert y == (y + r)[..|y|];
    assert q == (x + q)[|x|..];
    assert r == (y + r)[|y|..];
  }

  lemma PrefixCancel(p: string, s: string, t: string)
    requires p + s == p + t
    ensures s == t
  {
    assert s == (p + s)[|p|..];
    assert t == (p + t)[|p|..];
  }

  /** At least two digits, zero-padded on the left (`std::setfill('0') << std::setw(2)`). */
  function PadTwo(n: nat): (s: string)
    ensures |s| >= 2 && forall c | c in s :: IsDigit(c)
    ensures DigitsValue(s) == n
  {
    NatToStringRoundTrip(n);
    var d := NatToString(n);
    if |d| == 1 then
      assert DigitsValue(['0'] + d) == DigitsValue(d) by {
        assert (['0'] + d)[..1] == ['0'];
        assert DigitsValue(['0']) == 0 by { assert ['0'][..0] == []; }
      }
      ['0'] + d
    else d
  }

  // ---------------------------------------------------------------------------
  // Ordering: `std::string::operator<` compares characters as unsigned bytes, which
  // for UTF-8 text is the order of code points.

  /** `a` sorts strictly before `b`. */
  predicate LexLess(a: string, b: string)
    decreases |a|
  {
    if a == [] then b != []
    else if b == [] then false
    else if a[0] != b[0] then a[0] < b[0]
    else LexLess(a[1..], b[1..])
  }

  lemma {:induction false} LexLessIrreflexive(a: string)
    ensures !LexLess(a, a)
    decreases |a|
  {
    if a != [] {
      LexLessIrreflexive(a[1..]);
    }
  }

  lemma {:induction false} LexLessTransitive(a: string, b: string, c: string)
    requires LexLess(a, b) && LexLess(b, c)
    ensures LexLess(a, c)
    decreases |a|
  {
    if a != [] && a[0] == b[0] && b[0] == c[0] {
      LexLessTransitive(a[1..], b[1..], c[1..]);
    }
  }

  lemma {:induction false} LexLessTotal(a: string, b: string)
    requires a != b
    ensures LexLess(a, b) || LexLess(b, a)
    decreases |a|
  {
    if a != [] && b != [] && a[0] == b[0] {
      assert a[1..] != b[1..] by {
        assert a == [a[0]] + a[1..] && b == [b[0]] + b[1..];
      }
      LexLessTotal(a[1..], b[1..]);
    }
  }

  lemma {:induction false} LexLessAsymmetric(a: string, b: string)
    requires LexLess(a, b)
    ensures !LexLess(b, a)
  {
    if LexLess(b, a) {
      LexLessTransitive(a, b, a);
      LexLessIrreflexive(a);
    }
  }

  predicate Sorted(s: seq<string>) {
    forall i, j | 0 <= i < j < |s| :: !LexLess(s[j], s[i])
  }

  /** Ascending and without repetitions. */
  predicate StrictlySorted(s: seq<string>) {
    forall i, j | 0 <= i < j < |s| :: LexLess(s[i], s[j])
  }

  /** Places `x` after every element that does not sort after it. */
  function InsertSorted(x: string, s: seq<string>): (r: seq<string>)
    requires Sorted(s)
    ensures Sorted(r) && multiset(r) == multiset(s) + multiset{x}
  {
    if s == [] then [x]
    else if LexLess(x, s[0]) then
      FrontIsLeast(x, s);
      ConsSorted(x, s);
      [x] + s
    else
      var rest := InsertSorted(x, s[1..]);
      RestAfterHead(x, s, rest);
      ConsSorted(s[0], rest);
      assert s == [s[0]] + s[1..];
      [s[0]] + rest
  }

  /** Prepending an element that sorts after none of a sorted sequence keeps it sorted. */
  lemma ConsSorted(h: string, s: seq<string>)
    requires Sorted(s) && forall j | 0 <= j < |s| :: !LexLess(s[j], h)
    ensures Sorted([h] + s)
  {
    var r := [h] + s;
    forall i, j | 0 <= i < j < |r| ensures !LexLess(r[j], r[i]) {
      assert r[j] == s[j - 1];
      if i > 0 {
        assert r[i] == s[i - 1];
      }
    }
  }

  /** An element sorting before the head of a sorted sequence sorts before all of it. */
  lemma FrontIsLeast(x: string, s: seq<string>)
    requires Sorted(s) && s != [] && LexLess(x, s[0])
    ensures forall j | 0 <= j < |s| :: !LexLess(s[j], x)
  {
    forall j | 0 <= j < |s| ensures !LexLess(s[j], x) {
      if j == 0 {
        LexLessAsymmetric(x, s[0]);
      } else if LexLess(s[j], x) {
        LexLessTransitive(s[j], x, s[0]);
      }
    }
  }

  /** Inserting `x`, which does not sort before the head, into the tail of a sorted
      sequence gives elements none of which sorts before the head. */
  lemma RestAfterHead(x: string, s: seq<string>, rest: seq<string>)
    requires Sorted(s) && s != [] && !LexLess(x, s[0])
    requires multiset(rest) == multiset(s[1..]) + multiset{x}
    ensures forall j | 0 <= j < |rest| :: !LexLess(rest[j], s[0])
  {
    forall j | 0 <= j < |rest| ensures !LexLess(rest[j], s[0]) {
      assert rest[j] in multiset(rest);
      if rest[j] != x {
        assert rest[j] in multiset(s[1..]);
        var k :| 0 <= k < |s[1..]| && s[1..][k] == rest[j];
        assert s[k + 1] == rest[j];
      }
    }
  }

  /** `std::sort` over strings: the same elements, in ascending order. */
  function Sort(s: seq<string>): (r: seq<string>)
    ensures Sorted(r) && multiset(r) == multiset(s)
  {
    if s == [] then []
    else
      assert s == s[..|s| - 1] + [s[|s| - 1]];
      InsertSorted(s[|s| - 1], Sort(s[..|s| - 1]))
  }

  lemma StrictlySortedIsSorted(s: seq<string>)
    requires StrictlySorted(s)
    ensures Sorted(s)
  {
    forall i, j | 0 <= i < j < |s| ensures !LexLess(s[j], s[i]) {
      LexLessAsymmetric(s[i], s[j]);
    }
  }

  /** An element that sorts after none of a sorted sequence is placed at its end. */
  lemma {:induction false} InsertSortedLast(x: string, s: seq<string>)
    requires Sorted(s) && forall k | 0 <= k < |s| :: !LexLess(x, s[k])
    ensures InsertSorted(x, s) == s + [x]
  {
    if s != [] {
      InsertSortedLast(x, s[1..]);
    }
  }

  /** Sorting a sorted sequence leaves it as it is. */
  lemma {:induction false} SortOfSorted(s: seq<string>)
    requires Sorted(s)
    ensures Sort(s) == s
  {
    if s != [] {
      var init := s[..|s| - 1];
      SortOfSorted(init);
      InsertSortedLast(s[|s| - 1], init);
    }
  }

  /** A sorted sequence without repeated elements is strictly ascending. */
  lemma SortedDistinctIsStrict(s: seq<string>)
    requires Sorted(s)
    requires forall i, j | 0 <= i < j < |s| :: s[i] != s[j]
    ensures StrictlySorted(s)
  {
    forall i, j | 0 <= i < j < |s| ensures LexLess(s[i], s[j]) {
      LexLessTotal(s[i], s[j]);
    }
  }

  /** Two strictly ascending sequences with the same elements are the same sequence. */
  lemma {:induction false} StrictlySortedUnique(a: seq<string>, b: seq<string>)
    requires StrictlySorted(a) && StrictlySorted(b)
    requires forall x :: x in a <==> x in b
    ensures a == b
    decreases |a|
  {
    assert forall i | 0 <= i < |a| :: a[i] in b;
    assert forall i | 0 <= i < |b| :: b[i] in a;
    if a != [] && b != [] {
      // both heads are the least element
      assert a[0] in b;
      assert b[0] in a;
      if a[0] != b[0] {
        var i :| 0 <= i < |b| && b[i] == a[0];
        var j :| 0 <= j < |a| && a[j] == b[0];
        LexLessAsymmetric(a[0], a[j]);
      }
      assert forall x :: x in a[1..] <==> x in b[1..] by {
        forall x ensures x in a[1..] <==> x in b[1..] {
          if x in a[1..] {
            var k :| 1 <= k < |a| && a[k] == x;
            LexLessIrreflexive(a[0]);
            assert x != a[0];
            assert x in b;
          }
          if x in b[1..] {
            var k :| 1 <= k < |b| && b[k] == x;
            LexLessIrreflexive(b[0]);
            assert x != b[0];
            assert x in a;
          }
        }
      }
      StrictlySortedUnique(a[1..], b[1..]);
    }
  }

  // ---------------------------------------------------------------------------
  // Ordered sets: `std::set<std::string>` and the keys of `std::map<std::string, _>`
  // are visited in ascending order.

  /** `k` is the least element of `ks`. */
  predicate IsLeast(k: string, ks: set<string>) {
    k in ks && forall j | j in ks :: !LexLess(j, k)
  }

  lemma {:induction false} LeastExists(ks: set<string>)
    requires ks != {}
    ensures exists k :: IsLeast(k, ks)
    decreases ks
  {
    var x :| x in ks;
    var rest := ks - {x};
    LexLessIrreflexive(x);
    if rest == {} {
      assert ks == {x};
      assert IsLeast(x, ks);
    } else {
      LeastExists(rest);
      var y :| IsLeast(y, rest);
      if LexLess(x, y) {
        forall j | j in ks ensures !LexLess(j, x) {
          if j != x {
            assert j in rest;
            if LexLess(j, x) {
              LexLessTransitive(j, x, y);
            }
          }
        }
        assert IsLeast(x, ks);
      } else {
        assert IsLeast(y, ks);
      }
    }
  }

  lemma LeastUnique(a: string, b: string, ks: set<string>)
    requires IsLeast(a, ks) && IsLeast(b, ks)
    ensures a == b
  {
    if a != b {
      LexLessTotal(a, b);
    }
  }

  /** The elements of `ks` in ascending order: the least one, then the rest. */
  ghost function SortedSet(ks: set<string>): (r: seq<string>)
    ensures |r| == |ks|
    ensures ks != {} ==> IsLeast(r[0], ks)
    decreases ks
  {
    if ks == {} then []
    else
      LeastExists(ks);
      var k :| IsLeast(k, ks);
      [k] + SortedSet(ks - {k})
  }

  /** The ordering holds every element once, ascending. */
  lemma {:induction false} SortedSetSpec(ks: set<string>)
    ensures StrictlySorted(SortedSet(ks))
    ensures forall k :: k in SortedSet(ks) <==> k in ks
    decreases ks
  {
    if ks != {} {
      var r := SortedSet(ks);
      var k := r[0];
      var rest := ks - {k};
      SortedSetSpec(rest);
      assert r == [k] + SortedSet(rest);
      forall i | 0 <= i < |SortedSet(rest)| ensures LexLess(k, SortedSet(rest)[i]) {
        assert SortedSet(rest)[i] in rest;
        LexLessTotal(k, SortedSet(rest)[i]);
      }
    }
  }

  /** The sorted sequence of a set holds exactly its elements. */
  lemma SortedSetMembers(ks: set<string>)
    ensures forall k :: k in SortedSet(ks) <==> k in ks
  {
    SortedSetSpec(ks);
  }

  /** Sorting the elements of a set, least first, changes nothing. */
  lemma SortOfSortedSet(ks: set<string>)
    ensures StrictlySorted(SortedSet(ks)) && Sort(SortedSet(ks)) == SortedSet(ks)
    ensures forall k :: k in SortedSet(ks) <==> k in ks
  {
    SortedSetSpec(ks);
    StrictlySortedIsSorted(SortedSet(ks));
    SortOfSorted(SortedSet(ks));
  }

  /** The elements of a set, least first: the least remaining element each time. */
  method SortedElements(ks: set<string>) returns (r: seq<string>)
    ensures r == SortedSet(ks)
  {
    var rest := ks;
    r := [];
    while rest != {}
      invariant r + SortedSet(rest) == SortedSet(ks)
      decreases rest
    {
      LeastExists(rest);
      var k :| IsLeast(k, rest);
      ghost var s := SortedSet(rest);
      LeastUnique(k, s[0], rest);
      assert s == [k] + SortedSet(rest - {k}) by {
        assert s == [s[0]] + s[1..];
      }
      assert (r + [k]) + SortedSet(rest - {k}) == r + s;
      r := r + [k];
      rest := rest - {k};
    }
  }

  // ---------------------------------------------------------------------------
  // Case

  /** `::tolower` in the "C" locale: only 'A'..'Z' change. */
  function ToLowerChar(c: char): (d: char)
    ensures 'A' <= c <= 'Z' ==> d as int == c as int + 32
    ensures !('A' <= c <= 'Z') ==> d == c
  {
    if 'A' <= c <= 'Z' then (c as int + 32) as char else c
  }

  function ToLower(s: string): (r: string)
    ensures |r| == |s| && forall i | 0 <= i < |s| :: r[i] == ToLowerChar(s[i])
  {
    if s == [] then [] else [ToLowerChar(s[0])] + ToLower(s[1..])
  }
}
