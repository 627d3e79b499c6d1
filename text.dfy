/**
 * String helpers the tree flattener relies on: the ordering Python's
 * `sorted` uses on `str` values (code-point lexicographic, a proper prefix
 * first), a sort on sequences and on sets of strings under that ordering,
 * and base-10 rendering of a natural number (what an f-string does to an
 * `int` count).
 */
module Text {

  /** `a <= b` in Python's string ordering: compare code points left to
      right; a string that runs out first is the smaller one. */
  predicate LexLe(a: string, b: string)
    decreases |a|
  {
    a == [] || (b != [] && (a[0] < b[0] || (a[0] == b[0] && LexLe(a[1..], b[1..]))))
  }

  lemma {:induction false} LexLeTotal(a: string, b: string)
    ensures LexLe(a, b) || LexLe(b, a)
    decreases |a|
  {
    if a != [] && b != [] && a[0] == b[0] {
      LexLeTotal(a[1..], b[1..]);
    }
  }

  lemma {:induction false} LexLeReflexive(a: string)
    ensures LexLe(a, a)
    decreases |a|
  {
    if a != [] {
      LexLeReflexive(a[1..]);
    }
  }

  lemma {:induction false} LexLeAntisymmetric(a: string, b: string)
    requires LexLe(a, b) && LexLe(b, a)
    ensures a == b
    decreases |a|
  {
    if a != [] {
      LexLeAntisymmetric(a[1..], b[1..]);
      assert a == [a[0]] + a[1..] && b == [b[0]] + b[1..];
    }
  }

  lemma {:induction false} LexLeTransitive(a: string, b: string, c: string)
    requires LexLe(a, b) && LexLe(b, c)
    ensures LexLe(a, c)
    decreases |a|
  {
    if a != [] && a[0] == b[0] && b[0] == c[0] {
      LexLeTransitive(a[1..], b[1..], c[1..]);
    }
  }

  /** Every element is at most every later one (duplicates allowed). */
  ghost predicate Ascending(s: seq<string>)
  {
    forall i, j :: 0 <= i < j < |s| ==> LexLe(s[i], s[j])
  }

  /** Ascending with no element repeated. */
  ghost predicate StrictlyAscending(s: seq<string>)
  {
    forall i, j :: 0 <= i < j < |s| ==> LexLe(s[i], s[j]) && s[i] != s[j]
  }

  /** Puts `x` in front of the first element it does not exceed. */
  function Insort(x: string, s: seq<string>): (r: seq<string>)
    ensures multiset(r) == multiset(s) + multiset{x}
  {
    if s == [] then [x]
    else if LexLe(x, s[0]) then [x] + s
    else
      assert s == [s[0]] + s[1..];
      [s[0]] + Insort(x, s[1..])
  }

  /** A head no greater than any element of an ascending tail keeps the
      sequence ascending. */
  lemma ConsAscending(h: string, t: seq<string>)
    requires Ascending(t)
    requires forall k :: 0 <= k < |t| ==> LexLe(h, t[k])
    ensures Ascending([h] + t)
  {
    var r := [h] + t;
    forall i, j | 0 <= i < j < |r| ensures LexLe(r[i], r[j]) {
      if i > 0 { assert r[i] == t[i - 1]; }
      assert r[j] == t[j - 1];
    }
  }

  lemma {:induction false} InsortAscending(x: string, s: seq<string>)
    requires Ascending(s)
    ensures Ascending(Insort(x, s))
  {
    if s == [] {
    } else if LexLe(x, s[0]) {
      forall k | 0 <= k < |s| ensures LexLe(x, s[k]) {
        if k > 0 { LexLeTransitive(x, s[0], s[k]); }
      }
      ConsAscending(x, s);
    } else {
      var t := Insort(x, s[1..]);
      InsortAscending(x, s[1..]);
      LexLeTotal(x, s[0]);
      forall k | 0 <= k < |t| ensures LexLe(s[0], t[k]) {
        assert t[k] in multiset(t);
        assert t[k] == x || t[k] in s[1..];
      }
      ConsAscending(s[0], t);
    }
  }

  /** Insertion sort: the sorted rearrangement of `s`, duplicates kept. */
  function Sort(s: seq<string>): (r: seq<string>)
    ensures Ascending(r)
    ensures multiset(r) == multiset(s)
  {
    if s == [] then []
    else
      assert s == [s[0]] + s[1..];
      InsortAscending(s[0], Sort(s[1..]));
      Insort(s[0], Sort(s[1..]))
  }

  /** The elements of `s` in some order, each once. */
  ghost function SetToSeq(s: set<string>): (r: seq<string>)
    ensures multiset(r) == multiset(s)
  {
    if s == {} then []
    else
      var x :| x in s;
      assert multiset(s) == multiset(s - {x}) + multiset{x};
      [x] + SetToSeq(s - {x})
  }

  /** A sequence in which nothing occurs twice has no repeated position. */
  lemma Distinct(r: seq<string>, i: nat, j: nat)
    requires forall x :: multiset(r)[x] <= 1
    requires i < j < |r|
    ensures r[i] != r[j]
  {
    var x := r[i];
    assert r == r[..j] + r[j..];
    assert r[..j][i] == x && r[j..][0] == r[j];
    assert multiset(r[..j])[x] >= 1 && multiset(r[j..])[r[j]] >= 1;
    assert multiset(r)[x] == multiset(r[..j])[x] + multiset(r[j..])[x];
  }

  /** The elements of `s` listed once each, in ascending order. */
  ghost function SortSet(s: set<string>): (r: seq<string>)
    ensures StrictlyAscending(r)
    ensures forall x :: x in r <==> x in s
    ensures |r| == |s|
  {
    var r := Sort(SetToSeq(s));
    assert multiset(r) == multiset(s);
    assert forall x :: x in r <==> x in multiset(r);
    forall i, j | 0 <= i < j < |r| ensures r[i] != r[j] {
      Distinct(r, i, j);
    }
    assert |r| == |multiset(r)| == |multiset(s)| == |s|;
    r
  }

  /** Two ascending sequences with the same elements (counted with
      multiplicity) are the same sequence: sorting has one answer. */
  lemma {:induction false} AscendingUnique(r: seq<string>, t: seq<string>)
    requires Ascending(r) && Ascending(t)
    requires multiset(r) == multiset(t)
    ensures r == t
  {
    if r != [] {
      HeadIsLeast(t, r[0]);
      HeadIsLeast(r, t[0]);
      LexLeAntisymmetric(r[0], t[0]);
      AscendingTail(r);
      AscendingTail(t);
      AscendingUnique(r[1..], t[1..]);
      assert r == [r[0]] + r[1..];
      assert t == [t[0]] + t[1..];
    } else {
      assert |t| == |multiset(t)| == 0;
    }
  }

  /** Sorting looks only at the elements, not at their order. */
  lemma SortPermuted(a: seq<string>, b: seq<string>)
    requires multiset(a) == multiset(b)
    ensures Sort(a) == Sort(b)
  {
    AscendingUnique(Sort(a), Sort(b));
  }

  lemma AscendingTail(s: seq<string>)
    requires Ascending(s) && s != []
    ensures Ascending(s[1..])
    ensures multiset(s[1..]) == multiset(s) - multiset{s[0]}
  {
    assert s == [s[0]] + s[1..];
  }

  lemma HeadIsLeast(s: seq<string>, x: string)
    requires Ascending(s) && x in multiset(s)
    ensures s != [] && LexLe(s[0], x)
  {
    var i :| 0 <= i < |s| && s[i] == x;
    if i == 0 { LexLeReflexive(x); }
  }

  /** The character for a single decimal digit. */
  function Digit(d: nat): (c: char)
    requires d < 10
    ensures '0' <= c <= '9' && c as int - '0' as int == d
  {
    (48 + d) as char
  }

  ghost predicate AllDigits(s: string)
  {
    forall k :: 0 <= k < |s| ==> '0' <= s[k] <= '9'
  }

  /** The number a string of decimal digits denotes (most significant first). */
  ghost function DigitsValue(s: string): nat
    requires AllDigits(s)
  {
    if s == [] then 0 else DigitsValue(s[..|s| - 1]) * 10 + (s[|s| - 1] as int - '0' as int)
  }

  /** `str(n)` for a non-negative `int`: its shortest decimal spelling. */
  function Decimal(n: nat): (s: string)
    ensures |s| >= 1 && AllDigits(s)
    ensures DigitsValue(s) == n
    ensures |s| > 1 ==> s[0] != '0'
    decreases n
  {
    if n < 10 then [Digit(n)]
    else
      var h := Decimal(n / 10);
      var s := h + [Digit(n % 10)];
      assert s[..|s| - 1] == h;
      s
  }
}
