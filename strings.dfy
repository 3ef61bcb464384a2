/**
 * Python's ordering of `str` values (code point by code point, a proper
 * prefix first) and the two sorts the engine relies on: `sorted` over a list
 * of paths and `sorted` over the keys of the series dictionary.
 */
module Strings {

  /** `a <= b` between two Python strings. */
  predicate LexLe(a: string, b: string)
    decreases |a|
  {
    a == [] || (b != [] && (a[0] < b[0] || (a[0] == b[0] && LexLe(a[1..], b[1..]))))
  }

  /** `a < b` between two Python strings. */
  predicate LexLt(a: string, b: string) {
    LexLe(a, b) && a != b
  }

  lemma {:induction false} LexLeReflexive(a: string)
    ensures LexLe(a, a)
  {
    if a != [] {
      LexLeReflexive(a[1..]);
    }
  }

  lemma {:induction false} LexLeTotal(a: string, b: string)
    ensures LexLe(a, b) || LexLe(b, a)
  {
    if a != [] && b != [] && a[0] == b[0] {
      LexLeTotal(a[1..], b[1..]);
    }
  }

  lemma {:induction false} LexLeAntisymmetric(a: string, b: string)
    requires LexLe(a, b) && LexLe(b, a)
    ensures a == b
  {
    if a != [] && b != [] {
      LexLeAntisymmetric(a[1..], b[1..]);
      assert a == [a[0]] + a[1..];
      assert b == [b[0]] + b[1..];
    }
  }

  lemma {:induction false} LexLeTransitive(a: string, b: string, c: string)
    requires LexLe(a, b) && LexLe(b, c)
    ensures LexLe(a, c)
  {
    if a != [] && b != [] && c != [] && a[0] == b[0] && b[0] == c[0] {
      LexLeTransitive(a[1..], b[1..], c[1..]);
    }
  }

  /** Sorted ascending, equal elements allowed. */
  ghost predicate Ascending(s: seq<string>) {
    forall i, j :: 0 <= i < j < |s| ==> LexLe(s[i], s[j])
  }

  /** Sorted ascending without repetition. */
  ghost predicate StrictlyAscending(s: seq<string>) {
    forall i, j :: 0 <= i < j < |s| ==> LexLt(s[i], s[j])
  }

  lemma ConsAscending(a: string, t: seq<string>)
    requires Ascending(t)
    requires forall k :: 0 <= k < |t| ==> LexLe(a, t[k])
    ensures Ascending([a] + t)
  {
    var s := [a] + t;
    forall i, j | 0 <= i < j < |s| ensures LexLe(s[i], s[j]) {
      if i > 0 {
        assert s[i] == t[i - 1] && s[j] == t[j - 1];
      } else {
        assert s[j] == t[j - 1];
      }
    }
  }

  /** Inserts `x` before the first element it is not above. */
  function Insert(x: string, s: seq<string>): seq<string> {
    if s == [] then [x]
    else if LexLe(x, s[0]) then [x] + s
    else [s[0]] + Insert(x, s[1..])
  }

  /** Inserting into a sorted list keeps it sorted and adds exactly `x`. */
  lemma {:induction false} InsertSorted(x: string, s: seq<string>)
    requires Ascending(s)
    ensures Ascending(Insert(x, s))
    ensures multiset(Insert(x, s)) == multiset(s) + multiset{x}
  {
    if s == [] {
    } else if LexLe(x, s[0]) {
      BelowAscending(x, s);
      ConsAscending(x, s);
    } else {
      LexLeTotal(x, s[0]);
      assert s == [s[0]] + s[1..];
      AscendingTail(s);
      InsertSorted(x, s[1..]);
      var t := Insert(x, s[1..]);
      HeadBelowInsert(s[0], x, s[1..], t);
      ConsAscending(s[0], t);
    }
  }

  lemma BelowAscending(x: string, s: seq<string>)
    requires Ascending(s) && s != [] && LexLe(x, s[0])
    ensures forall k :: 0 <= k < |s| ==> LexLe(x, s[k])
  {
    forall k | 0 <= k < |s| ensures LexLe(x, s[k]) {
      if k > 0 {
        LexLeTransitive(x, s[0], s[k]);
      }
    }
  }

  lemma HeadBelowInsert(h: string, x: string, s: seq<string>, t: seq<string>)
    requires Ascending([h] + s) && LexLe(h, x)
    requires multiset(t) == multiset(s) + multiset{x}
    ensures forall k :: 0 <= k < |t| ==> LexLe(h, t[k])
  {
    forall k | 0 <= k < |t| ensures LexLe(h, t[k]) {
      assert t[k] in multiset(t);
      if t[k] != x {
        assert t[k] in multiset(s);
        var j :| 0 <= j < |s| && s[j] == t[k];
        assert ([h] + s)[0] == h && ([h] + s)[j + 1] == s[j];
      }
    }
  }

  /** Python's `sorted` over a list of strings, by insertion. */
  function Sort(s: seq<string>): seq<string> {
    if s == [] then [] else Insert(s[0], Sort(s[1..]))
  }

  /** `Sort` returns an ascending permutation of its input. */
  lemma {:induction false} SortSorted(s: seq<string>)
    ensures Ascending(Sort(s))
    ensures multiset(Sort(s)) == multiset(s)
  {
    if s != [] {
      SortSorted(s[1..]);
      InsertSorted(s[0], Sort(s[1..]));
      assert s == [s[0]] + s[1..];
    }
  }

  lemma AscendingTail(a: seq<string>)
    requires Ascending(a) && a != []
    ensures Ascending(a[1..])
  {
    forall i, j | 0 <= i < j < |a| - 1 ensures LexLe(a[1..][i], a[1..][j]) {
      assert a[1..][i] == a[i + 1] && a[1..][j] == a[j + 1];
    }
  }

  /** The head of a sorted list is below every element of it. */
  lemma HeadIsLeast(a: seq<string>, x: string)
    requires Ascending(a) && x in multiset(a)
    ensures LexLe(a[0], x)
  {
    var i :| 0 <= i < |a| && a[i] == x;
    if i == 0 {
      LexLeReflexive(x);
    }
  }

  /** Two sorted permutations of the same multiset are the same list. */
  lemma {:induction false} AscendingUnique(a: seq<string>, b: seq<string>)
    requires Ascending(a) && Ascending(b)
    requires multiset(a) == multiset(b)
    ensures a == b
  {
    if a != [] && b != [] {
      assert a == [a[0]] + a[1..];
      assert b == [b[0]] + b[1..];
      assert a[0] in multiset(a) && b[0] in multiset(b);
      HeadIsLeast(b, a[0]);
      HeadIsLeast(a, b[0]);
      LexLeAntisymmetric(a[0], b[0]);
      assert multiset(a[1..]) == multiset(a) - multiset{a[0]};
      assert multiset(b[1..]) == multiset(b) - multiset{b[0]};
      AscendingTail(a);
      AscendingTail(b);
      AscendingUnique(a[1..], b[1..]);
    }
  }

  predicate IsLeast(x: string, s: set<string>) {
    x in s && forall y :: y in s ==> LexLe(x, y)
  }

  lemma {:induction false} LeastExists(s: set<string>)
    requires s != {}
    ensures exists x :: IsLeast(x, s)
    decreases |s|
  {
    var y :| y in s;
    if s == {y} {
      LexLeReflexive(y);
      assert IsLeast(y, s);
    } else {
      LeastExists(s - {y});
      var m :| IsLeast(m, s - {y});
      LexLeTotal(m, y);
      if LexLe(m, y) {
        assert IsLeast(m, s);
      } else {
        forall z | z in s ensures LexLe(y, z) {
          if z == y {
            LexLeReflexive(y);
          } else {
            LexLeTransitive(y, m, z);
          }
        }
        assert IsLeast(y, s);
      }
    }
  }

  lemma LeastUnique(s: set<string>)
    ensures forall a, b :: IsLeast(a, s) && IsLeast(b, s) ==> a == b
  {
    forall a, b | IsLeast(a, s) && IsLeast(b, s) ensures a == b {
      LexLeAntisymmetric(a, b);
    }
  }

  /** Python's `sorted` over the keys of a dictionary: every key once, ascending. */
  function SortedNames(s: set<string>): (r: seq<string>)
    ensures StrictlyAscending(r)
    ensures forall x :: x in r <==> x in s
    ensures |r| == |s|
    decreases |s|
  {
    if s == {} then []
    else
      LeastExists(s);
      LeastUnique(s);
      var x :| IsLeast(x, s);
      var rest := SortedNames(s - {x});
      var r := [x] + rest;
      assert forall i, j :: 0 <= i < j < |r| ==> LexLt(r[i], r[j]) by {
        forall i, j | 0 <= i < j < |r| ensures LexLt(r[i], r[j]) {
          if i > 0 {
            assert r[i] == rest[i - 1] && r[j] == rest[j - 1];
          } else {
            assert r[j] == rest[j - 1] && r[j] in s - {x};
          }
        }
      }
      r
  }
}
