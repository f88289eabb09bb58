/** Python's `sorted` on a list of strings: code-point lexicographic order. */
module Sorting {

  /** `a <= b` for Python strings: compare code points left to right; a proper
      prefix comes first. */
  predicate LexLe(a: string, b: string)
    decreases |a|
  {
    a == [] || (b != [] && (a[0] < b[0] || (a[0] == b[0] && LexLe(a[1..], b[1..]))))
  }

  lemma {:induction false} LexLeTotal(a: string, b: string)
    ensures LexLe(a, b) || LexLe(b, a)
    decreases |a|
  {
    if a != [] && b != [] && a[0] == b[0] {
      LexLeTotal(a[1..], b[1..]);
    }
  }

  lemma {:induction false} LexLeAntisymmetric(a: string, b: string)
    requires LexLe(a, b) && LexLe(b, a)
    ensures a == b
    decreases |a|
  {
    if a != [] {
      LexLeAntisymmetric(a[1..], b[1..]);
      assert a == [a[0]] + a[1..] && b == [b[0]] + b[1..];
    }
  }

  /** Each element is `LexLe` its successor. */
  predicate Sorted(s: seq<string>) {
    forall i :: 0 < i < |s| ==> LexLe(s[i - 1], s[i])
  }

  function Insert(x: string, s: seq<string>): seq<string> {
    if s == [] then [x]
    else if LexLe(x, s[0]) then [x] + s
    else [s[0]] + Insert(x, s[1..])
  }

  /** Insertion sort: the list `sorted(s)` returns. */
  function Sort(s: seq<string>): seq<string> {
    if s == [] then [] else Insert(s[0], Sort(s[1..]))
  }

  lemma {:induction false} InsertHead(x: string, s: seq<string>)
    ensures Insert(x, s) != []
    ensures Insert(x, s)[0] == x || (s != [] && Insert(x, s)[0] == s[0])
  {
  }

  lemma {:induction false} InsertSorted(x: string, s: seq<string>)
    requires Sorted(s)
    ensures Sorted(Insert(x, s))
    ensures multiset(Insert(x, s)) == multiset(s) + multiset{x}
  {
    if s == [] {
    } else if LexLe(x, s[0]) {
      SortedCons(x, s);
    } else {
      var t := s[1..];
      assert s == [s[0]] + t;
      assert Sorted(t) by { SortedTail(s); }
      InsertSorted(x, t);
      var u := Insert(x, t);
      assert Insert(x, s) == [s[0]] + u;
      assert LexLe(s[0], u[0]) by {
        LexLeTotal(x, s[0]);
        InsertHead(x, t);
      }
      SortedCons(s[0], u);
    }
  }

  lemma SortedTail(s: seq<string>)
    requires s != [] && Sorted(s)
    ensures Sorted(s[1..])
  {
    var t := s[1..];
    forall i | 0 < i < |t| ensures LexLe(t[i - 1], t[i]) {
      assert t[i - 1] == s[i] && t[i] == s[i + 1];
    }
  }

  /** A sorted list stays sorted under a new head that is `LexLe` its first element. */
  lemma SortedCons(x: string, s: seq<string>)
    requires Sorted(s) && (s == [] || LexLe(x, s[0]))
    ensures Sorted([x] + s)
  {
    var r := [x] + s;
    forall i | 0 < i < |r| ensures LexLe(r[i - 1], r[i]) {
      if i > 1 {
        assert r[i - 1] == s[i - 2] && r[i] == s[i - 1];
      }
    }
  }

  /** `Sort(s)` is sorted and holds exactly the elements of `s`. */
  lemma {:induction false} SortSpec(s: seq<string>)
    ensures Sorted(Sort(s))
    ensures multiset(Sort(s)) == multiset(s)
  {
    if s != [] {
      SortSpec(s[1..]);
      InsertSorted(s[0], Sort(s[1..]));
      assert s == [s[0]] + s[1..];
    }
  }

  /** `sorted(s)` is determined by its two properties: any sorted list with
      the elements of `s` is `Sort(s)`. */
  lemma SortCanonical(s: seq<string>, t: seq<string>)
    requires Sorted(t) && multiset(t) == multiset(s)
    ensures t == Sort(s)
  {
    SortSpec(s);
    SortedUnique(t, Sort(s));
  }

  /** Two sorted lists with the same elements are equal. */
  lemma {:induction false} SortedUnique(a: seq<string>, b: seq<string>)
    requires Sorted(a) && Sorted(b) && multiset(a) == multiset(b)
    ensures a == b
    decreases |a|
  {
    if a == [] {
      assert |b| == |multiset(b)| == 0;
    } else {
      assert |b| == |multiset(b)| == |a|;
      SameFirst(a, b);
      assert multiset(a[1..]) == multiset(b[1..]) by { DropFirst(a, b); }
      SortedTail(a);
      SortedTail(b);
      SortedUnique(a[1..], b[1..]);
      assert a == [a[0]] + a[1..] && b == [b[0]] + b[1..];
    }
  }

  lemma SameFirst(a: seq<string>, b: seq<string>)
    requires Sorted(a) && Sorted(b) && multiset(a) == multiset(b) && a != [] && b != []
    ensures a[0] == b[0]
  {
    assert a[0] in multiset(b) && b[0] in multiset(a);
    var i :| 0 <= i < |b| && b[i] == a[0];
    var j :| 0 <= j < |a| && a[j] == b[0];
    SortedFirst(b, i);
    SortedFirst(a, j);
    LexLeAntisymmetric(a[0], b[0]);
  }

  lemma DropFirst(a: seq<string>, b: seq<string>)
    requires a != [] && b != [] && a[0] == b[0] && multiset(a) == multiset(b)
    ensures multiset(a[1..]) == multiset(b[1..])
  {
    var x := a[0];
    assert a == [x] + a[1..] && b == [x] + b[1..];
    assert multiset(a[1..]) == multiset(a) - multiset{x};
    assert multiset(b[1..]) == multiset(b) - multiset{x};
  }

  /** The first element of a sorted list is `LexLe` every element. */
  lemma {:induction false} SortedFirst(s: seq<string>, i: nat)
    requires Sorted(s) && i < |s|
    ensures LexLe(s[0], s[i])
  {
    if i == 0 {
      LexLeReflexive(s[0]);
    } else {
      SortedFirst(s, i - 1);
      LexLeTransitive(s[0], s[i - 1], s[i]);
    }
  }

  lemma {:induction false} LexLeReflexive(a: string)
    ensures LexLe(a, a)
    decreases |a|
  {
    if a != [] {
      LexLeReflexive(a[1..]);
    }
  }

  lemma {:induction false} LexLeTransitive(a: string, b: string, c: string)
    requires LexLe(a, b) && LexLe(b, c)
    ensures LexLe(a, c)
    decreases |a|
  {
    if a != [] && a[0] == b[0] && b[0] == c[0] {
      LexLeTransitive(a[1..], b[1..], c[1..]);
    }
  }
}
