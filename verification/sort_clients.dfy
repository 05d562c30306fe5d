/** `sortClients`: the console's client list ordered by name, ignoring
    letter case. `Array.prototype.sort` is stable (section 23.1.3.30 of
    ECMA-262, since the 2019 edition), and with a comparator that is a
    total preorder a stable sort has exactly one result, so this model
    computes it by insertion sort. */
module SortClients {
  import opened Js

  /** The sort key: the name in upper case. */
  function Key<T>(name: T -> string, x: T): string {
    Upper(name(x))
  }

  /** `compare(a, b) <= 0`: `a` may stay before `b`. */
  predicate Le(a: string, b: string) {
    !StrLess(b, a)
  }

  lemma LeTransitive(a: string, b: string, c: string)
    requires Le(a, b) && Le(b, c)
    ensures Le(a, c)
  {
    if StrLess(c, a) {
      if a == b {
      } else if StrLess(a, b) {
        StrLessTransitive(c, a, b);
      } else {
        StrLessTotal(a, b);
      }
    }
  }

  lemma LessIsNotLe(a: string, b: string)
    requires StrLess(a, b)
    ensures !Le(b, a) && Le(a, b) && a != b
  {
    StrLessIrreflexive(a);
    if StrLess(b, a) {
      StrLessTransitive(a, b, a);
    }
  }

  /** Every element's key is at most every later element's key. */
  ghost predicate Sorted<T>(s: seq<T>, name: T -> string) {
    forall i, j :: 0 <= i < j < |s| ==> Le(Key(name, s[i]), Key(name, s[j]))
  }

  /** Where insertion puts `x` into `s`: after the last element whose key
      is not greater than `x`'s, scanning from the end. */
  function InsertPos<T>(s: seq<T>, x: T, name: T -> string): (p: nat)
    ensures p <= |s|
    ensures forall j :: p <= j < |s| ==> StrLess(Key(name, x), Key(name, s[j]))
    ensures p > 0 ==> Le(Key(name, s[p - 1]), Key(name, x))
  {
    if s == [] then 0
    else if StrLess(Key(name, x), Key(name, s[|s| - 1])) then InsertPos(s[..|s| - 1], x, name)
    else |s|
  }

  function Insert<T>(s: seq<T>, x: T, name: T -> string): (r: seq<T>)
    ensures |r| == |s| + 1
  {
    var p := InsertPos(s, x, name);
    s[..p] + [x] + s[p..]
  }

  /** Insertion sort, one element at a time from the front. */
  function InsertionSort<T>(s: seq<T>, name: T -> string): (r: seq<T>)
    ensures |r| == |s|
  {
    if s == [] then [] else Insert(InsertionSort(s[..|s| - 1], name), s[|s| - 1], name)
  }

  /** `sortClients`: the same clients, ordered by `Key`, the clients that
      share a key keeping their order (stability). */
  function Sort<T>(s: seq<T>, name: T -> string): (r: seq<T>)
    ensures Sorted(r, name)
    ensures multiset(r) == multiset(s)
    ensures forall k :: WithKey(r, k, name) == WithKey(s, k, name)
  {
    SortSorted(s, name);
    SortPermutes(s, name);
    assert forall k :: WithKey(InsertionSort(s, name), k, name) == WithKey(s, k, name) by {
      forall k {
        SortStable(s, k, name);
      }
    }
    InsertionSort(s, name)
  }

  lemma {:induction false} SortSorted<T>(s: seq<T>, name: T -> string)
    ensures Sorted(InsertionSort(s, name), name)
  {
    if s != [] {
      SortSorted(s[..|s| - 1], name);
      InsertSorted(InsertionSort(s[..|s| - 1], name), s[|s| - 1], name);
    }
  }

  lemma {:induction false} SortPermutes<T>(s: seq<T>, name: T -> string)
    ensures multiset(InsertionSort(s, name)) == multiset(s)
  {
    if s != [] {
      SortPermutes(s[..|s| - 1], name);
      InsertPermutes(InsertionSort(s[..|s| - 1], name), s[|s| - 1], name);
      assert s == s[..|s| - 1] + [s[|s| - 1]];
    }
  }

  // ---------------------------------------------------------------------------
  // Insertion keeps the order

  lemma InsertSorted<T>(s: seq<T>, x: T, name: T -> string)
    requires Sorted(s, name)
    ensures Sorted(Insert(s, x, name), name)
  {
    var p := InsertPos(s, x, name);
    var r := Insert(s, x, name);
    assert forall i :: 0 <= i < p ==> r[i] == s[i];
    assert r[p] == x;
    assert forall i :: p < i < |r| ==> r[i] == s[i - 1];
    forall i, j | 0 <= i < j < |r|
      ensures Le(Key(name, r[i]), Key(name, r[j]))
    {
      if j == p && i < p - 1 {
        LeTransitive(Key(name, s[i]), Key(name, s[p - 1]), Key(name, x));
      } else if i == p {
        LessIsNotLe(Key(name, x), Key(name, s[j - 1]));
      }
    }
  }

  // ---------------------------------------------------------------------------
  // Insertion adds one element

  lemma InsertPermutes<T>(s: seq<T>, x: T, name: T -> string)
    ensures multiset(Insert(s, x, name)) == multiset(s) + multiset{x}
  {
    var p := InsertPos(s, x, name);
    assert s == s[..p] + s[p..];
    assert multiset(s) == multiset(s[..p]) + multiset(s[p..]);
  }

  // ---------------------------------------------------------------------------
  // The sort is stable

  /** The elements whose key is `k`, in order. */
  function WithKey<T>(s: seq<T>, k: string, name: T -> string): (r: seq<T>)
    ensures forall i :: 0 <= i < |r| ==> Key(name, r[i]) == k
  {
    if s == [] then []
    else WithKey(s[..|s| - 1], k, name) + (if Key(name, s[|s| - 1]) == k then [s[|s| - 1]] else [])
  }

  lemma {:induction false} WithKeyAppend<T>(a: seq<T>, b: seq<T>, k: string, name: T -> string)
    ensures WithKey(a + b, k, name) == WithKey(a, k, name) + WithKey(b, k, name)
  {
    if b != [] {
      assert (a + b)[..|a + b| - 1] == a + b[..|b| - 1];
      WithKeyAppend(a, b[..|b| - 1], k, name);
    } else {
      assert a + b == a;
    }
  }

  lemma {:induction false} WithKeyNone<T>(s: seq<T>, k: string, name: T -> string)
    requires forall i :: 0 <= i < |s| ==> Key(name, s[i]) != k
    ensures WithKey(s, k, name) == []
  {
    if s != [] {
      WithKeyNone(s[..|s| - 1], k, name);
    }
  }

  lemma InsertWithKey<T>(s: seq<T>, x: T, k: string, name: T -> string)
    ensures WithKey(Insert(s, x, name), k, name)
            == WithKey(s, k, name) + (if Key(name, x) == k then [x] else [])
  {
    var p := InsertPos(s, x, name);
    var front, back := s[..p], s[p..];
    assert s == front + back;
    assert Insert(s, x, name) == (front + [x]) + back;
    WithKeyAppend(front, back, k, name);
    WithKeyAppend(front + [x], back, k, name);
    WithKeyAppend(front, [x], k, name);
    assert [x][..0] == [];
    var mid := if Key(name, x) == k then [x] else [];
    assert WithKey([x], k, name) == mid;
    if Key(name, x) == k {
      forall j | 0 <= j < |back|
        ensures Key(name, back[j]) != k
      {
        LessIsNotLe(Key(name, x), Key(name, s[p + j]));
      }
      WithKeyNone(back, k, name);
      assert WithKey(s, k, name) == WithKey(front, k, name) + [];
    } else {
      assert WithKey(front, k, name) + [] == WithKey(front, k, name);
    }
  }

  lemma {:induction false} SortStable<T>(s: seq<T>, k: string, name: T -> string)
    ensures WithKey(InsertionSort(s, name), k, name) == WithKey(s, k, name)
  {
    if s != [] {
      SortStable(s[..|s| - 1], k, name);
      InsertWithKey(InsertionSort(s[..|s| - 1], name), s[|s| - 1], k, name);
    }
  }

  // ---------------------------------------------------------------------------
  // Sorting a sorted list changes nothing

  lemma {:induction false} SortOfSorted<T>(s: seq<T>, name: T -> string)
    requires Sorted(s, name)
    ensures InsertionSort(s, name) == s
  {
    if s != [] {
      var n := |s| - 1;
      assert Sorted(s[..n], name);
      SortOfSorted(s[..n], name);
      if n > 0 {
        assert Le(Key(name, s[..n][n - 1]), Key(name, s[n]));
      }
      assert InsertPos(s[..n], s[n], name) == n;
      assert s[..n] + [s[n]] + s[..n][n..] == s;
    }
  }

  /** Sorting twice gives the order of sorting once. */
  lemma SortIdempotent<T>(s: seq<T>, name: T -> string)
    ensures Sort(Sort(s, name), name) == Sort(s, name)
  {
    var r := Sort(s, name);
    SortOfSorted(r, name);
    assert Sort(r, name) == InsertionSort(r, name);
  }

  /** Two names that differ only in letter case rank equal, so they keep
      their order. */
  lemma CaseInsensitive()
    ensures Sort(["bob", "Bob", "alice"], (x: string) => x) == ["alice", "bob", "Bob"]
  {
    var name := (x: string) => x;
    InsertionSortExample(name);
    assert Sort(["bob", "Bob", "alice"], name) == InsertionSort(["bob", "Bob", "alice"], name);
  }

  lemma InsertionSortExample(name: string -> string)
    requires forall x :: name(x) == x
    ensures InsertionSort(["bob", "Bob", "alice"], name) == ["alice", "bob", "Bob"]
  {
    assert Key(name, "bob") == "BOB" && Key(name, "Bob") == "BOB" && Key(name, "alice") == "ALICE";
    assert StrLess("ALICE", "BOB");
    var s := ["bob", "Bob", "alice"];
    assert s[..2] == ["bob", "Bob"] && s[..2][..1] == ["bob"] && s[..2][..1][..0] == [];
    assert InsertionSort(["bob"], name) == ["bob"];
    assert InsertPos(["bob"], "Bob", name) == 1;
    assert InsertionSort(["bob", "Bob"], name) == ["bob", "Bob"];
    assert ["bob", "Bob"][..1] == ["bob"];
    assert InsertPos(["bob"], "alice", name) == 0;
    assert InsertPos(["bob", "Bob"], "alice", name) == 0;
    assert Insert(["bob", "Bob"], "alice", name) == ["alice", "bob", "Bob"];
  }
}
