/** Kotlin's `sortedBy`, as the repository uses it: a stable sort of a task
    list by id (before refilling the cache) or by date (before answering a
    list query). Stability is what makes the sort by id harmless for the
    map it fills: tasks that share an id keep their relative order. */
module Sorting {
  import opened Tasks

  /** The selector given to `sortedBy`. */
  datatype SortKey = ById | ByDate

  /** `a.compareTo(b) <= 0` on strings: lexicographic by character, with a
      proper prefix first. */
  predicate IdLe(a: string, b: string)
  {
    a == [] || (b != [] && (a[0] < b[0] || (a[0] == b[0] && IdLe(a[1..], b[1..]))))
  }

  /** Whether `a` may precede `b` in a list sorted by `key`. */
  predicate Le(a: Task, b: Task, key: SortKey)
  {
    match key
    case ById => IdLe(a.id, b.id)
    case ByDate => a.date <= b.date
  }

  /** Ascending by `key`. */
  ghost predicate Sorted(s: seq<Task>, key: SortKey)
  {
    forall i, j :: 0 <= i < j < |s| ==> Le(s[i], s[j], key)
  }

  lemma {:induction false} IdLeReflexive(a: string)
    ensures IdLe(a, a)
  {
    if a != [] {
      IdLeReflexive(a[1..]);
    }
  }

  lemma {:induction false} IdLeTotal(a: string, b: string)
    ensures IdLe(a, b) || IdLe(b, a)
  {
    if a != [] && b != [] && a[0] == b[0] {
      IdLeTotal(a[1..], b[1..]);
    }
  }

  lemma {:induction false} IdLeTransitive(a: string, b: string, c: string)
    requires IdLe(a, b) && IdLe(b, c)
    ensures IdLe(a, c)
  {
    if a != [] && a[0] == b[0] && b[0] == c[0] {
      IdLeTransitive(a[1..], b[1..], c[1..]);
    }
  }

  lemma LeTotal(a: Task, b: Task, key: SortKey)
    ensures Le(a, b, key) || Le(b, a, key)
  {
    if key == ById {
      IdLeTotal(a.id, b.id);
    }
  }

  lemma LeTransitive(a: Task, b: Task, c: Task, key: SortKey)
    requires Le(a, b, key) && Le(b, c, key)
    ensures Le(a, c, key)
  {
    if key == ById {
      IdLeTransitive(a.id, b.id, c.id);
    }
  }

  /** Places `x` before the first element it may precede. */
  function Insert(x: Task, s: seq<Task>, key: SortKey): (r: seq<Task>)
    ensures multiset(r) == multiset(s) + multiset{x}
  {
    if s == [] || Le(x, s[0], key) then [x] + s
    else
      assert s == [s[0]] + s[1..];
      [s[0]] + Insert(x, s[1..], key)
  }

  /** `s.sortedBy(key)`: a stable insertion sort. */
  function SortedBy(s: seq<Task>, key: SortKey): (r: seq<Task>)
    ensures multiset(r) == multiset(s)
  {
    if s == [] then []
    else
      assert s == [s[0]] + s[1..];
      Insert(s[0], SortedBy(s[1..], key), key)
  }

  /** The sort neither adds nor drops elements. */
  lemma SortedByLength(s: seq<Task>, key: SortKey)
    ensures |SortedBy(s, key)| == |s|
  {
    assert |multiset(SortedBy(s, key))| == |multiset(s)|;
  }

  lemma {:induction false} InsertSorted(x: Task, s: seq<Task>, key: SortKey)
    requires Sorted(s, key)
    ensures Sorted(Insert(x, s, key), key)
  {
    if s == [] || Le(x, s[0], key) {
      var r := [x] + s;
      forall i, j | 0 <= i < j < |r| ensures Le(r[i], r[j], key) {
        if i == 0 && j > 1 {
          LeTransitive(x, s[0], s[j - 1], key);
        }
      }
    } else {
      LeTotal(x, s[0], key);
      InsertSorted(x, s[1..], key);
      var rest := Insert(x, s[1..], key);
      forall y | y in rest ensures Le(s[0], y, key) {
        assert y in multiset(rest);
        if y != x {
          assert y in s[1..];
        }
      }
      var r := [s[0]] + rest;
      forall i, j | 0 <= i < j < |r| ensures Le(r[i], r[j], key) {
        if i == 0 {
          assert r[j] == rest[j - 1];
        }
      }
    }
  }

  /** The sort puts its output in order. */
  lemma {:induction false} SortedBySorted(s: seq<Task>, key: SortKey)
    ensures Sorted(SortedBy(s, key), key)
  {
    if s != [] {
      SortedBySorted(s[1..], key);
      InsertSorted(s[0], SortedBy(s[1..], key), key);
    }
  }

  /** The tasks of `s` with id `k`, in their order. */
  function WithId(s: seq<Task>, k: string): seq<Task>
  {
    if s == [] then []
    else (if s[0].id == k then [s[0]] else []) + WithId(s[1..], k)
  }

  lemma WithIdCons(y: Task, s: seq<Task>, k: string)
    ensures WithId([y] + s, k) == (if y.id == k then [y] else []) + WithId(s, k)
  {
    assert ([y] + s)[1..] == s;
  }

  lemma {:induction false} WithIdConcat(a: seq<Task>, b: seq<Task>, k: string)
    ensures WithId(a + b, k) == WithId(a, k) + WithId(b, k)
  {
    if a != [] {
      var h := if a[0].id == k then [a[0]] else [];
      assert a + b == [a[0]] + (a[1..] + b);
      WithIdCons(a[0], a[1..] + b, k);
      WithIdConcat(a[1..], b, k);
      calc {
        WithId(a + b, k);
        h + WithId(a[1..] + b, k);
        h + (WithId(a[1..], k) + WithId(b, k));
        (h + WithId(a[1..], k)) + WithId(b, k);
        WithId(a, k) + WithId(b, k);
      }
    } else {
      assert a + b == b;
    }
  }

  lemma {:induction false} InsertByIdStable(x: Task, s: seq<Task>, k: string)
    ensures WithId(Insert(x, s, ById), k) == WithId([x] + s, k)
  {
    if s != [] && !Le(x, s[0], ById) {
      var y, t := s[0], s[1..];
      assert y.id != x.id by {
        IdLeReflexive(x.id);
      }
      InsertByIdStable(x, t, k);
      assert s == [y] + t;
      calc {
        WithId(Insert(x, s, ById), k);
        WithId([y] + Insert(x, t, ById), k);
        { WithIdCons(y, Insert(x, t, ById), k); }
        (if y.id == k then [y] else []) + WithId([x] + t, k);
        { WithIdCons(x, t, k); }
        (if y.id == k then [y] else []) + ((if x.id == k then [x] else []) + WithId(t, k));
        (if x.id == k then [x] else []) + ((if y.id == k then [y] else []) + WithId(t, k));
        { WithIdCons(y, t, k); }
        (if x.id == k then [x] else []) + WithId(s, k);
        { WithIdCons(x, s, k); }
        WithId([x] + s, k);
      }
    }
  }

  /** Sorting by id is stable: the tasks that share an id come out in the
      order they went in. */
  lemma {:induction false} SortedByIdStable(s: seq<Task>, k: string)
    ensures WithId(SortedBy(s, ById), k) == WithId(s, k)
  {
    if s != [] {
      SortedByIdStable(s[1..], k);
      InsertByIdStable(s[0], SortedBy(s[1..], ById), k);
      WithIdConcat([s[0]], SortedBy(s[1..], ById), k);
    }
  }
}
