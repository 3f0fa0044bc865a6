/** Stable sorting by a three-way comparison.

    `Array.prototype.sort` is required to be stable, and with a consistent
    comparison the result of a stable sort is fully determined by its input
    (`SortIsDetermined` below). So any stable algorithm models it; insertion
    sort is the one used here. */
module Sorting {
  import opened Seqs
  import opened Collation

  /** Every element may be placed before every later one. */
  ghost predicate Sorted<T>(cmp: (T, T) -> int, s: seq<T>) {
    forall i, j :: 0 <= i < j < |s| ==> cmp(s[i], s[j]) <= 0
  }

  /** The elements of `s` that rank equally with `k`, in their order in `s`.
      A sort is stable when it keeps every such subsequence unchanged. */
  function Keep<T(!new)>(cmp: (T, T) -> int, k: T, s: seq<T>): (r: seq<T>)
    ensures forall x :: x in r <==> x in s && cmp(x, k) == 0
    ensures |r| <= |s|
  {
    if s == [] then []
    else (if cmp(s[0], k) == 0 then [s[0]] else []) + Keep(cmp, k, s[1..])
  }

  /** Places `x` in front of the first element it may precede, so `x` stays
      ahead of every element of `s` that ranks equally with it. */
  function Insert<T>(cmp: (T, T) -> int, x: T, s: seq<T>): (r: seq<T>)
    ensures multiset(r) == multiset(s) + multiset{x}
  {
    if s == [] then [x]
    else if cmp(x, s[0]) <= 0 then [x] + s
    else
      HeadTail(s);
      [s[0]] + Insert(cmp, x, s[1..])
  }

  /** Stable insertion sort: each element is inserted, from the back, into
      the sorted rest of the sequence. */
  function Sort<T>(cmp: (T, T) -> int, s: seq<T>): (r: seq<T>)
    ensures multiset(r) == multiset(s)
  {
    if s == [] then []
    else
      HeadTail(s);
      Insert(cmp, s[0], Sort(cmp, s[1..]))
  }

  /** The first step of `Sort`. */
  lemma SortCons<T>(cmp: (T, T) -> int, s: seq<T>)
    requires s != []
    ensures Sort(cmp, s) == Insert(cmp, s[0], Sort(cmp, s[1..]))
  {
  }

  lemma {:induction false} InsertSorted<T(!new)>(cmp: (T, T) -> int, x: T, s: seq<T>)
    requires Consistent(cmp)
    requires Sorted(cmp, s)
    ensures Sorted(cmp, Insert(cmp, x, s))
  {
    if s == [] {
    } else if cmp(x, s[0]) <= 0 {
    } else {
      var rest := Insert(cmp, x, s[1..]);
      InsertSorted(cmp, x, s[1..]);
      forall j | 0 <= j < |rest|
        ensures cmp(s[0], rest[j]) <= 0
      {
        assert rest[j] in multiset(rest);
        assert rest[j] == x || rest[j] in multiset(s[1..]);
      }
    }
  }

  /** The result of `Sort` is ordered by the comparison. */
  lemma {:induction false} SortSorted<T(!new)>(cmp: (T, T) -> int, s: seq<T>)
    requires Consistent(cmp)
    ensures Sorted(cmp, Sort(cmp, s))
  {
    if s != [] {
      SortSorted(cmp, s[1..]);
      InsertSorted(cmp, s[0], Sort(cmp, s[1..]));
    }
  }

  lemma {:induction false} InsertKeep<T(!new)>(cmp: (T, T) -> int, k: T, x: T, s: seq<T>)
    requires Consistent(cmp)
    ensures Keep(cmp, k, Insert(cmp, x, s))
         == (if cmp(x, k) == 0 then [x] else []) + Keep(cmp, k, s)
  {
    if s == [] {
    } else if cmp(x, s[0]) <= 0 {
      assert Insert(cmp, x, s) == [x] + s;
      TailAppend([x], s);
    } else {
      InsertKeep(cmp, k, x, s[1..]);
      InsertKeepStep(cmp, k, x, s);
    }
  }

  /** `x` goes past the head of `s`, which therefore cannot rank with `k`
      when `x` does. */
  lemma InsertKeepStep<T(!new)>(cmp: (T, T) -> int, k: T, x: T, s: seq<T>)
    requires Consistent(cmp)
    requires s != [] && cmp(x, s[0]) > 0
    requires Keep(cmp, k, Insert(cmp, x, s[1..]))
          == (if cmp(x, k) == 0 then [x] else []) + Keep(cmp, k, s[1..])
    ensures Keep(cmp, k, Insert(cmp, x, s))
         == (if cmp(x, k) == 0 then [x] else []) + Keep(cmp, k, s)
  {
    var ins := Insert(cmp, x, s[1..]);
    var xs := if cmp(x, k) == 0 then [x] else [];
    var hs := if cmp(s[0], k) == 0 then [s[0]] else [];
    assert cmp(x, k) == 0 ==> cmp(s[0], k) != 0;
    assert Insert(cmp, x, s) == [s[0]] + ins;
    TailAppend([s[0]], ins);
    var rest := Keep(cmp, k, s[1..]);
    assert Keep(cmp, k, Insert(cmp, x, s)) == hs + (xs + rest);
    assert Keep(cmp, k, s) == hs + rest;
    if cmp(x, k) == 0 {
      EmptyAppend(hs, xs + rest);
      EmptyAppend(hs, rest);
    } else {
      EmptyAppend(xs, rest);
      EmptyAppend(xs, Keep(cmp, k, s));
    }
  }

  /** `Sort` is stable: equally ranked elements keep their relative order. */
  lemma {:induction false} SortStable<T(!new)>(cmp: (T, T) -> int, k: T, s: seq<T>)
    requires Consistent(cmp)
    ensures Keep(cmp, k, Sort(cmp, s)) == Keep(cmp, k, s)
  {
    if s != [] {
      SortStable(cmp, k, s[1..]);
      InsertKeep(cmp, k, s[0], Sort(cmp, s[1..]));
    }
  }

  /** The first element of a sorted sequence may precede each of its elements. */
  lemma HeadPrecedes<T(!new)>(cmp: (T, T) -> int, t: seq<T>, x: T)
    requires Consistent(cmp)
    requires Sorted(cmp, t)
    requires x in t
    ensures cmp(t[0], x) <= 0
  {
    var j :| 0 <= j < |t| && t[j] == x;
    if j == 0 { LeqReflexive(cmp, x); }
  }

  /** Sorted sequences that agree on every rank class start alike. */
  lemma SameHead<T(!new)>(cmp: (T, T) -> int, t: seq<T>, u: seq<T>)
    requires Consistent(cmp)
    requires Sorted(cmp, t) && Sorted(cmp, u)
    requires t != [] && u != []
    requires forall k :: Keep(cmp, k, t) == Keep(cmp, k, u)
    ensures t[0] == u[0]
  {
    var a, b := t[0], u[0];
    LeqReflexive(cmp, a);
    LeqReflexive(cmp, b);
    assert b in Keep(cmp, b, u);
    HeadPrecedes(cmp, t, b);
    assert a in Keep(cmp, a, t);
    HeadPrecedes(cmp, u, a);
    assert Keep(cmp, a, t)[0] == a;
    assert Keep(cmp, a, u)[0] == b;
  }

  /** Removing a common first element keeps every rank class in agreement. */
  lemma DropHead<T(!new)>(cmp: (T, T) -> int, t: seq<T>, u: seq<T>, k: T)
    requires t != [] && u != [] && t[0] == u[0]
    requires Keep(cmp, k, t) == Keep(cmp, k, u)
    ensures Keep(cmp, k, t[1..]) == Keep(cmp, k, u[1..])
  {
    var h := if cmp(t[0], k) == 0 then [t[0]] else [];
    assert Keep(cmp, k, t) == h + Keep(cmp, k, t[1..]);
    assert Keep(cmp, k, u) == h + Keep(cmp, k, u[1..]);
    assert (h + Keep(cmp, k, t[1..]))[|h|..] == Keep(cmp, k, t[1..]);
    assert (h + Keep(cmp, k, u[1..]))[|h|..] == Keep(cmp, k, u[1..]);
  }

  /** A nonempty sequence has a nonempty rank class. */
  lemma KeepNonempty<T(!new)>(cmp: (T, T) -> int, t: seq<T>)
    requires Consistent(cmp)
    requires t != []
    ensures Keep(cmp, t[0], t) != []
  {
    LeqReflexive(cmp, t[0]);
  }

  /** Two sorted sequences that agree on every rank class are equal. */
  lemma {:induction false} SortedUnique<T(!new)>(cmp: (T, T) -> int, t: seq<T>, u: seq<T>)
    requires Consistent(cmp)
    requires Sorted(cmp, t) && Sorted(cmp, u)
    requires forall k :: Keep(cmp, k, t) == Keep(cmp, k, u)
    ensures t == u
  {
    if t == [] {
      if u != [] {
        KeepNonempty(cmp, u);
      }
    } else if u == [] {
      KeepNonempty(cmp, t);
    } else {
      SameHead(cmp, t, u);
      forall k
        ensures Keep(cmp, k, t[1..]) == Keep(cmp, k, u[1..])
      {
        DropHead(cmp, t, u, k);
      }
      SortedUnique(cmp, t[1..], u[1..]);
      assert t == [t[0]] + t[1..];
      assert u == [u[0]] + u[1..];
    }
  }

  /** Any sorted rearrangement of `s` that keeps equally ranked elements in
      their original order is exactly `Sort(cmp, s)`: every stable sort
      agrees with this one. */
  lemma SortIsDetermined<T(!new)>(cmp: (T, T) -> int, s: seq<T>, t: seq<T>)
    requires Consistent(cmp)
    requires Sorted(cmp, t)
    requires forall k :: Keep(cmp, k, t) == Keep(cmp, k, s)
    ensures t == Sort(cmp, s)
  {
    SortSorted(cmp, s);
    forall k
      ensures Keep(cmp, k, t) == Keep(cmp, k, Sort(cmp, s))
    {
      SortStable(cmp, k, s);
    }
    SortedUnique(cmp, t, Sort(cmp, s));
  }
}
