/** Directory listings: the entries of a directory, how they are filtered
    and in which order they are shown. */
module Entries {
  import opened Seqs
  import opened Collation
  import opened Sorting
  import opened Exclusion

  /** An in-memory directory tree. Listing a directory yields its `children`
      in enumeration order. `File` stands for every entry that is not a
      directory (regular files, and also symbolic links, which a listing with
      file types reports as non-directories). */
  datatype Entry = Dir(name: string, children: seq<Entry>) | File(name: string)

  /** The text shown for an entry: its name, with `/` after a directory. */
  function Label(e: Entry): (r: string)
    ensures |r| == |e.name| + (if e.Dir? then 1 else 0)
    ensures r[..|e.name|] == e.name
    ensures e.Dir? ==> r[|r| - 1] == '/'
  {
    e.name + (if e.Dir? then "/" else "")
  }

  /** The comparison passed to the sort: directories before everything else,
      then the name comparison. */
  function EntryCompare(collate: (string, string) -> int, a: Entry, b: Entry): int {
    if a.Dir? && !b.Dir? then -1
    else if !a.Dir? && b.Dir? then 1
    else collate(a.name, b.name)
  }

  /** `EntryCompare` as a value, as handed to the sort. */
  function ByKindThenName(collate: (string, string) -> int): (Entry, Entry) -> int {
    (a, b) => EntryCompare(collate, a, b)
  }

  /** The listing with excluded names dropped, in enumeration order. */
  function Survivors(patterns: seq<string>, es: seq<Entry>): (r: seq<Entry>)
    ensures forall x :: multiset(r)[x]
                     == if ShouldExclude(x.name, patterns) then 0 else multiset(es)[x]
    ensures |r| <= |es|
  {
    if es == [] then []
    else
      assert es == [es[0]] + es[1..];
      (if ShouldExclude(es[0].name, patterns) then [] else [es[0]])
      + Survivors(patterns, es[1..])
  }

  /** Filtering a concatenation filters each part: `Survivors` keeps the
      enumeration order. Together with the counts in its contract this
      pins it down as the order-preserving filter. */
  lemma {:induction false} SurvivorsAppend(patterns: seq<string>, a: seq<Entry>, b: seq<Entry>)
    ensures Survivors(patterns, a + b) == Survivors(patterns, a) + Survivors(patterns, b)
  {
    if a == [] {
      EmptyAppend(a, b);
    } else {
      TailAppend(a, b);
      var h := if ShouldExclude(a[0].name, patterns) then [] else [a[0]];
      assert Survivors(patterns, a + b) == h + Survivors(patterns, a[1..] + b);
      SurvivorsAppend(patterns, a[1..], b);
      assert Survivors(patterns, a) == h + Survivors(patterns, a[1..]);
      AppendAssoc(h, Survivors(patterns, a[1..]), Survivors(patterns, b));
    }
  }

  /** The survivors that rank with `k` are the non-excluded members of the
      rank class of `k`, in enumeration order. */
  lemma {:induction false} SurvivorsKeepOrder(cmp: (Entry, Entry) -> int, k: Entry,
                                               patterns: seq<string>, es: seq<Entry>)
    ensures Keep(cmp, k, Survivors(patterns, es)) == Survivors(patterns, Keep(cmp, k, es))
  {
    if es != [] {
      var x, rest := es[0], es[1..];
      var kx := if cmp(x, k) == 0 then [x] else [];
      assert Keep(cmp, k, es) == kx + Keep(cmp, k, rest);
      SurvivorsAppend(patterns, kx, Keep(cmp, k, rest));
      SurvivorsKeepOrder(cmp, k, patterns, rest);
      if ShouldExclude(x.name, patterns) {
        assert Survivors(patterns, es) == Survivors(patterns, rest);
        assert Survivors(patterns, kx) == [];
      } else {
        var sv := Survivors(patterns, rest);
        assert Survivors(patterns, es) == [x] + sv;
        assert ([x] + sv)[0] == x && ([x] + sv)[1..] == sv;
        assert Keep(cmp, k, [x] + sv) == kx + Keep(cmp, k, sv);
        assert Survivors(patterns, kx) == kx;
      }
    }
  }

  /** The order in which a directory's entries are shown: excluded names
      dropped, then a stable sort by (is not a directory, name). */
  function Arrange(patterns: seq<string>, collate: (string, string) -> int, es: seq<Entry>): (r: seq<Entry>)
    ensures multiset(r) == multiset(Survivors(patterns, es))
    ensures forall x :: x in r <==> x in es && !ShouldExclude(x.name, patterns)
  {
    var r := Sort(ByKindThenName(collate), Survivors(patterns, es));
    assert forall x :: x in r <==> x in multiset(r);
    r
  }

  /** A consistent name comparison gives a consistent entry comparison. */
  lemma EntryCompareConsistent(collate: (string, string) -> int)
    requires Consistent(collate)
    ensures Consistent(ByKindThenName(collate))
  {
    var cmp := ByKindThenName(collate);
    forall a: Entry, b: Entry
      ensures cmp(a, b) < 0 <==> cmp(b, a) > 0
    {
    }
    forall a: Entry, b: Entry, c: Entry | cmp(a, b) <= 0 && cmp(b, c) <= 0
      ensures cmp(a, c) <= 0
    {
      if a.Dir? == b.Dir? && b.Dir? == c.Dir? {
        LeqTransitive(collate, a.name, b.name, c.name);
      }
    }
  }

  /** Among the shown entries every directory comes before every other
      entry, and within each group names never decrease. */
  lemma ArrangeOrdered(patterns: seq<string>, collate: (string, string) -> int, es: seq<Entry>)
    requires Consistent(collate)
    ensures var r := Arrange(patterns, collate, es);
      forall i, j :: 0 <= i < j < |r| ==>
        && !(r[j].Dir? && !r[i].Dir?)
        && (r[i].Dir? == r[j].Dir? ==> collate(r[i].name, r[j].name) <= 0)
  {
    var cmp := ByKindThenName(collate);
    EntryCompareConsistent(collate);
    SortSorted(cmp, Survivors(patterns, es));
  }

  /** Equally named entries of the same kind keep their enumeration order;
      with `SortIsDetermined` this pins the shown order down completely. */
  lemma ArrangeStable(patterns: seq<string>, collate: (string, string) -> int, es: seq<Entry>, k: Entry)
    requires Consistent(collate)
    ensures var cmp := ByKindThenName(collate);
      Keep(cmp, k, Arrange(patterns, collate, es)) == Keep(cmp, k, Survivors(patterns, es))
    ensures var cmp := ByKindThenName(collate);
      Keep(cmp, k, Arrange(patterns, collate, es)) == Survivors(patterns, Keep(cmp, k, es))
  {
    var cmp := ByKindThenName(collate);
    EntryCompareConsistent(collate);
    SortStable(cmp, k, Survivors(patterns, es));
    SurvivorsKeepOrder(cmp, k, patterns, es);
  }
}
