/** Which entries the rendered tree shows, and at which level.

    `Visible` lists, in plain enumeration order and without sorting, every
    entry the walk should show with its level. The outline of the walk holds
    exactly the same entries at the same levels, as often (`OutlineCovers`),
    and an entry is visible at a level exactly when a path of non-excluded
    entries within the depth limit leads to it (`VisibleIffReaches`). */
module Coverage {
  import opened Seqs
  import opened Sorting
  import opened Exclusion
  import opened Entries
  import opened TextLines
  import opened TreeRender
  import opened TreeOutline

  /** Each node's entry and level. */
  function Project(nodes: seq<Node>): seq<(Entry, nat)> {
    if nodes == [] then [] else [(nodes[0].entry, Level(nodes[0]))] + Project(nodes[1..])
  }

  /** `Project` keeps the length and pairs each node with its level. */
  lemma {:induction false} ProjectShape(nodes: seq<Node>)
    ensures |Project(nodes)| == |nodes|
    ensures forall i :: 0 <= i < |nodes| ==> Project(nodes)[i] == (nodes[i].entry, Level(nodes[i]))
  {
    if nodes != [] {
      ProjectShape(nodes[1..]);
    }
  }

  /** What the walk shows below the listing `es` at `depth`, with levels,
      in enumeration order. */
  function Visible(patterns: seq<string>, maxDepth: int, es: seq<Entry>, depth: nat): seq<(Entry, nat)>
    decreases es
  {
    if es == [] || Stops(maxDepth, depth) then []
    else
      (if ShouldExclude(es[0].name, patterns) then []
       else [(es[0], depth + 1)]
            + (if es[0].Dir? then Visible(patterns, maxDepth, es[0].children, depth + 1) else []))
      + Visible(patterns, maxDepth, es[1..], depth)
  }

  /** Each already-filtered entry followed by what is visible below it. */
  function Blocks(patterns: seq<string>, maxDepth: int, items: seq<Entry>, depth: nat): seq<(Entry, nat)>
    decreases items
  {
    if items == [] then []
    else
      [(items[0], depth + 1)]
      + (if items[0].Dir? then Visible(patterns, maxDepth, items[0].children, depth + 1) else [])
      + Blocks(patterns, maxDepth, items[1..], depth)
  }

  /** `path` picks, level by level, an entry of the current listing: none of
      them excluded, each but the last a directory whose children are the
      next listing, the last one `e`. */
  ghost predicate Reaches(patterns: seq<string>, es: seq<Entry>, path: seq<nat>, e: Entry)
    decreases |path|
  {
    && |path| > 0
    && path[0] < |es|
    && !ShouldExclude(es[path[0]].name, patterns)
    && if |path| == 1 then es[path[0]] == e
       else es[path[0]].Dir? && Reaches(patterns, es[path[0]].children, path[1..], e)
  }

  lemma {:induction false} ProjectAppend(a: seq<Node>, b: seq<Node>)
    ensures Project(a + b) == Project(a) + Project(b)
  {
    if a == [] {
      EmptyAppend(a, b);
    } else {
      TailAppend(a, b);
      var h := [(a[0].entry, Level(a[0]))];
      assert Project(a + b) == h + Project(a[1..] + b);
      ProjectAppend(a[1..], b);
      assert Project(a) == h + Project(a[1..]);
      AppendAssoc(h, Project(a[1..]), Project(b));
    }
  }

  lemma {:induction false} BlocksAppend(patterns: seq<string>, maxDepth: int, a: seq<Entry>, b: seq<Entry>, depth: nat)
    ensures Blocks(patterns, maxDepth, a + b, depth)
         == Blocks(patterns, maxDepth, a, depth) + Blocks(patterns, maxDepth, b, depth)
  {
    if a == [] {
      EmptyAppend(a, b);
    } else {
      TailAppend(a, b);
      var h := [(a[0], depth + 1)]
               + (if a[0].Dir? then Visible(patterns, maxDepth, a[0].children, depth + 1) else []);
      assert Blocks(patterns, maxDepth, a + b, depth) == h + Blocks(patterns, maxDepth, a[1..] + b, depth);
      BlocksAppend(patterns, maxDepth, a[1..], b, depth);
      assert Blocks(patterns, maxDepth, a, depth) == h + Blocks(patterns, maxDepth, a[1..], depth);
      AppendAssoc(h, Blocks(patterns, maxDepth, a[1..], depth), Blocks(patterns, maxDepth, b, depth));
    }
  }

  /** Inserting an entry anywhere adds exactly its block. */
  lemma {:induction false} BlocksInsert(patterns: seq<string>, maxDepth: int, cmp: (Entry, Entry) -> int,
                                        x: Entry, s: seq<Entry>, depth: nat)
    ensures multiset(Blocks(patterns, maxDepth, Insert(cmp, x, s), depth))
         == multiset(Blocks(patterns, maxDepth, [x], depth)) + multiset(Blocks(patterns, maxDepth, s, depth))
  {
    if s == [] {
      assert Insert(cmp, x, s) == [x];
    } else if cmp(x, s[0]) <= 0 {
      assert Insert(cmp, x, s) == [x] + s;
      BlocksAppend(patterns, maxDepth, [x], s, depth);
    } else {
      var s0, s1 := s[0], s[1..];
      var ins := Insert(cmp, x, s1);
      assert Insert(cmp, x, s) == [s0] + ins;
      assert s == [s0] + s1;
      var b0 := Blocks(patterns, maxDepth, [s0], depth);
      var bx := Blocks(patterns, maxDepth, [x], depth);
      var b1 := Blocks(patterns, maxDepth, s1, depth);
      BlocksInsert(patterns, maxDepth, cmp, x, s1, depth);
      assert multiset(Blocks(patterns, maxDepth, ins, depth)) == multiset(bx) + multiset(b1);
      BlocksAppend(patterns, maxDepth, [s0], ins, depth);
      BlocksAppend(patterns, maxDepth, [s0], s1, depth);
      assert Blocks(patterns, maxDepth, s, depth) == b0 + b1;
      assert multiset(Blocks(patterns, maxDepth, [s0] + ins, depth))
          == multiset(b0) + multiset(Blocks(patterns, maxDepth, ins, depth));
    }
  }

  /** Sorting the listing only reorders the blocks. */
  lemma {:induction false} BlocksSort(patterns: seq<string>, maxDepth: int, cmp: (Entry, Entry) -> int,
                                      s: seq<Entry>, depth: nat)
    ensures multiset(Blocks(patterns, maxDepth, Sort(cmp, s), depth))
         == multiset(Blocks(patterns, maxDepth, s, depth))
  {
    if s != [] {
      BlocksSort(patterns, maxDepth, cmp, s[1..], depth);
      BlocksSortStep(patterns, maxDepth, cmp, s, depth);
    }
  }

  lemma BlocksSortStep(patterns: seq<string>, maxDepth: int, cmp: (Entry, Entry) -> int,
                       s: seq<Entry>, depth: nat)
    requires s != []
    requires multiset(Blocks(patterns, maxDepth, Sort(cmp, s[1..]), depth))
          == multiset(Blocks(patterns, maxDepth, s[1..], depth))
    ensures multiset(Blocks(patterns, maxDepth, Sort(cmp, s), depth))
         == multiset(Blocks(patterns, maxDepth, s, depth))
  {
    var s0, s1 := s[0], s[1..];
    var sorted := Sort(cmp, s1);
    SortCons(cmp, s);
    BlocksInsert(patterns, maxDepth, cmp, s0, sorted, depth);
    HeadTail(s);
    BlocksAppend(patterns, maxDepth, [s0], s1, depth);
    var head := multiset(Blocks(patterns, maxDepth, [s0], depth));
    var tail := multiset(Blocks(patterns, maxDepth, s1, depth));
    assert multiset(Blocks(patterns, maxDepth, Sort(cmp, s), depth)) == head + tail;
    assert multiset(Blocks(patterns, maxDepth, s, depth)) == head + tail;
  }

  /** Below a listed directory, the visible entries are the blocks of its
      surviving entries. */
  lemma {:induction false} VisibleIsBlocks(patterns: seq<string>, maxDepth: int, es: seq<Entry>, depth: nat)
    requires !Stops(maxDepth, depth)
    ensures Visible(patterns, maxDepth, es, depth)
         == Blocks(patterns, maxDepth, Survivors(patterns, es), depth)
  {
    if es != [] {
      VisibleIsBlocks(patterns, maxDepth, es[1..], depth);
      var head := if ShouldExclude(es[0].name, patterns) then [] else [es[0]];
      BlocksAppend(patterns, maxDepth, head, Survivors(patterns, es[1..]), depth);
    }
  }

  /** The outline shows the same entries at the same levels, as often, as
      `Visible`: sorting reorders what is shown but never adds or drops. */
  lemma {:induction false} OutlineCovers(opts: Options, dir: Entry, anc: seq<bool>)
    requires dir.Dir?
    ensures multiset(Project(Outline(opts, dir, anc)))
         == multiset(Visible(opts.excludePatterns, opts.maxDepth, dir.children, |anc|))
    decreases dir, 1
  {
    var ps, md := opts.excludePatterns, opts.maxDepth;
    if !Stops(md, |anc|) {
      var survivors := Survivors(ps, dir.children);
      var items := Arrange(ps, opts.collate, dir.children);
      assert items == Sort(ByKindThenName(opts.collate), survivors);
      OutlineFromCovers(opts, dir, items, 0, anc);
      assert items[0..] == items;
      BlocksSort(ps, md, ByKindThenName(opts.collate), survivors, |anc|);
      VisibleIsBlocks(ps, md, dir.children, |anc|);
    }
  }

  lemma {:induction false} OutlineFromCovers(opts: Options, parent: Entry, items: seq<Entry>,
                                             i: nat, anc: seq<bool>)
    requires parent.Dir?
    requires i <= |items|
    requires forall x :: x in items ==> x in parent.children
    ensures multiset(Project(OutlineFrom(opts, parent, items, i, anc)))
         == multiset(Blocks(opts.excludePatterns, opts.maxDepth, items[i..], |anc|))
    decreases parent, 0, |items| - i
  {
    if i < |items| {
      var item, last := items[i], i == |items| - 1;
      assert item in parent.children;
      if item.Dir? {
        OutlineCovers(opts, item, anc + [last]);
        assert |anc + [last]| == |anc| + 1;
      }
      OutlineFromCovers(opts, parent, items, i + 1, anc);
      CoversStep(opts, parent, items, i, anc);
    } else {
      CoversEnd(opts, parent, items, anc);
    }
  }

  /** Past the last entry there is nothing on either side. */
  lemma CoversEnd(opts: Options, parent: Entry, items: seq<Entry>, anc: seq<bool>)
    requires parent.Dir?
    requires forall x :: x in items ==> x in parent.children
    ensures multiset(Project(OutlineFrom(opts, parent, items, |items|, anc)))
         == multiset(Blocks(opts.excludePatterns, opts.maxDepth, items[|items|..], |anc|))
  {
    assert OutlineFrom(opts, parent, items, |items|, anc) == [];
    assert items[|items|..] == [];
  }

  /** The step of `OutlineFromCovers`: the entry itself, what is below it
      and the rest of the listing cover each other part by part. */
  lemma CoversStep(opts: Options, parent: Entry, items: seq<Entry>, i: nat, anc: seq<bool>)
    requires parent.Dir?
    requires i < |items|
    requires forall x :: x in items ==> x in parent.children
    requires items[i].Dir? ==>
               (multiset(Project(Outline(opts, items[i], anc + [i == |items| - 1])))
                == multiset(Visible(opts.excludePatterns, opts.maxDepth, items[i].children, |anc| + 1)))
    requires multiset(Project(OutlineFrom(opts, parent, items, i + 1, anc)))
          == multiset(Blocks(opts.excludePatterns, opts.maxDepth, items[i + 1..], |anc|))
    ensures multiset(Project(OutlineFrom(opts, parent, items, i, anc)))
         == multiset(Blocks(opts.excludePatterns, opts.maxDepth, items[i..], |anc|))
  {
    var ps, md := opts.excludePatterns, opts.maxDepth;
    var item, last := items[i], i == |items| - 1;
    assert item in parent.children;
    OutlineFromStep(opts, parent, items, i, anc);
    BlocksStep(ps, md, items, i, |anc|);
    var head := multiset{(item, |anc| + 1)};
    var rest := multiset(Project(OutlineFrom(opts, parent, items, i + 1, anc)));
    var restBlocks := multiset(Blocks(ps, md, items[i + 1..], |anc|));
    if item.Dir? {
      var subs := multiset(Project(Outline(opts, item, anc + [last])));
      var belows := multiset(Visible(ps, md, item.children, |anc| + 1));
      SumOfThree(head, subs, rest, belows, restBlocks);
    } else {
      var none: seq<(Entry, nat)> := [];
      assert Project([]) == none;
      SumOfThree(head, multiset(none), rest, multiset(none), restBlocks);
    }
  }

  /** Equal parts make equal sums. */
  lemma SumOfThree<T>(head: multiset<T>, a: multiset<T>, b: multiset<T>, c: multiset<T>, d: multiset<T>)
    requires a == c && b == d
    ensures head + a + b == head + c + d
  {
  }

  /** One step of `OutlineFrom`, seen through `Project`. */
  lemma OutlineFromStep(opts: Options, parent: Entry, items: seq<Entry>, i: nat, anc: seq<bool>)
    requires parent.Dir?
    requires i < |items|
    requires forall x :: x in items ==> x in parent.children
    ensures multiset(Project(OutlineFrom(opts, parent, items, i, anc)))
         == multiset{(items[i], |anc| + 1)}
            + multiset(Project(if items[i].Dir? then Outline(opts, items[i], anc + [i == |items| - 1]) else []))
            + multiset(Project(OutlineFrom(opts, parent, items, i + 1, anc)))
  {
    var item, last := items[i], i == |items| - 1;
    assert item in parent.children;
    var node := Node(item, anc, last);
    var sub := if item.Dir? then Outline(opts, item, anc + [last]) else [];
    var rest := OutlineFrom(opts, parent, items, i + 1, anc);
    assert OutlineFrom(opts, parent, items, i, anc) == [node] + sub + rest;
    ProjectAppend([node] + sub, rest);
    ProjectAppend([node], sub);
    assert Project([node]) == [(item, |anc| + 1)];
  }

  /** One step of `Blocks` over a suffix of the listing. */
  lemma BlocksStep(patterns: seq<string>, maxDepth: int, items: seq<Entry>, i: nat, depth: nat)
    requires i < |items|
    ensures multiset(Blocks(patterns, maxDepth, items[i..], depth))
         == multiset{(items[i], depth + 1)}
            + multiset(if items[i].Dir? then Visible(patterns, maxDepth, items[i].children, depth + 1) else [])
            + multiset(Blocks(patterns, maxDepth, items[i + 1..], depth))
  {
    assert items[i..][1..] == items[i + 1..];
  }

  /** Moving past the first entry of a listing shifts a path's first index. */
  lemma ReachesShift(patterns: seq<string>, es: seq<Entry>, path: seq<nat>, e: Entry)
    requires es != []
    requires Reaches(patterns, es[1..], path, e)
    ensures Reaches(patterns, es, [path[0] + 1] + path[1..], e)
  {
    var p := [path[0] + 1] + path[1..];
    assert p[1..] == path[1..];
  }

  /** Descending into the first entry of a listing prepends its index. */
  lemma ReachesDescend(patterns: seq<string>, es: seq<Entry>, i: nat, path: seq<nat>, e: Entry)
    requires i < |es| && es[i].Dir? && !ShouldExclude(es[i].name, patterns)
    requires Reaches(patterns, es[i].children, path, e)
    ensures Reaches(patterns, es, [i] + path, e)
  {
    assert ([i] + path)[1..] == path;
  }

  /** Everything visible is reached by a path as long as its level, is not
      excluded, and lies within the depth limit. */
  lemma {:induction false} VisibleSound(patterns: seq<string>, maxDepth: int, es: seq<Entry>, depth: nat,
                                        e: Entry, level: nat)
    requires (e, level) in Visible(patterns, maxDepth, es, depth)
    ensures depth < level
    ensures maxDepth == Unlimited || level <= maxDepth
    ensures !ShouldExclude(e.name, patterns)
    ensures exists path :: |path| == level - depth && Reaches(patterns, es, path, e)
    decreases es
  {
    var x := es[0];
    var below := if x.Dir? then Visible(patterns, maxDepth, x.children, depth + 1) else [];
    var tail := Visible(patterns, maxDepth, es[1..], depth);
    if (e, level) in tail {
      VisibleSound(patterns, maxDepth, es[1..], depth, e, level);
      var path :| |path| == level - depth && Reaches(patterns, es[1..], path, e);
      ReachesShift(patterns, es, path, e);
    } else if (e, level) == (x, depth + 1) {
      assert Reaches(patterns, es, [0], e);
    } else {
      assert (e, level) in below;
      VisibleSound(patterns, maxDepth, x.children, depth + 1, e, level);
      var path :| |path| == level - (depth + 1) && Reaches(patterns, x.children, path, e);
      ReachesDescend(patterns, es, 0, path, e);
    }
  }

  /** A listed, non-excluded entry is visible one level down, and so is
      everything visible below it. */
  lemma {:induction false} VisibleIncludes(patterns: seq<string>, maxDepth: int, es: seq<Entry>, depth: nat,
                                           i: nat, q: (Entry, nat))
    requires !Stops(maxDepth, depth)
    requires i < |es| && !ShouldExclude(es[i].name, patterns)
    requires || q == (es[i], depth + 1)
             || (es[i].Dir? && q in Visible(patterns, maxDepth, es[i].children, depth + 1))
    ensures q in Visible(patterns, maxDepth, es, depth)
    decreases i
  {
    var first := [(es[0], depth + 1)]
      + (if es[0].Dir? then Visible(patterns, maxDepth, es[0].children, depth + 1) else []);
    var later := Visible(patterns, maxDepth, es[1..], depth);
    if i == 0 {
      assert Visible(patterns, maxDepth, es, depth) == first + later;
      assert q in first;
    } else {
      assert es[1..][i - 1] == es[i];
      VisibleIncludes(patterns, maxDepth, es[1..], depth, i - 1, q);
      assert q in later;
    }
  }

  /** Everything a path reaches within the depth limit is visible, at the
      level the path's length gives. */
  lemma {:induction false} VisibleComplete(patterns: seq<string>, maxDepth: int, es: seq<Entry>, depth: nat,
                                           path: seq<nat>, e: Entry, level: nat)
    requires Reaches(patterns, es, path, e)
    requires level == depth + |path|
    requires maxDepth == Unlimited || level <= maxDepth
    ensures (e, level) in Visible(patterns, maxDepth, es, depth)
    decreases |path|
  {
    ReachesHead(patterns, es, path, e);
    assert depth < level && !Stops(maxDepth, depth);
    var i := path[0];
    if |path| == 1 {
      assert (e, level) == (es[i], depth + 1);
    } else {
      var below := Visible(patterns, maxDepth, es[i].children, depth + 1);
      VisibleComplete(patterns, maxDepth, es[i].children, depth + 1, path[1..], e, level);
      assert es[i].Dir? && (e, level) in below;
    }
    VisibleIncludes(patterns, maxDepth, es, depth, i, (e, level));
  }

  /** What a path's first step says about the listing it starts in. */
  lemma ReachesHead(patterns: seq<string>, es: seq<Entry>, path: seq<nat>, e: Entry)
    requires Reaches(patterns, es, path, e)
    ensures path[0] < |es| && !ShouldExclude(es[path[0]].name, patterns)
    ensures |path| == 1 ==> es[path[0]] == e
    ensures |path| > 1 ==> es[path[0]].Dir? && Reaches(patterns, es[path[0]].children, path[1..], e)
  {
  }

  /** An entry is visible at a level exactly when a path of that many
      non-excluded steps reaches it and the level is within the limit. */
  lemma VisibleIffReaches(patterns: seq<string>, maxDepth: int, es: seq<Entry>, depth: nat,
                          e: Entry, level: nat)
    ensures (e, level) in Visible(patterns, maxDepth, es, depth)
        <==> && depth < level
             && (maxDepth == Unlimited || level <= maxDepth)
             && exists path :: |path| == level - depth && Reaches(patterns, es, path, e)
  {
    if (e, level) in Visible(patterns, maxDepth, es, depth) {
      VisibleSound(patterns, maxDepth, es, depth, e, level);
    } else if depth < level && (maxDepth == Unlimited || level <= maxDepth) {
      forall path | |path| == level - depth && Reaches(patterns, es, path, e)
        ensures false
      {
        VisibleComplete(patterns, maxDepth, es, depth, path, e, level);
      }
    }
  }

  /** The rendered tree shows an entry at a level exactly when that level is
      within the depth limit and the entry is reached from the root through
      non-excluded entries in that many steps; and it shows as many entries
      as `Visible` lists. */
  lemma ShownExactly(opts: Options, root: Entry, e: Entry, level: nat)
    requires root.Dir?
    ensures |Outline(opts, root, [])| == |Visible(opts.excludePatterns, opts.maxDepth, root.children, 0)|
    ensures (e, level) in Project(Outline(opts, root, []))
        <==> && 0 < level
             && (opts.maxDepth == Unlimited || level <= opts.maxDepth)
             && exists path :: |path| == level && Reaches(opts.excludePatterns, root.children, path, e)
  {
    OutlineCovers(opts, root, []);
    ProjectShape(Outline(opts, root, []));
    var shown := Project(Outline(opts, root, []));
    var visible := Visible(opts.excludePatterns, opts.maxDepth, root.children, 0);
    assert |multiset(shown)| == |multiset(visible)|;
    assert (e, level) in shown <==> (e, level) in multiset(visible);
    VisibleIffReaches(opts.excludePatterns, opts.maxDepth, root.children, 0, e, level);
  }

  /** No node of the outline is excluded or lies below the depth limit. */
  lemma OutlineObeysFilters(opts: Options, root: Entry)
    requires root.Dir?
    ensures forall n :: n in Outline(opts, root, []) ==>
      && !ShouldExclude(n.entry.name, opts.excludePatterns)
      && (opts.maxDepth == Unlimited || Level(n) <= opts.maxDepth)
  {
    forall n | n in Outline(opts, root, [])
      ensures !ShouldExclude(n.entry.name, opts.excludePatterns)
      ensures opts.maxDepth == Unlimited || Level(n) <= opts.maxDepth
    {
      ShownIsVisible(opts, root, n);
      VisibleSound(opts.excludePatterns, opts.maxDepth, root.children, 0, n.entry, Level(n));
    }
  }

  /** Every node of the outline is listed by `Visible` at its level. */
  lemma ShownIsVisible(opts: Options, root: Entry, n: Node)
    requires root.Dir?
    requires n in Outline(opts, root, [])
    ensures (n.entry, Level(n)) in Visible(opts.excludePatterns, opts.maxDepth, root.children, 0)
  {
    var nodes := Outline(opts, root, []);
    OutlineCovers(opts, root, []);
    ProjectShape(nodes);
    var i :| 0 <= i < |nodes| && nodes[i] == n;
    assert Project(nodes)[i] == (n.entry, Level(n));
    assert (n.entry, Level(n)) in multiset(Project(nodes));
  }

  /** A depth limit that is zero or negative (other than the "no limit"
      value) shows nothing below the root. */
  lemma ShallowLimitShowsNothing(opts: Options, root: Entry)
    requires root.Dir?
    requires opts.maxDepth != Unlimited && opts.maxDepth <= 0
    ensures Outline(opts, root, []) == []
  {
  }

  /** A path only passes through names of the tree. */
  lemma {:induction false} ReachesPlain(patterns: seq<string>, es: seq<Entry>, path: seq<nat>, e: Entry)
    requires PlainNames(es)
    requires Reaches(patterns, es, path, e)
    ensures PlainName(e.name)
    decreases |path|
  {
    if |path| > 1 {
      ReachesPlain(patterns, es[path[0]].children, path[1..], e);
    }
  }

  /** With plain names in the tree, every shown entry has a plain name. */
  lemma {:induction false} OutlinePlain(opts: Options, root: Entry)
    requires root.Dir?
    requires PlainNames(root.children)
    ensures forall n :: n in Outline(opts, root, []) ==> PlainName(n.entry.name)
  {
    forall n | n in Outline(opts, root, [])
      ensures PlainName(n.entry.name)
    {
      ShownIsVisible(opts, root, n);
      VisibleSound(opts.excludePatterns, opts.maxDepth, root.children, 0, n.entry, Level(n));
      var path :| |path| == Level(n) && Reaches(opts.excludePatterns, root.children, path, n.entry);
      ReachesPlain(opts.excludePatterns, root.children, path, n.entry);
    }
  }

  lemma RootLineSingle(fmt: Format, rootName: string)
    requires SingleLine(rootName)
    ensures SingleLine(RootLine(fmt, rootName))
  {
    var line := RootLine(fmt, rootName);
    forall k | 0 <= k < |line|
      ensures line[k] != Newline
    {
      if fmt.Markdown? && 2 <= k < 2 + |rootName| {
        assert line[k] == rootName[k - 2];
      } else if fmt.Ascii? && k < |rootName| {
        assert line[k] == rootName[k];
      }
    }
  }

  /** The text of a root line and node lines reads back as those lines. */
  lemma {:induction false} RowsRoundTrip(fmt: Format, rootName: string, nodes: seq<Node>)
    requires SingleLine(rootName)
    requires forall n :: n in nodes ==> PlainName(n.entry.name)
    ensures var lines := [RootLine(fmt, rootName)] + LinesOf(fmt, nodes);
      SplitLines(Join(lines)) == lines
  {
    var body := LinesOf(fmt, nodes);
    var lines := [RootLine(fmt, rootName)] + body;
    RootLineSingle(fmt, rootName);
    forall k | 0 <= k < |lines|
      ensures SingleLine(lines[k])
    {
      if k > 0 {
        var n := nodes[k - 1];
        assert n in nodes;
        NodeLineSingle(fmt, n);
        assert lines[k] == NodeLine(fmt, n);
      }
    }
    SplitJoin(lines);
  }

  /** The rendered text read back line by line: the root line first, then
      the closed-form `NodeLine` of every shown entry, in pre-order
      (`NodeLineShape` says what each of those lines looks like). */
  lemma RenderedRows(fmt: Format, rootName: string, root: Entry, opts: Options)
    requires root.Dir?
    requires SingleLine(rootName)
    requires PlainNames(root.children)
    ensures Render(fmt, rootName, root, opts).Ok?
    ensures SplitLines(Render(fmt, rootName, root, opts).text)
         == [RootLine(fmt, rootName)] + LinesOf(fmt, Outline(opts, root, []))
  {
    RenderIsOutline(fmt, rootName, root, opts);
    OutlinePlain(opts, root);
    RowsRoundTrip(fmt, rootName, Outline(opts, root, []));
  }
}
