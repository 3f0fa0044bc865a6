/** The rendered tree described node by node.

    The walk builds each line from a prefix it extends on the way down. This
    module describes the same output without that bookkeeping: the walk
    visits shown entries in pre-order, and each visited entry is a `Node`
    that records, for every ancestor below the root, whether that ancestor
    was the last of its siblings. A node's line is a closed-form function of
    the node (`NodeLine`), and `WalkIsOutline` proves that the walk emits
    exactly those lines. */
module TreeOutline {
  import opened Seqs
  import opened Entries
  import opened TextLines
  import opened TreeRender

  /** A shown entry: the last-sibling flags of its ancestors below the root
      (outermost first) and whether it is itself the last of its siblings. */
  datatype Node = Node(entry: Entry, ancestors: seq<bool>, isLast: bool)

  /** Distance from the root: the root's own entries are at level 1. */
  function Level(n: Node): nat {
    |n.ancestors| + 1
  }

  /** The ASCII prefix under ancestors with the given last-sibling flags: a
      blank column under each ancestor that was last, a bar under each that
      was not. */
  function Bars(flags: seq<bool>): string {
    if flags == [] then ""
    else Bars(flags[..|flags| - 1]) + Extension(flags[|flags| - 1])
  }

  /** The Markdown indentation of a given level. */
  function Indent(level: nat): string {
    if level == 0 then "" else Indent(level - 1) + IndentStep
  }

  /** The prefix the walk carries when it lists a directory whose own
      ancestors-and-self flags are `flags`. */
  function PrefixFor(fmt: Format, flags: seq<bool>): string {
    match fmt
    case Ascii => Bars(flags)
    case Markdown => Indent(|flags| + 1)
  }

  /** A node's line, without its newline. */
  function NodeLine(fmt: Format, n: Node): string {
    match fmt
    case Ascii => Bars(n.ancestors) + Connector(n.isLast) + Label(n.entry)
    case Markdown => Indent(Level(n)) + "- " + Label(n.entry)
  }

  function LinesOf(fmt: Format, nodes: seq<Node>): (r: seq<string>)
    ensures |r| == |nodes|
    ensures forall i :: 0 <= i < |nodes| ==> r[i] == NodeLine(fmt, nodes[i])
  {
    if nodes == [] then [] else [NodeLine(fmt, nodes[0])] + LinesOf(fmt, nodes[1..])
  }

  /** The nodes shown below `dir`, whose ancestors-and-self flags are `anc`,
      in pre-order. */
  function Outline(opts: Options, dir: Entry, anc: seq<bool>): seq<Node>
    requires dir.Dir?
    decreases dir, 1
  {
    if Stops(opts.maxDepth, |anc|) then []
    else OutlineFrom(opts, dir, Arrange(opts.excludePatterns, opts.collate, dir.children), 0, anc)
  }

  function OutlineFrom(opts: Options, ghost parent: Entry, items: seq<Entry>, i: nat,
                       anc: seq<bool>): seq<Node>
    requires parent.Dir?
    requires i <= |items|
    requires forall x :: x in items ==> x in parent.children
    decreases parent, 0, |items| - i
  {
    if i == |items| then []
    else
      var item, last := items[i], i == |items| - 1;
      assert item in parent.children;
      [Node(item, anc, last)]
      + (if item.Dir? then Outline(opts, item, anc + [last]) else [])
      + OutlineFrom(opts, parent, items, i + 1, anc)
  }

  /** The nodes of `nodes` whose ancestors are exactly `anc`: the siblings
      listed together in one directory. */
  function Siblings(nodes: seq<Node>, anc: seq<bool>): seq<Node> {
    if nodes == [] then []
    else (if nodes[0].ancestors == anc then [nodes[0]] else []) + Siblings(nodes[1..], anc)
  }

  lemma {:induction false} LinesOfAppend(fmt: Format, a: seq<Node>, b: seq<Node>)
    ensures LinesOf(fmt, a + b) == LinesOf(fmt, a) + LinesOf(fmt, b)
  {
    if a == [] {
      EmptyAppend(a, b);
    } else {
      TailAppend(a, b);
      var h := [NodeLine(fmt, a[0])];
      assert LinesOf(fmt, a + b) == h + LinesOf(fmt, a[1..] + b);
      LinesOfAppend(fmt, a[1..], b);
      assert LinesOf(fmt, a) == h + LinesOf(fmt, a[1..]);
      AppendAssoc(h, LinesOf(fmt, a[1..]), LinesOf(fmt, b));
    }
  }

  lemma {:induction false} SiblingsAppend(a: seq<Node>, b: seq<Node>, anc: seq<bool>)
    ensures Siblings(a + b, anc) == Siblings(a, anc) + Siblings(b, anc)
  {
    if a == [] {
      EmptyAppend(a, b);
    } else {
      TailAppend(a, b);
      var h := if a[0].ancestors == anc then [a[0]] else [];
      assert Siblings(a + b, anc) == h + Siblings(a[1..] + b, anc);
      SiblingsAppend(a[1..], b, anc);
      assert Siblings(a, anc) == h + Siblings(a[1..], anc);
      AppendAssoc(h, Siblings(a[1..], anc), Siblings(b, anc));
    }
  }

  /** Extending the carried prefix for a child is the same as extending the
      ancestor flags: ASCII appends a bar or a blank column, Markdown one
      indentation step. Top-level entries start from `InitialPrefix`. */
  lemma ChildPrefixExtends(fmt: Format, anc: seq<bool>, last: bool)
    ensures ChildPrefix(fmt, PrefixFor(fmt, anc), last) == PrefixFor(fmt, anc + [last])
    ensures PrefixFor(fmt, []) == InitialPrefix(fmt)
  {
    assert (anc + [last])[..|anc|] == anc;
    assert Indent(1) == Indent(0) + IndentStep;
  }

  /** An entry's line as the walk builds it is the node's closed-form line. */
  lemma ItemLineIsNodeLine(fmt: Format, anc: seq<bool>, last: bool, item: Entry)
    ensures ItemLine(fmt, PrefixFor(fmt, anc), last, item) == NodeLine(fmt, Node(item, anc, last))
  {
  }

  /** The walk emits, in order, the closed-form line of every node of the
      outline: the prefix it builds incrementally equals `Bars` of the
      ancestors' flags (ASCII) or the indentation of the level (Markdown). */
  lemma {:induction false} WalkIsOutline(fmt: Format, opts: Options, dir: Entry, anc: seq<bool>)
    requires dir.Dir?
    ensures Walk(fmt, opts, dir, PrefixFor(fmt, anc), |anc|) == LinesOf(fmt, Outline(opts, dir, anc))
    decreases dir, 1
  {
    if !Stops(opts.maxDepth, |anc|) {
      EmitIsOutline(fmt, opts, dir, Arrange(opts.excludePatterns, opts.collate, dir.children), 0, anc);
    }
  }

  lemma {:induction false} EmitIsOutline(fmt: Format, opts: Options, parent: Entry, items: seq<Entry>,
                                         i: nat, anc: seq<bool>)
    requires parent.Dir?
    requires i <= |items|
    requires forall x :: x in items ==> x in parent.children
    ensures Emit(fmt, opts, parent, items, i, PrefixFor(fmt, anc), |anc|)
         == LinesOf(fmt, OutlineFrom(opts, parent, items, i, anc))
    decreases parent, 0, |items| - i
  {
    if i < |items| {
      var item, last := items[i], i == |items| - 1;
      assert item in parent.children;
      if item.Dir? {
        WalkIsOutline(fmt, opts, item, anc + [last]);
        ChildPrefixExtends(fmt, anc, last);
        assert |anc + [last]| == |anc| + 1;
      }
      EmitIsOutline(fmt, opts, parent, items, i + 1, anc);
      EmitStep(fmt, opts, parent, items, i, anc);
    } else {
      assert OutlineFrom(opts, parent, items, i, anc) == [];
    }
  }

  /** The step of `EmitIsOutline`: the entry's line, the lines below it and
      the lines of the later entries agree part by part. */
  lemma EmitStep(fmt: Format, opts: Options, parent: Entry, items: seq<Entry>, i: nat, anc: seq<bool>)
    requires parent.Dir?
    requires i < |items|
    requires forall x :: x in items ==> x in parent.children
    requires items[i].Dir? ==>
               (Walk(fmt, opts, items[i], ChildPrefix(fmt, PrefixFor(fmt, anc), i == |items| - 1), |anc| + 1)
                == LinesOf(fmt, Outline(opts, items[i], anc + [i == |items| - 1])))
    requires Emit(fmt, opts, parent, items, i + 1, PrefixFor(fmt, anc), |anc|)
          == LinesOf(fmt, OutlineFrom(opts, parent, items, i + 1, anc))
    ensures Emit(fmt, opts, parent, items, i, PrefixFor(fmt, anc), |anc|)
         == LinesOf(fmt, OutlineFrom(opts, parent, items, i, anc))
  {
    var item, last := items[i], i == |items| - 1;
    assert item in parent.children;
    var prefix := PrefixFor(fmt, anc);
    var node := Node(item, anc, last);
    var sub := if item.Dir? then Outline(opts, item, anc + [last]) else [];
    var rest := OutlineFrom(opts, parent, items, i + 1, anc);
    var below := if item.Dir? then Walk(fmt, opts, item, ChildPrefix(fmt, prefix, last), |anc| + 1) else [];
    assert Emit(fmt, opts, parent, items, i, prefix, |anc|)
        == [ItemLine(fmt, prefix, last, item)] + below + Emit(fmt, opts, parent, items, i + 1, prefix, |anc|);
    assert OutlineFrom(opts, parent, items, i, anc) == [node] + sub + rest;
    ItemLineIsNodeLine(fmt, anc, last, item);
    assert below == LinesOf(fmt, sub);
    LinesOfAppend(fmt, [node] + sub, rest);
    LinesOfAppend(fmt, [node], sub);
  }

  /** The whole rendered text: the root line, then one line per node of the
      outline from the root, each followed by a newline. */
  lemma RenderIsOutline(fmt: Format, rootName: string, root: Entry, opts: Options)
    requires root.Dir?
    ensures Render(fmt, rootName, root, opts)
         == Ok(Join([RootLine(fmt, rootName)] + LinesOf(fmt, Outline(opts, root, []))))
  {
    ChildPrefixExtends(fmt, [], false);
    WalkIsOutline(fmt, opts, root, []);
  }

  /** Every node below a directory carries that directory's flags as the
      start of its own ancestors. */
  lemma {:induction false} OutlineDescends(opts: Options, dir: Entry, anc: seq<bool>)
    requires dir.Dir?
    ensures forall n :: n in Outline(opts, dir, anc) ==>
      |n.ancestors| >= |anc| && n.ancestors[..|anc|] == anc
    decreases dir, 1
  {
    if !Stops(opts.maxDepth, |anc|) {
      OutlineFromDescends(opts, dir, Arrange(opts.excludePatterns, opts.collate, dir.children), 0, anc);
    }
  }

  lemma {:induction false} OutlineFromDescends(opts: Options, parent: Entry, items: seq<Entry>,
                                               i: nat, anc: seq<bool>)
    requires parent.Dir?
    requires i <= |items|
    requires forall x :: x in items ==> x in parent.children
    ensures forall n :: n in OutlineFrom(opts, parent, items, i, anc) ==>
      |n.ancestors| >= |anc| && n.ancestors[..|anc|] == anc
    decreases parent, 0, |items| - i
  {
    if i < |items| {
      var item, last := items[i], i == |items| - 1;
      assert item in parent.children;
      if item.Dir? {
        OutlineDescends(opts, item, anc + [last]);
        forall n | n in Outline(opts, item, anc + [last])
          ensures n.ancestors[..|anc|] == anc
        {
          assert n.ancestors[..|anc|] == n.ancestors[..|anc| + 1][..|anc|];
        }
      }
      OutlineFromDescends(opts, parent, items, i + 1, anc);
    }
  }

  /** The entries listed together in one directory appear in the arranged
      order, and exactly the final one is marked last. */
  lemma SiblingsAreArranged(opts: Options, dir: Entry, anc: seq<bool>)
    requires dir.Dir?
    requires !Stops(opts.maxDepth, |anc|)
    ensures var items := Arrange(opts.excludePatterns, opts.collate, dir.children);
      var sib := Siblings(Outline(opts, dir, anc), anc);
      && |sib| == |items|
      && forall j :: 0 <= j < |sib| ==> sib[j] == Node(items[j], anc, j == |items| - 1)
  {
    SiblingsFrom(opts, dir, Arrange(opts.excludePatterns, opts.collate, dir.children), 0, anc);
  }

  /** No node below a child directory is a sibling of that child. */
  lemma {:induction false} NoSiblingsBelow(opts: Options, item: Entry, anc: seq<bool>, last: bool)
    requires item.Dir?
    ensures Siblings(Outline(opts, item, anc + [last]), anc) == []
  {
    OutlineDescends(opts, item, anc + [last]);
    SiblingsNone(Outline(opts, item, anc + [last]), anc);
  }

  lemma {:induction false} SiblingsNone(nodes: seq<Node>, anc: seq<bool>)
    requires forall n :: n in nodes ==> |n.ancestors| > |anc|
    ensures Siblings(nodes, anc) == []
  {
    if nodes != [] {
      assert nodes[0] in nodes;
      SiblingsNone(nodes[1..], anc);
    }
  }

  /** One step of the listing: the entry at `i` is a sibling, nothing below
      it is. */
  lemma {:induction false} SiblingsStep(opts: Options, parent: Entry, items: seq<Entry>, i: nat, anc: seq<bool>)
    requires parent.Dir?
    requires i < |items|
    requires forall x :: x in items ==> x in parent.children
    ensures Siblings(OutlineFrom(opts, parent, items, i, anc), anc)
         == [Node(items[i], anc, i == |items| - 1)]
            + Siblings(OutlineFrom(opts, parent, items, i + 1, anc), anc)
  {
    var item, last := items[i], i == |items| - 1;
    assert item in parent.children;
    var node := Node(item, anc, last);
    var sub := if item.Dir? then Outline(opts, item, anc + [last]) else [];
    var rest := OutlineFrom(opts, parent, items, i + 1, anc);
    assert OutlineFrom(opts, parent, items, i, anc) == [node] + sub + rest;
    assert Siblings([node], anc) == [node];
    if item.Dir? {
      NoSiblingsBelow(opts, item, anc, last);
    }
    SiblingsAppend([node] + sub, rest, anc);
    SiblingsAppend([node], sub, anc);
  }

  /** The listing from index `i` as sibling nodes: each entry with the
      same ancestors, and only the final one marked last. */
  function SiblingNodes(items: seq<Entry>, i: nat, anc: seq<bool>): (r: seq<Node>)
    requires i <= |items|
    ensures |r| == |items| - i
    ensures forall j :: 0 <= j < |r| ==> r[j] == Node(items[i + j], anc, i + j == |items| - 1)
    decreases |items| - i
  {
    if i == |items| then []
    else [Node(items[i], anc, i == |items| - 1)] + SiblingNodes(items, i + 1, anc)
  }

  lemma {:induction false} SiblingsFrom(opts: Options, parent: Entry, items: seq<Entry>,
                                        i: nat, anc: seq<bool>)
    requires parent.Dir?
    requires i <= |items|
    requires forall x :: x in items ==> x in parent.children
    ensures Siblings(OutlineFrom(opts, parent, items, i, anc), anc) == SiblingNodes(items, i, anc)
    decreases |items| - i
  {
    if i < |items| {
      SiblingsStep(opts, parent, items, i, anc);
      SiblingsFrom(opts, parent, items, i + 1, anc);
    }
  }

  /** A name a line can show unambiguously: it holds no `/` (no file system
      allows one in a name) and no newline. */
  predicate PlainName(name: string) {
    '/' !in name && Newline !in name
  }

  /** Every name in the listing, at every depth, is plain. */
  ghost predicate PlainNames(es: seq<Entry>) {
    forall i :: 0 <= i < |es| ==>
      PlainName(es[i].name) && (es[i].Dir? ==> PlainNames(es[i].children))
  }

  lemma BarsSingleLine(flags: seq<bool>)
    ensures SingleLine(Bars(flags))
  {
    if flags != [] {
      BarsSingleLine(flags[..|flags| - 1]);
    }
  }

  lemma IndentSingleLine(level: nat)
    ensures SingleLine(Indent(level))
  {
  }

  /** A node's line is one line. */
  lemma NodeLineSingle(fmt: Format, n: Node)
    requires PlainName(n.entry.name)
    ensures SingleLine(NodeLine(fmt, n))
  {
    BarsSingleLine(n.ancestors);
    IndentSingleLine(Level(n));
  }

  /** A node's line is one line, and it ends in `/` exactly when the node is
      a directory. */
  lemma NodeLineShape(fmt: Format, n: Node)
    requires PlainName(n.entry.name)
    ensures SingleLine(NodeLine(fmt, n))
    ensures var line := NodeLine(fmt, n);
      |line| > 0 && (line[|line| - 1] == '/' <==> n.entry.Dir?)
  {
    NodeLineSingle(fmt, n);
    var name := n.entry.name;
    var line := NodeLine(fmt, n);
    var text := Label(n.entry);
    assert line[|line| - |text|..] == text;
    if name != [] && !n.entry.Dir? {
      assert line[|line| - 1] == name[|name| - 1];
    }
  }
}
