/** The renderer on one small project: `proj` holds a directory `src` with
    a file `a.ts`, and a file `README.md`, enumerated file first. The name
    comparison is arbitrary: the only two siblings differ in kind, so the
    directory-first rule alone decides their order. */
module SampleProject {
  import opened Sorting
  import opened Exclusion
  import opened Entries
  import opened TextLines
  import opened TreeRender

  const Src: Entry := Dir("src", [File("a.ts")])
  const Readme: Entry := File("README.md")
  const Proj: Entry := Dir("proj", [Readme, Src])

  /** The root's listing, arranged: `src/` first. */
  lemma ProjArranged(patterns: seq<string>, collate: (string, string) -> int)
    requires patterns == [] || patterns == ["README.md"]
    ensures Arrange(patterns, collate, Proj.children)
         == if patterns == [] then [Src, Readme] else [Src]
  {
    if patterns == [] {
      ProjArrangedAll(collate);
    } else {
      ProjArrangedExcluding(collate);
    }
  }

  lemma ProjArrangedAll(collate: (string, string) -> int)
    ensures Arrange([], collate, Proj.children) == [Src, Readme]
  {
    var cmp := ByKindThenName(collate);
    assert Survivors([], Proj.children) == [Readme, Src];
    assert Sort(cmp, [Src]) == [Src];
    assert [Readme, Src][1..] == [Src];
    assert Insert(cmp, Readme, [Src]) == [Src, Readme];
  }

  lemma ProjArrangedExcluding(collate: (string, string) -> int)
    ensures Arrange(["README.md"], collate, Proj.children) == [Src]
  {
    assert !ShouldExclude("src", ["README.md"]);
    assert ShouldExclude("README.md", ["README.md"]);
    assert Proj.children[1..] == [Src];
    assert Survivors(["README.md"], Proj.children) == [Src];
  }

  lemma SrcArranged(collate: (string, string) -> int)
    ensures Arrange([], collate, Src.children) == [File("a.ts")]
  {
    assert Survivors([], Src.children) == [File("a.ts")];
  }

  /** The lines below `src/`, whatever the prefix handed to it. */
  lemma SrcLines(fmt: Format, opts: Options, prefix: string)
    requires opts.excludePatterns == []
    requires !Stops(opts.maxDepth, 1)
    ensures Walk(fmt, opts, Src, prefix, 1) == [ItemLine(fmt, prefix, true, File("a.ts"))]
  {
    SrcArranged(opts.collate);
    var items := [File("a.ts")];
    assert Emit(fmt, opts, Src, items, 1, prefix, 1) == [];
  }

  /** The last sibling `README.md`, a file: its one line with the corner. */
  lemma ReadmeLast(fmt: Format, opts: Options, prefix: string)
    ensures Emit(fmt, opts, Proj, [Src, Readme], 1, prefix, 0)
         == [ItemLine(fmt, prefix, true, Readme)]
  {
    var items := [Src, Readme];
    assert items[1] == Readme;
    assert Emit(fmt, opts, Proj, items, 2, prefix, 0) == [];
    assert Emit(fmt, opts, Proj, items, 1, prefix, 0)
        == [ItemLine(fmt, prefix, true, Readme)] + [] + [];
  }

  /** The first sibling `src/`, followed by its subtree and by `README.md`. */
  lemma SrcFirst(fmt: Format, opts: Options, prefix: string)
    ensures Emit(fmt, opts, Proj, [Src, Readme], 0, prefix, 0)
         == [ItemLine(fmt, prefix, false, Src)]
            + Walk(fmt, opts, Src, ChildPrefix(fmt, prefix, false), 1)
            + [ItemLine(fmt, prefix, true, Readme)]
  {
    var items := [Src, Readme];
    assert items[0] == Src;
    ReadmeLast(fmt, opts, prefix);
  }

  /** The whole walk below `proj` with nothing excluded and `src` listed. */
  lemma ProjWalk(fmt: Format, opts: Options, prefix: string)
    requires opts.excludePatterns == []
    requires !Stops(opts.maxDepth, 0)
    ensures Walk(fmt, opts, Proj, prefix, 0)
         == [ItemLine(fmt, prefix, false, Src)]
            + Walk(fmt, opts, Src, ChildPrefix(fmt, prefix, false), 1)
            + [ItemLine(fmt, prefix, true, Readme)]
  {
    ProjArranged([], opts.collate);
    SrcFirst(fmt, opts, prefix);
  }

  /** A directory root under no depth limit at 0: the root line, then the walk. */
  lemma RenderListing(fmt: Format, rootName: string, root: Entry, opts: Options)
    requires root.Dir?
    requires !Stops(opts.maxDepth, 0)
    ensures Render(fmt, rootName, root, opts)
         == Ok(Join([RootLine(fmt, rootName)] + Walk(fmt, opts, root, InitialPrefix(fmt), 0)))
  {
  }

  /** The ASCII rows of this project, one per entry and position. */
  lemma AsciiRows()
    ensures ItemLine(Ascii, "", false, Src) == "├── src/"
    ensures ItemLine(Ascii, "│   ", true, File("a.ts")) == "│   └── a.ts"
    ensures ItemLine(Ascii, "", true, Readme) == "└── README.md"
    ensures ChildPrefix(Ascii, "", false) == "│   "
    ensures RootLine(Ascii, "proj") == "proj/"
  {
  }

  /** The ASCII rows once `README.md` is gone. */
  lemma AsciiLastRows()
    ensures ItemLine(Ascii, "", true, Src) == "└── src/"
    ensures ItemLine(Ascii, "    ", true, File("a.ts")) == "    └── a.ts"
    ensures ChildPrefix(Ascii, "", true) == "    "
    ensures RootLine(Ascii, "proj") == "proj/"
  {
  }

  /** The Markdown rows of this project. */
  lemma MarkdownRows()
    ensures ItemLine(Markdown, "  ", false, Src) == "  - src/"
    ensures ChildPrefix(Markdown, "  ", false) == "    "
    ensures ItemLine(Markdown, "    ", true, File("a.ts")) == "    - a.ts"
    ensures ItemLine(Markdown, "  ", true, Readme) == "  - README.md"
    ensures RootLine(Markdown, "proj") == "- proj/"
  {
  }

  lemma AsciiProjWalk(collate: (string, string) -> int)
    ensures Walk(Ascii, Options([], Unlimited, collate), Proj, "", 0)
         == [ItemLine(Ascii, "", false, Src)]
            + Walk(Ascii, Options([], Unlimited, collate), Src, ChildPrefix(Ascii, "", false), 1)
            + [ItemLine(Ascii, "", true, Readme)]
  {
    ProjWalk(Ascii, Options([], Unlimited, collate), "");
  }

  lemma AsciiSrcWalk(collate: (string, string) -> int)
    ensures Walk(Ascii, Options([], Unlimited, collate), Src, ChildPrefix(Ascii, "", false), 1)
         == [ItemLine(Ascii, ChildPrefix(Ascii, "", false), true, File("a.ts"))]
  {
    SrcLines(Ascii, Options([], Unlimited, collate), ChildPrefix(Ascii, "", false));
  }

  /** With `README.md` excluded, `src/` is the only entry of the root. */
  lemma ExcludedWalk(collate: (string, string) -> int)
    ensures Walk(Ascii, Options(["README.md"], Unlimited, collate), Proj, "", 0)
         == [ItemLine(Ascii, "", true, Src)]
            + [ItemLine(Ascii, ChildPrefix(Ascii, "", true), true, File("a.ts"))]
  {
    var opts := Options(["README.md"], Unlimited, collate);
    ProjArrangedExcluding(collate);
    ExcludedSrcWalk(collate);
    var items := [Src];
    assert items[0] == Src;
    assert Emit(Ascii, opts, Proj, items, 1, "", 0) == [];
  }

  /** Below `src/`, the exclusion of `README.md` changes nothing. */
  lemma ExcludedSrcWalk(collate: (string, string) -> int)
    ensures Walk(Ascii, Options(["README.md"], Unlimited, collate), Src, ChildPrefix(Ascii, "", true), 1)
         == [ItemLine(Ascii, ChildPrefix(Ascii, "", true), true, File("a.ts"))]
  {
    var opts := Options(["README.md"], Unlimited, collate);
    assert !ShouldExclude("a.ts", ["README.md"]);
    assert Survivors(["README.md"], Src.children) == [File("a.ts")];
    var prefix := ChildPrefix(Ascii, "", true);
    var inner := [File("a.ts")];
    assert inner[0] == File("a.ts");
    assert Emit(Ascii, opts, Src, inner, 1, prefix, 1) == [];
  }
}
