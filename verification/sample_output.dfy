/** The expected text of the generators on the sample project, row by row. */
module SampleOutput {
  import opened Entries
  import opened TextLines
  import opened TreeRender
  import opened SampleProject

  /** List shapes, stated for any element type. */
  lemma Listed3<T>(x: T, a: T, b: T, c: T)
    ensures [a] + [b] + [c] == [a, b, c]
    ensures [x] + ([a] + [b] + [c]) == [x, a, b, c]
  {
  }

  lemma Listed2<T>(x: T, a: T, b: T)
    ensures [x] + ([a] + [b]) == [x, a, b]
    ensures [x] + ([a] + [] + [b]) == [x, a, b]
  {
  }

  /** The walk below `proj`, nothing excluded, as ASCII rows. */
  lemma AsciiWalk(collate: (string, string) -> int)
    ensures Walk(Ascii, Options([], Unlimited, collate), Proj, "", 0)
         == ["├── src/", "│   └── a.ts", "└── README.md"]
  {
    AsciiProjWalk(collate);
    AsciiSrcWalk(collate);
    AsciiRows();
    var w := Walk(Ascii, Options([], Unlimited, collate), Proj, "", 0);
    var a := ItemLine(Ascii, "", false, Src);
    var b := ItemLine(Ascii, ChildPrefix(Ascii, "", false), true, File("a.ts"));
    var c := ItemLine(Ascii, "", true, Readme);
    assert w == [a] + [b] + [c];
    Listed3("", a, b, c);
    assert a == "├── src/";
    assert b == "│   └── a.ts";
    assert c == "└── README.md";
  }

  /** Unlimited depth, nothing excluded, ASCII. */
  lemma AsciiExample(collate: (string, string) -> int)
    ensures AsciiTree("proj", Proj, [], Unlimited, collate)
         == Ok(Join(["proj/", "├── src/", "│   └── a.ts", "└── README.md"]))
  {
    var opts := Options([], Unlimited, collate);
    AsciiWalk(collate);
    RenderListing(Ascii, "proj", Proj, opts);
    AsciiRows();
  }

  /** Unlimited depth, nothing excluded, Markdown. */
  lemma MarkdownExample(collate: (string, string) -> int)
    ensures MarkdownTree("proj", Proj, [], Unlimited, collate)
         == Ok(Join(["- proj/", "  - src/", "    - a.ts", "  - README.md"]))
  {
    var opts := Options([], Unlimited, collate);
    ProjWalk(Markdown, opts, "  ");
    SrcLines(Markdown, opts, ChildPrefix(Markdown, "  ", false));
    RenderListing(Markdown, "proj", Proj, opts);
    MarkdownRows();
    var a := ItemLine(Markdown, "  ", false, Src);
    var b := ItemLine(Markdown, ChildPrefix(Markdown, "  ", false), true, File("a.ts"));
    var c := ItemLine(Markdown, "  ", true, Readme);
    assert Walk(Markdown, opts, Proj, "  ", 0) == [a] + [b] + [c];
    Listed3(RootLine(Markdown, "proj"), a, b, c);
  }

  /** Excluding `README.md` leaves `src/` as the last sibling: its connector
      turns into the corner and its child's prefix into blank columns. */
  lemma ExcludedExample(collate: (string, string) -> int)
    ensures AsciiTree("proj", Proj, ["README.md"], Unlimited, collate)
         == Ok(Join(["proj/", "└── src/", "    └── a.ts"]))
  {
    var opts := Options(["README.md"], Unlimited, collate);
    ExcludedWalk(collate);
    RenderListing(Ascii, "proj", Proj, opts);
    AsciiLastRows();
    var a := ItemLine(Ascii, "", true, Src);
    var b := ItemLine(Ascii, ChildPrefix(Ascii, "", true), true, File("a.ts"));
    Listed2(RootLine(Ascii, "proj"), a, b);
  }

  /** A depth limit of 1 lists `src/` but not what is inside it. */
  lemma DepthOneExample(collate: (string, string) -> int)
    ensures AsciiTree("proj", Proj, [], 1, collate)
         == Ok(Join(["proj/", "├── src/", "└── README.md"]))
  {
    var opts := Options([], 1, collate);
    ProjWalk(Ascii, opts, "");
    assert Walk(Ascii, opts, Src, ChildPrefix(Ascii, "", false), 1) == [];
    RenderListing(Ascii, "proj", Proj, opts);
    AsciiRows();
    var a := ItemLine(Ascii, "", false, Src);
    var c := ItemLine(Ascii, "", true, Readme);
    assert Walk(Ascii, opts, Proj, "", 0) == [a] + [] + [c];
    Listed2(RootLine(Ascii, "proj"), a, c);
  }
}
