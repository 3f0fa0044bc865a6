/** The tree renderer: `generateAsciiTree` and `generateMarkdownTree`.

    Both generators walk the tree depth-first from the root. At each
    directory they return at once when the depth limit is reached, and
    otherwise list the directory, drop excluded names, sort directories
    before other entries and each group by name, and append one line per
    shown entry. They differ only in the root line, the initial
    prefix, the text of an entry's line and the prefix handed to a
    directory's children, so the walk is written once, parameterised by
    `Format`. */
module TreeRender {
  import opened Entries
  import opened TextLines

  datatype Format = Ascii | Markdown

  /** The generators' parameters besides the root and its label.
      `collate` is the name comparison (`localeCompare`). */
  datatype Options = Options(
    excludePatterns: seq<string>,
    maxDepth: int,
    collate: (string, string) -> int)

  /** Listing the root fails when the root is not a directory. */
  datatype TreeError = NotADirectory

  datatype Result = Ok(text: string) | Err(error: TreeError)

  /** The `maxDepth` value meaning "no limit". */
  const Unlimited: int := -1

  /** The walk stops before listing a directory at this depth. */
  predicate Stops(maxDepth: int, depth: nat) {
    maxDepth != Unlimited && depth >= maxDepth
  }

  function RootLine(fmt: Format, rootName: string): string {
    match fmt
    case Ascii => rootName + "/"
    case Markdown => "- " + rootName + "/"
  }

  /** The prefix of the root's own entries. */
  function InitialPrefix(fmt: Format): string {
    match fmt
    case Ascii => ""
    case Markdown => "  "
  }

  /** The ASCII branch glyph in front of an entry. */
  function Connector(isLast: bool): string {
    if isLast then "└── " else "├── "
  }

  /** What an ASCII entry adds to the prefix of its children. */
  function Extension(isLast: bool): string {
    if isLast then "    " else "│   "
  }

  /** The Markdown indentation step. */
  const IndentStep: string := "  "

  /** One entry's line, without its newline. */
  function ItemLine(fmt: Format, prefix: string, isLast: bool, e: Entry): string {
    match fmt
    case Ascii => prefix + Connector(isLast) + Label(e)
    case Markdown => prefix + "- " + Label(e)
  }

  /** The prefix handed to a directory's children. */
  function ChildPrefix(fmt: Format, prefix: string, isLast: bool): string {
    match fmt
    case Ascii => prefix + Extension(isLast)
    case Markdown => prefix + IndentStep
  }

  /** The inner `traverseFileSystem`: the lines of everything shown below
      the directory `dir`, which sits at `depth`. */
  function Walk(fmt: Format, opts: Options, dir: Entry, prefix: string, depth: nat): seq<string>
    requires dir.Dir?
    decreases dir, 1
  {
    if Stops(opts.maxDepth, depth) then []
    else
      Emit(fmt, opts, dir, Arrange(opts.excludePatterns, opts.collate, dir.children), 0, prefix, depth)
  }

  /** The `forEach` over the arranged listing of `parent`, from index `i`. */
  function Emit(fmt: Format, opts: Options, ghost parent: Entry, items: seq<Entry>, i: nat,
                prefix: string, depth: nat): seq<string>
    requires parent.Dir?
    requires i <= |items|
    requires forall x :: x in items ==> x in parent.children
    decreases parent, 0, |items| - i
  {
    if i == |items| then []
    else
      var item := items[i];
      var isLast := i == |items| - 1;
      assert item in parent.children;
      [ItemLine(fmt, prefix, isLast, item)]
      + (if item.Dir? then Walk(fmt, opts, item, ChildPrefix(fmt, prefix, isLast), depth + 1) else [])
      + Emit(fmt, opts, parent, items, i + 1, prefix, depth)
  }

  /** The root line followed by the walk from the root at depth 0. The walk
      lists the root only when the depth limit lets it; listing a root that
      is not a directory fails. */
  function Render(fmt: Format, rootName: string, root: Entry, opts: Options): (r: Result)
    ensures r.Err? <==> root.File? && !Stops(opts.maxDepth, 0)
    ensures r.Ok? ==> RootLine(fmt, rootName) + [Newline] <= r.text
    ensures Stops(opts.maxDepth, 0) ==> r == Ok(RootLine(fmt, rootName) + [Newline])
  {
    var head := RootLine(fmt, rootName);
    if Stops(opts.maxDepth, 0) then Ok(Join([head]))
    else if root.File? then Err(NotADirectory)
    else
      var body := Walk(fmt, opts, root, InitialPrefix(fmt), 0);
      JoinAppend([head], body);
      Ok(Join([head] + body))
  }

  /** `generateAsciiTree(rootPath, rootName, excludePatterns, maxDepth)`.
      A call that omits the last two arguments is `excludePatterns := []`
      and `maxDepth := Unlimited`. */
  function AsciiTree(rootName: string, root: Entry, excludePatterns: seq<string>, maxDepth: int,
                     collate: (string, string) -> int): (r: Result)
    ensures r.Ok? ==> rootName + "/\n" <= r.text
    ensures maxDepth != Unlimited && maxDepth <= 0 ==> r == Ok(rootName + "/\n")
  {
    Render(Ascii, rootName, root, Options(excludePatterns, maxDepth, collate))
  }

  /** `generateMarkdownTree(rootPath, rootName, excludePatterns, maxDepth)`.
      A call that omits the last two arguments is `excludePatterns := []`
      and `maxDepth := Unlimited`. */
  function MarkdownTree(rootName: string, root: Entry, excludePatterns: seq<string>, maxDepth: int,
                        collate: (string, string) -> int): (r: Result)
    ensures r.Ok? ==> "- " + rootName + "/\n" <= r.text
    ensures maxDepth != Unlimited && maxDepth <= 0 ==> r == Ok("- " + rootName + "/\n")
  {
    Render(Markdown, rootName, root, Options(excludePatterns, maxDepth, collate))
  }
}
