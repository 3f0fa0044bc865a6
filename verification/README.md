# Folder tree renderer, modelled in Dafny

This project models the tree renderer of a VS Code extension that turns a
folder into text. The renderer is `src/utils/treeGenerator.ts`. It has three
parts:

- `shouldExclude` matches a name against exclusion patterns. A pattern either
  equals the name, or ends in `*` and names every entry whose name starts with
  the rest of the pattern.
- `generateAsciiTree` writes box-drawing ASCII, with `├── ` / `└── `
  connectors and `│   ` / `    ` prefix extensions.
- `generateMarkdownTree` writes nested `- ` bullets with a two-space indent
  step.

At each directory, the two generators do the same steps in order:

1. return without listing when `maxDepth != -1` and `depth >= maxDepth`
   (`-1` means no limit);
2. list the directory;
3. drop excluded names;
4. sort directories before everything else, and each group by
   `localeCompare`;
5. append one newline-terminated line per entry that is left, descending
   into each directory right after its line.

The model has one walk, parameterised by `Format`. It proves that the walk
emits, in pre-order, a closed-form line for every shown entry
(`TreeOutline.WalkIsOutline`, `TreeOutline.RenderIsOutline`): in ASCII one
`│   ` or `    ` per ancestor and `├── ` or `└── ` for the entry, in
Markdown two spaces per level and `- `. It also gives the exact text of
four renderings of one small project.

The files are:

- `exclusion.dfy` (`Exclusion`): the matcher.
- `collation.dfy` (`Collation`): the abstract name comparison, and what a sort
  needs of it.
- `sorting.dfy` (`Sorting`): a stable insertion sort. The module proves it
  is sorted, a permutation and stable, and that it is the only sequence with
  those three properties. So it agrees with the engine's
  `Array.prototype.sort`, which is stable.
- `entries.dfy` (`Entries`): the in-memory directory tree, the entry
  comparison, and how a listing is filtered and arranged.
- `textlines.dfy` (`TextLines`): the output as newline-terminated lines, and
  reading it back.
- `render.dfy` (`TreeRender`): the walk (`Walk`/`Emit`, the inner
  `traverseFileSystem`) and the two generators.
- `outline.dfy` (`TreeOutline`): a closed form of the output, one `Node`
  per shown entry. It records the last-sibling flags of the entry's
  ancestors, and the module proves that the walk's incrementally built
  prefixes equal that closed form.
- `coverage.dfy` (`Coverage`): which entries are shown and at which level,
  and the rendered text read back row by row.
- `seqs.dfy` (`Seqs`): generic facts about sequence concatenation.
- `sample.dfy` (`SampleProject`) and `sample_output.dfy` (`SampleOutput`):
  the exact text of one small project in both formats, with one name
  excluded, and with a limit of 1.

The file system is an inductive `Entry = Dir(name, children) | File(name)`.
Listing a directory yields its `children` in enumeration order. Reading a
root that is not a directory fails, and the model returns
`Err(NotADirectory)` for it. `localeCompare` becomes a parameter `collate`.
The lemmas that need order facts assume only that it is a consistent
three-way comparison.

Four behaviours of the code that the model keeps:

- The generators take four parameters and never filter out files. The
  extension passes a fifth `includeFiles` argument, which they ignore, so
  there is no files-or-folders-only mode here.
- Entries are classified with `Dirent.isDirectory()` from a listing with
  file types. That is false for a symbolic link, so the walk never follows
  one, and a symlink cycle cannot make it loop. Every non-directory is a
  `File`.
- A failed `readdirSync` propagates its own exception, which already names
  the path. The model keeps only the non-directory root, as
  `Err(NotADirectory)`.
- With `maxDepth` zero or negative (other than `-1`), the root is never
  read. The output is then the root line alone, even for a root that is
  not a directory.

## Model

| member | source | states |
|---|---|---|
| `Exclusion.ExcludedIffSomeMatch` | src/utils/treeGenerator.ts:10-21 | a name is excluded exactly when some pattern of the list equals it, or ends in `*` with the rest of the pattern a prefix of the name |
| `Exclusion.LiteralExcludesExactly` | src/utils/treeGenerator.ts:13-15 | a pattern without a trailing `*` excludes exactly the name it spells |
| `Exclusion.WildcardExcludesPrefixes` | src/utils/treeGenerator.ts:16-18 | `stem + "*"` excludes exactly the names that start with `stem`, including `stem` itself |
| `Exclusion.StarExcludesEverything` | src/utils/treeGenerator.ts:11-18 | when the pattern `*` is anywhere in the list, every name is excluded |
| `Exclusion.PatternOrderIrrelevant` | src/utils/treeGenerator.ts:11 | two pattern lists with the same members exclude the same names, whatever their order or repetitions |
| `Entries.Label` | src/utils/treeGenerator.ts:67-69 | an entry's text is its name, followed by one `/` exactly when it is a directory |
| `Entries.Survivors` | src/utils/treeGenerator.ts:50 | filtering keeps every non-excluded entry as often as the listing has it, and drops every excluded one |
| `Entries.SurvivorsAppend` | src/utils/treeGenerator.ts:50 | filtering a concatenated listing filters each part and concatenates the results, so the filter keeps the enumeration order |
| `Entries.SurvivorsKeepOrder` | src/utils/treeGenerator.ts:50 | the filtered entries of one rank class are the class's non-excluded entries, in enumeration order |
| `Entries.Arrange` | src/utils/treeGenerator.ts:48-60 | the arranged listing is a permutation of the filtered listing; an entry is in it exactly when it is listed and not excluded |
| `Entries.EntryCompareConsistent` | src/utils/treeGenerator.ts:51-60 | the directories-first comparison is a consistent comparison whenever the name comparison is |
| `Entries.ArrangeOrdered` | src/utils/treeGenerator.ts:51-60 | in the arranged listing, no directory comes after a non-directory, and within each group names never decrease under the name comparison |
| `Entries.ArrangeStable` | src/utils/treeGenerator.ts:51-60 | entries that compare equal keep their relative enumeration order: each rank class of the arranged listing is the class's non-excluded entries, in the order the listing enumerates them |
| `Sorting.Sort` | src/utils/treeGenerator.ts:51 | the sort returns a permutation of its input |
| `Sorting.SortSorted` | src/utils/treeGenerator.ts:51-60 | under a consistent comparison, every element of the sorted sequence may precede every later one |
| `Sorting.SortStable` | src/utils/treeGenerator.ts:51-60 | for every rank class, the sorted sequence keeps the class's elements in their input order |
| `Sorting.SortIsDetermined` | src/utils/treeGenerator.ts:51-60 | every sorted, stable rearrangement of the input equals `Sort` of it, so any stable sort produces the same listing |
| `TextLines.JoinAppend` | src/utils/treeGenerator.ts:62-69 | appending the lines of two runs one after the other gives the text of the runs concatenated |
| `TextLines.SplitJoin` | src/utils/treeGenerator.ts:67-69 | splitting the text at newlines gives back the lines, when no line holds a newline |
| `TreeRender.Render` | src/utils/treeGenerator.ts:31-83 | rendering fails exactly when the root is not a directory and the limit lets the walk read it; any output starts with the root line and its newline; under a limit of 0 or less other than `-1` the output is exactly that line |
| `TreeRender.AsciiTree` | src/utils/treeGenerator.ts:37-46 | the ASCII text starts with `rootName + "/\n"`, and under a limit of 0 or less other than `-1` it is exactly that |
| `TreeRender.MarkdownTree` | src/utils/treeGenerator.ts:99-108 | the Markdown text starts with `"- " + rootName + "/\n"`, and under a limit of 0 or less other than `-1` it is exactly that |
| `TreeOutline.ChildPrefixExtends` | src/utils/treeGenerator.ts:63-76 | extending the carried prefix for a child (`│   ` or `    ` in ASCII, two spaces in Markdown) is the prefix of the ancestor flags extended by that child's flag; the root's entries start from `""` (ASCII) or `"  "` (Markdown) |
| `TreeOutline.WalkIsOutline` | src/utils/treeGenerator.ts:39-79 | the walk below a directory emits, in pre-order, the closed-form line of every node of its outline: ASCII bars per ancestor flag plus `└── ` for a last sibling and `├── ` otherwise; Markdown two spaces per level plus `- ` |
| `TreeOutline.EmitIsOutline` | src/utils/treeGenerator.ts:62-78 | the `forEach` from index `i` emits the closed-form lines of the outline of the entries from `i` on |
| `TreeOutline.RenderIsOutline` | src/utils/treeGenerator.ts:31-135 | for a directory root, both generators' text is the root line, then one closed-form line per node of the root's outline, each followed by a newline |
| `TreeOutline.SiblingsAreArranged` | src/utils/treeGenerator.ts:62-63 | the entries listed together in one directory appear in the arranged order, and exactly the final one is marked last |
| `TreeOutline.OutlineDescends` | src/utils/treeGenerator.ts:71-77 | every node below a directory carries that directory's flags as the start of its own ancestors' flags |
| `TreeOutline.NodeLineShape` | src/utils/treeGenerator.ts:67-69 | for an entry name with no `/` and no newline, a node's line is a single line and ends in `/` exactly when the node shows a directory |
| `Coverage.OutlineCovers` | src/utils/treeGenerator.ts:44-77 | the walk shows the same entries at the same levels, as often, as the unsorted listing `Visible`: sorting neither adds nor drops |
| `Coverage.VisibleSound` | src/utils/treeGenerator.ts:44-50 | an entry visible at a level is below the limit and not excluded, and a path of that many non-excluded steps reaches it |
| `Coverage.VisibleComplete` | src/utils/treeGenerator.ts:71-77 | an entry that a path of non-excluded directories reaches within the limit is visible at the path's level |
| `Coverage.VisibleIffReaches` | src/utils/treeGenerator.ts:44-50 | an entry is visible at a level exactly when the level is within the limit and a path of that many non-excluded steps reaches it |
| `Coverage.ShownExactly` | src/utils/treeGenerator.ts:44-77 | the rendered tree shows an entry at a level exactly when the level is between 1 and the limit and the entry is reached from the root through non-excluded directories, and it shows as many entries as `Visible` lists |
| `Coverage.OutlineObeysFilters` | src/utils/treeGenerator.ts:44-50 | no shown entry is excluded, and none lies deeper than the limit |
| `Coverage.ShallowLimitShowsNothing` | src/utils/treeGenerator.ts:44-46 | a limit of 0 or less (other than `-1`) shows nothing below the root |
| `Coverage.RenderedRows` | src/utils/treeGenerator.ts:62-82 | with newline-free names, the rendered text read back line by line is the root line followed by the closed-form line of every shown entry, in pre-order, so it has one row more than there are shown entries |
| `SampleOutput.AsciiExample` | src/utils/treeGenerator.ts:31-83 | `proj` holding `README.md` and `src/a.ts` renders as `proj/`, `├── src/`, `│   └── a.ts`, `└── README.md` |
| `SampleOutput.MarkdownExample` | src/utils/treeGenerator.ts:93-135 | the same project in Markdown is `- proj/`, `  - src/`, `    - a.ts`, `  - README.md` |
| `SampleOutput.ExcludedExample` | src/utils/treeGenerator.ts:48-65 | excluding `README.md` makes `src/` the last sibling, so its connector is `└── ` and its child's prefix four blanks |
| `SampleOutput.DepthOneExample` | src/utils/treeGenerator.ts:44-46 | with a limit of 1, `src/` is listed but `a.ts` inside it is not |

## Left out

- `src/extension.ts`: command registration, prompts, the code fence, the clipboard, editor insertion and file writing are editor glue around the renderer. It is not part of this model.
- `fs.readdirSync` and `path.join`: the file system is an in-memory `Entry` tree, and `path.join` only names the directory to read next. I/O failures during the walk are not modelled (permissions, a directory vanishing mid-walk). The only error kept is reading a root that is not a directory.
- `localeCompare`: the locale's collation rules are not modelled. The comparison is a parameter, and the order lemmas assume only that it is consistent (its sign flips with its arguments, and "sorts no later than" is transitive).
- `maxDepth` is an integer. A `NaN` or fractional value that `parseInt` or a caller could pass is not modelled.
- Names are sequences of characters. JavaScript compares and slices UTF-16 code units, which agrees with this model for the equality and prefix tests the matcher makes on well-formed strings.
- The string `result` grown with `+=` is modelled as the list of lines that `Join` concatenates.
- `includeFiles`: the generators have no such parameter and never drop files, so the model has no folders-only mode.
