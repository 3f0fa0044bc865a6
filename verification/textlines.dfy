/** The rendered tree is built by appending one newline-terminated line per
    row to a string. This module relates that string to its list of rows. */
module TextLines {
  import opened Seqs

  const Newline: char := '\n'

  /** A row that cannot be mistaken for two rows. */
  predicate SingleLine(s: string) {
    Newline !in s
  }

  /** Every row followed by its own newline, in order. */
  function Join(lines: seq<string>): (r: string)
    ensures |r| >= |lines|
    ensures lines != [] ==> r[|r| - 1] == Newline
    ensures lines == [] ==> r == ""
  {
    if lines == [] then ""
    else lines[0] + [Newline] + Join(lines[1..])
  }

  lemma {:induction false} JoinAppend(a: seq<string>, b: seq<string>)
    ensures Join(a + b) == Join(a) + Join(b)
  {
    if a == [] {
      EmptyAppend(a, b);
    } else {
      TailAppend(a, b);
      var h := a[0] + [Newline];
      assert Join(a + b) == h + Join(a[1..] + b);
      JoinAppend(a[1..], b);
      assert Join(a) == h + Join(a[1..]);
      AppendAssoc(h, Join(a[1..]), Join(b));
    }
  }

  /** The index of the first newline at or after `i`, or `|s|` if none. */
  function LineEnd(s: string, i: nat): (k: nat)
    requires i <= |s|
    ensures i <= k <= |s|
    ensures k < |s| ==> s[k] == Newline
    ensures forall j :: i <= j < k ==> s[j] != Newline
    decreases |s| - i
  {
    if i == |s| || s[i] == Newline then i else LineEnd(s, i + 1)
  }

  /** Reads a text back as rows: each row runs up to the next newline; a
      final row without a newline still counts. */
  function SplitLines(s: string): seq<string>
    decreases |s|
  {
    if s == [] then []
    else
      var k := LineEnd(s, 0);
      [s[..k]] + (if k < |s| then SplitLines(s[k + 1..]) else [])
  }

  /** Reading the joined text back yields exactly the rows, provided no row
      contains a newline of its own: one row per newline, in order. */
  lemma {:induction false} SplitJoin(lines: seq<string>)
    requires forall i :: 0 <= i < |lines| ==> SingleLine(lines[i])
    ensures SplitLines(Join(lines)) == lines
  {
    if lines != [] {
      var head, tail := lines[0], lines[1..];
      assert SingleLine(head);
      SplitFirst(head, Join(tail));
      assert forall i :: 0 <= i < |tail| ==> tail[i] == lines[i + 1];
      SplitJoin(tail);
      HeadTail(lines);
    }
  }

  /** A row without a newline, then a newline: reading stops exactly there. */
  lemma SplitFirst(head: string, rest: string)
    requires SingleLine(head)
    ensures SplitLines(head + [Newline] + rest) == [head] + SplitLines(rest)
  {
    var s := head + [Newline] + rest;
    var k := LineEnd(s, 0);
    assert s[|head|] == Newline;
    assert forall j :: 0 <= j < |head| ==> s[j] == head[j];
    assert k == |head|;
    assert s[..k] == head;
    assert s[k + 1..] == rest;
  }
}
