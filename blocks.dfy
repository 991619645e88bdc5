/**
 * make_block and format_block: a text cut into lines of at most a block
 * size, by characters or by greedy wrapping on whitespace, and the lines
 * laid out with an optional indent; and the rendering of one search result
 * as a row of the output.
 */
module Blocks {
  import opened Wrappers
  import opened Text

  function Min(a: int, b: int): int {
    if a <= b then a else b
  }

  // ---------------------------------------------------------------------
  // Blocks of characters

  /** text[i:i + n] for i = start, start + n, ... below len(text), with Python's clamped slices. */
  function ChunksFrom(text: string, n: nat, i: nat): seq<string>
    requires n > 0 && i <= |text|
    decreases |text| - i
  {
    if i == |text| then []
    else
      var j := Min(i + n, |text|);
      [text[i..j]] + ChunksFrom(text, n, j)
  }

  /** The chunks put back together are the text. */
  lemma {:induction false} ChunksFromJoin(text: string, n: nat, i: nat)
    requires n > 0 && i <= |text|
    ensures Join(ChunksFrom(text, n, i), "") == text[i..]
    decreases |text| - i
  {
    if i < |text| {
      var j := Min(i + n, |text|);
      ChunksFromJoin(text, n, j);
      if ChunksFrom(text, n, j) == [] {
        assert j == |text|;
      } else {
        JoinCons(text[i..j], ChunksFrom(text, n, j), "");
        assert text[i..] == text[i..j] + text[j..];
      }
    }
  }

  /** Each chunk holds between one and n characters, and only the last may hold fewer than n. */
  lemma {:induction false} ChunksFromSizes(text: string, n: nat, i: nat)
    requires n > 0 && i <= |text|
    ensures forall k :: 0 <= k < |ChunksFrom(text, n, i)| ==> 0 < |ChunksFrom(text, n, i)[k]| <= n
    ensures forall k :: 0 <= k < |ChunksFrom(text, n, i)| - 1 ==> |ChunksFrom(text, n, i)[k]| == n
    decreases |text| - i
  {
    if i < |text| {
      var j := Min(i + n, |text|);
      ChunksFromSizes(text, n, j);
      var rest := ChunksFrom(text, n, j);
      assert rest != [] ==> j == i + n;
      assert forall k :: 1 <= k < |rest| + 1 ==> ChunksFrom(text, n, i)[k] == rest[k - 1];
    }
  }

  /**
   * The blocks of make_block without space wrapping: None when the block
   * size is zero (a range with step zero raises), no blocks when it is
   * negative (the range is empty).
   */
  function CharBlocks(text: string, size: int): Option<seq<string>> {
    if size == 0 then None
    else if size < 0 then Some([])
    else Some(ChunksFrom(text, size, 0))
  }

  lemma CharBlocksSpec(text: string, size: int)
    ensures CharBlocks(text, size).None? <==> size == 0
    ensures size < 0 ==> CharBlocks(text, size) == Some([])
    ensures size > 0 ==>
              var bs := CharBlocks(text, size).value;
              && Join(bs, "") == text
              && (forall k :: 0 <= k < |bs| ==> 0 < |bs[k]| <= size)
              && (forall k :: 0 <= k < |bs| - 1 ==> |bs[k]| == size)
  {
    if size > 0 {
      ChunksFromJoin(text, size, 0);
      ChunksFromSizes(text, size, 0);
      assert text[0..] == text;
    }
  }

  // ---------------------------------------------------------------------
  // Greedy wrapping on whitespace

  /**
   * The state of the greedy wrap: the words of the lines already closed and
   * the words of the line still open.
   */
  datatype Wrap = Wrap(closed: seq<seq<string>>, open: seq<string>)

  /**
   * One word of the greedy wrap: the word joins the open line when the
   * joined line fits in size, and otherwise closes it and opens a line of
   * its own.
   */
  function Step(st: Wrap, w: string, size: int): Wrap {
    if |Join(st.open + [w], " ")| > size then Wrap(st.closed + [st.open], [w])
    else Wrap(st.closed, st.open + [w])
  }

  /** The greedy wrap of the first k words of ws. */
  function Groups(ws: seq<string>, k: nat, size: int): Wrap
    requires k <= |ws|
  {
    if k == 0 then Wrap([], []) else Step(Groups(ws, k - 1, size), ws[k - 1], size)
  }

  /** The words of the first n groups one after the other. */
  function Flatten(gs: seq<seq<string>>, n: nat): seq<string>
    requires n <= |gs|
  {
    if n == 0 then [] else Flatten(gs, n - 1) + gs[n - 1]
  }

  /** Each of the first n groups joined by spaces into a line. */
  function JoinAll(gs: seq<seq<string>>, n: nat): (r: seq<string>)
    requires n <= |gs|
    ensures |r| == n
  {
    if n == 0 then [] else JoinAll(gs, n - 1) + [Join(gs[n - 1], " ")]
  }

  lemma {:induction false} JoinAllAt(gs: seq<seq<string>>, n: nat, k: nat)
    requires k < n <= |gs|
    ensures JoinAll(gs, n)[k] == Join(gs[k], " ")
  {
    if k < n - 1 {
      JoinAllAt(gs, n - 1, k);
    }
  }

  /** The lines of the closed groups. */
  function ClosedLines(st: Wrap): seq<string> {
    JoinAll(st.closed, |st.closed|)
  }

  /** The lines of the wrap: none for no words, otherwise the closed lines and then the open one. */
  function WrapLines(ws: seq<string>, size: int): seq<string> {
    if |ws| == 0 then [] else ClosedLines(Groups(ws, |ws|, size)) + [Join(Groups(ws, |ws|, size).open, " ")]
  }

  /** Flattening the first n groups looks at those groups only. */
  lemma {:induction false} FlattenPrefix(gs: seq<seq<string>>, g: seq<string>, n: nat)
    requires n <= |gs|
    ensures Flatten(gs + [g], n) == Flatten(gs, n)
  {
    if n > 0 {
      FlattenPrefix(gs, g, n - 1);
      assert (gs + [g])[n - 1] == gs[n - 1];
    }
  }

  /** Joining the first n groups looks at those groups only. */
  lemma {:induction false} JoinAllPrefix(gs: seq<seq<string>>, g: seq<string>, n: nat)
    requires n <= |gs|
    ensures JoinAll(gs + [g], n) == JoinAll(gs, n)
  {
    if n > 0 {
      JoinAllPrefix(gs, g, n - 1);
      assert (gs + [g])[n - 1] == gs[n - 1];
    }
  }

  /** The words placed by the wrap: those of the closed lines, then those of the open one. */
  function Placed(st: Wrap): seq<string> {
    Flatten(st.closed, |st.closed|) + st.open
  }

  /** The groups of the first k words hold those words, in order, each once. */
  lemma {:induction false} GroupsFlatten(ws: seq<string>, k: nat, size: int)
    requires k <= |ws|
    ensures Placed(Groups(ws, k, size)) == ws[..k]
  {
    if k > 0 {
      var st := Groups(ws, k - 1, size);
      var w := ws[k - 1];
      GroupsFlatten(ws, k - 1, size);
      if |Join(st.open + [w], " ")| > size {
        FlattenPrefix(st.closed, st.open, |st.closed|);
      }
      assert ws[..k] == ws[..k - 1] + [w];
    }
  }

  /**
   * The open line is empty exactly when no words are placed; no closed
   * line but the first is empty, and the first is empty exactly when the
   * first word alone does not fit.
   */
  lemma {:induction false} GroupsShape(ws: seq<string>, k: nat, size: int)
    requires k <= |ws|
    ensures Groups(ws, k, size).open == [] <==> k == 0
    ensures forall j :: 0 < j < |Groups(ws, k, size).closed| ==> Groups(ws, k, size).closed[j] != []
    ensures k > 0 ==> ((|Groups(ws, k, size).closed| > 0 && Groups(ws, k, size).closed[0] == []) <==> |ws[0]| > size)
  {
    if k > 0 {
      GroupsShape(ws, k - 1, size);
      if k == 1 {
        assert Join([ws[0]], " ") == ws[0];
      }
    }
  }

  /** A line of two or more words fits in size. */
  lemma {:induction false} GroupsFit(ws: seq<string>, k: nat, size: int)
    requires k <= |ws|
    ensures forall j :: 0 <= j < |Groups(ws, k, size).closed| && |Groups(ws, k, size).closed[j]| >= 2 ==>
              |Join(Groups(ws, k, size).closed[j], " ")| <= size
    ensures |Groups(ws, k, size).open| >= 2 ==> |Join(Groups(ws, k, size).open, " ")| <= size
  {
    if k > 0 {
      GroupsFit(ws, k - 1, size);
    }
  }

  /** The first word of the next line does not fit after the words of the line. */
  predicate BreakForced(line: seq<string>, next: seq<string>, size: int) {
    next != [] && |Join(line + [next[0]], " ")| > size
  }

  /** Every break of the wrap state is forced, the one before the open line included. */
  predicate Greedy(st: Wrap, size: int) {
    && (forall j :: 0 <= j < |st.closed| - 1 ==> BreakForced(st.closed[j], st.closed[j + 1], size))
    && (|st.closed| > 0 ==> BreakForced(st.closed[|st.closed| - 1], st.open, size))
  }

  /** A step of the wrap keeps every break forced. */
  lemma GreedyStep(st: Wrap, w: string, size: int)
    requires Greedy(st, size)
    ensures Greedy(Step(st, w, size), size)
  {
    if |Join(st.open + [w], " ")| > size {
      var closed := st.closed + [st.open];
      assert forall j :: 0 <= j < |st.closed| ==> closed[j] == st.closed[j];
      assert [w][0] == w;
    } else if |st.closed| > 0 {
      assert (st.open + [w])[0] == st.open[0];
    }
  }

  /** Every line break of the wrap is forced: the greedy wrap never breaks early. */
  lemma {:induction false} GroupsGreedy(ws: seq<string>, k: nat, size: int)
    requires k <= |ws|
    ensures Greedy(Groups(ws, k, size), size)
  {
    if k > 0 {
      GroupsGreedy(ws, k - 1, size);
      GreedyStep(Groups(ws, k - 1, size), ws[k - 1], size);
    }
  }

  // ---------------------------------------------------------------------
  // make_block

  /** The lines closed and the open line, after the words before k. */
  predicate Wrapping(ws: seq<string>, size: int, k: nat, lines: seq<string>, line: string)
    requires k <= |ws|
  {
    var st := Groups(ws, k, size);
    && lines == ClosedLines(st)
    && line == Join(st.open, " ")
    && (line == "" <==> k == 0)
  }

  /** One word of the wrap loop. */
  lemma WrapStep(ws: seq<string>, size: int, k: nat, lines: seq<string>, line: string)
    requires k < |ws| && IsWord(ws[k]) && Wrapping(ws, size, k, lines, line)
    ensures var joined := if line != "" then line + " " + ws[k] else ws[k];
            if |joined| > size then Wrapping(ws, size, k + 1, lines + [line], ws[k])
            else Wrapping(ws, size, k + 1, lines, joined)
  {
    var w := ws[k];
    var st := Groups(ws, k, size);
    if line != "" {
      JoinSnoc(st.open, w, " ");
    } else {
      assert st.open == [];
    }
    assert Join([w], " ") == w;
    JoinAllPrefix(st.closed, st.open, |st.closed|);
  }

  /** make_block wrapping on whitespace: the greedy wrap of text.split(). */
  method WrapOnSpaces(text: string, size: int) returns (lines: seq<string>)
    ensures lines == WrapLines(Words(text), size)
  {
    var ws := Words(text);
    WordsSpec(text);
    lines := [];
    var line := "";
    var k := 0;
    while k < |ws|
      invariant 0 <= k <= |ws|
      invariant Wrapping(ws, size, k, lines, line)
    {
      var w := ws[k];
      WrapStep(ws, size, k, lines, line);
      var joined := if line != "" then line + " " + w else w;
      if |joined| > size {
        lines := lines + [line];
        line := w;
      } else {
        line := joined;
      }
      k := k + 1;
    }
    if line != "" {
      lines := lines + [line];
    }
  }

  /** The words of group k are among the flattened words. */
  lemma {:induction false} FlattenHolds(gs: seq<seq<string>>, n: nat, k: nat)
    requires k < n <= |gs|
    ensures forall w :: w in gs[k] ==> w in Flatten(gs, n)
  {
    if k < n - 1 {
      FlattenHolds(gs, n - 1, k);
    }
  }

  /** Every line of the wrap is the join of a group of the words, the open group last. */
  lemma WrapLinesGroups(ws: seq<string>, size: int, j: nat)
    requires j < |WrapLines(ws, size)|
    ensures var st := Groups(ws, |ws|, size);
            var g := if j < |st.closed| then st.closed[j] else st.open;
            && WrapLines(ws, size)[j] == Join(g, " ")
            && (forall w :: w in g ==> w in ws)
  {
    var st := Groups(ws, |ws|, size);
    GroupsFlatten(ws, |ws|, size);
    assert ws[..|ws|] == ws;
    if j < |st.closed| {
      JoinAllAt(st.closed, |st.closed|, j);
      FlattenHolds(st.closed, |st.closed|, j);
    } else {
      assert forall w :: w in st.open ==> w in Placed(st);
    }
  }

  /**
   * Every line of the wrap fits in size, or is one word by itself that does
   * not, or is the empty first line before a first word that does not.
   */
  lemma WrapLinesFit(ws: seq<string>, size: int)
    ensures forall k :: 0 <= k < |WrapLines(ws, size)| ==>
              || |WrapLines(ws, size)[k]| <= size
              || WrapLines(ws, size)[k] in ws
              || (k == 0 && WrapLines(ws, size)[k] == "")
  {
    var st := Groups(ws, |ws|, size);
    GroupsFit(ws, |ws|, size);
    GroupsShape(ws, |ws|, size);
    forall k | 0 <= k < |WrapLines(ws, size)|
      ensures || |WrapLines(ws, size)[k]| <= size
              || WrapLines(ws, size)[k] in ws
              || (k == 0 && WrapLines(ws, size)[k] == "")
    {
      WrapLinesGroups(ws, size, k);
      var g := if k < |st.closed| then st.closed[k] else st.open;
      if |g| == 1 {
        assert g[0] in g;
        assert Join(g, " ") == g[0];
      }
    }
  }

  /** A join of words is at least as long as its last word. */
  lemma JoinCoversLast(ss: seq<string>, sep: string)
    requires |ss| >= 1
    ensures |Join(ss, sep)| >= |ss[|ss| - 1]|
  {
  }

  /** A line of a wrap of words is empty exactly when its group is a closed empty one. */
  lemma WrapLineEmptyAt(ws: seq<string>, size: int, k: nat)
    requires forall k :: 0 <= k < |ws| ==> IsWord(ws[k])
    requires k < |WrapLines(ws, size)|
    ensures var st := Groups(ws, |ws|, size);
            WrapLines(ws, size)[k] == "" <==> k < |st.closed| && st.closed[k] == []
  {
    var st := Groups(ws, |ws|, size);
    GroupsShape(ws, |ws|, size);
    WrapLinesGroups(ws, size, k);
    var g := if k < |st.closed| then st.closed[k] else st.open;
    if g != [] {
      var w := g[|g| - 1];
      assert w in g;
      assert w in ws;
      var i :| 0 <= i < |ws| && ws[i] == w;
      assert IsWord(ws[i]);
      JoinCoversLast(g, " ");
    }
  }

  /**
   * No line of a wrap of words but the first is empty, and the first is
   * empty exactly when the first word alone does not fit.
   */
  lemma WrapWordsNonEmpty(ws: seq<string>, size: int)
    requires forall k :: 0 <= k < |ws| ==> IsWord(ws[k])
    ensures forall k :: 0 < k < |WrapLines(ws, size)| ==> WrapLines(ws, size)[k] != ""
    ensures |ws| > 0 ==> (WrapLines(ws, size)[0] == "" <==> |ws[0]| > size)
  {
    GroupsShape(ws, |ws|, size);
    forall k | 0 <= k < |WrapLines(ws, size)|
      ensures var st := Groups(ws, |ws|, size);
              WrapLines(ws, size)[k] == "" <==> k < |st.closed| && st.closed[k] == []
    {
      WrapLineEmptyAt(ws, size, k);
    }
  }

  /**
   * The wrap of a text's words never holds an empty line after its first
   * one, and holds an empty first line only for a first word too long for
   * the width alone.
   */
  lemma WrapLinesNonEmpty(text: string, size: int)
    ensures forall k :: 0 < k < |WrapLines(Words(text), size)| ==> WrapLines(Words(text), size)[k] != ""
    ensures |Words(text)| > 0 ==> (WrapLines(Words(text), size)[0] == "" <==> |Words(text)[0]| > size)
  {
    WordsSpec(text);
    WrapWordsNonEmpty(Words(text), size);
  }

  /** The wrapped lines of the first k pieces, one piece after the other. */
  function PieceLines(pieces: seq<string>, k: nat, size: int): seq<string>
    requires k <= |pieces|
  {
    if k == 0 then [] else PieceLines(pieces, k - 1, size) + WrapLines(Words(pieces[k - 1]), size)
  }

  /** make_block keeping newlines: each line of the text wrapped by itself. */
  function NewlineLines(text: string, size: int): seq<string> {
    PieceLines(Split(text, '\n'), |Split(text, '\n')|, size)
  }

  /** A text without newlines wraps the same whether newlines are kept or not. */
  lemma NewlinesWithoutNewline(text: string, size: int)
    requires '\n' !in text
    ensures NewlineLines(text, size) == WrapLines(Words(text), size)
  {
    SplitJoin([text], '\n');
    assert Join([text], "\n") == text;
    assert Split(text, '\n') == [text];
    assert PieceLines([text], 1, size) == [] + WrapLines(Words(text), size);
  }

  /** make_block wrapping on whitespace while keeping newlines. */
  method WrapLinesOfText(text: string, size: int) returns (lines: seq<string>)
    ensures lines == NewlineLines(text, size)
  {
    var pieces := Split(text, '\n');
    lines := [];
    var k := 0;
    while k < |pieces|
      invariant 0 <= k <= |pieces|
      invariant lines == PieceLines(pieces, k, size)
    {
      var more := WrapOnSpaces(pieces[k], size);
      lines := lines + more;
      k := k + 1;
    }
  }

  /** What make_block returns: None where it raises. */
  function Block(text: string, size: int, spaces: bool, newlines: bool): Option<seq<string>> {
    if !spaces then CharBlocks(text, size)
    else if newlines then Some(NewlineLines(text, size))
    else Some(WrapLines(Words(text), size))
  }

  /** make_block. */
  method MakeBlock(text: string, size: int, spaces: bool, newlines: bool) returns (r: Option<seq<string>>)
    ensures r == Block(text, size, spaces, newlines)
  {
    if !spaces {
      return CharBlocks(text, size);
    }
    if newlines {
      var lines := WrapLinesOfText(text, size);
      return Some(lines);
    }
    var lines := WrapOnSpaces(text, size);
    return Some(lines);
  }

  // ---------------------------------------------------------------------
  // format_block

  /** Each line with p in front of it. */
  function Prefixed(p: string, lines: seq<string>): (r: seq<string>)
    ensures |r| == |lines|
  {
    seq(|lines|, k requires 0 <= k < |lines| => p + lines[k])
  }

  /**
   * The lines joined by newlines; with an indent, the indent before every
   * line, or before every line but the first when lstrip is set.
   */
  function Layout(lines: seq<string>, prepend: Option<string>, lstrip: bool): string {
    match prepend
    case None => Join(lines, "\n")
    case Some(p) => if lstrip then Join(lines, "\n" + p) else p + Join(lines, "\n" + p)
  }

  /** Joining with a newline and an indent is indenting every line after the first. */
  lemma {:induction false} JoinIndented(lines: seq<string>, p: string)
    requires |lines| >= 1
    ensures p + Join(lines, "\n" + p) == Join(Prefixed(p, lines), "\n")
    decreases |lines|
  {
    if |lines| > 1 {
      var init := lines[..|lines| - 1];
      JoinIndented(init, p);
      assert Prefixed(p, lines)[..|lines| - 1] == Prefixed(p, init);
    }
  }

  /** format_block: the text's blocks laid out, None where make_block raises. */
  method FormatBlock(text: string, prepend: Option<string>, lstrip: bool, size: int, spaces: bool, newlines: bool)
    returns (r: Option<string>)
    ensures r.None? <==> Block(text, size, spaces, newlines).None?
    ensures r.Some? ==> r.value == Layout(Block(text, size, spaces, newlines).value, prepend, lstrip)
  {
    var lines := MakeBlock(text, size, spaces, newlines);
    if lines.None? {
      return None;
    }
    return Some(Layout(lines.value, prepend, lstrip));
  }

  /** A header, then lines joined with a newline and an indent, is the header on the first line and the indent on the others. */
  lemma JoinAfterIndent(header: string, first: string, more: seq<string>, p: string)
    ensures header + Join([first] + more, "\n" + p) == Join([header + first] + Prefixed(p, more), "\n")
  {
    if |more| == 0 {
      assert [first] + more == [first];
      assert [header + first] + Prefixed(p, more) == [header + first];
    } else {
      JoinCons(first, more, "\n" + p);
      JoinIndented(more, p);
      JoinCons(header + first, Prefixed(p, more), "\n");
    }
  }

  /**
   * A header, then lines joined with a newline and an indent, splits at
   * newlines into the header with the first line, then the other lines
   * each after the indent.
   */
  lemma SplitIndented(header: string, first: string, more: seq<string>, p: string)
    requires '\n' !in header && '\n' !in first && '\n' !in p
    requires forall k :: 0 <= k < |more| ==> '\n' !in more[k]
    ensures Split(header + Join([first] + more, "\n" + p), '\n') == [header + first] + Prefixed(p, more)
  {
    var rest := Prefixed(p, more);
    var all := [header + first] + rest;
    JoinAfterIndent(header, first, more, p);
    PrefixedWithoutNewline(p, more);
    assert forall k :: 1 <= k < |all| ==> all[k] == rest[k - 1];
    SplitJoin(all, '\n');
  }

  /** Indented lines hold no newline when neither the lines nor the indent do. */
  lemma PrefixedWithoutNewline(p: string, lines: seq<string>)
    requires '\n' !in p && forall k :: 0 <= k < |lines| ==> '\n' !in lines[k]
    ensures forall k :: 0 <= k < |lines| ==> '\n' !in Prefixed(p, lines)[k]
  {
    forall k | 0 <= k < |lines|
      ensures '\n' !in Prefixed(p, lines)[k]
    {
      assert Prefixed(p, lines)[k] == p + lines[k];
    }
  }

  /**
   * Splitting the laid-out text at newlines gives the lines back, each
   * after the indent where one is asked for; no lines lay out as nothing,
   * or as the indent alone.
   */
  lemma LayoutSpec(lines: seq<string>, prepend: Option<string>, lstrip: bool)
    requires forall k :: 0 <= k < |lines| ==> '\n' !in lines[k]
    requires prepend.Some? ==> '\n' !in prepend.value
    ensures |lines| == 0 ==> Layout(lines, prepend, lstrip) == if prepend.Some? && !lstrip then prepend.value else ""
    ensures |lines| >= 1 ==>
              Split(Layout(lines, prepend, lstrip), '\n') ==
              (match prepend
               case None => lines
               case Some(p) => if lstrip then [lines[0]] + Prefixed(p, lines[1..]) else Prefixed(p, lines))
  {
    if |lines| >= 1 {
      match prepend
      case None =>
        SplitJoin(lines, '\n');
      case Some(p) =>
        if lstrip {
          assert lines == [lines[0]] + lines[1..];
          SplitIndented("", lines[0], lines[1..], p);
          assert "" + Layout(lines, prepend, lstrip) == Layout(lines, prepend, lstrip);
        } else {
          JoinIndented(lines, p);
          PrefixedWithoutNewline(p, lines);
          SplitJoin(Prefixed(p, lines), '\n');
        }
    }
  }

  // ---------------------------------------------------------------------
  // One row of the search output

  /** The column width of the headword. */
  const WordWidth := 25

  /** The indent of the translation lines after the first. */
  const TransIndent := WordWidth + 3

  /** The width left for translations in an 80-column row. */
  const TransWidth := 80 - TransIndent

  function Spaces(n: nat): (r: string)
    ensures |r| == n && forall k :: 0 <= k < n ==> r[k] == ' '
  {
    seq(n, _ => ' ')
  }

  /** str.rjust(): s after enough spaces to make it n wide. */
  function RJust(s: string, n: nat): (r: string)
    ensures |r| == if |s| >= n then |s| else n
    ensures forall k :: 0 <= k < |s| ==> r[|r| - |s| + k] == s[k]
    ensures forall k :: 0 <= k < |r| - |s| ==> r[k] == ' '
  {
    if |s| >= n then s else Spaces(n - |s|) + s
  }

  /** The translations of a row's word, wrapped to the width left for them. */
  function TransLines(translations: seq<string>): seq<string> {
    WrapLines(Words(Join(translations, ", ")), TransWidth)
  }

  /** The text of one result row: the word right-justified, then its translations laid out after it. */
  function RowText(word: string, translations: seq<string>): string {
    RJust(word, WordWidth) + " : " + Layout(TransLines(translations), Some(Spaces(TransIndent)), true)
  }

  /**
   * The row of one result: the word right-justified, a colon, and the
   * comma-separated translations wrapped by words, every line but the
   * first indented under the first.
   */
  method RenderRow(word: string, translations: seq<string>) returns (row: string)
    ensures row == RowText(word, translations)
  {
    var trans := FormatBlock(Join(translations, ", "), Some(Spaces(TransIndent)), true, TransWidth, true, false);
    row := RJust(word, WordWidth) + " : " + trans.value;
  }

  /** Lines wrapped from words without newlines hold no newline. */
  lemma LinesWithoutNewline(ws: seq<string>, size: int)
    requires forall w :: w in ws ==> '\n' !in w
    ensures forall k :: 0 <= k < |WrapLines(ws, size)| ==> '\n' !in WrapLines(ws, size)[k]
  {
    var st := Groups(ws, |ws|, size);
    forall k | 0 <= k < |WrapLines(ws, size)|
      ensures '\n' !in WrapLines(ws, size)[k]
    {
      WrapLinesGroups(ws, size, k);
      JoinWithout(if k < |st.closed| then st.closed[k] else st.open, " ", '\n');
    }
  }

  /** The words of the translations and the lines they wrap to hold no newline. */
  lemma TransWithoutNewline(translations: seq<string>)
    ensures forall w :: w in Words(Join(translations, ", ")) ==> '\n' !in w
    ensures forall k :: 0 <= k < |TransLines(translations)| ==> '\n' !in TransLines(translations)[k]
  {
    var ws := Words(Join(translations, ", "));
    WordsSpec(Join(translations, ", "));
    forall w | w in ws
      ensures '\n' !in w
    {
      var i :| 0 <= i < |ws| && ws[i] == w;
      assert IsWord(ws[i]);
    }
    LinesWithoutNewline(ws, TransWidth);
  }

  /** The head of a row: the word right-justified and the separator. */
  function Header(word: string): string {
    RJust(word, WordWidth) + " : "
  }

  /**
   * A row is its first line, the word and the first translation line, and
   * then the other translation lines indented under it.
   */
  lemma RowLines(word: string, translations: seq<string>)
    requires '\n' !in word
    requires |TransLines(translations)| >= 1
    ensures Split(RowText(word, translations), '\n') ==
              [Header(word) + TransLines(translations)[0]] +
              Prefixed(Spaces(TransIndent), TransLines(translations)[1..])
  {
    var lines := TransLines(translations);
    TransWithoutNewline(translations);
    assert '\n' !in Header(word);
    assert lines == [lines[0]] + lines[1..];
    SplitIndented(Header(word), lines[0], lines[1..], Spaces(TransIndent));
  }

  /** When every word of the translations fits the width left for them, so does every translation line. */
  lemma TransLinesFit(translations: seq<string>)
    requires forall w :: w in Words(Join(translations, ", ")) ==> |w| <= TransWidth
    ensures forall k :: 0 <= k < |TransLines(translations)| ==> |TransLines(translations)[k]| <= TransWidth
  {
    WrapLinesFit(Words(Join(translations, ", ")), TransWidth);
  }

  /** Line i of a row: the header before the first translation line, the indent before the others. */
  lemma RowLineAt(word: string, translations: seq<string>, i: nat)
    requires '\n' !in word
    requires i < |TransLines(translations)|
    ensures |Split(RowText(word, translations), '\n')| == |TransLines(translations)|
    ensures Split(RowText(word, translations), '\n')[i] ==
              (if i == 0 then Header(word) else Spaces(TransIndent)) + TransLines(translations)[i]
  {
    var lines := TransLines(translations);
    RowLines(word, translations);
    var rest := Prefixed(Spaces(TransIndent), lines[1..]);
    if i > 0 {
      assert ([Header(word) + lines[0]] + rest)[i] == rest[i - 1];
      assert lines[1..][i - 1] == lines[i];
    }
  }

  /**
   * When the word fits its column and every word of the translations fits
   * the width left for them, every line of the row fits in 80 columns.
   */
  lemma RowFits(word: string, translations: seq<string>)
    requires '\n' !in word && |word| <= WordWidth
    requires forall w :: w in Words(Join(translations, ", ")) ==> |w| <= TransWidth
    ensures forall line :: line in Split(RowText(word, translations), '\n') ==> |line| <= 80
  {
    var lines := TransLines(translations);
    assert |Header(word)| == TransIndent;
    TransLinesFit(translations);
    if |lines| == 0 {
      assert RowText(word, translations) == Header(word);
      assert '\n' !in Header(word);
      SplitJoin([Header(word)], '\n');
    } else {
      var all := Split(RowText(word, translations), '\n');
      forall line | line in all
        ensures |line| <= 80
      {
        var i :| 0 <= i < |all| && all[i] == line;
        RowLineAt(word, translations, 0);
        RowLineAt(word, translations, i);
      }
    }
  }
}
