/**
 * The glossary text parser of find_text: the ordinal cleanup of translation
 * tokens, the split of a headword line into word and pronunciation guide,
 * and the line-driven scan that yields one entry per matching headword.
 */
module Glossary {
  import opened Wrappers
  import opened Text

  /** A word's data: its pronunciation guide, if any, and its set of translations. */
  datatype Def = Def(pronounce: Option<string>, translations: set<string>)

  /** One result: a headword and its data. */
  datatype Entry = Entry(word: string, def: Def)

  /**
   * The failures a search reports: the query does not compile, the data
   * cannot be read, or (find_pickle as written) the handler of a read
   * failure refers to a local name that is not bound. find_text and
   * find_pickle raise the same two exception classes, declared once at
   * module level (spanish.py:378-389), so both searches share this one
   * type; it is declared here, with the first search, and Search imports
   * it, so its find_pickle case sits here too (Search.OpenAsWritten is
   * the one member that produces it).
   */
  datatype Error = InvalidQuery | InvalidFile | UnboundLocal

  /**
   * A user query: whether it compiles as a regular expression, and the
   * strings in which its search finds a match.
   */
  datatype Pattern = Pattern(compiles: bool, search: string -> bool)

  // ---------------------------------------------------------------------
  // Translation tokens

  predicate IsDigit(c: char) {
    '0' <= c <= '9'
  }

  /** `^\d{1,3}\.` matches the first n + 1 characters of s. */
  predicate OrdinalAt(s: string, n: nat) {
    1 <= n <= 3 && n < |s| && s[n] == '.' && forall i :: 0 <= i < n ==> IsDigit(s[i])
  }

  /** The end of the run of digits that starts at i. */
  function DigitsFrom(s: string, i: nat): (n: nat)
    requires i <= |s|
    ensures i <= n <= |s|
    decreases |s| - i
  {
    if i < |s| && IsDigit(s[i]) then DigitsFrom(s, i + 1) else i
  }

  /** The run holds digits only and ends at the first character that is not one. */
  lemma {:induction false} DigitsFromSpec(s: string, i: nat)
    requires i <= |s|
    ensures forall k :: i <= k < DigitsFrom(s, i) ==> IsDigit(s[k])
    ensures DigitsFrom(s, i) == |s| || !IsDigit(s[DigitsFrom(s, i)])
    decreases |s| - i
  {
    if i < |s| && IsDigit(s[i]) {
      DigitsFromSpec(s, i + 1);
    }
  }

  /** An ordinal marker's digits are all the leading digits of s. */
  lemma OrdinalsAreLeading(s: string)
    ensures forall n :: OrdinalAt(s, n) ==> n == DigitsFrom(s, 0)
  {
    DigitsFromSpec(s, 0);
  }

  /** re.sub('^\d{1,3}\.', '', s): removes one leading ordinal marker, if s has one. */
  function StripOrdinal(s: string): (r: string)
    ensures |r| <= |s|
  {
    var n := DigitsFrom(s, 0);
    if 1 <= n <= 3 && n < |s| && s[n] == '.' then s[n + 1..] else s
  }

  /**
   * The substitution removes exactly the text the pattern matches: the
   * leading digits and the dot after them when there are one to three
   * digits, and nothing when the pattern does not match.
   */
  lemma StripOrdinalSpec(s: string)
    ensures forall n :: OrdinalAt(s, n) ==> StripOrdinal(s) == s[n + 1..]
    ensures (forall n :: !OrdinalAt(s, n)) ==> StripOrdinal(s) == s
  {
    OrdinalsAreLeading(s);
    var n := DigitsFrom(s, 0);
    DigitsFromSpec(s, 0);
    if 1 <= n <= 3 && n < |s| && s[n] == '.' {
      assert OrdinalAt(s, n);
    }
  }

  /** The token cleaner of find_text: strip, then remove a leading ordinal marker. */
  function Clean(w: string): string {
    StripOrdinal(Strip(w))
  }

  /** A token that begins with four digits has no ordinal marker to remove: `^\d{1,3}\.` needs the dot within the first four characters. */
  lemma CleanKeepsFourDigits(s: string)
    requires |s| >= 4 && forall i :: 0 <= i < 4 ==> IsDigit(s[i])
    ensures StripOrdinal(s) == s
  {
    StripOrdinalSpec(s);
    assert forall n: nat :: n <= 3 ==> IsDigit(s[n]);
  }

  // ---------------------------------------------------------------------
  // Headword lines

  /** A way for `(.+)(\[.+\])` to match s: group one is s[..j], group two s[j..k + 1]. */
  predicate SplitsAt(s: string, j: int, k: int) {
    1 <= j && j + 2 <= k < |s| && s[j] == '[' && s[k] == ']'
  }

  /** The last position before n that holds c, or -1. */
  function LastBefore(s: string, c: char, n: nat): (r: int)
    requires n <= |s|
    ensures -1 <= r < n
    decreases n
  {
    if n == 0 then -1 else if s[n - 1] == c then n - 1 else LastBefore(s, c, n - 1)
  }

  /** The backward search stops at the last c before n, and only there. */
  lemma {:induction false} LastBeforeSpec(s: string, c: char, n: nat)
    requires n <= |s|
    ensures LastBefore(s, c, n) >= 0 ==> s[LastBefore(s, c, n)] == c
    ensures forall i :: LastBefore(s, c, n) < i < n ==> s[i] != c
    decreases n
  {
    if n > 0 && s[n - 1] != c {
      LastBeforeSpec(s, c, n - 1);
    }
  }

  /**
   * Where the search of `(.+)(\[.+\])` splits s: both groups are greedy, so
   * the split takes the last `]` and the last `[` at least two places before it.
   */
  function DefSplit(s: string): (r: Option<(int, int)>)
  {
    var k := LastBefore(s, ']', |s|);
    var j := if k >= 2 then LastBefore(s, '[', k - 1) else -1;
    if j >= 1 then Some((j, k)) else None
  }

  /**
   * The pattern matches exactly when there is a split, the split found is
   * one, and every other split lies at or before it (the greedy choice).
   */
  lemma DefSplitSpec(s: string)
    ensures DefSplit(s).None? <==> forall j, k :: !SplitsAt(s, j, k)
    ensures DefSplit(s).Some? ==> SplitsAt(s, DefSplit(s).value.0, DefSplit(s).value.1)
    ensures DefSplit(s).Some? ==>
      forall j, k :: SplitsAt(s, j, k) ==> j <= DefSplit(s).value.0 && k <= DefSplit(s).value.1
  {
    var k := LastBefore(s, ']', |s|);
    LastBeforeSpec(s, ']', |s|);
    if k >= 2 {
      var j := LastBefore(s, '[', k - 1);
      LastBeforeSpec(s, '[', k - 1);
      if j >= 1 {
        assert SplitsAt(s, j, k);
      }
    }
  }

  datatype Headword = Headword(word: string, pron: Option<string>)

  /** The word and the pronunciation guide of a headword line. */
  function ParseHeadword(line: string): (h: Headword)
  {
    match DefSplit(line)
    case Some(jk) => DefSplitSpec(line); SplitHeadword(line, jk.0, jk.1)
    case None => Headword(Lower(Strip(line)), None)
  }

  /**
   * A line the pattern matches at j and k: the word is the text before the
   * bracket group, stripped and lower-cased, and the guide is the group
   * stripped, which leaves it as it is.
   */
  function SplitHeadword(line: string, j: int, k: int): (h: Headword)
    requires SplitsAt(line, j, k)
    ensures h.pron == Some(line[j..k + 1])
  {
    var g := line[j..k + 1];
    BracketsKept(g);
    Headword(Lower(Strip(line[..j])), Some(Strip(g)))
  }

  /** A bracket group is its own strip. */
  lemma BracketsKept(p: string)
    requires |p| >= 1 && p[0] == '[' && p[|p| - 1] == ']'
    ensures Strip(p) == p
  {
    StripKeeps(p);
  }

  /**
   * The headword is lower-case and stripped, and there is a guide exactly
   * when the line has a bracket group after some text.
   */
  lemma ParseHeadwordSpec(line: string)
    ensures var h := ParseHeadword(line);
      forall i :: 0 <= i < |h.word| ==> !IsUpper(h.word[i])
    ensures var h := ParseHeadword(line);
      h.word == [] || (!IsSpace(h.word[0]) && !IsSpace(h.word[|h.word| - 1]))
    ensures ParseHeadword(line).pron.None? <==> forall j, k :: !SplitsAt(line, j, k)
  {
    DefSplitSpec(line);
    var t := match DefSplit(line) case Some(jk) => line[..jk.0] case None => line;
    assert ParseHeadword(line).word == Lower(Strip(t));
    StripSpec(t);
    LowerSpec(Strip(t));
  }

  /** A headword line with a bracket group: the word before it, the group as the guide. */
  lemma HeadwordWithGroup(line: string, j: int, k: int)
    requires DefSplit(line) == Some((j, k))
    ensures ParseHeadword(line) == Headword(Lower(Strip(line[..j])), Some(line[j..k + 1]))
  {
  }

  /** A line without a bracket group: the whole stripped, lower-cased line is the word. */
  lemma HeadwordWithoutGroup(line: string)
    requires forall j, k :: !SplitsAt(line, j, k)
    ensures ParseHeadword(line) == Headword(Lower(Strip(line)), None)
  {
    DefSplitSpec(line);
  }

  // ---------------------------------------------------------------------
  // Continuation lines

  /** The translations a continuation line adds: its comma-separated pieces, each cleaned. */
  function Pieces(line: string): set<string> {
    var s := Strip(line);
    if ',' in s then CleanAll(Split(s, ',')) else {Clean(s)}
  }

  /** The cleaned tokens of ps, added to a set one after the other. */
  function CleanAll(ps: seq<string>): (r: set<string>)
    decreases |ps|
  {
    if ps == [] then {} else CleanAll(ps[..|ps| - 1]) + {Clean(ps[|ps| - 1])}
  }

  /** Every cleaned token of ps is among the translations it adds. */
  lemma {:induction false} CleanAllHas(ps: seq<string>, i: nat)
    requires i < |ps|
    ensures Clean(ps[i]) in CleanAll(ps)
    decreases |ps|
  {
    var init := ps[..|ps| - 1];
    if i < |init| {
      CleanAllHas(init, i);
      assert init[i] == ps[i];
    }
  }

  /** Every translation ps adds is one of its tokens, cleaned. */
  lemma {:induction false} CleanAllFrom(ps: seq<string>, t: string)
    requires t in CleanAll(ps)
    ensures exists i :: 0 <= i < |ps| && t == Clean(ps[i])
    decreases |ps|
  {
    var init := ps[..|ps| - 1];
    if t != Clean(ps[|ps| - 1]) {
      CleanAllFrom(init, t);
      var i :| 0 <= i < |init| && t == Clean(init[i]);
      assert ps[i] == init[i];
    }
  }

  /** A translation comes from a continuation line's tokens exactly when it is one of them, cleaned. */
  lemma CleanAllMembers(ps: seq<string>, t: string)
    ensures t in CleanAll(ps) <==> exists i :: 0 <= i < |ps| && t == Clean(ps[i])
  {
    if t in CleanAll(ps) {
      CleanAllFrom(ps, t);
    }
    if exists i :: 0 <= i < |ps| && t == Clean(ps[i]) {
      var i :| 0 <= i < |ps| && t == Clean(ps[i]);
      CleanAllHas(ps, i);
    }
  }

  /** A continuation line without a comma adds one translation: the whole line, cleaned. */
  lemma PiecesWithoutComma(line: string)
    requires ',' !in Strip(line)
    ensures Pieces(line) == {Clean(line)}
  {
    StripIdempotent(line);
  }

  /** A translation token "3.gato" is stored as "gato". */
  lemma OrdinalExample()
    ensures Clean("3.gato") == "gato"
  {
    var s := "3.gato";
    StripKeeps(s);
    assert DigitsFrom(s, 1) == 1;
    assert s[2..] == "gato";
  }

  /** One leading space before text that neither begins nor ends with whitespace is all strip() removes. */
  lemma StripOneSpace(s: string)
    requires |s| >= 2 && s[0] == ' ' && !IsSpace(s[1]) && !IsSpace(s[|s| - 1])
    ensures Strip(s) == s[1..]
  {
    assert SkipSpacesBack(s, |s|) == |s|;
    assert SkipSpaces(s, 0, |s|) == SkipSpaces(s, 1, |s|) == 1;
  }

  /** Two tokens add their two cleaned forms. */
  lemma CleanAllTwo(a: string, b: string)
    ensures CleanAll([a, b]) == {Clean(a), Clean(b)}
  {
    assert [a, b][..1] == [a];
    assert [a][..0] == [];
    assert CleanAll([a]) == {} + {Clean(a)};
    assert CleanAll([a, b]) == CleanAll([a]) + {Clean(b)};
  }

  lemma SplitPerro()
    ensures Split("perro, perro", ',') == ["perro", " perro"]
  {
    assert Join(["perro", " perro"], [',']) == "perro, perro" by {
      assert ["perro", " perro"][..1] == ["perro"];
    }
    SplitJoin(["perro", " perro"], ',');
  }

  lemma CleanPerro()
    ensures Clean("perro") == "perro" && Clean(" perro") == "perro"
  {
    StripOneSpace(" perro");
    assert " perro"[1..] == "perro";
    StripKeeps("perro");
  }

  /** A continuation line " perro, perro" adds one translation, "perro". */
  lemma DuplicateExample()
    ensures Pieces(" perro, perro") == {"perro"}
  {
    var line := " perro, perro";
    StripOneSpace(line);
    assert Strip(line) == "perro, perro";
    assert ',' in Strip(line) by {
      assert Strip(line)[5] == ',';
    }
    SplitPerro();
    CleanAllTwo("perro", " perro");
    CleanPerro();
  }

  // ---------------------------------------------------------------------
  // The shape of the glossary text

  /** What one line of the glossary text is, as find_text tells the kinds apart. */
  datatype Line = Blank | Head(word: string, pron: Option<string>) | Cont(pieces: set<string>)

  /** Blank lines are skipped; a line not starting with a space opens a headword; the rest list translations. */
  function Classify(line: string): Line {
    if Strip(line) == [] then Blank
    else if line[0] != ' ' then
      var h := ParseHeadword(line);
      Head(h.word, h.pron)
    else Cont(Pieces(line))
  }

  /** The kind of every line, in order. */
  function Kinds(lines: seq<string>): (ks: seq<Line>)
    ensures |ks| == |lines|
    decreases |lines|
  {
    if lines == [] then [] else Kinds(lines[..|lines| - 1]) + [Classify(lines[|lines| - 1])]
  }

  /** Whether a headword is yielded when its entry is closed. */
  predicate Keep(q: Pattern, word: string) {
    word != [] && q.search(word)
  }

  /** The first headword line at or after i, or |ks|. */
  function NextHead(ks: seq<Line>, i: nat): (n: nat)
    requires i <= |ks|
    ensures i <= n <= |ks|
    ensures n < |ks| ==> ks[n].Head?
    ensures forall j :: i <= j < n ==> !ks[j].Head?
    decreases |ks| - i
  {
    if i == |ks| || ks[i].Head? then i else NextHead(ks, i + 1)
  }

  /** The last headword line before line n, or -1. */
  function LastHeadIn(ks: seq<Line>, n: nat): (h: int)
    requires n <= |ks|
    ensures -1 <= h < n
    ensures h >= 0 ==> ks[h].Head?
    ensures forall j :: h < j < n ==> !ks[j].Head?
    decreases n
  {
    if n == 0 then -1
    else if ks[n - 1].Head? then n - 1
    else LastHeadIn(ks, n - 1)
  }

  /** The last headword line, or -1. */
  function LastHead(ks: seq<Line>): int {
    LastHeadIn(ks, |ks|)
  }

  /** The translations listed by the continuation lines a to b - 1. */
  function Translations(ks: seq<Line>, a: nat, b: nat): set<string>
    requires a <= b <= |ks|
    decreases b - a
  {
    if a == b then {}
    else
      var last := ks[b - 1];
      Translations(ks, a, b - 1) + (if last.Cont? then last.pieces else {})
  }

  /** The entry of the headword at line h, whose definition runs up to line n. */
  function EntryOf(ks: seq<Line>, h: nat, n: nat): Entry
    requires h < n <= |ks| && ks[h].Head?
  {
    Entry(ks[h].word, Def(ks[h].pron, Translations(ks, h + 1, n)))
  }

  /**
   * The entries of the headwords at or after line i: each kept headword
   * with the translations up to the next headword line, provided that there
   * is a next headword line.
   */
  function EntriesFrom(q: Pattern, ks: seq<Line>, i: nat): (r: seq<Entry>)
    requires i <= |ks|
    ensures forall e :: e in r ==> Keep(q, e.word)
    decreases |ks| - i
  {
    var h := NextHead(ks, i);
    if h == |ks| then []
    else
      var n := NextHead(ks, h + 1);
      (if n < |ks| && Keep(q, ks[h].word) then [EntryOf(ks, h, n)] else []) + EntriesFrom(q, ks, n)
  }

  function Emitted(q: Pattern, ks: seq<Line>): seq<Entry> {
    EntriesFrom(q, ks, 0)
  }

  /** What find_text yields for a glossary text. */
  function Expected(q: Pattern, lines: seq<string>): seq<Entry> {
    Emitted(q, Kinds(lines))
  }

  /** The entry held open after reading ks: the last headword's, when it is kept. */
  function OpenEntry(q: Pattern, ks: seq<Line>): Option<Entry> {
    var h := LastHead(ks);
    if h >= 0 && Keep(q, ks[h].word) then Some(EntryOf(ks, h, |ks|)) else None
  }

  lemma AppendAssoc<T>(a: seq<T>, b: seq<T>, c: seq<T>)
    ensures a + (b + c) == (a + b) + c
  {
  }

  /** One more line leaves the headwords before line n as they were. */
  lemma {:induction false} LastHeadInSnoc(ks: seq<Line>, l: Line, n: nat)
    requires n <= |ks|
    ensures LastHeadIn(ks + [l], n) == LastHeadIn(ks, n)
    decreases n
  {
    if n > 0 {
      assert (ks + [l])[n - 1] == ks[n - 1];
      LastHeadInSnoc(ks, l, n - 1);
    }
  }

  /** One more line leaves the translations of lines a to b - 1 as they were. */
  lemma {:induction false} TranslationsPrefix(ks: seq<Line>, l: Line, a: nat, b: nat)
    requires a <= b <= |ks|
    ensures Translations(ks + [l], a, b) == Translations(ks, a, b)
    decreases b - a
  {
    if a < b {
      assert (ks + [l])[b - 1] == ks[b - 1];
      TranslationsPrefix(ks, l, a, b - 1);
    }
  }

  lemma {:induction false} NextHeadSnoc(ks: seq<Line>, l: Line, i: nat)
    requires i <= |ks|
    ensures NextHead(ks + [l], i) ==
      if NextHead(ks, i) < |ks| then NextHead(ks, i) else if l.Head? then |ks| else |ks| + 1
    decreases |ks| - i
  {
    var L := ks + [l];
    if i < |ks| {
      assert L[i] == ks[i];
      if !ks[i].Head? {
        NextHeadSnoc(ks, l, i + 1);
      }
    }
  }

  /** What reading line l after ks adds to the entries of the headwords at or after i. */
  function SnocExtra(q: Pattern, ks: seq<Line>, l: Line, i: nat): seq<Entry> {
    if l.Head? && LastHead(ks) >= i && OpenEntry(q, ks).Some? then [OpenEntry(q, ks).value] else []
  }

  lemma SnocNoHead(q: Pattern, ks: seq<Line>, l: Line, i: nat)
    requires i <= |ks| && NextHead(ks, i) == |ks|
    ensures EntriesFrom(q, ks + [l], i) == EntriesFrom(q, ks, i) + SnocExtra(q, ks, l, i)
  {
    var L := ks + [l];
    var N := |ks|;
    NextHeadSnoc(ks, l, i);
    assert EntriesFrom(q, L, N + 1) == [];
    assert LastHead(ks) < i;
    if l.Head? {
      assert NextHead(L, N + 1) == N + 1;
      assert EntriesFrom(q, L, i) == [] + EntriesFrom(q, L, N + 1);
    }
  }

  lemma SnocLastHead(q: Pattern, ks: seq<Line>, l: Line, i: nat, h: nat)
    requires i <= h < |ks| && NextHead(ks, i) == h && NextHead(ks, h + 1) == |ks|
    ensures EntriesFrom(q, ks + [l], i) == EntriesFrom(q, ks, i) + SnocExtra(q, ks, l, i)
  {
    var L := ks + [l];
    var N := |ks|;
    NextHeadSnoc(ks, l, i);
    NextHeadSnoc(ks, l, h + 1);
    assert L[h] == ks[h];
    assert EntriesFrom(q, L, N + 1) == [];
    assert LastHead(ks) == h;
    assert EntriesFrom(q, ks, i) == [] + EntriesFrom(q, ks, N);
    if l.Head? {
      TranslationsPrefix(ks, l, h + 1, N);
      assert NextHead(L, N) == N;
      assert EntriesFrom(q, L, N) == [] + EntriesFrom(q, L, N + 1);
    } else {
      assert EntriesFrom(q, L, i) == [] + EntriesFrom(q, L, N + 1);
    }
  }

  /** One step of EntriesFrom: the headword at h, closed by the headword at n. */
  lemma UnfoldEntries(q: Pattern, ks: seq<Line>, i: nat, h: nat, n: nat)
    requires i <= h < n < |ks| && NextHead(ks, i) == h && NextHead(ks, h + 1) == n
    ensures EntriesFrom(q, ks, i) ==
      (if Keep(q, ks[h].word) then [EntryOf(ks, h, n)] else []) + EntriesFrom(q, ks, n)
  {
  }

  /** The step of UnfoldEntries after one more line: a headword closed before the end keeps its entry. */
  lemma UnfoldSnoc(q: Pattern, ks: seq<Line>, l: Line, i: nat, h: nat, n: nat)
    requires i <= h < n < |ks| && NextHead(ks, i) == h && NextHead(ks, h + 1) == n
    ensures EntriesFrom(q, ks + [l], i) ==
      (if Keep(q, ks[h].word) then [EntryOf(ks, h, n)] else []) + EntriesFrom(q, ks + [l], n)
  {
    var L := ks + [l];
    NextHeadSnoc(ks, l, i);
    NextHeadSnoc(ks, l, h + 1);
    assert L[h] == ks[h];
    TranslationsPrefix(ks, l, h + 1, n);
    assert EntryOf(L, h, n) == EntryOf(ks, h, n);
    UnfoldEntries(q, L, i, h, n);
  }

  lemma SnocMiddle(q: Pattern, ks: seq<Line>, l: Line, i: nat, h: nat, n: nat)
    requires i <= h < n < |ks| && NextHead(ks, i) == h && NextHead(ks, h + 1) == n
    requires EntriesFrom(q, ks + [l], n) == EntriesFrom(q, ks, n) + SnocExtra(q, ks, l, n)
    ensures EntriesFrom(q, ks + [l], i) == EntriesFrom(q, ks, i) + SnocExtra(q, ks, l, i)
  {
    var L := ks + [l];
    var here := if Keep(q, ks[h].word) then [EntryOf(ks, h, n)] else [];
    var extra := SnocExtra(q, ks, l, i);
    assert EntriesFrom(q, ks, i) == here + EntriesFrom(q, ks, n) by {
      UnfoldEntries(q, ks, i, h, n);
    }
    UnfoldSnoc(q, ks, l, i, h, n);
    assert EntriesFrom(q, L, n) == EntriesFrom(q, ks, n) + extra by {
      assert LastHead(ks) >= n;
    }
    AppendAssoc(here, EntriesFrom(q, ks, n), extra);
  }

  lemma {:induction false} EntriesFromSnoc(q: Pattern, ks: seq<Line>, l: Line, i: nat)
    requires i <= |ks|
    ensures EntriesFrom(q, ks + [l], i) == EntriesFrom(q, ks, i) + SnocExtra(q, ks, l, i)
    decreases |ks| - i
  {
    var h := NextHead(ks, i);
    if h == |ks| {
      SnocNoHead(q, ks, l, i);
    } else {
      var n := NextHead(ks, h + 1);
      if n < |ks| {
        EntriesFromSnoc(q, ks, l, n);
        SnocMiddle(q, ks, l, i, h, n);
      } else {
        SnocLastHead(q, ks, l, i, h);
      }
    }
  }

  /**
   * Reading one more line: a headword line yields the entry that was open,
   * if any; a continuation or blank line yields nothing.
   */
  lemma EmittedSnoc(q: Pattern, ks: seq<Line>, l: Line)
    ensures Emitted(q, ks + [l]) == Emitted(q, ks) +
      (if l.Head? && OpenEntry(q, ks).Some? then [OpenEntry(q, ks).value] else [])
  {
    EntriesFromSnoc(q, ks, l, 0);
    assert SnocExtra(q, ks, l, 0) == if l.Head? && OpenEntry(q, ks).Some? then [OpenEntry(q, ks).value] else [];
  }

  /** The same, for the text: find_text yields an entry exactly when it reads the next headword line. */
  lemma ExpectedSnoc(q: Pattern, lines: seq<string>, line: string)
    ensures Expected(q, lines + [line]) == Expected(q, lines) +
      (if Classify(line).Head? && OpenEntry(q, Kinds(lines)).Some? then [OpenEntry(q, Kinds(lines)).value] else [])
  {
    assert Kinds(lines + [line]) == Kinds(lines) + [Classify(line)];
    EmittedSnoc(q, Kinds(lines), Classify(line));
  }

  /**
   * Lines after the last headword line yield nothing: an entry is yielded
   * only when the next headword line is read, so the entry open at the end
   * of the text is never yielded.
   */
  lemma {:induction false} TrailingLinesYieldNothing(q: Pattern, ks: seq<Line>, tail: seq<Line>)
    requires forall j :: 0 <= j < |tail| ==> !tail[j].Head?
    ensures Emitted(q, ks + tail) == Emitted(q, ks)
    decreases |tail|
  {
    if tail != [] {
      var init := tail[..|tail| - 1];
      var last := tail[|tail| - 1];
      assert forall j :: 0 <= j < |init| ==> init[j] == tail[j];
      TrailingLinesYieldNothing(q, ks, init);
      assert ks + tail == (ks + init) + [last];
      assert !last.Head?;
      EmittedSnoc(q, ks + init, last);
      assert Emitted(q, ks + init) + [] == Emitted(q, ks + init);
    } else {
      assert ks + tail == ks;
    }
  }

  /** Entries come out in file order: reading more lines only appends to what was yielded. */
  lemma {:induction false} EmittedPrefix(q: Pattern, ks: seq<Line>, k: nat)
    requires k <= |ks|
    ensures Emitted(q, ks[..k]) <= Emitted(q, ks)
    decreases |ks| - k
  {
    if k < |ks| {
      EmittedPrefix(q, ks, k + 1);
      assert ks[..k + 1] == ks[..k] + [ks[k]];
      EmittedSnoc(q, ks[..k], ks[k]);
    } else {
      assert ks[..k] == ks;
    }
  }

  // ---------------------------------------------------------------------
  // The scan

  /** The scan state of find_text after reading ks: engword and the open entry indef. */
  predicate ScanState(q: Pattern, ks: seq<Line>, engword: Option<string>, indef: Option<Entry>) {
    var h := LastHead(ks);
    if h < 0 || !q.search(ks[h].word) then engword == None && indef == None
    else
      engword == Some(ks[h].word) &&
      indef == Some(Entry(ks[h].word, Def(ks[h].pron, if ks[h].word != [] then Translations(ks, h + 1, |ks|) else {})))
  }

  lemma LastHeadSnoc(ks: seq<Line>, l: Line)
    ensures LastHead(ks + [l]) == if l.Head? then |ks| else LastHead(ks)
  {
    assert (ks + [l])[|ks|] == l;
    LastHeadInSnoc(ks, l, |ks|);
  }

  /** The entry the scan holds open is the one Emitted will yield at the next headword line. */
  lemma OpenEntryOfState(q: Pattern, ks: seq<Line>, engword: Option<string>, indef: Option<Entry>)
    requires ScanState(q, ks, engword, indef)
    ensures OpenEntry(q, ks) == if indef.Some? && engword.Some? && engword.value != [] then indef else None
  {
  }

  /** A headword line replaces the scan state: a fresh entry when the query matches the word, none otherwise. */
  lemma StepHead(q: Pattern, ks: seq<Line>, w: string, p: Option<string>)
    ensures ScanState(q, ks + [Head(w, p)],
      if q.search(w) then Some(w) else None,
      if q.search(w) then Some(Entry(w, Def(p, {}))) else None)
  {
    var L := ks + [Head(w, p)];
    LastHeadSnoc(ks, Head(w, p));
    assert L[|ks|] == Head(w, p);
  }

  /** A blank line or a continuation line leaves the last headword in place. */
  lemma StepBody(ks: seq<Line>, l: Line)
    requires !l.Head?
    ensures LastHead(ks + [l]) == LastHead(ks)
    ensures var h := LastHead(ks); h >= 0 ==> (ks + [l])[h] == ks[h]
  {
    LastHeadSnoc(ks, l);
  }

  /** ... and adds the line's translations, if any, to those after the last headword. */
  lemma StepBodyTranslations(ks: seq<Line>, l: Line, h: nat)
    requires h < |ks|
    ensures Translations(ks + [l], h + 1, |ks| + 1) ==
      Translations(ks, h + 1, |ks|) + (if l.Cont? then l.pieces else {})
  {
    assert (ks + [l])[|ks|] == l;
    TranslationsPrefix(ks, l, h + 1, |ks|);
  }

  /** A blank line leaves the scan state as it is. */
  lemma StepBlank(q: Pattern, ks: seq<Line>, engword: Option<string>, indef: Option<Entry>)
    requires ScanState(q, ks, engword, indef)
    ensures ScanState(q, ks + [Blank], engword, indef)
  {
    StepBody(ks, Blank);
    if LastHead(ks) >= 0 {
      StepBodyTranslations(ks, Blank, LastHead(ks));
      assert Translations(ks, LastHead(ks) + 1, |ks|) + {} == Translations(ks, LastHead(ks) + 1, |ks|);
    }
  }

  /**
   * A continuation line adds its pieces to the open entry's translations
   * when the open headword is not empty, and leaves the state as it is otherwise.
   */
  lemma StepCont(q: Pattern, ks: seq<Line>, pieces: set<string>, engword: Option<string>, indef: Option<Entry>)
    requires ScanState(q, ks, engword, indef)
    ensures engword.Some? && engword.value != [] && indef.Some? ==>
      ScanState(q, ks + [Cont(pieces)], engword,
        Some(indef.value.(def := indef.value.def.(translations := indef.value.def.translations + pieces))))
    ensures !(engword.Some? && engword.value != [] && indef.Some?) ==>
      ScanState(q, ks + [Cont(pieces)], engword, indef)
  {
    StepBody(ks, Cont(pieces));
    if LastHead(ks) >= 0 {
      StepBodyTranslations(ks, Cont(pieces), LastHead(ks));
    }
  }

  /** Reading line k of the text extends the prefix read so far by that line's kind. */
  lemma ReadLine(q: Pattern, lines: seq<string>, k: nat)
    requires k < |lines|
    ensures Kinds(lines[..k + 1]) == Kinds(lines[..k]) + [Classify(lines[k])]
    ensures Expected(q, lines[..k + 1]) == Expected(q, lines[..k]) +
      (if Classify(lines[k]).Head? && OpenEntry(q, Kinds(lines[..k])).Some?
       then [OpenEntry(q, Kinds(lines[..k])).value] else [])
  {
    assert lines[..k + 1] == lines[..k] + [lines[k]];
    ExpectedSnoc(q, lines[..k], lines[k]);
  }

  /**
   * The loop invariant of find_text after reading the first k lines: what
   * was yielded is what Expected yields for them, and engword and indef
   * are the scan state they leave.
   */
  predicate Scanned(q: Pattern, lines: seq<string>, k: nat, found: seq<Entry>,
                    engword: Option<string>, indef: Option<Entry>)
    requires k <= |lines|
  {
    found == Expected(q, lines[..k]) && ScanState(q, Kinds(lines[..k]), engword, indef)
  }

  /** A blank line: nothing is yielded and the scan state stays as it is. */
  lemma ReadBlank(q: Pattern, lines: seq<string>, k: nat, found: seq<Entry>,
                  engword: Option<string>, indef: Option<Entry>)
    requires k < |lines| && Strip(lines[k]) == []
    requires Scanned(q, lines, k, found, engword, indef)
    ensures Scanned(q, lines, k + 1, found, engword, indef)
  {
    ReadLine(q, lines, k);
    assert Classify(lines[k]) == Blank;
    StepBlank(q, Kinds(lines[..k]), engword, indef);
  }

  /**
   * A headword line: the open entry is yielded when its headword is not
   * empty, and the line's own headword becomes the open entry when the
   * query matches it.
   */
  lemma ReadHead(q: Pattern, lines: seq<string>, k: nat, found: seq<Entry>,
                 engword: Option<string>, indef: Option<Entry>)
    requires k < |lines| && Strip(lines[k]) != [] && lines[k][0] != ' '
    requires Scanned(q, lines, k, found, engword, indef)
    ensures var hw := ParseHeadword(lines[k]);
      Scanned(q, lines, k + 1,
        found + (if indef.Some? && engword.Some? && engword.value != [] then [indef.value] else []),
        if q.search(hw.word) then Some(hw.word) else None,
        if q.search(hw.word) then Some(Entry(hw.word, Def(hw.pron, {}))) else None)
  {
    var hw := ParseHeadword(lines[k]);
    ReadLine(q, lines, k);
    assert Classify(lines[k]) == Head(hw.word, hw.pron);
    OpenEntryOfState(q, Kinds(lines[..k]), engword, indef);
    StepHead(q, Kinds(lines[..k]), hw.word, hw.pron);
  }

  /**
   * A continuation line: nothing is yielded; its pieces join the open
   * entry's translations when the open headword is not empty.
   */
  lemma ReadCont(q: Pattern, lines: seq<string>, k: nat, found: seq<Entry>,
                 engword: Option<string>, indef: Option<Entry>)
    requires k < |lines| && Strip(lines[k]) != [] && lines[k][0] == ' '
    requires Scanned(q, lines, k, found, engword, indef)
    ensures engword.Some? && engword.value != [] && indef.Some? ==>
      Scanned(q, lines, k + 1, found, engword,
        Some(indef.value.(def := indef.value.def.(translations := indef.value.def.translations + Pieces(lines[k])))))
    ensures !(engword.Some? && engword.value != [] && indef.Some?) ==>
      Scanned(q, lines, k + 1, found, engword, indef)
  {
    ReadLine(q, lines, k);
    assert Classify(lines[k]) == Cont(Pieces(lines[k]));
    StepCont(q, Kinds(lines[..k]), Pieces(lines[k]), engword, indef);
  }

  /** set.update over the cleaned pieces: adds each cleaned piece to ts, in order. */
  method UpdateCleaned(ts: set<string>, parts: seq<string>) returns (added: set<string>)
    ensures added == ts + CleanAll(parts)
  {
    added := ts;
    var j := 0;
    while j < |parts|
      invariant 0 <= j <= |parts|
      invariant added == ts + CleanAll(parts[..j])
    {
      assert parts[..j + 1][..j] == parts[..j];
      added := added + {Clean(parts[j])};
      j := j + 1;
    }
    assert parts[..j] == parts;
  }

  /** The translations of a continuation line added to ts: each comma-separated piece, cleaned. */
  method AddTranslations(ts: set<string>, line: string) returns (added: set<string>)
    ensures added == ts + Pieces(line)
  {
    var spanish := Strip(line);
    if ',' in spanish {
      added := UpdateCleaned(ts, Split(spanish, ','));
    } else {
      added := ts + {Clean(spanish)};
    }
  }

  /** The scan reads a headword line: find_text lines 278-301. */
  method HeadLine(q: Pattern, lines: seq<string>, k: nat, found: seq<Entry>,
                  engword: Option<string>, indef: Option<Entry>)
    returns (found': seq<Entry>, engword': Option<string>, indef': Option<Entry>)
    requires k < |lines| && Strip(lines[k]) != [] && lines[k][0] != ' '
    requires Scanned(q, lines, k, found, engword, indef)
    ensures Scanned(q, lines, k + 1, found', engword', indef')
  {
    ReadHead(q, lines, k, found, engword, indef);
    found' := found;
    if indef.Some? && engword.Some? && engword.value != [] {
      found' := found + [indef.value];
    }
    var hw := ParseHeadword(lines[k]);
    if q.search(hw.word) {
      engword' := Some(hw.word);
      indef' := Some(Entry(hw.word, Def(hw.pron, {})));
    } else {
      engword' := None;
      indef' := None;
    }
  }

  /** The scan reads a continuation line: find_text lines 302-310. */
  method ContLine(q: Pattern, lines: seq<string>, k: nat, found: seq<Entry>,
                  engword: Option<string>, indef: Option<Entry>)
    returns (indef': Option<Entry>)
    requires k < |lines| && Strip(lines[k]) != [] && lines[k][0] == ' '
    requires Scanned(q, lines, k, found, engword, indef)
    ensures Scanned(q, lines, k + 1, found, engword, indef')
  {
    ReadCont(q, lines, k, found, engword, indef);
    indef' := indef;
    if engword.Some? && engword.value != [] && indef.Some? {
      var added := AddTranslations(indef.value.def.translations, lines[k]);
      indef' := Some(indef.value.(def := indef.value.def.(translations := added)));
    }
  }

  /** The loop of find_text over every line: what it yields and the state it ends in. */
  method Scan(q: Pattern, lines: seq<string>)
    returns (found: seq<Entry>, engword: Option<string>, indef: Option<Entry>)
    ensures Scanned(q, lines, |lines|, found, engword, indef)
  {
    found, indef, engword := [], None, None;
    var k := 0;
    while k < |lines|
      invariant 0 <= k <= |lines|
      invariant Scanned(q, lines, k, found, engword, indef)
    {
      var line := lines[k];
      if Strip(line) == [] {
        // A blank line is skipped; the open entry stays open.
        ReadBlank(q, lines, k, found, engword, indef);
      } else if line[0] != ' ' {
        found, engword, indef := HeadLine(q, lines, k, found, engword, indef);
      } else {
        indef := ContLine(q, lines, k, found, engword, indef);
      }
      k := k + 1;
    }
  }

  /**
   * find_text over the lines of the glossary text (without their line
   * terminators), None when the file cannot be read: the entries of
   * Expected, InvalidQuery before anything else, or InvalidFile.
   */
  method FindText(q: Pattern, text: Option<seq<string>>) returns (r: Result<seq<Entry>, Error>)
    ensures !q.compiles ==> r == Err(InvalidQuery)
    ensures q.compiles && text.None? ==> r == Err(InvalidFile)
    ensures q.compiles && text.Some? ==> r == Ok(Expected(q, text.value))
  {
    if !q.compiles {
      return Err(InvalidQuery);
    }
    if text.None? {
      return Err(InvalidFile);
    }
    var lines := text.value;
    var found, engword, indef := Scan(q, lines);
    assert lines[..|lines|] == lines;
    return Ok(found);
  }

  // ---------------------------------------------------------------------
  // The entry open at the end of the text

  /** Every kept headword whose entry is closed by a later headword line is yielded, with its translations. */
  lemma {:induction false} EntriesFromHas(q: Pattern, ks: seq<Line>, i: nat, h: nat)
    requires i <= h < |ks| && ks[h].Head? && Keep(q, ks[h].word) && NextHead(ks, h + 1) < |ks|
    ensures EntryOf(ks, h, NextHead(ks, h + 1)) in EntriesFrom(q, ks, i)
    decreases |ks| - i
  {
    var g := NextHead(ks, i);
    var n := NextHead(ks, g + 1);
    assert g <= h;
    if g < h {
      assert n <= h;
      EntriesFromHas(q, ks, n, h);
      UnfoldEntries(q, ks, i, g, n);
    } else {
      UnfoldEntries(q, ks, i, h, n);
    }
  }

  /** What find_text yields when the entry open at the end of the text is yielded too. */
  function EmittedFlushed(q: Pattern, ks: seq<Line>): seq<Entry> {
    Emitted(q, ks) + (if OpenEntry(q, ks).Some? then [OpenEntry(q, ks).value] else [])
  }

  function ExpectedFlushed(q: Pattern, lines: seq<string>): seq<Entry> {
    EmittedFlushed(q, Kinds(lines))
  }

  /**
   * With the final flush, every headword line the query keeps is yielded
   * with the translations up to the next headword line or the end.
   */
  lemma FlushedComplete(q: Pattern, ks: seq<Line>, h: nat)
    requires h < |ks| && ks[h].Head? && Keep(q, ks[h].word)
    ensures EntryOf(ks, h, NextHead(ks, h + 1)) in EmittedFlushed(q, ks)
  {
    if NextHead(ks, h + 1) < |ks| {
      EntriesFromHas(q, ks, 0, h);
    } else {
      assert LastHead(ks) == h;
    }
  }

  /**
   * As written, the last headword of the text is lost: a glossary whose
   * only entry is "hello", translated "hola", yields nothing even for a
   * query that matches "hello".
   */
  lemma LastEntryLostKinds(q: Pattern)
    requires q.search("hello")
    ensures Emitted(q, [Head("hello", None), Cont({"hola"})]) == []
    ensures EmittedFlushed(q, [Head("hello", None), Cont({"hola"})]) == [Entry("hello", Def(None, {"hola"}))]
  {
    var ks := [Head("hello", None), Cont({"hola"})];
    assert NextHead(ks, 0) == 0 && NextHead(ks, 1) == 2;
    assert LastHead(ks) == 0;
    assert Translations(ks, 1, 2) == {} + {"hola"};
    assert EntriesFrom(q, ks, 0) == [] + EntriesFrom(q, ks, 2);
    assert OpenEntry(q, ks) == Some(EntryOf(ks, 0, 2));
    assert EntryOf(ks, 0, 2) == Entry("hello", Def(None, {"hola"}));
    assert EmittedFlushed(q, ks) == [] + [EntryOf(ks, 0, 2)];
  }

  /** The headword line "hello" opens the entry "hello", without a guide. */
  lemma ClassifyHello()
    ensures Classify("hello") == Head("hello", None)
  {
    var s := "hello";
    StripKeeps(s);
    assert LastBefore(s, ']', 5) == -1;
    assert forall i :: 0 <= i < |s| ==> !IsUpper(s[i]);
    assert Lower(s) == s;
  }

  /** The continuation line " hola" adds the one translation "hola". */
  lemma ClassifyHola()
    ensures Classify(" hola") == Cont({"hola"})
  {
    var line := " hola";
    StripOneSpace(line);
    assert Strip(line) == "hola";
    assert ',' !in Strip(line);
    StripKeeps("hola");
    assert DigitsFrom("hola", 0) == 0;
  }

  /**
   * As written, the glossary text "hello" / " hola" yields nothing for a
   * query matching "hello"; with the flush it yields that entry.
   */
  lemma LastEntryLost(q: Pattern)
    requires q.search("hello")
    ensures Expected(q, ["hello", " hola"]) == []
    ensures ExpectedFlushed(q, ["hello", " hola"]) == [Entry("hello", Def(None, {"hola"}))]
  {
    var lines := ["hello", " hola"];
    assert lines[..1] == ["hello"];
    assert ["hello"][..0] == [];
    ClassifyHello();
    ClassifyHola();
    assert Kinds(lines) == [Head("hello", None), Cont({"hola"})];
    LastEntryLostKinds(q);
  }

  /** find_text with the open entry yielded once the text ends. */
  method FindTextFlushed(q: Pattern, text: Option<seq<string>>) returns (r: Result<seq<Entry>, Error>)
    ensures !q.compiles ==> r == Err(InvalidQuery)
    ensures q.compiles && text.None? ==> r == Err(InvalidFile)
    ensures q.compiles && text.Some? ==> r == Ok(ExpectedFlushed(q, text.value))
  {
    if !q.compiles {
      return Err(InvalidQuery);
    }
    if text.None? {
      return Err(InvalidFile);
    }
    var lines := text.value;
    var found, engword, indef := Scan(q, lines);
    ScanFlushed(q, lines, found, engword, indef);
    var last := if indef.Some? && engword.Some? && engword.value != [] then [indef.value] else [];
    return Ok(found + last);
  }

  /** At the end of the text, the flushed result is what was yielded and then the open entry, if any. */
  lemma ScanFlushed(q: Pattern, lines: seq<string>, found: seq<Entry>, engword: Option<string>, indef: Option<Entry>)
    requires Scanned(q, lines, |lines|, found, engword, indef)
    ensures ExpectedFlushed(q, lines) ==
      found + (if indef.Some? && engword.Some? && engword.value != [] then [indef.value] else [])
  {
    assert lines[..|lines|] == lines;
    OpenEntryOfState(q, Kinds(lines), engword, indef);
  }
}
