/**
 * The Python string operations the glossary code relies on: the whitespace
 * set of str.isspace(), str.strip(), str.lower(), str.split(sep) and
 * str.join().
 *
 * The functions compute; what they promise is stated by the lemmas next to
 * them, so that a proof about a caller sees a function's properties only
 * where it asks for them.
 */
module Text {

  /** Python's str.isspace(): the characters strip() and split() treat as whitespace. */
  predicate IsSpace(c: char) {
    ('\t' <= c <= '\r') || ('\U{1C}' <= c <= '\U{1F}') || c == ' '
    || c == '\U{85}' || c == '\U{A0}' || c == '\U{1680}'
    || ('\U{2000}' <= c <= '\U{200A}') || c == '\U{2028}' || c == '\U{2029}'
    || c == '\U{202F}' || c == '\U{205F}' || c == '\U{3000}'
  }

  /** The upper-case letters this model lower-cases: ASCII and Latin-1. */
  predicate IsUpper(c: char) {
    ('A' <= c <= 'Z') || ('\U{C0}' <= c <= '\U{DE}' && c != '\U{D7}')
  }

  function LowerChar(c: char): (d: char)
    ensures !IsUpper(d)
    ensures IsUpper(c) ==> d as int == c as int + 32
    ensures !IsUpper(c) ==> d == c
  {
    if IsUpper(c) then (c as int + 32) as char else c
  }

  /** str.lower() */
  function Lower(s: string): (r: string)
    ensures |r| == |s|
  {
    seq(|s|, i requires 0 <= i < |s| => LowerChar(s[i]))
  }

  /**
   * lower() leaves no upper-case letter, maps each upper-case letter to its
   * lower-case partner, keeps every other character, and so keeps whitespace.
   */
  lemma LowerSpec(s: string)
    ensures forall i :: 0 <= i < |s| ==> !IsUpper(Lower(s)[i])
    ensures forall i :: 0 <= i < |s| && !IsUpper(s[i]) ==> Lower(s)[i] == s[i]
    ensures forall i :: 0 <= i < |s| && IsUpper(s[i]) ==> Lower(s)[i] as int == s[i] as int + 32
    ensures forall i :: 0 <= i < |s| ==> (IsSpace(Lower(s)[i]) <==> IsSpace(s[i]))
  {
  }

  /** The first position in [i, j) that does not hold whitespace, or j. */
  function SkipSpaces(s: string, i: nat, j: nat): (r: nat)
    requires i <= j <= |s|
    ensures i <= r <= j
    decreases j - i
  {
    if i == j || !IsSpace(s[i]) then i else SkipSpaces(s, i + 1, j)
  }

  /** The skip passes over whitespace only, and stops at the first other character. */
  lemma {:induction false} SkipSpacesSpec(s: string, i: nat, j: nat)
    requires i <= j <= |s|
    ensures forall k :: i <= k < SkipSpaces(s, i, j) ==> IsSpace(s[k])
    ensures SkipSpaces(s, i, j) == j || !IsSpace(s[SkipSpaces(s, i, j)])
    decreases j - i
  {
    if i < j && IsSpace(s[i]) {
      SkipSpacesSpec(s, i + 1, j);
    }
  }

  /** The position just after the last character before j that is not whitespace, or 0. */
  function SkipSpacesBack(s: string, j: nat): (i: nat)
    requires j <= |s|
    ensures i <= j
    decreases j
  {
    if j == 0 || !IsSpace(s[j - 1]) then j else SkipSpacesBack(s, j - 1)
  }

  /** The backward skip passes over whitespace only, and stops after the last other character. */
  lemma {:induction false} SkipSpacesBackSpec(s: string, j: nat)
    requires j <= |s|
    ensures forall k :: SkipSpacesBack(s, j) <= k < j ==> IsSpace(s[k])
    ensures SkipSpacesBack(s, j) == 0 || !IsSpace(s[SkipSpacesBack(s, j) - 1])
    decreases j
  {
    if j > 0 && IsSpace(s[j - 1]) {
      SkipSpacesBackSpec(s, j - 1);
    }
  }

  /** str.strip(): s without its leading and trailing whitespace. */
  function Strip(s: string): (r: string)
    ensures |r| <= |s|
  {
    var j := SkipSpacesBack(s, |s|);
    s[SkipSpaces(s, 0, j)..j]
  }

  /**
   * strip() leaves neither leading nor trailing whitespace, and it leaves
   * nothing exactly when s is all whitespace.
   */
  lemma StripSpec(s: string)
    ensures Strip(s) == [] || (!IsSpace(Strip(s)[0]) && !IsSpace(Strip(s)[|Strip(s)| - 1]))
    ensures Strip(s) == [] <==> forall i :: 0 <= i < |s| ==> IsSpace(s[i])
  {
    var j := SkipSpacesBack(s, |s|);
    var i := SkipSpaces(s, 0, j);
    SkipSpacesBackSpec(s, |s|);
    SkipSpacesSpec(s, 0, j);
    var r := Strip(s);
    assert r == s[i..j];
    if r != [] {
      assert r[0] == s[i];
      assert r[|r| - 1] == s[j - 1];
    } else {
      assert forall k :: 0 <= k < |s| ==> IsSpace(s[k]) by {
        assert i == j;
      }
    }
  }

  /** What strip() removes is whitespace at the two ends, and nothing else. */
  lemma StripSpan(s: string)
    ensures exists a, b ::
      && 0 <= a <= b <= |s| && Strip(s) == s[a..b]
      && (forall i :: 0 <= i < a ==> IsSpace(s[i]))
      && (forall i :: b <= i < |s| ==> IsSpace(s[i]))
  {
    var j := SkipSpacesBack(s, |s|);
    var i := SkipSpaces(s, 0, j);
    SkipSpacesBackSpec(s, |s|);
    SkipSpacesSpec(s, 0, j);
    assert Strip(s) == s[i..j];
  }

  /** A string that neither begins nor ends with whitespace is its own strip. */
  lemma StripKeeps(s: string)
    requires s == [] || (!IsSpace(s[0]) && !IsSpace(s[|s| - 1]))
    ensures Strip(s) == s
  {
    if s != [] {
      assert SkipSpacesBack(s, |s|) == |s|;
      assert SkipSpaces(s, 0, |s|) == 0;
      assert s[0..|s|] == s;
    }
  }

  /** Stripping twice is stripping once. */
  lemma StripIdempotent(s: string)
    ensures Strip(Strip(s)) == Strip(s)
  {
    StripSpec(s);
    StripKeeps(Strip(s));
  }

  /** The first position at or after i that holds c, or |s|. */
  function Find(s: string, c: char, i: nat): (j: nat)
    requires i <= |s|
    ensures i <= j <= |s|
    decreases |s| - i
  {
    if i == |s| || s[i] == c then i else Find(s, c, i + 1)
  }

  /** The search stops at the first c at or after i, and only there. */
  lemma {:induction false} FindSpec(s: string, c: char, i: nat)
    requires i <= |s|
    ensures Find(s, c, i) < |s| ==> s[Find(s, c, i)] == c
    ensures forall k :: i <= k < Find(s, c, i) ==> s[k] != c
    decreases |s| - i
  {
    if i < |s| && s[i] != c {
      FindSpec(s, c, i + 1);
    }
  }

  /** str.join(): the pieces with sep between consecutive ones. */
  function Join(ss: seq<string>, sep: string): string
    decreases |ss|
  {
    if |ss| == 0 then "" else if |ss| == 1 then ss[0] else Join(ss[..|ss| - 1], sep) + sep + ss[|ss| - 1]
  }

  /** Joining one piece more appends the separator and that piece. */
  lemma JoinSnoc(ss: seq<string>, x: string, sep: string)
    requires |ss| >= 1
    ensures Join(ss + [x], sep) == Join(ss, sep) + sep + x
  {
    assert (ss + [x])[..|ss|] == ss;
  }

  /** Joining one piece more in front puts that piece and the separator first. */
  lemma {:induction false} JoinCons(x: string, ss: seq<string>, sep: string)
    requires |ss| >= 1
    ensures Join([x] + ss, sep) == x + sep + Join(ss, sep)
    decreases |ss|
  {
    var xs := [x] + ss;
    if |ss| == 1 {
      assert xs[..1] == [x];
    } else {
      var init := ss[..|ss| - 1];
      assert xs[..|xs| - 1] == [x] + init;
      JoinCons(x, init, sep);
    }
  }

  /** The pieces of s[i..] between the occurrences of c. */
  function SplitFrom(s: string, c: char, i: nat): (r: seq<string>)
    requires i <= |s|
    ensures |r| >= 1
    decreases |s| - i
  {
    var j := Find(s, c, i);
    if j == |s| then [s[i..j]] else [s[i..j]] + SplitFrom(s, c, j + 1)
  }

  /** str.split(c) for a one-character separator. */
  function Split(s: string, c: char): (r: seq<string>)
    ensures |r| >= 1
  {
    SplitFrom(s, c, 0)
  }

  lemma {:induction false} SplitFromSpec(s: string, c: char, i: nat)
    requires i <= |s|
    ensures forall k :: 0 <= k < |SplitFrom(s, c, i)| ==> c !in SplitFrom(s, c, i)[k]
    decreases |s| - i
  {
    var j := Find(s, c, i);
    FindSpec(s, c, i);
    var piece := s[i..j];
    assert c !in piece by {
      assert forall k :: 0 <= k < |piece| ==> piece[k] == s[i + k];
    }
    if j < |s| {
      SplitFromSpec(s, c, j + 1);
      assert SplitFrom(s, c, i) == [piece] + SplitFrom(s, c, j + 1);
    } else {
      assert SplitFrom(s, c, i) == [piece];
    }
  }

  /** No piece of split(c) holds c. */
  lemma SplitSpec(s: string, c: char)
    ensures forall k :: 0 <= k < |Split(s, c)| ==> c !in Split(s, c)[k]
  {
    SplitFromSpec(s, c, 0);
  }

  lemma {:induction false} SplitFromJoins(s: string, c: char, i: nat)
    requires i <= |s|
    ensures Join(SplitFrom(s, c, i), [c]) == s[i..]
    decreases |s| - i
  {
    var j := Find(s, c, i);
    FindSpec(s, c, i);
    var piece := s[i..j];
    if j < |s| {
      var rest := SplitFrom(s, c, j + 1);
      var ss := [piece] + rest;
      assert SplitFrom(s, c, i) == ss;
      JoinCons(piece, rest, [c]);
      SplitFromJoins(s, c, j + 1);
      assert s[i..] == piece + [c] + s[j + 1..];
    } else {
      assert SplitFrom(s, c, i) == [piece];
      assert piece == s[i..];
    }
  }

  /** Joining the pieces of split(c) with c gives the string back. */
  lemma SplitJoins(s: string, c: char)
    ensures Join(Split(s, c), [c]) == s
  {
    SplitFromJoins(s, c, 0);
    assert s[0..] == s;
  }

  lemma {:induction false} FindShift(x: string, t: string, c: char, i: nat)
    requires i <= |t|
    ensures Find(x + t, c, |x| + i) == |x| + Find(t, c, i)
    decreases |t| - i
  {
    if i < |t| {
      assert (x + t)[|x| + i] == t[i];
      if t[i] != c {
        FindShift(x, t, c, i + 1);
      }
    }
  }

  /** Splitting at |x| + i after the text x is splitting the rest at i. */
  lemma {:induction false} SplitFromShift(x: string, t: string, c: char, i: nat)
    requires i <= |t|
    ensures SplitFrom(x + t, c, |x| + i) == SplitFrom(t, c, i)
    decreases |t| - i
  {
    var s := x + t;
    FindShift(x, t, c, i);
    var j := Find(t, c, i);
    if j < |t| {
      assert s[|x| + i..|x| + j] == t[i..j];
      SplitFromShift(x, t, c, j + 1);
    } else {
      assert s[|x| + i..|x| + j] == t[i..j];
    }
  }

  /** Without c in s, the search for c runs to the end. */
  lemma {:induction false} FindNone(s: string, c: char, i: nat)
    requires i <= |s| && c !in s
    ensures Find(s, c, i) == |s|
    decreases |s| - i
  {
    if i < |s| {
      FindNone(s, c, i + 1);
    }
  }

  /** A search that finds nothing in the text x before t goes on into t. */
  lemma {:induction false} FindPrefix(x: string, t: string, c: char, i: nat)
    requires i <= |x| && Find(x, c, i) == |x|
    ensures Find(x + t, c, i) == Find(t, c, 0) + |x|
    decreases |x| - i
  {
    if i < |x| {
      assert (x + t)[i] == x[i];
      FindPrefix(x, t, c, i + 1);
    } else {
      FindShift(x, t, c, 0);
    }
  }

  /** Splitting a join gives the pieces back, when no piece holds the separator. */
  lemma {:induction false} SplitJoin(ss: seq<string>, c: char)
    requires |ss| >= 1
    requires forall i :: 0 <= i < |ss| ==> c !in ss[i]
    ensures Split(Join(ss, [c]), c) == ss
    decreases |ss|
  {
    var p := ss[0];
    FindNone(p, c, 0);
    if |ss| == 1 {
      assert p[0..|p|] == p;
    } else {
      var t := Join(ss[1..], [c]);
      assert ss == [p] + ss[1..];
      JoinCons(p, ss[1..], [c]);
      var s := p + [c] + t;
      assert Find(s, c, 0) == |p| by {
        FindPrefix(p, [c] + t, c, 0);
        assert s == p + ([c] + t);
      }
      assert s[0..|p|] == p;
      SplitFromShift(p + [c], t, c, 0);
      SplitJoin(ss[1..], c);
    }
  }

  // ---------------------------------------------------------------------
  // str.split() without a separator

  /** A word of split(): non-empty, without whitespace. */
  predicate IsWord(w: string) {
    |w| > 0 && forall i :: 0 <= i < |w| ==> !IsSpace(w[i])
  }

  /** The first whitespace position at or after i, or |s|. */
  function WordEnd(s: string, i: nat): (j: nat)
    requires i <= |s|
    ensures i <= j <= |s|
    decreases |s| - i
  {
    if i == |s| || IsSpace(s[i]) then i else WordEnd(s, i + 1)
  }

  lemma {:induction false} WordEndSpec(s: string, i: nat)
    requires i <= |s|
    ensures forall k :: i <= k < WordEnd(s, i) ==> !IsSpace(s[k])
    ensures WordEnd(s, i) < |s| ==> IsSpace(s[WordEnd(s, i)])
    decreases |s| - i
  {
    if i < |s| && !IsSpace(s[i]) {
      WordEndSpec(s, i + 1);
    }
  }

  /** The whitespace-separated words of s[i..]. */
  function WordsFrom(s: string, i: nat): seq<string>
    requires i <= |s|
    decreases |s| - i
  {
    if i == |s| then []
    else if IsSpace(s[i]) then WordsFrom(s, i + 1)
    else
      var j := WordEnd(s, i);
      [s[i..j]] + WordsFrom(s, j)
  }

  /** str.split(): the whitespace-separated words of s. */
  function Words(s: string): seq<string> {
    WordsFrom(s, 0)
  }

  lemma {:induction false} WordsFromSpec(s: string, i: nat)
    requires i <= |s|
    ensures forall k :: 0 <= k < |WordsFrom(s, i)| ==> IsWord(WordsFrom(s, i)[k])
    ensures WordsFrom(s, i) == [] <==> forall k :: i <= k < |s| ==> IsSpace(s[k])
    decreases |s| - i
  {
    if i < |s| {
      if IsSpace(s[i]) {
        WordsFromSpec(s, i + 1);
      } else {
        var j := WordEnd(s, i);
        WordEndSpec(s, i);
        WordsFromSpec(s, j);
        var w := s[i..j];
        assert forall k :: 0 <= k < |w| ==> w[k] == s[i + k];
      }
    }
  }

  /** Every word of split() is a word, and there are none exactly when s is all whitespace. */
  lemma WordsSpec(s: string)
    ensures forall k :: 0 <= k < |Words(s)| ==> IsWord(Words(s)[k])
    ensures Words(s) == [] <==> forall k :: 0 <= k < |s| ==> IsSpace(s[k])
  {
    WordsFromSpec(s, 0);
  }

  /** A run of non-whitespace that whitespace or the end of s closes is where a word ends. */
  lemma {:induction false} WordEndAt(s: string, i: nat, j: nat)
    requires i <= j <= |s|
    requires forall k :: i <= k < j ==> !IsSpace(s[k])
    requires j == |s| || IsSpace(s[j])
    ensures WordEnd(s, i) == j
    decreases j - i
  {
    if i < j {
      WordEndAt(s, i + 1, j);
    }
  }

  /** Whitespace in front of the rest of s adds no word and removes none. */
  lemma {:induction false} WordsFromSpaces(s: string, i: nat, j: nat)
    requires i <= j <= |s|
    requires forall k :: i <= k < j ==> IsSpace(s[k])
    ensures WordsFrom(s, i) == WordsFrom(s, j)
    decreases j - i
  {
    if i < j {
      WordsFromSpaces(s, i + 1, j);
    }
  }

  /** t occurs in s at position i. */
  predicate HoldsAt(s: string, i: nat, t: string) {
    i + |t| <= |s| && forall k :: 0 <= k < |t| ==> s[i + k] == t[k]
  }

  /** Where a + b occurs, a occurs, and b right after it. */
  lemma HoldsAtAppend(s: string, i: nat, a: string, b: string)
    requires HoldsAt(s, i, a + b)
    ensures HoldsAt(s, i, a) && HoldsAt(s, i + |a|, b)
  {
    assert forall k :: 0 <= k < |a| ==> (a + b)[k] == a[k];
    assert forall k :: 0 <= k < |b| ==> (a + b)[|a| + k] == b[k];
  }

  /** The middle of a + b + c occurs just after a. */
  lemma HoldsAtMiddle(a: string, b: string, c: string)
    ensures HoldsAt(a + b + c, |a|, b)
  {
    var s := a + b + c;
    assert forall k :: 0 <= k < |b| ==> s[|a| + k] == b[k];
  }

  /** Whitespace on either side of b stays whitespace in a + b + c. */
  lemma SpacesAround(a: string, b: string, c: string)
    requires forall k :: 0 <= k < |a| ==> IsSpace(a[k])
    requires forall k :: 0 <= k < |c| ==> IsSpace(c[k])
    ensures forall k :: 0 <= k < |a| ==> IsSpace((a + b + c)[k])
    ensures forall k :: |a| + |b| <= k < |a + b + c| ==> IsSpace((a + b + c)[k])
  {
    var s := a + b + c;
    assert forall k :: |a| + |b| <= k < |s| ==> s[k] == c[k - |a| - |b|];
  }

  /** A word at s[i..] that whitespace or the end of s closes is the first word there. */
  lemma WordsFromWord(s: string, i: nat, w: string)
    requires IsWord(w) && HoldsAt(s, i, w)
    requires i + |w| == |s| || IsSpace(s[i + |w|])
    ensures WordsFrom(s, i) == [w] + WordsFrom(s, i + |w|)
  {
    assert forall k :: i <= k < i + |w| ==> s[k] == w[k - i];
    WordEndAt(s, i, i + |w|);
    assert s[i..i + |w|] == w;
  }

  /** A word that only whitespace follows is the last word. */
  lemma WordsFromLast(s: string, i: nat, w: string)
    requires IsWord(w) && HoldsAt(s, i, w)
    requires forall k :: i + |w| <= k < |s| ==> IsSpace(s[k])
    ensures WordsFrom(s, i) == [w]
  {
    WordsFromWord(s, i, w);
    WordsFromSpec(s, i + |w|);
  }

  /** A word and a space in front of the rest of s put that word first. */
  lemma WordsFromNext(s: string, i: nat, w: string)
    requires IsWord(w) && HoldsAt(s, i, w) && i + |w| < |s| && s[i + |w|] == ' '
    ensures WordsFrom(s, i) == [w] + WordsFrom(s, i + |w| + 1)
  {
    WordsFromWord(s, i, w);
    WordsFromSpaces(s, i + |w|, i + |w| + 1);
  }

  /** Where a join of two words or more occurs, its first word occurs, a space, then the rest. */
  lemma JoinAtFront(s: string, i: nat, ws: seq<string>)
    requires |ws| >= 2 && HoldsAt(s, i, Join(ws, " "))
    ensures |Join(ws, " ")| == |ws[0]| + 1 + |Join(ws[1..], " ")|
    ensures HoldsAt(s, i, ws[0]) && i + |ws[0]| < |s| && s[i + |ws[0]|] == ' '
    ensures HoldsAt(s, i + |ws[0]| + 1, Join(ws[1..], " "))
  {
    var w, rest := ws[0], ws[1..];
    assert ws == [w] + rest;
    JoinCons(w, rest, " ");
    var r := Join(rest, " ");
    assert Join(ws, " ") == (w + " ") + r;
    HoldsAtAppend(s, i, w + " ", r);
    HoldsAtAppend(s, i, w, " ");
    assert s[i + |w| + 0] == " "[0];
  }

  /**
   * Where s holds Join(ws, " ") at i and only whitespace after it, the words
   * of s[i..] are ws.
   */
  lemma {:induction false} WordsFromJoin(s: string, i: nat, ws: seq<string>)
    requires forall k :: 0 <= k < |ws| ==> IsWord(ws[k])
    requires HoldsAt(s, i, Join(ws, " "))
    requires forall k :: i + |Join(ws, " ")| <= k < |s| ==> IsSpace(s[k])
    ensures WordsFrom(s, i) == ws
    decreases |ws|
  {
    if |ws| == 0 {
      WordsFromSpec(s, i);
    } else if |ws| == 1 {
      assert Join(ws, " ") == ws[0];
      WordsFromLast(s, i, ws[0]);
    } else {
      var w, rest := ws[0], ws[1..];
      JoinAtFront(s, i, ws);
      assert forall k :: 0 <= k < |rest| ==> IsWord(rest[k]) by {
        assert forall k :: 0 <= k < |rest| ==> rest[k] == ws[k + 1];
      }
      WordsFromJoin(s, i + |w| + 1, rest);
      WordsFromNext(s, i, w);
    }
  }

  /**
   * split() gives back the words a single-space join put together, whatever
   * whitespace surrounds the join: its content, not only its shape.
   */
  lemma WordsOfJoin(g0: string, ws: seq<string>, g1: string)
    requires forall k :: 0 <= k < |g0| ==> IsSpace(g0[k])
    requires forall w :: w in ws ==> IsWord(w)
    requires forall k :: 0 <= k < |g1| ==> IsSpace(g1[k])
    ensures Words(g0 + Join(ws, " ") + g1) == ws
  {
    assert forall k :: 0 <= k < |ws| ==> IsWord(ws[k]) by {
      assert forall k :: 0 <= k < |ws| ==> ws[k] in ws;
    }
    var j := Join(ws, " ");
    var s := g0 + j + g1;
    HoldsAtMiddle(g0, j, g1);
    SpacesAround(g0, j, g1);
    WordsFromJoin(s, |g0|, ws);
    WordsFromSpaces(s, 0, |g0|);
  }

  /** A join holds c only where a piece or the separator does. */
  lemma {:induction false} JoinWithout(ss: seq<string>, sep: string, c: char)
    requires c !in sep && forall s :: s in ss ==> c !in s
    ensures c !in Join(ss, sep)
    decreases |ss|
  {
    if |ss| > 1 {
      assert ss[|ss| - 1] in ss;
      assert forall s :: s in ss[..|ss| - 1] ==> s in ss;
      JoinWithout(ss[..|ss| - 1], sep, c);
    } else if |ss| == 1 {
      assert ss[0] in ss;
    }
  }
}
