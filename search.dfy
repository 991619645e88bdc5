/**
 * find_pickle: the search over the pickled dictionary. The keys are
 * visited in Python's string order when sort is asked for and in the
 * dict's insertion order otherwise, and every key in which the query finds
 * a match is yielded with its data.
 */
module Search {
  import opened Wrappers
  import opened Glossary
  import opened Dicts

  // ---------------------------------------------------------------------
  // Python's string order

  /** a[i..] < b[i..], comparing code points, a proper prefix first. */
  predicate LessFrom(a: string, b: string, i: nat)
    requires i <= |a| && i <= |b|
    decreases |a| - i
  {
    if i == |a| then i < |b|
    else if i == |b| then false
    else a[i] < b[i] || (a[i] == b[i] && LessFrom(a, b, i + 1))
  }

  /** a < b on Python strings. */
  predicate Less(a: string, b: string) {
    LessFrom(a, b, 0)
  }

  lemma {:induction false} LessFromIrreflexive(a: string, i: nat)
    requires i <= |a|
    ensures !LessFrom(a, a, i)
    decreases |a| - i
  {
    if i < |a| {
      LessFromIrreflexive(a, i + 1);
    }
  }

  lemma {:induction false} LessFromTransitive(a: string, b: string, c: string, i: nat)
    requires i <= |a| && i <= |b| && i <= |c|
    requires LessFrom(a, b, i) && LessFrom(b, c, i)
    ensures LessFrom(a, c, i)
    decreases |a| - i
  {
    if i < |a| && i < |b| && i < |c| && a[i] == b[i] == c[i] {
      LessFromTransitive(a, b, c, i + 1);
    }
  }

  lemma {:induction false} LessFromTotal(a: string, b: string, i: nat)
    requires i <= |a| && i <= |b|
    ensures LessFrom(a, b, i) || LessFrom(b, a, i) ||
            (|a| == |b| && forall k :: i <= k < |a| ==> a[k] == b[k])
    decreases |a| - i
  {
    if i < |a| && i < |b| && a[i] == b[i] {
      LessFromTotal(a, b, i + 1);
    }
  }

  /** The string order is a strict total order. */
  lemma LessOrder(a: string, b: string, c: string)
    ensures !Less(a, a)
    ensures Less(a, b) && Less(b, c) ==> Less(a, c)
    ensures a != b ==> Less(a, b) || Less(b, a)
    ensures Less(a, b) ==> !Less(b, a)
  {
    LessFromIrreflexive(a, 0);
    if Less(a, b) && Less(b, c) {
      LessFromTransitive(a, b, c, 0);
    }
    if Less(a, b) && Less(b, a) {
      LessFromTransitive(a, b, a, 0);
    }
    LessFromTotal(a, b, 0);
    if !Less(a, b) && !Less(b, a) {
      assert a == b;
    }
  }

  /** s is strictly ascending. */
  predicate Ascending(s: seq<string>) {
    forall i, j :: 0 <= i < j < |s| ==> Less(s[i], s[j])
  }

  /** No string occurs twice in s. */
  predicate Distinct(s: seq<string>) {
    forall i, j :: 0 <= i < j < |s| ==> s[i] != s[j]
  }

  // ---------------------------------------------------------------------
  // sorted()

  /** The first position at or after i whose string is not below x. */
  function Position(x: string, s: seq<string>, i: nat): (r: nat)
    requires i <= |s|
    ensures i <= r <= |s|
    decreases |s| - i
  {
    if i == |s| || !Less(s[i], x) then i else Position(x, s, i + 1)
  }

  lemma {:induction false} PositionSpec(x: string, s: seq<string>, i: nat)
    requires i <= |s|
    ensures forall k :: i <= k < Position(x, s, i) ==> Less(s[k], x)
    ensures Position(x, s, i) < |s| ==> !Less(s[Position(x, s, i)], x)
    decreases |s| - i
  {
    if i < |s| && Less(s[i], x) {
      PositionSpec(x, s, i + 1);
    }
  }

  /** x inserted into s before the first string not below it. */
  function Insert(x: string, s: seq<string>): (r: seq<string>)
    ensures |r| == |s| + 1
  {
    var p := Position(x, s, 0);
    s[..p] + [x] + s[p..]
  }

  /** The strings of Insert(x, s) by position. */
  lemma InsertAt(x: string, s: seq<string>)
    ensures forall i :: 0 <= i < Position(x, s, 0) ==> Insert(x, s)[i] == s[i]
    ensures Insert(x, s)[Position(x, s, 0)] == x
    ensures forall i :: Position(x, s, 0) < i <= |s| ==> Insert(x, s)[i] == s[i - 1]
    ensures multiset(Insert(x, s)) == multiset(s) + multiset{x}
  {
    var p := Position(x, s, 0);
    assert s == s[..p] + s[p..];
  }

  /** Everything from the insertion point on is above x. */
  lemma AboveInsertion(x: string, s: seq<string>)
    requires Ascending(s) && x !in s
    ensures forall k :: Position(x, s, 0) <= k < |s| ==> Less(x, s[k])
  {
    var p := Position(x, s, 0);
    PositionSpec(x, s, 0);
    forall k | p <= k < |s|
      ensures Less(x, s[k])
    {
      if k > p {
        LessOrder(s[p], s[k], x);
      }
      LessOrder(x, s[k], x);
    }
  }

  /** Into an ascending sequence without x, insertion keeps it ascending and adds just x. */
  lemma InsertSpec(x: string, s: seq<string>)
    requires Ascending(s) && x !in s
    ensures Ascending(Insert(x, s))
    ensures multiset(Insert(x, s)) == multiset(s) + multiset{x}
  {
    var p := Position(x, s, 0);
    var r := Insert(x, s);
    PositionSpec(x, s, 0);
    AboveInsertion(x, s);
    InsertAt(x, s);
    forall i, j | 0 <= i < j < |r|
      ensures Less(r[i], r[j])
    {
      if j < p {
        assert r[i] == s[i] && r[j] == s[j];
      } else if j == p {
        assert r[i] == s[i] && r[j] == x;
      } else if i < p {
        assert r[i] == s[i] && r[j] == s[j - 1];
        LessOrder(s[i], x, s[j - 1]);
      } else if i == p {
        assert r[i] == x && r[j] == s[j - 1];
      } else {
        assert r[i] == s[i - 1] && r[j] == s[j - 1];
      }
    }
  }

  /** sorted(): insertion sort in Python's string order. */
  function Sort(ks: seq<string>): (r: seq<string>)
    ensures |r| == |ks|
  {
    if |ks| == 0 then [] else Insert(ks[|ks| - 1], Sort(ks[..|ks| - 1]))
  }

  /** The keys of a dict, sorted, are strictly ascending and hold each key once. */
  lemma {:induction false} SortSpec(ks: seq<string>)
    requires Distinct(ks)
    ensures Ascending(Sort(ks))
    ensures multiset(Sort(ks)) == multiset(ks)
  {
    if |ks| > 0 {
      var init, x := ks[..|ks| - 1], ks[|ks| - 1];
      SortSpec(init);
      assert x !in init by {
        forall k | 0 <= k < |init|
          ensures init[k] != x
        {
          assert ks[k] != ks[|ks| - 1];
        }
      }
      assert x !in multiset(init);
      InsertSpec(x, Sort(init));
      assert ks == init + [x];
    }
  }

  // ---------------------------------------------------------------------
  // The filter

  /** The (word, data) pairs, in the order of ws, of the words the query matches. */
  function Hits<V>(q: Pattern, d: Dict<V>, ws: seq<string>): (r: seq<(string, V)>)
    requires forall w :: w in ws ==> w in d.values
    ensures |r| <= |ws|
  {
    if |ws| == 0 then []
    else
      var w := ws[|ws| - 1];
      Hits(q, d, ws[..|ws| - 1]) + (if q.search(w) then [(w, d.values[w])] else [])
  }

  /** A pair is a hit exactly when its word is one of ws, the query matches it and the data is its own. */
  lemma {:induction false} HitsMembers<V>(q: Pattern, d: Dict<V>, ws: seq<string>)
    requires forall w :: w in ws ==> w in d.values
    ensures forall w, v :: (w, v) in Hits(q, d, ws) <==> w in ws && q.search(w) && v == d.values[w]
  {
    if |ws| > 0 {
      var init := ws[..|ws| - 1];
      HitsMembers(q, d, init);
      assert ws == init + [ws[|ws| - 1]];
    }
  }

  /** The word of every hit is one of ws. */
  lemma {:induction false} HitsWords<V>(q: Pattern, d: Dict<V>, ws: seq<string>, i: nat)
    requires forall w :: w in ws ==> w in d.values
    requires i < |Hits(q, d, ws)|
    ensures Hits(q, d, ws)[i].0 in ws
  {
    var init := ws[..|ws| - 1];
    if i < |Hits(q, d, init)| {
      HitsWords(q, d, init, i);
      assert ws == init + [ws[|ws| - 1]];
    }
  }

  /** Any order between the words of ws holds between the words of the hits. */
  lemma {:induction false} HitsKeepOrder<V>(q: Pattern, d: Dict<V>, ws: seq<string>, before: (string, string) -> bool)
    requires forall w :: w in ws ==> w in d.values
    requires forall i, j :: 0 <= i < j < |ws| ==> before(ws[i], ws[j])
    ensures forall i, j :: 0 <= i < j < |Hits(q, d, ws)| ==> before(Hits(q, d, ws)[i].0, Hits(q, d, ws)[j].0)
  {
    if |ws| > 0 {
      var init, w := ws[..|ws| - 1], ws[|ws| - 1];
      HitsKeepOrder(q, d, init, before);
      HitsMembers(q, d, init);
      var h, r := Hits(q, d, init), Hits(q, d, ws);
      forall i, j | 0 <= i < j < |r|
        ensures before(r[i].0, r[j].0)
      {
        if j == |h| {
          assert r[i] == h[i] && r[j].0 == w;
          HitsWords(q, d, init, i);
          var k :| 0 <= k < |init| && init[k] == h[i].0;
          assert before(ws[k], ws[|ws| - 1]);
        } else {
          assert r[i] == h[i] && r[j] == h[j];
        }
      }
    }
  }

  // ---------------------------------------------------------------------
  // find_pickle

  /**
   * The start of find_pickle as written: an invalid query is reported, but
   * a failed read is not, because the handler formats a name that is only
   * bound in the handler of the query's compile error.
   */
  function OpenAsWritten<V>(q: Pattern, loaded: Option<Dict<V>>): Result<Dict<V>, Error> {
    if !q.compiles then Err(InvalidQuery)
    else if loaded.None? then Err(UnboundLocal)
    else Ok(loaded.value)
  }

  /** The start of find_pickle as intended: a failed read is reported as InvalidFile. */
  function Open<V>(q: Pattern, loaded: Option<Dict<V>>): Result<Dict<V>, Error> {
    if !q.compiles then Err(InvalidQuery)
    else if loaded.None? then Err(InvalidFile)
    else Ok(loaded.value)
  }

  /** With a valid query and unreadable data, the code as written never raises InvalidFile. */
  lemma ReadFailureMisreported<V>(q: Pattern, loaded: Option<Dict<V>>)
    requires q.compiles && loaded.None?
    ensures OpenAsWritten(q, loaded).Err? && OpenAsWritten(q, loaded).error != InvalidFile
    ensures Open(q, loaded) == Err(InvalidFile)
  {
  }

  /** The keys in the order find_pickle visits them. */
  function Visit<V>(d: Dict<V>, sort: bool): seq<string> {
    if sort then Sort(d.keys) else d.keys
  }

  lemma VisitSpec<V>(d: Dict<V>, sort: bool)
    requires Valid(d)
    ensures forall w :: w in Visit(d, sort) <==> w in d.values
    ensures Distinct(Visit(d, sort))
    ensures sort ==> Ascending(Visit(d, sort))
  {
    assert Distinct(d.keys) by {
      forall i, j | 0 <= i < j < |d.keys|
        ensures d.keys[i] != d.keys[j]
      {
        assert KeyAt(d, i) != KeyAt(d, j);
      }
    }
    if sort {
      SortSpec(d.keys);
      forall w
        ensures w in Sort(d.keys) <==> w in d.keys
      {
        assert w in Sort(d.keys) <==> w in multiset(Sort(d.keys));
        assert w in d.keys <==> w in multiset(d.keys);
      }
      forall i, j | 0 <= i < j < |Sort(d.keys)|
        ensures Sort(d.keys)[i] != Sort(d.keys)[j]
      {
        LessOrder(Sort(d.keys)[i], Sort(d.keys)[j], Sort(d.keys)[j]);
      }
    }
  }

  /** What find_pickle yields, or the error it raises. */
  function Found<V>(q: Pattern, loaded: Option<Dict<V>>, sort: bool): Result<seq<(string, V)>, Error>
    requires loaded.Some? ==> Valid(loaded.value)
  {
    match Open(q, loaded)
    case Err(e) => Err(e)
    case Ok(d) =>
      VisitSpec(d, sort);
      Ok(Hits(q, d, Visit(d, sort)))
  }

  /**
   * find_pickle: an uncompilable query raises InvalidQuery, unreadable data
   * InvalidFile; otherwise every key the query matches is yielded once with
   * its data, nothing else is, and with sort the keys come strictly
   * ascending.
   */
  lemma FoundSpec<V>(q: Pattern, loaded: Option<Dict<V>>, sort: bool)
    requires loaded.Some? ==> Valid(loaded.value)
    ensures Found(q, loaded, sort) == Err(InvalidQuery) <==> !q.compiles
    ensures Found(q, loaded, sort) == Err(InvalidFile) <==> q.compiles && loaded.None?
    ensures Found(q, loaded, sort).Ok? <==> q.compiles && loaded.Some?
    ensures Found(q, loaded, sort).Ok? ==>
              var r, d := Found(q, loaded, sort).value, loaded.value;
              && (forall w, v :: (w, v) in r <==> w in d.values && q.search(w) && v == d.values[w])
              && (forall i, j :: 0 <= i < j < |r| ==> r[i].0 != r[j].0)
              && (sort ==> forall i, j :: 0 <= i < j < |r| ==> Less(r[i].0, r[j].0))
  {
    if q.compiles && loaded.Some? {
      var d := loaded.value;
      VisitSpec(d, sort);
      HitsMembers(q, d, Visit(d, sort));
      HitsKeepOrder(q, d, Visit(d, sort), (a, b) => a != b);
      if sort {
        HitsKeepOrder(q, d, Visit(d, sort), Less);
      }
    }
  }

  /** Sorting changes the order of the results, not which they are. */
  lemma SortKeepsResults<V>(q: Pattern, loaded: Option<Dict<V>>)
    requires loaded.Some? ==> Valid(loaded.value)
    ensures Found(q, loaded, true).Ok? == Found(q, loaded, false).Ok?
    ensures Found(q, loaded, true).Ok? ==>
              forall w, v :: (w, v) in Found(q, loaded, true).value <==> (w, v) in Found(q, loaded, false).value
  {
    FoundSpec(q, loaded, true);
    FoundSpec(q, loaded, false);
  }

  /**
   * The filter loop of find_pickle, proved to yield Found. The read of the
   * data is a parameter: None when it fails.
   */
  method FindPickle<V>(q: Pattern, loaded: Option<Dict<V>>, sort: bool) returns (r: Result<seq<(string, V)>, Error>)
    requires loaded.Some? ==> Valid(loaded.value)
    ensures r == Found(q, loaded, sort)
  {
    var start := Open(q, loaded);
    if start.Err? {
      return Err(start.error);
    }
    var d := start.value;
    VisitSpec(d, sort);
    var ws := if sort then Sort(d.keys) else d.keys;
    var found := [];
    var k := 0;
    while k < |ws|
      invariant 0 <= k <= |ws|
      invariant found == Hits(q, d, ws[..k])
    {
      var w := ws[k];
      assert ws[..k + 1][..k] == ws[..k];
      if q.search(w) {
        found := found + [(w, d.values[w])];
      }
      k := k + 1;
    }
    assert ws[..k] == ws;
    return Ok(found);
  }
}
