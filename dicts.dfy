/**
 * The two development-time transforms of the pickled data: eng_to_es,
 * which inverts the English-to-Spanish dictionary, and remove_junk, which
 * removes ordinal markers from every translation.
 *
 * A Python dict is modelled by its keys in insertion order and the
 * mapping; assigning to a key that is not yet present appends it.
 */
module Dicts {
  import opened Wrappers
  import opened Glossary

  /** A dict with string keys: the keys in insertion order, and the mapping. */
  datatype Dict<V> = Dict(keys: seq<string>, values: map<string, V>)

  /**
   * The key at position i. Distinctness is stated over KeyAt rather than
   * over d.keys[i], so that a proof uses it only where it names KeyAt.
   */
  function KeyAt<V>(d: Dict<V>, i: nat): string
    requires i < |d.keys|
  {
    d.keys[i]
  }

  /** Every key once, and exactly the keys of the mapping. */
  ghost predicate Valid<V>(d: Dict<V>) {
    && (forall i, j :: 0 <= i < j < |d.keys| ==> KeyAt(d, i) != KeyAt(d, j))
    && (forall k :: k in d.values <==> k in d.keys)
  }

  /** d[k] = v */
  function Put<V>(d: Dict<V>, k: string, v: V): Dict<V> {
    if k in d.values then Dict(d.keys, d.values[k := v]) else Dict(d.keys + [k], d.values[k := v])
  }

  /**
   * Assignment keeps the dict valid, maps k to v and leaves every other
   * key's value alone; a key already present keeps its place, a new one
   * goes last.
   */
  lemma PutSpec<V>(d: Dict<V>, k: string, v: V)
    requires Valid(d)
    ensures Valid(Put(d, k, v))
    ensures k in Put(d, k, v).values && Put(d, k, v).values[k] == v
    ensures forall k' :: k' != k ==> (k' in Put(d, k, v).values <==> k' in d.values)
    ensures forall k' :: k' != k && k' in d.values ==> Put(d, k, v).values[k'] == d.values[k']
    ensures Put(d, k, v).keys == if k in d.values then d.keys else d.keys + [k]
  {
    var d' := Put(d, k, v);
    forall i, j | 0 <= i < j < |d'.keys|
      ensures KeyAt(d', i) != KeyAt(d', j)
    {
      if j < |d.keys| {
        assert KeyAt(d, i) != KeyAt(d, j);
      } else {
        assert d.keys[i] in d.values;
      }
    }
  }

  // ---------------------------------------------------------------------
  // eng_to_es

  /** One entry of the Spanish-to-English data. */
  datatype Reverse = Reverse(english: set<string>, pronounce: Option<string>)

  /** The word at position i of the English data lists the translation s. */
  predicate Lists(data: Dict<Def>, i: int, s: string) {
    0 <= i < |data.keys| && data.keys[i] in data.values && s in data.values[data.keys[i]].translations
  }

  /** The first position at or after i whose word lists s, or |data.keys|. */
  function FirstFrom(data: Dict<Def>, s: string, i: nat): (r: nat)
    requires i <= |data.keys|
    ensures i <= r <= |data.keys|
    decreases |data.keys| - i
  {
    if i == |data.keys| || Lists(data, i, s) then i else FirstFrom(data, s, i + 1)
  }

  lemma {:induction false} FirstFromSpec(data: Dict<Def>, s: string, i: nat)
    requires i <= |data.keys|
    ensures FirstFrom(data, s, i) < |data.keys| ==> Lists(data, FirstFrom(data, s, i), s)
    ensures forall j :: i <= j < FirstFrom(data, s, i) ==> !Lists(data, j, s)
    decreases |data.keys| - i
  {
    if i < |data.keys| && !Lists(data, i, s) {
      FirstFromSpec(data, s, i + 1);
    }
  }

  /** The position of the first English word that lists s, or |data.keys|. */
  function First(data: Dict<Def>, s: string): nat {
    FirstFrom(data, s, 0)
  }

  /** The first lister lists s, and nobody before it does. */
  lemma FirstSpec(data: Dict<Def>, s: string)
    ensures First(data, s) <= |data.keys|
    ensures First(data, s) < |data.keys| ==> Lists(data, First(data, s), s)
    ensures forall j :: 0 <= j < First(data, s) ==> !Lists(data, j, s)
  {
    FirstFromSpec(data, s, 0);
  }

  /**
   * The position of the first English word listing the Spanish key at
   * position i; like KeyAt, it lets a proof use the order of the keys only
   * where it names it.
   */
  function Rank(data: Dict<Def>, es: Dict<Reverse>, i: nat): nat
    requires i < |es.keys|
  {
    First(data, es.keys[i])
  }

  /** The words before position n that list s. */
  function EnglishBefore(data: Dict<Def>, s: string, n: int): set<string> {
    set i | 0 <= i < n && i < |data.keys| && Lists(data, i, s) :: data.keys[i]
  }

  /** The pronunciation eng_to_es keeps for s: that of the first English word listing it. */
  function PronounceOf(data: Dict<Def>, s: string): Option<string> {
    var i := First(data, s);
    if i < |data.keys| && data.keys[i] in data.values then data.values[data.keys[i]].pronounce else None
  }

  /**
   * The state of eng_to_es after the words before position n, and the
   * translations done of the word at n: the Spanish keys seen so far, each
   * with the English words seen so far that list it and the pronunciation
   * of the first of them, the keys in the order their first lister comes.
   */
  ghost predicate Inverting(data: Dict<Def>, n: nat, done: set<string>, es: Dict<Reverse>) {
    && n <= |data.keys|
    && (done != {} ==> n < |data.keys| && data.keys[n] in data.values &&
                       done <= data.values[data.keys[n]].translations)
    && Valid(es)
    && (forall s :: s in es.values <==> First(data, s) < n || s in done)
    && (forall s :: s in es.values ==>
          es.values[s] == Reverse(EnglishBefore(data, s, n) + (if s in done then {data.keys[n]} else {}),
                                  PronounceOf(data, s)))
    && (forall i, j :: 0 <= i < j < |es.keys| ==> Rank(data, es, i) <= Rank(data, es, j))
    && (forall i :: 0 <= i < |es.keys| ==> Rank(data, es, i) <= n)
  }

  lemma EnglishBeforeNone(data: Dict<Def>, s: string, n: nat)
    requires n <= First(data, s)
    ensures EnglishBefore(data, s, n) == {}
  {
    FirstSpec(data, s);
  }

  lemma EnglishBeforeNext(data: Dict<Def>, s: string, n: nat)
    ensures EnglishBefore(data, s, n + 1) ==
      EnglishBefore(data, s, n) + (if Lists(data, n, s) then {data.keys[n]} else {})
  {
    var a := EnglishBefore(data, s, n + 1);
    var b := EnglishBefore(data, s, n) + (if Lists(data, n, s) then {data.keys[n]} else {});
    forall w | w in a
      ensures w in b
    {
      var i :| 0 <= i < n + 1 && i < |data.keys| && Lists(data, i, s) && w == data.keys[i];
      if i < n {
        assert w in EnglishBefore(data, s, n);
      }
    }
  }

  /** A translation of the word at n that is already a key gains that word. */
  lemma StepKnown(data: Dict<Def>, n: nat, done: set<string>, es: Dict<Reverse>, sp: string)
    requires Inverting(data, n, done, es)
    requires n < |data.keys| && data.keys[n] in data.values
    requires sp in data.values[data.keys[n]].translations && sp !in done && sp in es.values
    ensures Inverting(data, n, done + {sp},
      Put(es, sp, Reverse(es.values[sp].english + {data.keys[n]}, es.values[sp].pronounce)))
  {
    var es' := Put(es, sp, Reverse(es.values[sp].english + {data.keys[n]}, es.values[sp].pronounce));
    PutSpec(es, sp, Reverse(es.values[sp].english + {data.keys[n]}, es.values[sp].pronounce));
    assert es'.keys == es.keys;
    forall i | 0 <= i < |es'.keys|
      ensures Rank(data, es', i) == Rank(data, es, i)
    {
    }
  }

  /** A translation that is not yet a key is added after all the others, with the word at n. */
  lemma StepNew(data: Dict<Def>, n: nat, done: set<string>, es: Dict<Reverse>, sp: string)
    requires Inverting(data, n, done, es)
    requires n < |data.keys| && data.keys[n] in data.values
    requires sp in data.values[data.keys[n]].translations && sp !in done && sp !in es.values
    ensures Inverting(data, n, done + {sp},
      Put(es, sp, Reverse({data.keys[n]}, data.values[data.keys[n]].pronounce)))
  {
    var w := data.keys[n];
    var v := Reverse({w}, data.values[w].pronounce);
    var es' := Dict(es.keys + [sp], es.values[sp := v]);
    assert Put(es, sp, v) == es';
    PutSpec(es, sp, v);
    FirstSpec(data, sp);
    assert Lists(data, n, sp);
    assert First(data, sp) == n;
    EnglishBeforeNone(data, sp, n);
    forall s | s in es'.values
      ensures es'.values[s] == Reverse(EnglishBefore(data, s, n) + (if s in done + {sp} then {w} else {}),
                                       PronounceOf(data, s))
    {
      if s == sp {
        assert EnglishBefore(data, s, n) + {w} == {w};
      }
    }
    forall i | 0 <= i < |es'.keys|
      ensures Rank(data, es', i) == if i < |es.keys| then Rank(data, es, i) else n
    {
      if i < |es.keys| {
        assert es'.keys[i] == es.keys[i];
      }
    }
  }

  /** Once all of the word's translations are done, the scan moves on to the next word. */
  lemma NextWord(data: Dict<Def>, n: nat, es: Dict<Reverse>)
    requires n < |data.keys| && data.keys[n] in data.values
    requires Inverting(data, n, data.values[data.keys[n]].translations, es)
    ensures Inverting(data, n + 1, {}, es)
  {
    var ts := data.values[data.keys[n]].translations;
    forall s
      ensures First(data, s) < n + 1 <==> First(data, s) < n || s in ts
    {
      FirstSpec(data, s);
      if s in ts {
        assert Lists(data, n, s);
      }
    }
    forall s | s in es.values
      ensures EnglishBefore(data, s, n + 1) == EnglishBefore(data, s, n) + (if s in ts then {data.keys[n]} else {})
    {
      EnglishBeforeNext(data, s, n);
    }
  }

  /** With every word done, the state is the inverted dictionary. */
  lemma Inverted(data: Dict<Def>, es: Dict<Reverse>)
    requires Valid(data) && Inverting(data, |data.keys|, {}, es)
    ensures forall s :: s in es.values <==> exists w :: w in data.values && s in data.values[w].translations
    ensures forall s :: s in es.values ==>
      es.values[s].english == set w | w in data.values && s in data.values[w].translations
  {
    forall s
      ensures First(data, s) < |data.keys| <==> exists w :: w in data.values && s in data.values[w].translations
    {
      FirstSpec(data, s);
      if w :| w in data.values && s in data.values[w].translations {
        var i :| 0 <= i < |data.keys| && data.keys[i] == w;
        assert Lists(data, i, s);
      }
    }
    forall s | s in es.values
      ensures EnglishBefore(data, s, |data.keys|) == set w | w in data.values && s in data.values[w].translations
    {
      forall w | w in data.values && s in data.values[w].translations
        ensures w in EnglishBefore(data, s, |data.keys|)
      {
        var i :| 0 <= i < |data.keys| && data.keys[i] == w;
        assert Lists(data, i, s);
      }
    }
  }

  /**
   * eng_to_es: every Spanish translation becomes a key, listing exactly
   * the English words that list it, with the pronunciation of the first of
   * them in key order; the Spanish keys come in the order of their first
   * English lister.
   */
  method EngToEs(data: Dict<Def>) returns (es: Dict<Reverse>)
    requires Valid(data)
    ensures Valid(es)
    ensures forall s :: s in es.values <==> exists w :: w in data.values && s in data.values[w].translations
    ensures forall s :: s in es.values ==>
      es.values[s].english == set w | w in data.values && s in data.values[w].translations
    ensures forall s :: s in es.values ==> es.values[s].pronounce == PronounceOf(data, s)
    ensures forall i, j :: 0 <= i < j < |es.keys| ==> First(data, es.keys[i]) <= First(data, es.keys[j])
  {
    es := Dict([], map[]);
    var n := 0;
    while n < |data.keys|
      invariant Inverting(data, n, {}, es)
    {
      es := InvertWord(data, n, es);
      n := n + 1;
    }
    Inverted(data, es);
    forall i, j | 0 <= i < j < |es.keys|
      ensures First(data, es.keys[i]) <= First(data, es.keys[j])
    {
      assert Rank(data, es, i) <= Rank(data, es, j);
    }
  }

  /** The body of the outer loop of eng_to_es: the translations of the word at n, in any order. */
  method InvertWord(data: Dict<Def>, n: nat, es: Dict<Reverse>) returns (es': Dict<Reverse>)
    requires Valid(data) && n < |data.keys| && Inverting(data, n, {}, es)
    ensures Inverting(data, n + 1, {}, es')
  {
    var word := data.keys[n];
    assert word in data.values;
    var translations := data.values[word].translations;
    var done: set<string> := {};
    es' := es;
    while done != translations
      invariant done <= translations
      invariant Inverting(data, n, done, es')
      decreases |translations - done|
    {
      var spanish :| spanish in translations - done;
      es' := InvertOne(data, n, done, es', spanish);
      assert translations - (done + {spanish}) < translations - done;
      done := done + {spanish};
    }
    NextWord(data, n, es');
  }

  /** The body of the inner loop of eng_to_es: one translation of the word at n. */
  method InvertOne(data: Dict<Def>, n: nat, done: set<string>, es: Dict<Reverse>, spanish: string)
    returns (es': Dict<Reverse>)
    requires Inverting(data, n, done, es)
    requires n < |data.keys| && data.keys[n] in data.values
    requires spanish in data.values[data.keys[n]].translations && spanish !in done
    ensures Inverting(data, n, done + {spanish}, es')
  {
    var word := data.keys[n];
    if spanish in es.values {
      // transformed[spanish]['english'].add(word)
      StepKnown(data, n, done, es, spanish);
      es' := Put(es, spanish, Reverse(es.values[spanish].english + {word}, es.values[spanish].pronounce));
    } else {
      StepNew(data, n, done, es, spanish);
      es' := Put(es, spanish, Reverse({word}, data.values[word].pronounce));
    }
  }

  /** The pronunciation kept for s is that of an English word listing s, and no earlier word lists s. */
  lemma PronounceOfFirst(data: Dict<Def>, s: string)
    requires exists w :: w in data.values && s in data.values[w].translations
    requires Valid(data)
    ensures exists i ::
      && 0 <= i < |data.keys| && Lists(data, i, s)
      && PronounceOf(data, s) == data.values[data.keys[i]].pronounce
      && (forall j :: 0 <= j < i ==> !Lists(data, j, s))
  {
    FirstSpec(data, s);
    var w :| w in data.values && s in data.values[w].translations;
    var i :| 0 <= i < |data.keys| && data.keys[i] == w;
    assert Lists(data, i, s);
    assert First(data, s) < |data.keys|;
  }

  // ---------------------------------------------------------------------
  // remove_junk

  /** A set of translations with the ordinal marker removed from each. */
  function Cleaned(ts: set<string>): set<string> {
    set t | t in ts :: StripOrdinal(t)
  }

  /** Removing markers never adds translations: distinct tokens may become one. */
  lemma {:induction false} CleanedSize(ts: set<string>)
    ensures |Cleaned(ts)| <= |ts|
    decreases |ts|
  {
    if ts != {} {
      var t :| t in ts;
      var rest := ts - {t};
      CleanedSize(rest);
      assert Cleaned(ts) == Cleaned(rest) + {StripOrdinal(t)};
    } else {
      assert Cleaned(ts) == {};
    }
  }

  /** The state of remove_junk after the words before position n: those words, each done. */
  ghost predicate Removed(data: Dict<Def>, n: nat, fixed: Dict<Def>)
    requires n <= |data.keys|
  {
    && fixed.keys == data.keys[..n]
    && (forall w :: w in fixed.values <==> w in fixed.keys)
    && (forall w :: w in fixed.values ==>
          w in data.values && fixed.values[w] == Def(data.values[w].pronounce, Cleaned(data.values[w].translations)))
  }

  /**
   * remove_junk: the same words in the same order, each with its
   * pronunciation and its translations with the ordinal marker removed.
   */
  method RemoveJunk(data: Dict<Def>) returns (fixed: Dict<Def>)
    requires Valid(data)
    ensures fixed.keys == data.keys
    ensures forall w :: w in fixed.values <==> w in data.values
    ensures forall w :: w in data.values ==>
      fixed.values[w] == Def(data.values[w].pronounce, Cleaned(data.values[w].translations))
  {
    fixed := Dict([], map[]);
    var n := 0;
    while n < |data.keys|
      invariant n <= |data.keys| && Removed(data, n, fixed)
    {
      fixed := RemoveWord(data, n, fixed);
      n := n + 1;
    }
    assert data.keys[..n] == data.keys;
  }

  /** The body of the outer loop of remove_junk: a fresh entry for the word at n, then its translations. */
  method RemoveWord(data: Dict<Def>, n: nat, fixed: Dict<Def>) returns (fixed': Dict<Def>)
    requires Valid(data) && n < |data.keys| && Removed(data, n, fixed)
    ensures Removed(data, n + 1, fixed')
  {
    var word := data.keys[n];
    assert word in data.values;
    var wdata := data.values[word];
    assert word !in fixed.values by {
      forall i | 0 <= i < n
        ensures fixed.keys[i] != word
      {
        assert KeyAt(data, i) != KeyAt(data, n);
      }
    }
    fixed' := Put(fixed, word, Def(wdata.pronounce, {}));
    var cleaned := AddCleaned(fixed'.values[word].translations, wdata.translations);
    fixed' := Put(fixed', word, fixed'.values[word].(translations := cleaned));
    assert fixed'.keys == data.keys[..n] + [word];
    assert data.keys[..n + 1] == data.keys[..n] + [word];
  }

  /** The inner loop of remove_junk: each translation, its marker removed, added to the set. */
  method AddCleaned(into: set<string>, ts: set<string>) returns (r: set<string>)
    ensures r == into + Cleaned(ts)
  {
    r := into;
    var done: set<string> := {};
    while done != ts
      invariant done <= ts
      invariant r == into + Cleaned(done)
      decreases |ts - done|
    {
      var spanish :| spanish in ts - done;
      assert Cleaned(done + {spanish}) == Cleaned(done) + {StripOrdinal(spanish)};
      r := r + {StripOrdinal(spanish)};
      assert ts - (done + {spanish}) < ts - done;
      done := done + {spanish};
    }
  }
}
