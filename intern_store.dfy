/** The text store and its suffix-trie index, as both interners hold them:
 *  `store: String` beside `index: Trie<char>` in src/unsync/interning.rs and
 *  in `InternerInternal` of src/sync/interning.rs.  The store only ever
 *  grows, and the index finds, for every key it holds, a span at which the
 *  store spells that key.
 */
module InternStore {
  import opened Common
  import opened SuffixTrie

  class Store {
    const index: Trie
    var text: seq<char>

    /** The index is well formed, the store spells it, and it holds every
     *  substring of every key it holds. */
    ghost predicate Valid()
      reads this, index
    {
      index.Valid() && index.SpelledBy(text) && SubstringClosed(index.nodes)
    }

    /** The span the index finds for `key`. */
    ghost function Find(key: seq<char>): Option<Span>
      reads this, index
      requires Valid()
    {
      index.Lookup(key)
    }

    /** The store's text at `span` is `s`. */
    ghost predicate Spells(span: Span, s: seq<char>)
      reads this
    {
      span.start <= span.end <= |text| && text[span.start..span.end] == s
    }

    /** An empty store under a fresh `Trie::new()`. */
    constructor ()
      ensures Valid() && fresh(index)
      ensures text == [] && index.nodes == [Root]
      ensures forall key :: Find(key) == if key == [] then Some(Span(0, 0)) else None
    {
      index := new Trie();
      text := [];
      EmptyTrieSubstringClosed();
    }

    /** Every key the index holds is spelled by the store at its span. */
    lemma FoundSpells(key: seq<char>)
      requires Valid() && Find(key).Some?
      ensures Spells(Find(key).value, key)
    {
      LookupSpellsKey(index.nodes, index.paths, text, key);
    }

    /** Every key the index holds: what `extract_store` hands back spells them all. */
    lemma AllFoundSpell()
      requires Valid()
      ensures forall key :: Find(key).Some? ==> Spells(Find(key).value, key)
    {
      forall key | Find(key).Some?
        ensures Spells(Find(key).value, key)
      {
        FoundSpells(key);
      }
    }

    /** Distinct keys are found at distinct spans. */
    lemma FindInjective(k1: seq<char>, k2: seq<char>)
      requires Valid() && Find(k1).Some? && Find(k2).Some?
      ensures Find(k1) == Find(k2) <==> k1 == k2
    {
      if Find(k1) == Find(k2) {
        LookupInjective(index.nodes, index.paths, text, k1, k2);
      }
    }

    /** What interning `s` at `span` did to the store, between the old
     *  state and this one: a key the index already held gets its span back
     *  and nothing changes; otherwise `s` was appended to the store and
     *  inserted into the index at the old store length, so its span is
     *  `|old text|..|old text| + |s|`.  Either way the index now finds `s`
     *  at `span` and every substring of `s` (so interning one later appends
     *  nothing), a substring new to the index is placed at an occurrence in
     *  `s` no later than its own offset, hence at its first occurrence in
     *  the appended text, the store spells `s` there, keys held before keep their
     *  spans, a key held only now lies in the appended text, and the store
     *  only grew. */
    twostate predicate InternedAt(s: seq<char>, span: Span)
      reads this, index
      requires old(Valid()) && Valid()
    {
      && Find(s) == Some(span)
      && Spells(span, s)
      && (old(Find(s)).Some? ==> span == old(Find(s)).value && text == old(text) && index.nodes == old(index.nodes))
      && (old(Find(s)).None? ==> text == old(text) + s && span == Span(|old(text)|, |old(text)| + |s|))
      && (forall i, j :: 0 <= i <= j <= |s| ==> Find(s[i..j]).Some?)
      && (old(Find(s)).None? ==>
            forall i, j :: 0 <= i <= j <= |s| && old(Find(s[i..j])).None? ==>
              PlacedAtOrBefore(Find(s[i..j]).value, s, |old(text)|, s[i..j], i))
      && (forall k :: old(Find(k)).Some? ==> Find(k) == old(Find(k)))
      && (forall k :: old(Find(k)).None? && Find(k).Some? ==> |old(text)| <= Find(k).value.start)
      && old(text) <= text
    }

    /** `intern_uncontested` (and the body of the single-owner `try_intern`). */
    method InternUncontested(s: seq<char>) returns (span: Span)
      requires Valid()
      modifies this, index
      ensures Valid() && InternedAt(s, span)
    {
      var found := index.Get(s);
      if found.Some? {
        span := found.value;
      } else {
        ghost var before, beforePaths := index.nodes, index.paths;
        var start := |text|;
        text := text + s;
        span := index.Insert(s, start);
        InsertAfterAppendSpells(before, beforePaths, index.nodes, index.paths, old(text), s);
        InsertKeepsSubstringClosed(before, index.nodes, index.paths, s, start);
        AddedKeysFrom(before, index.nodes, index.paths, s, start);
      }
      FoundSpells(s);
    }
  }
}
