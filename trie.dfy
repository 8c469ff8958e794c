/** The suffix-trie index of src/sync/trie.rs.
 *
 *  A node table stands for the tree of `Trie` values: node 0 is the root, and a
 *  node's children map sends a character to the index of the child node.  The
 *  class keeps, as a ghost field, the key that spells the path to each node, so
 *  that facts about paths (span length equals depth, the store's text at a span
 *  equals the path) are local to a node.
 */
module SuffixTrie {
  import opened Common

  /** A half-open range `start..end` of offsets into the store. */
  datatype Span = Span(start: nat, end: nat)

  /** `span(start, length)`: the `length` offsets beginning at `start`. */
  function MakeSpan(start: nat, length: nat): (r: Span)
    ensures r.start == start && r.end - r.start == length
  {
    Span(start, start + length)
  }

  /** One trie node: its span and its children, as indices into the node table. */
  datatype Node = Node(span: Span, children: map<char, nat>)

  /** `Trie::new()`: span `0..0`, no children. */
  const Root: Node := Node(MakeSpan(0, 0), map[])

  /** The table has a root and every child index points into it. */
  ghost predicate Closed(nodes: seq<Node>) {
    && |nodes| > 0
    && forall i, c :: 0 <= i < |nodes| && c in nodes[i].children ==> nodes[i].children[c] < |nodes|
  }

  /** The node reached from the root by following `key`, character by
   *  character, or None as soon as a character has no child. */
  ghost function Walk(nodes: seq<Node>, key: seq<char>): (r: Option<nat>)
    requires Closed(nodes)
    ensures r.Some? ==> r.value < |nodes|
    decreases |key|
  {
    if key == [] then Some(0)
    else
      match Walk(nodes, key[..|key| - 1])
      case None => None
      case Some(i) =>
        var c := key[|key| - 1];
        if c in nodes[i].children then Some(nodes[i].children[c]) else None
  }

  /** What `get` answers for `key`: the span of the node `key` leads to. */
  ghost function LookupIn(nodes: seq<Node>, key: seq<char>): Option<Span>
    requires Closed(nodes)
  {
    match Walk(nodes, key)
    case None => None
    case Some(i) => Some(nodes[i].span)
  }

  /** The invariant of a node table with its ghost paths: the root spans
   *  `0..0` and spells the empty key, every edge labelled `c` extends the
   *  parent's path by `c`, and every span is as long as its node's path. */
  ghost predicate WellFormed(nodes: seq<Node>, paths: seq<seq<char>>) {
    && Closed(nodes)
    && |paths| == |nodes|
    && nodes[0].span == MakeSpan(0, 0)
    && paths[0] == []
    && (forall i :: 0 <= i < |nodes| ==> nodes[i].span.end == nodes[i].span.start + |paths[i]|)
    && (forall i, c :: 0 <= i < |nodes| && c in nodes[i].children ==>
          paths[nodes[i].children[c]] == paths[i] + [c])
  }

  /** The text of `store` at every node's span is that node's path. */
  ghost predicate TableSpelledBy(nodes: seq<Node>, paths: seq<seq<char>>, store: seq<char>)
    requires |paths| == |nodes|
  {
    forall i :: 0 <= i < |nodes| ==>
      nodes[i].span.start <= nodes[i].span.end <= |store| &&
      store[nodes[i].span.start..nodes[i].span.end] == paths[i]
  }

  /** `after` is `before` with nodes and edges added and nothing overwritten:
   *  old nodes keep their spans and their edges, and every added edge leads
   *  to an added node. */
  ghost predicate Extends(before: seq<Node>, after: seq<Node>) {
    && |before| <= |after|
    && (forall i :: 0 <= i < |before| ==> after[i].span == before[i].span)
    && (forall i, c :: 0 <= i < |before| && c in before[i].children ==>
          c in after[i].children && after[i].children[c] == before[i].children[c])
    && (forall i, c ::
          0 <= i < |after| && c in after[i].children && (i >= |before| || c !in before[i].children) ==>
          after[i].children[c] >= |before|)
  }

  /** The nodes from index `n` on were added by one `insert_one(key, start)`:
   *  each spans from `start` and spells a prefix of `key`. */
  ghost predicate AddedPrefixNodes(n: nat, nodes: seq<Node>, paths: seq<seq<char>>, key: seq<char>, start: nat)
    requires |paths| == |nodes|
  {
    forall m :: n <= m < |nodes| ==>
      nodes[m].span.start == start && |paths[m]| <= |key| && paths[m] == key[..|paths[m]|]
  }

  /** The nodes from index `n` on were added by `insert(key, start)`: each
   *  spells the substring of `key` found at its span's offset from `start`. */
  ghost predicate AddedSubstringNodes(n: nat, nodes: seq<Node>, paths: seq<seq<char>>, key: seq<char>, start: nat)
    requires |paths| == |nodes|
  {
    forall m :: n <= m < |nodes| ==>
      start <= nodes[m].span.start &&
      nodes[m].span.start - start + |paths[m]| <= |key| &&
      paths[m] == key[nodes[m].span.start - start..nodes[m].span.start - start + |paths[m]|]
  }

  /** `sp` holds `sub` as `insert(key, start)` placed it: at an occurrence of
   *  `sub` in `key` no later than offset `i`. */
  ghost predicate PlacedAtOrBefore(sp: Span, key: seq<char>, start: nat, sub: seq<char>, i: nat) {
    && start <= sp.start <= start + i
    && sp.end == sp.start + |sub|
    && sp.end - start <= |key|
    && key[sp.start - start..sp.end - start] == sub
  }

  // ---------------------------------------------------------------- lemmas

  /** A walk spells the path of the node it reaches; so the span found for a
   *  key is exactly as long as the key (span length equals depth). */
  lemma {:induction false} WalkSpellsPath(nodes: seq<Node>, paths: seq<seq<char>>, key: seq<char>)
    requires WellFormed(nodes, paths)
    requires Walk(nodes, key).Some?
    ensures paths[Walk(nodes, key).value] == key
    ensures LookupIn(nodes, key).value.end == LookupIn(nodes, key).value.start + |key|
    decreases |key|
  {
    if key != [] {
      var prefix := key[..|key| - 1];
      WalkSpellsPath(nodes, paths, prefix);
      assert key == prefix + [key[|key| - 1]];
    }
  }

  /** Once a walk has fallen off the trie it stays off, whatever follows. */
  lemma {:induction false} OffStaysOff(nodes: seq<Node>, key: seq<char>, m: nat)
    requires Closed(nodes)
    requires m <= |key|
    ensures Walk(nodes, key[..m]).None? ==> Walk(nodes, key).None?
    decreases |key| - m
  {
    if m < |key| {
      assert key[..m + 1][..m] == key[..m];
      OffStaysOff(nodes, key, m + 1);
    } else {
      assert key[..m] == key;
    }
  }

  /** A character with no child ends the lookup with None: `get` never
   *  answers with the span of the node where the walk stopped. */
  lemma FallsOff(nodes: seq<Node>, key: seq<char>, j: nat)
    requires Closed(nodes)
    requires j < |key|
    requires Walk(nodes, key[..j]).Some?
    requires key[j] !in nodes[Walk(nodes, key[..j]).value].children
    ensures LookupIn(nodes, key) == None
  {
    assert key[..j + 1][..j] == key[..j];
    OffStaysOff(nodes, key, j + 1);
  }

  /** The empty trie answers the root span for the empty key and None for
   *  every other key. */
  lemma {:induction false} EmptyTrieLookup(key: seq<char>)
    ensures LookupIn([Root], key) == if key == [] then Some(Span(0, 0)) else None
    decreases |key|
  {
    if key != [] {
      EmptyTrieLookup(key[..|key| - 1]);
    }
  }

  /** Extending a table keeps every walk that succeeded, and a walk in the
   *  extended table that ends at an old node already ended there before. */
  lemma {:induction false} ExtendsKeepsWalk(before: seq<Node>, after: seq<Node>, key: seq<char>)
    requires Closed(before) && Closed(after) && Extends(before, after)
    ensures Walk(before, key).Some? ==> Walk(after, key) == Walk(before, key)
    ensures Walk(after, key).Some? && Walk(after, key).value < |before| ==> Walk(before, key) == Walk(after, key)
    decreases |key|
  {
    if key != [] {
      ExtendsKeepsWalk(before, after, key[..|key| - 1]);
    }
  }

  /** First writer wins: an extension answers every old key as before. */
  lemma ExtendsKeepsLookup(before: seq<Node>, after: seq<Node>, key: seq<char>)
    requires Closed(before) && Closed(after) && Extends(before, after)
    requires LookupIn(before, key).Some?
    ensures LookupIn(after, key) == LookupIn(before, key)
  {
    ExtendsKeepsWalk(before, after, key);
  }

  lemma ExtendsTransitive(a: seq<Node>, b: seq<Node>, c: seq<Node>)
    requires Extends(a, b) && Extends(b, c)
    ensures Extends(a, c)
  {
  }

  /** The table after `cursor.leaf_map.insert(c, Trie { span, leaf_map: {} })`. */
  function AddChild(nodes: seq<Node>, cursor: nat, c: char, span: Span): (r: seq<Node>)
    requires cursor < |nodes|
    ensures |r| == |nodes| + 1 && r[|nodes|] == Node(span, map[])
    ensures r[cursor].span == nodes[cursor].span && r[cursor].children == nodes[cursor].children[c := |nodes|]
    ensures forall i :: 0 <= i < |nodes| && i != cursor ==> r[i] == nodes[i]
  {
    nodes[cursor := nodes[cursor].(children := nodes[cursor].children[c := |nodes|])] + [Node(span, map[])]
  }

  /** Adding a missing child whose span is as long as its path keeps the
   *  table well formed and extends it. */
  lemma AddChildExtends(nodes: seq<Node>, paths: seq<seq<char>>, cursor: nat, c: char, start: nat)
    requires WellFormed(nodes, paths) && cursor < |nodes| && c !in nodes[cursor].children
    ensures WellFormed(AddChild(nodes, cursor, c, MakeSpan(start, |paths[cursor]| + 1)), paths + [paths[cursor] + [c]])
    ensures Extends(nodes, AddChild(nodes, cursor, c, MakeSpan(start, |paths[cursor]| + 1)))
  {
  }

  /** Every old key keeps its span in an extension. */
  lemma ExtendsKeepsLookups(before: seq<Node>, after: seq<Node>)
    requires Closed(before) && Closed(after) && Extends(before, after)
    ensures forall k :: LookupIn(before, k).Some? ==> LookupIn(after, k) == LookupIn(before, k)
  {
    forall k | LookupIn(before, k).Some?
      ensures LookupIn(after, k) == LookupIn(before, k)
    {
      ExtendsKeepsWalk(before, after, k);
    }
  }

  /** The state of `insert_one(key, start)` after `j` characters of `key`:
   *  the cursor is the node `key[..j]` leads to, and every node added to the
   *  table that was `before` spans from `start` and spells a prefix of
   *  `key[..j]`. */
  ghost predicate Descended(
    before: seq<Node>, beforePaths: seq<seq<char>>, nodes: seq<Node>, paths: seq<seq<char>>,
    key: seq<char>, start: nat, j: nat, cursor: nat)
  {
    && j <= |key|
    && Closed(before)
    && WellFormed(nodes, paths)
    && Extends(before, nodes) && beforePaths <= paths
    && Walk(nodes, key[..j]) == Some(cursor)
    && paths[cursor] == key[..j]
    && (forall m :: |before| <= m < |nodes| ==>
          nodes[m].span.start == start && |paths[m]| <= j && paths[m] == key[..|paths[m]|])
  }

  /** The next character has a child: move the cursor to it. */
  lemma FollowChild(
    before: seq<Node>, beforePaths: seq<seq<char>>, nodes: seq<Node>, paths: seq<seq<char>>,
    key: seq<char>, start: nat, j: nat, cursor: nat)
    requires Descended(before, beforePaths, nodes, paths, key, start, j, cursor)
    requires j < |key| && key[j] in nodes[cursor].children
    ensures Descended(before, beforePaths, nodes, paths, key, start, j + 1, nodes[cursor].children[key[j]])
  {
    assert key[..j + 1][..j] == key[..j];
    assert key[..j + 1] == key[..j] + [key[j]];
  }

  /** The next character has no child: add one spanning `span(start, j + 1)`
   *  and move the cursor to it. */
  lemma AddMissingChild(
    before: seq<Node>, beforePaths: seq<seq<char>>, nodes: seq<Node>, paths: seq<seq<char>>,
    key: seq<char>, start: nat, j: nat, cursor: nat)
    requires Descended(before, beforePaths, nodes, paths, key, start, j, cursor)
    requires j < |key| && key[j] !in nodes[cursor].children
    ensures key[j] in AddChild(nodes, cursor, key[j], MakeSpan(start, j + 1))[cursor].children
    ensures Descended(before, beforePaths, AddChild(nodes, cursor, key[j], MakeSpan(start, j + 1)),
                      paths + [key[..j + 1]], key, start, j + 1,
                      AddChild(nodes, cursor, key[j], MakeSpan(start, j + 1))[cursor].children[key[j]])
  {
    var after := AddChild(nodes, cursor, key[j], MakeSpan(start, j + 1));
    assert key[..j + 1] == key[..j] + [key[j]];
    AddChildExtends(nodes, paths, cursor, key[j], start);
    ExtendsKeepsWalk(nodes, after, key[..j]);
    ExtendsTransitive(before, nodes, after);
    assert key[..j + 1][..j] == key[..j];
  }

  /** After `insert_one(key, start)` the prefix `key[..j]` is found, and if
   *  it was new it spans `span(start, j)`. */
  lemma PrefixInserted(
    before: seq<Node>, beforePaths: seq<seq<char>>, nodes: seq<Node>, paths: seq<seq<char>>,
    key: seq<char>, start: nat, cursor: nat, j: nat)
    requires Descended(before, beforePaths, nodes, paths, key, start, |key|, cursor)
    requires j <= |key|
    ensures LookupIn(nodes, key[..j]).Some?
    ensures LookupIn(before, key[..j]).None? ==> LookupIn(nodes, key[..j]) == Some(MakeSpan(start, j))
  {
    assert key[..|key|] == key;
    OffStaysOff(nodes, key, j);
    ExtendsKeepsWalk(before, nodes, key[..j]);
    WalkSpellsPath(nodes, paths, key[..j]);
  }

  /** What `insert_one(key, start)` leaves: every prefix of `key` is found, a
   *  prefix that was new spans `span(start, its length)`, and old keys keep
   *  their spans. */
  lemma PrefixesInserted(
    before: seq<Node>, beforePaths: seq<seq<char>>, nodes: seq<Node>, paths: seq<seq<char>>,
    key: seq<char>, start: nat, cursor: nat)
    requires Descended(before, beforePaths, nodes, paths, key, start, |key|, cursor)
    ensures LookupIn(nodes, key) == Some(nodes[cursor].span)
    ensures forall j :: 0 <= j <= |key| ==> LookupIn(nodes, key[..j]).Some?
    ensures forall j :: 0 <= j <= |key| && LookupIn(before, key[..j]).None? ==>
              LookupIn(nodes, key[..j]) == Some(MakeSpan(start, j))
    ensures forall k :: LookupIn(before, k).Some? ==> LookupIn(nodes, k) == LookupIn(before, k)
  {
    assert key[..|key|] == key;
    forall j | 0 <= j <= |key|
      ensures LookupIn(nodes, key[..j]).Some?
      ensures LookupIn(before, key[..j]).None? ==> LookupIn(nodes, key[..j]) == Some(MakeSpan(start, j))
    {
      PrefixInserted(before, beforePaths, nodes, paths, key, start, cursor, j);
    }
    ExtendsKeepsLookups(before, nodes);
  }

  /** A key that spells to a node of `store` reads back from the store. */
  lemma LookupSpellsKey(nodes: seq<Node>, paths: seq<seq<char>>, store: seq<char>, key: seq<char>)
    requires WellFormed(nodes, paths) && TableSpelledBy(nodes, paths, store)
    requires LookupIn(nodes, key).Some?
    ensures LookupIn(nodes, key).value.start <= LookupIn(nodes, key).value.end <= |store|
    ensures store[LookupIn(nodes, key).value.start..LookupIn(nodes, key).value.end] == key
  {
    WalkSpellsPath(nodes, paths, key);
  }

  /** Over one store, a span is found for at most one key. */
  lemma LookupInjective(nodes: seq<Node>, paths: seq<seq<char>>, store: seq<char>, k1: seq<char>, k2: seq<char>)
    requires WellFormed(nodes, paths) && TableSpelledBy(nodes, paths, store)
    requires LookupIn(nodes, k1).Some? && LookupIn(nodes, k1) == LookupIn(nodes, k2)
    ensures k1 == k2
  {
    LookupSpellsKey(nodes, paths, store, k1);
    LookupSpellsKey(nodes, paths, store, k2);
  }

  /** Appending to the store keeps every old span's text. */
  lemma AppendKeepsSpelling(nodes: seq<Node>, paths: seq<seq<char>>, store: seq<char>, s: seq<char>)
    requires |paths| == |nodes| && TableSpelledBy(nodes, paths, store)
    ensures TableSpelledBy(nodes, paths, store + s)
  {
    forall i | 0 <= i < |nodes|
      ensures (store + s)[nodes[i].span.start..nodes[i].span.end] == paths[i]
    {
      assert (store + s)[nodes[i].span.start..nodes[i].span.end] == store[nodes[i].span.start..nodes[i].span.end];
    }
  }

  /** The interners' step: if `s` was appended at offset `|store|` and then
   *  inserted there, the new table is spelled by the grown store. */
  lemma InsertAfterAppendSpells(
    before: seq<Node>, beforePaths: seq<seq<char>>, nodes: seq<Node>, paths: seq<seq<char>>,
    store: seq<char>, s: seq<char>)
    requires WellFormed(before, beforePaths) && WellFormed(nodes, paths)
    requires Extends(before, nodes) && beforePaths <= paths
    requires TableSpelledBy(before, beforePaths, store)
    requires AddedSubstringNodes(|before|, nodes, paths, s, |store|)
    ensures TableSpelledBy(nodes, paths, store + s)
  {
    AppendKeepsSpelling(before, beforePaths, store, s);
    forall m | 0 <= m < |nodes|
      ensures nodes[m].span.start <= nodes[m].span.end <= |store + s|
      ensures (store + s)[nodes[m].span.start..nodes[m].span.end] == paths[m]
    {
      if m < |before| {
        assert paths[m] == beforePaths[m];
      } else {
        var a := nodes[m].span.start - |store|;
        assert (store + s)[nodes[m].span.start..nodes[m].span.end] == s[a..a + |paths[m]|];
      }
    }
  }

  /** A key present after `insert(key, start)` and absent before is a
   *  substring of `key`, held at its occurrence in `key`: insert adds
   *  nothing else. */
  lemma AddedKeysAreSubstrings(
    before: seq<Node>, nodes: seq<Node>, paths: seq<seq<char>>, key: seq<char>, start: nat, k: seq<char>)
    requires Closed(before) && WellFormed(nodes, paths) && Extends(before, nodes)
    requires AddedSubstringNodes(|before|, nodes, paths, key, start)
    requires LookupIn(nodes, k).Some? && LookupIn(before, k).None?
    ensures start <= LookupIn(nodes, k).value.start
    ensures LookupIn(nodes, k).value.end - start <= |key|
    ensures key[LookupIn(nodes, k).value.start - start..LookupIn(nodes, k).value.end - start] == k
  {
    ExtendsKeepsWalk(before, nodes, k);
    WalkSpellsPath(nodes, paths, k);
  }

  /** So a key that was not held before and is no substring of `key` is
   *  still not held after `insert(key, start)`. */
  lemma NoOtherKeysAdded(
    before: seq<Node>, nodes: seq<Node>, paths: seq<seq<char>>, key: seq<char>, start: nat, k: seq<char>)
    requires Closed(before) && WellFormed(nodes, paths) && Extends(before, nodes)
    requires AddedSubstringNodes(|before|, nodes, paths, key, start)
    requires LookupIn(before, k).None?
    requires forall i, j :: 0 <= i <= j <= |key| ==> key[i..j] != k
    ensures LookupIn(nodes, k).None?
  {
    if LookupIn(nodes, k).Some? {
      AddedKeysAreSubstrings(before, nodes, paths, key, start, k);
      assert false;
    }
  }

  /** Every substring of a held key is held too: what a suffix trie is for. */
  ghost predicate SubstringClosed(nodes: seq<Node>)
    requires Closed(nodes)
  {
    forall k, i, j {:trigger LookupIn(nodes, k), k[i..j]} ::
      LookupIn(nodes, k).Some? && 0 <= i <= j <= |k| ==> LookupIn(nodes, k[i..j]).Some?
  }

  /** The empty trie holds only the empty key, whose one substring is itself. */
  lemma EmptyTrieSubstringClosed()
    ensures SubstringClosed([Root])
  {
    forall k, i, j | LookupIn([Root], k).Some? && 0 <= i <= j <= |k|
      ensures LookupIn([Root], k[i..j]).Some?
    {
      EmptyTrieLookup(k);
      EmptyTrieLookup(k[i..j]);
    }
  }

  /** `insert(key, start)` keeps the trie substring-closed: an old key's
   *  substrings were held before and keep their spans, and a new key is a
   *  substring of `key`, so its substrings are substrings of `key`, which
   *  are all held. */
  lemma InsertKeepsSubstringClosed(
    before: seq<Node>, nodes: seq<Node>, paths: seq<seq<char>>, key: seq<char>, start: nat)
    requires Closed(before) && WellFormed(nodes, paths) && Extends(before, nodes)
    requires SubstringClosed(before)
    requires AddedSubstringNodes(|before|, nodes, paths, key, start)
    requires forall i, j :: 0 <= i <= j <= |key| ==> LookupIn(nodes, key[i..j]).Some?
    ensures SubstringClosed(nodes)
  {
    forall k, i, j | LookupIn(nodes, k).Some? && 0 <= i <= j <= |k|
      ensures LookupIn(nodes, k[i..j]).Some?
    {
      SubstringOfHeld(before, nodes, paths, key, start, k, i, j);
    }
  }

  lemma SubstringOfHeld(
    before: seq<Node>, nodes: seq<Node>, paths: seq<seq<char>>, key: seq<char>, start: nat,
    k: seq<char>, i: nat, j: nat)
    requires Closed(before) && WellFormed(nodes, paths) && Extends(before, nodes)
    requires SubstringClosed(before)
    requires AddedSubstringNodes(|before|, nodes, paths, key, start)
    requires forall i, j :: 0 <= i <= j <= |key| ==> LookupIn(nodes, key[i..j]).Some?
    requires LookupIn(nodes, k).Some? && i <= j <= |k|
    ensures LookupIn(nodes, k[i..j]).Some?
  {
    if LookupIn(before, k).Some? {
      assert LookupIn(before, k[i..j]).Some?;
      ExtendsKeepsLookup(before, nodes, k[i..j]);
    } else {
      AddedKeysAreSubstrings(before, nodes, paths, key, start, k);
      var a := LookupIn(nodes, k).value.start - start;
      assert k == key[a..a + |k|];
      assert a + j <= |key|;
      assert forall x :: 0 <= x < j - i ==> k[i..j][x] == key[a + i..a + j][x];
      assert k[i..j] == key[a + i..a + j];
    }
  }

  /** Every key `insert(key, start)` adds is held at an offset from `start` on. */
  lemma AddedKeysFrom(
    before: seq<Node>, nodes: seq<Node>, paths: seq<seq<char>>, key: seq<char>, start: nat)
    requires Closed(before) && WellFormed(nodes, paths) && Extends(before, nodes)
    requires AddedSubstringNodes(|before|, nodes, paths, key, start)
    ensures forall k :: LookupIn(before, k).None? && LookupIn(nodes, k).Some? ==> start <= LookupIn(nodes, k).value.start
  {
    forall k | LookupIn(before, k).None? && LookupIn(nodes, k).Some?
      ensures start <= LookupIn(nodes, k).value.start
    {
      AddedKeysAreSubstrings(before, nodes, paths, key, start, k);
    }
  }

  /** The state of `insert(key, start)` once the suffixes `key[a..]`,
   *  `a < i`, have been inserted into the table that was `before`: the
   *  table grew from `before`, and each added node holds a substring of
   *  `key` at an offset below `i` ... */
  ghost predicate SuffixNodes(
    before: seq<Node>, nodes: seq<Node>, paths: seq<seq<char>>, key: seq<char>, start: nat, i: nat)
  {
    && Closed(before)
    && WellFormed(nodes, paths)
    && Extends(before, nodes)
    && AddedSubstringNodes(|before|, nodes, paths, key, start)
    && (forall m :: |before| <= m < |nodes| ==> nodes[m].span.start < start + i)
  }

  /** ... and every substring starting below `i` is found, at an added node
   *  only if that node's offset is no later than the substring's. */
  ghost predicate SuffixesFound(before: seq<Node>, nodes: seq<Node>, key: seq<char>, start: nat, i: nat)
    requires Closed(nodes)
  {
    forall a, b :: 0 <= a < i && a <= b <= |key| ==>
      Walk(nodes, key[a..b]).Some? &&
      (Walk(nodes, key[a..b]).value >= |before| ==> nodes[Walk(nodes, key[a..b]).value].span.start <= start + a)
  }

  ghost predicate SuffixesInserted(
    before: seq<Node>, nodes: seq<Node>, paths: seq<seq<char>>, key: seq<char>, start: nat, i: nat)
  {
    SuffixNodes(before, nodes, paths, key, start, i) && SuffixesFound(before, nodes, key, start, i)
  }

  /** Before the first suffix nothing has been added. */
  lemma NoSuffixesYet(before: seq<Node>, paths: seq<seq<char>>, key: seq<char>, start: nat)
    requires WellFormed(before, paths)
    ensures SuffixesInserted(before, before, paths, key, start, 0)
  {
  }

  /** One more suffix, for the nodes: `insert_one(key[i..], start + i)` adds
   *  nodes at offset `i`. */
  lemma SuffixNodesStep(
    before: seq<Node>, mid: seq<Node>, midPaths: seq<seq<char>>, nodes: seq<Node>, paths: seq<seq<char>>,
    key: seq<char>, start: nat, i: nat)
    requires i <= |key|
    requires SuffixNodes(before, mid, midPaths, key, start, i)
    requires WellFormed(nodes, paths) && Extends(mid, nodes) && midPaths <= paths
    requires AddedPrefixNodes(|mid|, nodes, paths, key[i..], start + i)
    ensures SuffixNodes(before, nodes, paths, key, start, i + 1)
  {
    ExtendsTransitive(before, mid, nodes);
    forall m | |before| <= m < |nodes|
      ensures start <= nodes[m].span.start < start + i + 1
      ensures nodes[m].span.start - start + |paths[m]| <= |key|
      ensures paths[m] == key[nodes[m].span.start - start..nodes[m].span.start - start + |paths[m]|]
    {
      if m < |mid| {
        assert paths[m] == midPaths[m];
      } else {
        assert key[i..][..|paths[m]|] == key[i..i + |paths[m]|];
      }
    }
  }

  /** One more suffix, for one substring `key[a..b]`, `a <= i`. */
  lemma SubstringFoundStep(
    before: seq<Node>, mid: seq<Node>, nodes: seq<Node>, paths: seq<seq<char>>,
    key: seq<char>, start: nat, i: nat, a: nat, b: nat)
    requires a <= i <= |key| && a <= b <= |key|
    requires Closed(before) && Closed(mid) && WellFormed(nodes, paths) && Extends(before, mid) && Extends(mid, nodes)
    requires forall m :: |before| <= m < |mid| ==> mid[m].span.start < start + i
    requires SuffixesFound(before, mid, key, start, i)
    requires AddedPrefixNodes(|mid|, nodes, paths, key[i..], start + i)
    requires forall j :: 0 <= j <= |key[i..]| ==> Walk(nodes, key[i..][..j]).Some?
    ensures Walk(nodes, key[a..b]).Some?
    ensures Walk(nodes, key[a..b]).value >= |before| ==> nodes[Walk(nodes, key[a..b]).value].span.start <= start + a
  {
    if a == i {
      assert key[a..b] == key[i..][..b - i];
    }
    ExtendsKeepsWalk(mid, nodes, key[a..b]);
  }

  /** One more suffix, for the substrings: those starting at `i` are now
   *  found too. */
  lemma SuffixesFoundStep(
    before: seq<Node>, mid: seq<Node>, midPaths: seq<seq<char>>, nodes: seq<Node>, paths: seq<seq<char>>,
    key: seq<char>, start: nat, i: nat)
    requires i <= |key|
    requires SuffixesInserted(before, mid, midPaths, key, start, i)
    requires WellFormed(nodes, paths) && Extends(mid, nodes)
    requires AddedPrefixNodes(|mid|, nodes, paths, key[i..], start + i)
    requires forall j :: 0 <= j <= |key[i..]| ==> Walk(nodes, key[i..][..j]).Some?
    ensures SuffixesFound(before, nodes, key, start, i + 1)
  {
    forall a, b | 0 <= a < i + 1 && a <= b <= |key|
      ensures Walk(nodes, key[a..b]).Some?
      ensures Walk(nodes, key[a..b]).value >= |before| ==> nodes[Walk(nodes, key[a..b]).value].span.start <= start + a
    {
      SubstringFoundStep(before, mid, nodes, paths, key, start, i, a, b);
    }
  }

  /** One more suffix: `insert_one(key[i..], start + i)` takes the state at
   *  `i` to the state at `i + 1`. */
  lemma SuffixStep(
    before: seq<Node>, mid: seq<Node>, midPaths: seq<seq<char>>, nodes: seq<Node>, paths: seq<seq<char>>,
    key: seq<char>, start: nat, i: nat)
    requires i <= |key|
    requires SuffixesInserted(before, mid, midPaths, key, start, i)
    requires WellFormed(nodes, paths) && Extends(mid, nodes) && midPaths <= paths
    requires AddedPrefixNodes(|mid|, nodes, paths, key[i..], start + i)
    requires forall j :: 0 <= j <= |key[i..]| ==> LookupIn(nodes, key[i..][..j]).Some?
    ensures SuffixesInserted(before, nodes, paths, key, start, i + 1)
  {
    SuffixNodesStep(before, mid, midPaths, nodes, paths, key, start, i);
    SuffixesFoundStep(before, mid, midPaths, nodes, paths, key, start, i);
  }

  /** The loop of `insert(key, start)` after `i` suffixes, with the span
   *  `r` the first `insert_one` answered. */
  ghost predicate InsertingSuffixes(
    before: seq<Node>, beforePaths: seq<seq<char>>, nodes: seq<Node>, paths: seq<seq<char>>,
    key: seq<char>, start: nat, i: nat, r: Span)
  {
    && SuffixesInserted(before, nodes, paths, key, start, i)
    && beforePaths <= paths
    && LookupIn(nodes, key) == Some(r)
    && (LookupIn(before, key).None? ==> r == MakeSpan(start, |key|))
  }

  /** The first `insert_one(key, start)` starts the loop. */
  lemma FirstSuffix(
    before: seq<Node>, beforePaths: seq<seq<char>>, nodes: seq<Node>, paths: seq<seq<char>>,
    key: seq<char>, start: nat, r: Span)
    requires WellFormed(before, beforePaths)
    requires WellFormed(nodes, paths) && Extends(before, nodes) && beforePaths <= paths
    requires AddedPrefixNodes(|before|, nodes, paths, key, start)
    requires forall j :: 0 <= j <= |key| ==> LookupIn(nodes, key[..j]).Some?
    requires LookupIn(before, key).None? ==> LookupIn(nodes, key) == Some(MakeSpan(start, |key|))
    requires LookupIn(nodes, key) == Some(r)
    ensures InsertingSuffixes(before, beforePaths, nodes, paths, key, start, 1, r)
  {
    assert key[0..] == key;
    NoSuffixesYet(before, beforePaths, key, start);
    SuffixStep(before, before, beforePaths, nodes, paths, key, start, 0);
  }

  /** Each later `insert_one(key[i..], start + i)` keeps the loop going. */
  lemma NextSuffix(
    before: seq<Node>, beforePaths: seq<seq<char>>, mid: seq<Node>, midPaths: seq<seq<char>>,
    nodes: seq<Node>, paths: seq<seq<char>>, key: seq<char>, start: nat, i: nat, r: Span)
    requires i <= |key|
    requires InsertingSuffixes(before, beforePaths, mid, midPaths, key, start, i, r)
    requires WellFormed(nodes, paths) && Extends(mid, nodes) && midPaths <= paths
    requires AddedPrefixNodes(|mid|, nodes, paths, key[i..], start + i)
    requires forall j :: 0 <= j <= |key[i..]| ==> LookupIn(nodes, key[i..][..j]).Some?
    ensures InsertingSuffixes(before, beforePaths, nodes, paths, key, start, i + 1, r)
  {
    SuffixStep(before, mid, midPaths, nodes, paths, key, start, i);
    ExtendsKeepsLookup(mid, nodes, key);
  }

  /** Once every suffix is in, every substring `key[i..j]` is found, one
   *  that was new is placed at an occurrence no later than offset `i`, and
   *  every old key keeps its span. */
  lemma AllSuffixesInserted(before: seq<Node>, nodes: seq<Node>, paths: seq<seq<char>>, key: seq<char>, start: nat)
    requires SuffixesInserted(before, nodes, paths, key, start, |key| + 1)
    ensures forall k :: LookupIn(before, k).Some? ==> LookupIn(nodes, k) == LookupIn(before, k)
    ensures forall i, j :: 0 <= i <= j <= |key| ==>
      LookupIn(nodes, key[i..j]).Some? &&
      (LookupIn(before, key[i..j]).None? ==> PlacedAtOrBefore(LookupIn(nodes, key[i..j]).value, key, start, key[i..j], i))
  {
    ExtendsKeepsLookups(before, nodes);
    forall i, j | 0 <= i <= j <= |key|
      ensures LookupIn(nodes, key[i..j]).Some?
      ensures LookupIn(before, key[i..j]).None? ==> PlacedAtOrBefore(LookupIn(nodes, key[i..j]).value, key, start, key[i..j], i)
    {
      SubstringPlaced(before, nodes, paths, key, start, i, j);
    }
  }

  lemma SubstringPlaced(before: seq<Node>, nodes: seq<Node>, paths: seq<seq<char>>, key: seq<char>, start: nat, i: nat, j: nat)
    requires SuffixesInserted(before, nodes, paths, key, start, |key| + 1)
    requires i <= j <= |key|
    ensures LookupIn(nodes, key[i..j]).Some?
    ensures LookupIn(before, key[i..j]).None? ==> PlacedAtOrBefore(LookupIn(nodes, key[i..j]).value, key, start, key[i..j], i)
  {
    assert Walk(nodes, key[i..j]).Some?;
    var n := Walk(nodes, key[i..j]).value;
    ExtendsKeepsWalk(before, nodes, key[i..j]);
    WalkSpellsPath(nodes, paths, key[i..j]);
    if LookupIn(before, key[i..j]).None? {
      assert n >= |before|;
      var a := nodes[n].span.start - start;
      assert a <= i;
      assert paths[n] == key[a..a + |paths[n]|];
    }
  }

  /** `sub` occurs in `key` at offset `a`. */
  ghost predicate OccursAt(key: seq<char>, sub: seq<char>, a: nat) {
    a + |sub| <= |key| && key[a..a + |sub|] == sub
  }

  /** Held as `insert` places it, a new substring sits at its first
   *  occurrence in `key`. */
  lemma PlacedAtFirstOccurrence(sp: Span, key: seq<char>, start: nat, sub: seq<char>, i: nat)
    requires PlacedAtOrBefore(sp, key, start, sub, i)
    requires forall a :: 0 <= a < i ==> !OccursAt(key, sub, a)
    ensures sp == MakeSpan(start + i, |sub|)
  {
    assert OccursAt(key, sub, sp.start - start);
  }

  // ---------------------------------------------------------------- the trie

  /** `Trie<char>`: the node table and, as ghost state, each node's path. */
  class Trie {
    var nodes: seq<Node>
    ghost var paths: seq<seq<char>>

    ghost predicate Valid()
      reads this
    {
      WellFormed(nodes, paths)
    }

    /** The span a lookup of `key` finds, if any. */
    ghost function Lookup(key: seq<char>): Option<Span>
      reads this
      requires Valid()
    {
      LookupIn(nodes, key)
    }

    /** All spans lie in `store` and `store` holds each node's path there. */
    ghost predicate SpelledBy(store: seq<char>)
      reads this
      requires Valid()
    {
      TableSpelledBy(nodes, paths, store)
    }

    /** `Trie::new`: only the root, with span `0..0` and no children. */
    constructor ()
      ensures Valid() && nodes == [Root]
      ensures forall key :: Lookup(key) == if key == [] then Some(Span(0, 0)) else None
    {
      nodes := [Root];
      paths := [[]];
      new;
      forall key
        ensures Lookup(key) == if key == [] then Some(Span(0, 0)) else None
      {
        EmptyTrieLookup(key);
      }
    }

    /** `get`: walk `key` from the root; None as soon as a character has no
     *  child. The trie is left as it was. */
    method Get(key: seq<char>) returns (r: Option<Span>)
      requires Valid()
      ensures r == Lookup(key)
      ensures r.Some? ==> r.value.end == r.value.start + |key|
    {
      var cursor := 0;
      var j := 0;
      while j < |key|
        invariant 0 <= j <= |key|
        invariant Walk(nodes, key[..j]) == Some(cursor)
      {
        var c := key[j];
        if c !in nodes[cursor].children {
          FallsOff(nodes, key, j);
          return None;
        }
        assert key[..j + 1][..j] == key[..j];
        cursor := nodes[cursor].children[c];
        j := j + 1;
      }
      assert key[..j] == key;
      r := Some(nodes[cursor].span);
      WalkSpellsPath(nodes, paths, key);
    }

    /** `insert_one`: walk `key`, adding a node with span `span(start, d)`
     *  wherever the child at depth `d` is missing; existing nodes are never
     *  overwritten. Answers the span the full key ends at. */
    method InsertOne(key: seq<char>, start: nat) returns (r: Span)
      requires Valid()
      modifies this
      ensures Valid()
      ensures Extends(old(nodes), nodes) && old(paths) <= paths
      ensures AddedPrefixNodes(old(|nodes|), nodes, paths, key, start)
      ensures forall j :: 0 <= j <= |key| ==> LookupIn(nodes, key[..j]).Some?
      ensures forall j :: 0 <= j <= |key| && LookupIn(old(nodes), key[..j]).None? ==>
                LookupIn(nodes, key[..j]) == Some(MakeSpan(start, j))
      ensures forall k :: LookupIn(old(nodes), k).Some? ==> LookupIn(nodes, k) == LookupIn(old(nodes), k)
      ensures LookupIn(nodes, key) == Some(r)
    {
      ghost var before, beforePaths := nodes, paths;
      var cursor: nat := 0;
      var j: nat := 0;
      while j < |key|
        invariant Descended(before, beforePaths, nodes, paths, key, start, j, cursor)
      {
        var c := key[j];
        if c !in nodes[cursor].children {
          AddMissingChild(before, beforePaths, nodes, paths, key, start, j, cursor);
          nodes := AddChild(nodes, cursor, c, MakeSpan(start, j + 1));
          paths := paths + [key[..j + 1]];
        } else {
          FollowChild(before, beforePaths, nodes, paths, key, start, j, cursor);
        }
        cursor := nodes[cursor].children[c];
        j := j + 1;
      }
      r := nodes[cursor].span;
      PrefixesInserted(before, beforePaths, nodes, paths, key, start, cursor);
    }

    /** `insert`: `insert_one(key[i..], start + i)` for every `i` from 0 to
     *  `|key|`, giving the span the first call answers. */
    method Insert(key: seq<char>, start: nat) returns (r: Span)
      requires Valid()
      modifies this
      ensures Valid()
      ensures Extends(old(nodes), nodes) && old(paths) <= paths
      ensures AddedSubstringNodes(old(|nodes|), nodes, paths, key, start)
      ensures LookupIn(nodes, key) == Some(r)
      ensures LookupIn(old(nodes), key).None? ==> r == MakeSpan(start, |key|)
      ensures forall k :: LookupIn(old(nodes), k).Some? ==> LookupIn(nodes, k) == LookupIn(old(nodes), k)
      ensures forall i, j :: 0 <= i <= j <= |key| ==>
                LookupIn(nodes, key[i..j]).Some? &&
                (LookupIn(old(nodes), key[i..j]).None? ==> PlacedAtOrBefore(LookupIn(nodes, key[i..j]).value, key, start, key[i..j], i))
    {
      ghost var before, beforePaths := nodes, paths;
      r := InsertOne(key, start);
      assert key[..|key|] == key;
      FirstSuffix(before, beforePaths, nodes, paths, key, start, r);
      var i: nat := 1;
      while i <= |key|
        invariant i <= |key| + 1
        invariant InsertingSuffixes(before, beforePaths, nodes, paths, key, start, i, r)
      {
        ghost var mid, midPaths := nodes, paths;
        var _ := InsertOne(key[i..], start + i);
        NextSuffix(before, beforePaths, mid, midPaths, nodes, paths, key, start, i, r);
        i := i + 1;
      }
      AllSuffixesInserted(before, nodes, paths, key, start);
    }
  }
}
