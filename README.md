# crispy-strings, modelled in Dafny

crispy-strings is a Rust string interner. It has two flavours.
- A single-owner `Interner`, in src/unsync/interning.rs.
- A thread-shared `Interner`, in src/sync/interning.rs.

Both flavours append every new string to one growing `String` store. Both index the store with a suffix trie, in src/sync/trie.rs, which holds every substring of every interned string. Interning answers a handle, `Intern`, which is a span of the store plus a reference to the interner. A string already held is found in the trie and appended to nothing. `get_ref` on a handle answers an `InternRef` that reads the span's text. While any `InternRef` is alive, the store must not change. The interners therefore count live refs and refuse, or wait, to intern while any is counted.

The model has one module per core file, plus two shared modules.
- `Common` (common.dfy): the option, result and panic kinds, and the `Location` tag that `get_ref` records.
- `SuffixTrie` (trie.dfy): the trie as a table of nodes. Node 0 is the root. A node's children map a character to a node index. A ghost field keeps the key that spells each node's path. `Trie.Get`, `Trie.InsertOne` and `Trie.Insert` are loops over the key, as in the source.
- `InternStore` (intern_store.dfy): the store and its index. Both interners hold this pair. It contains the shared lookup-or-append step, `intern_uncontested`.
- `UnsyncInterning` (unsync_interning.dfy): the single-owner interner, its handle and ref, and the two unit tests of that file.
- `SyncInterning` (sync_interning.dfy): the shared interner.
  - It keeps the total ref count and the per-thread counts. The invariant is that the total is the sum of the per-thread counts.
  - The calling thread is a parameter.
  - The condition-variable wait is a returned `waited` flag, and the wake-up in `drop` is a returned `notify` flag.
  - It also holds the two unit tests of that file.
- `ByteOffsets` (byte_offsets.dfy): the store as UTF-8 bytes, for the finding below.

Panics are values: each operation returns `Outcome.Panicked(kind)`. It leaves the state as it was at the point of the panic.

Spans are counted in characters, and the store is a sequence of characters. The source counts span starts in bytes, so this model keeps the behaviour the code evidently intends. See "## Findings".

A release build of the single-owner interner never records `last_ref`. So `try_intern` with a live ref reaches `unwrap` on `None` at src/unsync/interning.rs:59 and panics, instead of returning the error. The model carries the build profile as `Interner.debugAssertions` and states both builds.

## Model

| member | source | states |
|---|---|---|
| SuffixTrie.MakeSpan | src/sync/trie.rs:5-7 | the span starts at `start` and covers exactly `length` offsets |
| SuffixTrie.Walk | src/sync/trie.rs:27-37 | a walk from the root that does not fall off ends at a node of the table |
| SuffixTrie.WalkSpellsPath | src/sync/trie.rs:66-83 | the node a key leads to has that key as its path, so a found span is exactly as long as the key |
| SuffixTrie.OffStaysOff | src/sync/trie.rs:33 | once a walk has no child for a character it answers None, whatever characters follow |
| SuffixTrie.FallsOff | src/sync/trie.rs:30-35 | a missing child at any depth makes the lookup None, never the span of the node where the walk stopped |
| SuffixTrie.EmptyTrieLookup | src/sync/trie.rs:16-21 | a fresh trie finds span 0..0 for the empty key and nothing for any other key |
| SuffixTrie.ExtendsKeepsWalk | src/sync/trie.rs:71-80 | growing the table without overwriting keeps every successful walk, and a walk that now ends at an old node ended there before |
| SuffixTrie.ExtendsKeepsLookup | src/sync/trie.rs:71-80 | first writer wins: after growth every key held before is found at its old span |
| SuffixTrie.ExtendsTransitive | src/sync/trie.rs:45-55 | two successive growths are one growth, so repeated insertions never overwrite |
| SuffixTrie.ExtendsKeepsLookups | src/sync/trie.rs:71-80 | every key held before a growth keeps its span after it |
| SuffixTrie.AddChild | src/sync/trie.rs:73-79 | the table gains one node, with the given span and no children, at the end; the cursor's child for `c` points at it; the cursor's span and every other node are unchanged |
| SuffixTrie.AddChildExtends | src/sync/trie.rs:72-80 | adding a missing child with `span(start, depth)` keeps the table well formed and grows it without overwriting |
| SuffixTrie.LookupSpellsKey | src/unsync/interning.rs:65-69 | when the store spells every node's path, the store's text at a found span is the key |
| SuffixTrie.LookupInjective | src/unsync/interning.rs:119-122 | over one store two keys found at the same span are the same key |
| SuffixTrie.AppendKeepsSpelling | src/unsync/interning.rs:67 | appending to the store keeps the text at every old span |
| SuffixTrie.InsertAfterAppendSpells | src/unsync/interning.rs:65-69 | appending a new key at the store's length and then inserting it there leaves every node spelled by the grown store |
| SuffixTrie.AddedKeysAreSubstrings | src/sync/trie.rs:40-58 | a key that `insert` made findable is a substring of the inserted key, held at its offset in that key |
| SuffixTrie.NoOtherKeysAdded | src/sync/trie.rs:40-58 | a key absent before `insert` and not a substring of the inserted key is still absent after it |
| SuffixTrie.AllSuffixesInserted | src/sync/trie.rs:45-55 | once every suffix is inserted, every substring is found, a new one at an occurrence no later than its own offset, and old keys keep their spans |
| SuffixTrie.PlacedAtFirstOccurrence | src/sync/trie.rs:45-55 | a substring placed as `insert` places it, asked for at its first occurrence in the key, has exactly the span `span(start + offset, len)` of that occurrence |
| SuffixTrie.EmptyTrieSubstringClosed | src/sync/trie.rs:16-21 | the fresh trie holds every substring of every key it holds |
| SuffixTrie.SubstringOfHeld | src/sync/trie.rs:45-55 | after `insert` into a trie that held every substring of its keys, any substring of a held key is held: an old key's substrings were held already, and a new key is a substring of the inserted key |
| SuffixTrie.InsertKeepsSubstringClosed | src/sync/trie.rs:45-55 | `insert` keeps the trie holding every substring of every key it holds |
| SuffixTrie.AddedKeysFrom | src/sync/trie.rs:40-58 | every key `insert(key, start)` adds is held at an offset from `start` on |
| SuffixTrie.Trie.constructor | src/sync/trie.rs:16-21 | a table with only the root, span 0..0 and no children; the lookup finds the empty key there and nothing else |
| SuffixTrie.Trie.Get | src/sync/trie.rs:23-38 | answers exactly the lookup of the key in the unchanged trie; a found span is as long as the key |
| SuffixTrie.Trie.InsertOne | src/sync/trie.rs:60-86 | every prefix of the key becomes findable; each new prefix of length `j` gets `span(start, j)`; old keys keep their spans; the answer is the full key's span |
| SuffixTrie.Trie.Insert | src/sync/trie.rs:40-58 | every substring of the key becomes findable; a new one is held at an occurrence in the key no later than the one asked about, hence at its first occurrence; a key new to the trie gets `span(start, len)`; old keys keep their spans; added nodes hold only substrings |
| InternStore.Store.constructor | src/unsync/interning.rs:22-29 | an empty store under `Trie::new()`: only the empty key is found, at 0..0 |
| InternStore.Store.FoundSpells | src/unsync/interning.rs:95-96 | the store's text at the span found for a key is that key, so the slice in `get_ref` reads it back |
| InternStore.Store.AllFoundSpell | src/unsync/interning.rs:31-33 | for every key the index holds, the store reads that key at its span |
| InternStore.Store.FindInjective | src/unsync/interning.rs:119-122 | two held keys have equal spans exactly when they are equal |
| InternStore.Store.InternUncontested | src/sync/interning.rs:32-42 | a held key gets its old span with the store and index unchanged; a new key is appended and gets the span from the old store length; either way the key and every substring of it are found (the store keeps every substring of every held key findable), the store reads the key, old keys keep their spans, a key found only now lies in the appended text, a substring of a new key that was not found before is placed at or before its offset in the key (so at its first occurrence), and the store only grows |
| UnsyncInterning.Interner.constructor | src/unsync/interning.rs:22-29 | an empty store and index, no refs, and no recorded location |
| UnsyncInterning.Interner.ExtractStore | src/unsync/interning.rs:31-33 | the returned store reads every interned key at that key's span |
| UnsyncInterning.Interner.TryIntern | src/unsync/interning.rs:54-75 | with a live ref it returns the error naming the last ref's location (a debug build) or panics on `unwrap` (a release build), with nothing changed; with none it interns as `InternUncontested` does; the counts are never touched |
| UnsyncInterning.Interner.Intern | src/unsync/interning.rs:35-50 | panics exactly when a ref is alive, naming the last ref's location in a debug build; otherwise interns as `TryIntern` does |
| UnsyncInterning.Interner.HandlesEqualIffSameText | src/unsync/interning.rs:119-122 | two handles of one interner are equal exactly when they were interned for the same text |
| UnsyncInterning.Intern.GetRef | src/unsync/interning.rs:87-101 | one more live ref is counted; a debug build records the caller; the ref reads the store at the span, and a span outside the store panics |
| UnsyncInterning.Intern.Eq | src/unsync/interning.rs:119-122 | equal exactly when the interner and the span are |
| UnsyncInterning.InternRef.Drop | src/unsync/interning.rs:151-158 | with no ref counted it panics and changes nothing; otherwise one ref fewer |
| UnsyncInterning.ReadRef | src/unsync/interning.rs:173-175 | a ref taken and dropped in one statement reads the handle's text and leaves the count as it was |
| UnsyncInterning.InternHelloGoodbyeHello | src/unsync/interning.rs:168-171 | "hello" interned twice gives equal handles, each found for its text, with no ref alive |
| UnsyncInterning.InternerTest | src/unsync/interning.rs:166-182 | the two "hello" handles are equal, the "goodbye" handle differs, and the texts read through their refs are "hello", "hello" and "goodbye" |
| UnsyncInterning.InternFreshHello | src/unsync/interning.rs:35-50 | a new interner that interns "hello" has the store "hello", no ref alive, and a handle whose span is the one found for "hello" |
| UnsyncInterning.LlInHello | src/sync/trie.rs:45-55 | a store holding "hello" also finds its substring "ll" |
| UnsyncInterning.NoHoInHello | src/sync/trie.rs:93-112 | no two-character slice of "hello" is "ho" |
| UnsyncInterning.HoNotInHello | src/sync/trie.rs:23-37 | a store reading only "hello" finds neither "ho" nor "hoho" |
| UnsyncInterning.InternHohoAfterHello | src/sync/trie.rs:45-55 | interning "hoho" into a store reading "hello" appends it at 5..9, and its substring "ho" is then found at its first occurrence, 5..7 |
| UnsyncInterning.InternHelloHohoTest | src/sync/trie.rs:103-107 | "hello" then "hoho": the store reads "hellohoho", "hoho" is at 5..9 and "ho" at 5..7, the spans of the trie's test shifted to the store's offset |
| UnsyncInterning.InternSubstringReusesStore | src/sync/trie.rs:47-55 | after "hello" is interned, interning "ll" leaves the store "hello" and answers a span at which the store reads "ll" |
| UnsyncInterning.InternWhileHoldingTest | src/unsync/interning.rs:184-191 | interning while a ref is alive panics, naming the location of that ref |
| SyncInterning.TotalRemove | src/sync/interning.rs:26-27 | the sum of the per-thread counts splits off any one thread's count |
| SyncInterning.TotalUpdate | src/sync/interning.rs:215-222 | setting one thread's count changes the sum by the difference, and no thread's count exceeds the sum |
| SyncInterning.TotalZero | src/sync/interning.rs:292-300 | the sum is 0 exactly when every thread's count is 0 |
| SyncInterning.Interner.constructor | src/sync/interning.rs:47-58 | an empty store and index, no refs, no per-thread counts, no recorded location |
| SyncInterning.Interner.NoRefsIffNoThreadHolds | src/sync/interning.rs:298-300 | no ref is counted exactly when no thread holds one, which is when waiters are woken |
| SyncInterning.Interner.Intern | src/sync/interning.rs:81-112 | panics exactly when the calling thread holds a ref, naming the last ref's location, with nothing changed; otherwise the thread gets a count of 0 if it had none, waits exactly when refs are held, and interns as `InternUncontested` does |
| SyncInterning.Interner.TryIntern | src/sync/interning.rs:134-159 | the same, with the refusal returned as `OutstandingLocalRef` carrying the last ref's location |
| SyncInterning.Interner.HandlesEqualIffSameText | src/sync/interning.rs:248-252 | two handles of one interner are equal exactly when they were interned for the same text |
| SyncInterning.Intern.GetRef | src/sync/interning.rs:209-230 | records the caller, counts one more ref in all and in the calling thread (its first, if it had none), keeps the sum invariant, and reads the store at the span, panicking outside it |
| SyncInterning.Intern.Eq | src/sync/interning.rs:248-252 | equal exactly when the interner and the span are |
| SyncInterning.InternRef.Drop | src/sync/interning.rs:277-301 | a thread with no count is unreachable, and a count of 0 panics, both with nothing changed; otherwise the thread's count and the total each drop by one, and waiters are woken exactly when the total reaches 0 |
| SyncInterning.ReadRef | src/sync/interning.rs:336-338 | a ref taken and dropped in one statement reads the handle's text and leaves the total count as it was |
| SyncInterning.InternHelloGoodbyeHello | src/sync/interning.rs:331-334 | "hello" interned twice gives equal handles, each found for its text, with no ref alive |
| SyncInterning.InternerTest | src/sync/interning.rs:329-345 | the two "hello" handles are equal, the "goodbye" handle differs, and the texts read through their refs are "hello", "hello" and "goodbye" |
| SyncInterning.InternWhileHoldingTest | src/sync/interning.rs:347-354 | a thread that interns while holding a ref panics, naming the location of that ref |
| ByteOffsets.EncodeChar | src/unsync/interning.rs:67 | a character's UTF-8 encoding (section 3 of RFC 3629) is 1 to 4 bytes, and 1 byte exactly when the character is ASCII |
| ByteOffsets.Slice | src/unsync/interning.rs:96 | slicing a `String` succeeds exactly when the span lies in it and both ends are character boundaries |
| ByteOffsets.AsWrittenSpan | src/unsync/interning.rs:65-68 | the span a new key gets as written starts at the store's byte length and is as long as the key's character count |
| ByteOffsets.NonAsciiSpanSplitsChar | src/unsync/interning.rs:65-68 | interning "é" into an empty store gives span 0..1 over the two bytes C3 A9, and slicing there panics |
| ByteOffsets.EncodedLengthIffAscii | src/unsync/interning.rs:66-68 | a string's encoding has at least one byte per character, and exactly one exactly when the string is ASCII |
| ByteOffsets.AsWrittenRightIffAscii | src/unsync/interning.rs:65-68 | the span as written equals the span of the key's bytes exactly when the key is ASCII |
| ByteOffsets.CorrectedSpan | src/unsync/interning.rs:65-68 | the corrected span starts at the store's byte length and covers the key's encoded length |
| ByteOffsets.EncodeAppend | src/unsync/interning.rs:67 | `push_str` appends bytes: the encoding of a concatenation is the concatenation of the encodings |
| ByteOffsets.CorrectedSliceSpellsKey | src/unsync/interning.rs:65-69 | after appending a new key to any store, slicing at the corrected span returns exactly the key's bytes |

## Left out

- Locking and waiting: the `Mutex`es, the `Condvar` wait and `notify_all` are not modelled as concurrency. Calls are taken one at a time. The wait is the `waited` flag, and the call then goes on to intern. The source waits once with `if`, not in a loop, so a woken thread may intern while another thread holds a ref. The model does not capture that interleaving.
- `Rc`/`Arc` and the `unsafe` pointers into the store: a handle or ref holds a class reference. The model does not capture the borrow that `InternRef.text` takes of the store, or what would happen if the store moved under it.
- Integer width: `refs`, the per-thread counts and span ends are unbounded. An overflow of `usize` in `refs + 1`, `*refs += 1` or `start + length` is not modelled.
- `Trie<T>` is generic in the source. The model fixes `T` to `char`, which is the only type the interners use.
- The `HashMap`s are Dafny maps. Iteration order never matters in the source.
- src/unsync/trie.rs is not part of this model. The single-owner interner imports it; it is taken to be the same as src/sync/trie.rs.
- The `Debug`, `Display` and `Deref` impls, and the text of the panic messages. A panic is modelled by its kind and, where the source prints it, the recorded location.
- The trie's unit test (src/sync/trie.rs:93-112) is replayed only in part, through the interner: "ll" inside "hello", and "hoho" with "ho" after "hello". Its other lookups are not written out. `Trie.Insert` and `Trie.Get` state the general facts behind them: the spans of the key and its substrings, and None for keys that are not held.
- ByteOffsets.CorrectedSliceSpellsKey: the corrected byte-level span is proved for a whole new key. It is not proved for each of the key's substrings that `insert` also places. The rest of the model covers substrings in character units.
- InternStore.Store.InternUncontested, UnsyncInterning.Intern.GetRef and SyncInterning.Intern.GetRef: these count spans in characters. The source starts a new key's span at the store's byte length and makes it one offset per character long. Once the store or the key holds a non-ASCII character, `get_ref` then panics at a cut character or reads other text. The interner model does not reproduce that; `ByteOffsets` does, in bytes.
- src/unsync.rs and the crate's re-exports are not modelled.

## Findings

| source | as written | input that shows it | evidently intended | confidence | as-written member | corrected member |
|---|---|---|---|---|---|---|
| src/unsync/interning.rs:65-68, src/unsync/interning.rs:96, src/sync/interning.rs:35-38, src/sync/interning.rs:227, src/sync/trie.rs:69 | a new key's span starts at `store.len()`, a byte count, but the trie makes it one offset per character long; `&store[span]` then slices bytes | interning "é" into a new interner: the store holds the bytes C3 A9, the span is 0..1, and `get_ref` slices `&store[0..1]`, which is not a character boundary, so it panics | the slice at a key's span reads back that key | not executed | ByteOffsets.NonAsciiSpanSplitsChar | ByteOffsets.CorrectedSliceSpellsKey |
