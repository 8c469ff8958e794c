/** Spans against a store of bytes.
 *
 *  The interners keep their store as a Rust `String`, a sequence of UTF-8
 *  bytes: `store.len()` is a byte count and `&store[span]` slices bytes.
 *  The trie, though, advances a span by one per character.  This module
 *  models the store as bytes to show where the two units part: the span a
 *  fresh key gets is right exactly when the key is ASCII, and slicing at it
 *  otherwise cuts a character in two.  The corrected span counts the
 *  encoded length of each character; the rest of the model avoids the
 *  mismatch by keeping the store as characters and counting spans in
 *  characters.
 */
module ByteOffsets {
  import opened Common
  import opened SuffixTrie

  newtype byte = x: int | 0 <= x < 256

  /** A byte that continues a multi-byte character (`10xxxxxx`). */
  predicate IsContinuation(b: byte) {
    0x80 <= b < 0xC0
  }

  /** The UTF-8 encoding of one character (section 3 of RFC 3629). */
  function EncodeChar(c: char): (r: seq<byte>)
    ensures 1 <= |r| <= 4
    ensures |r| == 1 <==> c < 0x80 as char
  {
    var n := c as int;
    if n < 0x80 then [n as byte]
    else if n < 0x800 then [(0xC0 + n / 0x40) as byte, (0x80 + n % 0x40) as byte]
    else if n < 0x1_0000 then
      [(0xE0 + n / 0x1000) as byte, (0x80 + n / 0x40 % 0x40) as byte, (0x80 + n % 0x40) as byte]
    else
      [(0xF0 + n / 0x4_0000) as byte, (0x80 + n / 0x1000 % 0x40) as byte,
       (0x80 + n / 0x40 % 0x40) as byte, (0x80 + n % 0x40) as byte]
  }

  /** A Rust `String`'s bytes: the encodings of its characters in order. */
  function Encode(s: seq<char>): seq<byte>
    decreases |s|
  {
    if s == [] then [] else EncodeChar(s[0]) + Encode(s[1..])
  }

  /** `str::is_char_boundary`: the ends of the string and every byte that
   *  does not continue a character. */
  predicate IsCharBoundary(bytes: seq<byte>, i: nat) {
    i == 0 || i == |bytes| || (i < |bytes| && !IsContinuation(bytes[i]))
  }

  /** `&store[span]` on a `String`: a panic unless the span lies in the
   *  string and both its ends are character boundaries. */
  function Slice(bytes: seq<byte>, span: Span): (r: Outcome<seq<byte>>)
    ensures r.Returned? <==>
              span.start <= span.end <= |bytes| && IsCharBoundary(bytes, span.start) && IsCharBoundary(bytes, span.end)
    ensures r.Returned? ==> |r.value| == span.end - span.start
  {
    if span.start <= span.end <= |bytes| && IsCharBoundary(bytes, span.start) && IsCharBoundary(bytes, span.end)
    then Returned(bytes[span.start..span.end])
    else Panicked(SliceOutOfRange)
  }

  // ------------------------------------------------------------ as written

  /** The span `insert(s.chars(), store.len())` gives a key new to the index:
   *  it starts at the store's length in bytes and is `|s|` characters long. */
  function AsWrittenSpan(storeLen: nat, s: seq<char>): (r: Span)
    ensures r.start == storeLen && r.end - r.start == |s|
  {
    MakeSpan(storeLen, |s|)
  }

  /** Interning "é" (U+00E9, two bytes) into an empty store gives span
   *  `0..1`, which ends inside the character: `&store[0..1]` panics. */
  lemma NonAsciiSpanSplitsChar()
    ensures Encode(['\U{E9}']) == [0xC3, 0xA9]
    ensures AsWrittenSpan(0, ['\U{E9}']) == Span(0, 1)
    ensures Slice(Encode(['\U{E9}']), AsWrittenSpan(0, ['\U{E9}'])).Panicked?
  {
    assert Encode(['\U{E9}']) == EncodeChar('\U{E9}') + Encode([]);
  }

  /** The encoding is at least one byte per character, and exactly one
   *  exactly when every character is ASCII. */
  lemma {:induction false} EncodedLengthIffAscii(s: seq<char>)
    ensures |Encode(s)| >= |s|
    ensures |Encode(s)| == |s| <==> forall i :: 0 <= i < |s| ==> s[i] < 0x80 as char
    decreases |s|
  {
    if s != [] {
      EncodedLengthIffAscii(s[1..]);
      assert forall i :: 1 <= i < |s| ==> s[i] == s[1..][i - 1];
    }
  }

  /** So the span as written is the span of the key's bytes exactly when the
   *  key is ASCII. */
  lemma AsWrittenRightIffAscii(storeLen: nat, s: seq<char>)
    ensures AsWrittenSpan(storeLen, s) == CorrectedSpan(storeLen, s) <==>
              forall i :: 0 <= i < |s| ==> s[i] < 0x80 as char
  {
    EncodedLengthIffAscii(s);
  }

  // ------------------------------------------------------------- corrected

  /** The intended span of a key new to the index: its encoded length in bytes. */
  function CorrectedSpan(storeLen: nat, s: seq<char>): (r: Span)
    ensures r.start == storeLen && r.end - r.start == |Encode(s)|
  {
    MakeSpan(storeLen, |Encode(s)|)
  }

  /** Encoding distributes over concatenation. */
  lemma {:induction false} EncodeAppend(a: seq<char>, b: seq<char>)
    ensures Encode(a + b) == Encode(a) + Encode(b)
    decreases |a|
  {
    if a == [] {
      assert a + b == b;
    } else {
      assert (a + b)[0] == a[0] && (a + b)[1..] == a[1..] + b;
      EncodeAppend(a[1..], b);
    }
  }

  /** An encoded character begins with a byte that does not continue one
   *  and goes on with bytes that do. */
  lemma EncodeCharShape(c: char)
    ensures !IsContinuation(EncodeChar(c)[0])
    ensures forall i :: 1 <= i < |EncodeChar(c)| ==> IsContinuation(EncodeChar(c)[i])
  {
  }

  /** Bytes that can be cut before their first one. */
  predicate StartsAtBoundary(b: seq<byte>) {
    b == [] || !IsContinuation(b[0])
  }

  /** Every encoding does. */
  lemma EncodingStartsAtBoundary(r: seq<char>)
    ensures StartsAtBoundary(Encode(r))
  {
    if r != [] {
      EncodeCharShape(r[0]);
    }
  }

  /** Bytes `a + x + y` sliced at the span of `x`, when `x + y` and `y` both
   *  start at a boundary, read `x`. */
  lemma SliceBetween(a: seq<byte>, x: seq<byte>, y: seq<byte>)
    requires StartsAtBoundary(x + y) && StartsAtBoundary(y)
    ensures Slice(a + x + y, Span(|a|, |a| + |x|)) == Returned(x)
  {
    var store := a + x + y;
    if |a| < |store| {
      assert store[|a|] == (x + y)[0];
    }
    if |a| + |x| < |store| {
      assert store[|a| + |x|] == y[0];
    }
    assert store[|a|..|a| + |x|] == x;
  }

  /** A new key, pushed onto a store holding `t` and sliced at its
   *  corrected span, reads back its own bytes. */
  lemma CorrectedSliceSpellsKey(t: seq<char>, s: seq<char>)
    ensures Slice(Encode(t + s), CorrectedSpan(|Encode(t)|, s)) == Returned(Encode(s))
  {
    EncodeAppend(t, s);
    EncodingStartsAtBoundary(s);
    SliceBetween(Encode(t), Encode(s), []);
    assert Encode(t) + Encode(s) + [] == Encode(t) + Encode(s);
  }
}
