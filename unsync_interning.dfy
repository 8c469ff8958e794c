/** The single-owner interner of src/unsync/interning.rs.
 *
 *  An `Interner` owns the store and its index and counts the `InternRef`s
 *  that are alive; while any is, the store must not change, so interning is
 *  refused.  `Rc<Interner>` is a reference to the class, and `Rc::ptr_eq`
 *  is reference equality.
 */
module UnsyncInterning {
  import opened Common
  import opened SuffixTrie
  import opened InternStore

  /** src/unsync/error.rs: the one way `try_intern` fails. */
  datatype InternError = OutstandingRef(location: Location)

  class Interner {
    /** The build profile: only with debug assertions does `get_ref` record
     *  its caller in `last_ref`. */
    const debugAssertions: bool
    const data: Store
    var refs: nat
    var lastRef: Option<Location>

    /** The store is spelled by its index; a live ref in a debug build has
     *  recorded where it was made, and a release build never records one. */
    ghost predicate Valid()
      reads this, data, data.index
    {
      && data.Valid()
      && (debugAssertions && refs > 0 ==> lastRef.Some?)
      && (!debugAssertions ==> lastRef.None?)
    }

    /** `Interner::new`: an empty store and index, no refs. */
    constructor (debugAssertions: bool)
      ensures Valid() && fresh(data) && fresh(data.index)
      ensures this.debugAssertions == debugAssertions
      ensures refs == 0 && lastRef == None && data.text == []
      ensures forall key :: data.Find(key) == if key == [] then Some(Span(0, 0)) else None
    {
      this.debugAssertions := debugAssertions;
      data := new Store();
      refs := 0;
      lastRef := None;
    }

    /** `extract_store`: the store, at whose spans every interned key is found. */
    function ExtractStore(): (r: seq<char>)
      reads this, data, data.index
      requires Valid()
      ensures forall key :: data.Find(key).Some? ==>
                var sp := data.Find(key).value; sp.start <= sp.end <= |r| && r[sp.start..sp.end] == key
    {
      data.AllFoundSpell();
      data.text
    }

    /** `try_intern`: refused while a ref is alive, with the location the
     *  last ref recorded (a release build recorded none, so `unwrap`
     *  panics instead); otherwise `s` is interned into the store. */
    method TryIntern(s: seq<char>) returns (o: Outcome<Result<Intern, InternError>>)
      requires Valid()
      modifies this, data, data.index
      ensures Valid()
      ensures o.Panicked? <==> old(refs) > 0 && !debugAssertions
      ensures o.Panicked? ==> o.panic == UnwrapNone
      ensures old(refs) > 0 && debugAssertions ==> o == Returned(Err(OutstandingRef(old(lastRef).value)))
      ensures old(refs) > 0 ==> unchanged(this, data, data.index)
      ensures old(refs) == 0 ==>
                o.Returned? && o.value.Ok? && o.value.value.interner == this && data.InternedAt(s, o.value.value.span)
      ensures refs == old(refs) && lastRef == old(lastRef)
    {
      if refs > 0 {
        if lastRef.None? {
          return Panicked(UnwrapNone);
        }
        return Returned(Err(OutstandingRef(lastRef.value)));
      }
      var span := data.InternUncontested(s);
      o := Returned(Ok(Handle(span, this)));
    }

    /** `intern`: `try_intern`, with its error turned into a panic. */
    method Intern(s: seq<char>) returns (o: Outcome<Intern>)
      requires Valid()
      modifies this, data, data.index
      ensures Valid()
      ensures o.Panicked? <==> old(refs) > 0
      ensures old(refs) > 0 && debugAssertions ==> o == Panicked(CannotInternWhileHolding(old(lastRef).value))
      ensures old(refs) > 0 && !debugAssertions ==> o == Panicked(UnwrapNone)
      ensures old(refs) > 0 ==> unchanged(this, data, data.index)
      ensures o.Returned? ==> o.value.interner == this && data.InternedAt(s, o.value.span)
      ensures refs == old(refs) && lastRef == old(lastRef)
    {
      var t := TryIntern(s);
      match t
      case Returned(Ok(h)) => o := Returned(h);
      case Returned(Err(OutstandingRef(loc))) => o := Panicked(CannotInternWhileHolding(loc));
      case Panicked(p) => o := Panicked(p);
    }

    /** Two handles of this interner, found for `sa` and `sb`, are equal
     *  exactly when the texts are. */
    lemma HandlesEqualIffSameText(a: Intern, b: Intern, sa: seq<char>, sb: seq<char>)
      requires Valid() && a.interner == this && b.interner == this
      requires data.Find(sa) == Some(a.span) && data.Find(sb) == Some(b.span)
      ensures a.Eq(b) <==> sa == sb
    {
      data.FindInjective(sa, sb);
    }
  }

  /** A handle: a span of the store of `interner`. */
  datatype Intern = Handle(span: Span, interner: Interner)
  {
    /** `get_ref`: counts one more live ref, records the caller in a debug
     *  build, and answers the store's text at the span (a span outside the
     *  store panics at the slice, after the count went up). */
    method GetRef(loc: Location) returns (o: Outcome<InternRef>)
      requires interner.Valid()
      modifies interner
      ensures interner.Valid()
      ensures interner.refs == old(interner.refs) + 1
      ensures interner.lastRef == if interner.debugAssertions then Some(loc) else old(interner.lastRef)
      ensures o.Returned? <==> span.start <= span.end <= |interner.data.text|
      ensures o.Returned? ==> o.value == InternRef(interner.data.text[span.start..span.end], interner)
      ensures o.Panicked? ==> o.panic == SliceOutOfRange
    {
      if interner.debugAssertions {
        interner.lastRef := Some(loc);
      }
      interner.refs := interner.refs + 1;
      if !(span.start <= span.end <= |interner.data.text|) {
        return Panicked(SliceOutOfRange);
      }
      o := Returned(InternRef(interner.data.text[span.start..span.end], interner));
    }

    /** `eq`: the same interner and the same span. */
    function Eq(other: Intern): (r: bool)
      ensures r <==> this == other
    {
      interner == other.interner && span == other.span
    }
  }

  /** A live view of an interned text. */
  datatype InternRef = InternRef(text: seq<char>, interner: Interner)
  {
    /** `drop`: one live ref fewer; with none counted, a panic. */
    method Drop() returns (o: Outcome<()>)
      requires interner.Valid()
      modifies interner
      ensures interner.Valid()
      ensures old(interner.refs) == 0 ==> o == Panicked(RefCountOverflow) && unchanged(interner)
      ensures old(interner.refs) > 0 ==> o == Returned(()) && interner.refs == old(interner.refs) - 1
      ensures interner.lastRef == old(interner.lastRef)
    {
      if interner.refs == 0 {
        return Panicked(RefCountOverflow);
      }
      interner.refs := interner.refs - 1;
      o := Returned(());
    }
  }

  /** `&*h.get_ref()` in a statement of its own: the ref reads the text the
   *  handle was interned for and is dropped at the statement's end, so the
   *  count is as before. */
  method ReadRef(h: Intern, s: seq<char>, at: Location) returns (text: seq<char>)
    requires h.interner.Valid() && h.interner.data.Find(s) == Some(h.span)
    modifies h.interner
    ensures h.interner.Valid()
    ensures text == s
    ensures h.interner.refs == old(h.interner.refs)
    ensures h.interner.debugAssertions ==> h.interner.lastRef == Some(at)
  {
    h.interner.data.FoundSpells(s);
    var r := h.GetRef(at);
    text := r.value.text;
    var _ := r.value.Drop();
  }

  /** The first half of the `interner` test: "hello", "goodbye", "hello"
   *  interned into a new interner. */
  method InternHelloGoodbyeHello() returns (interner: Interner, hello1: Intern, goodbye: Intern, hello2: Intern)
    ensures fresh(interner) && interner.Valid() && interner.refs == 0
    ensures hello1.interner == interner && goodbye.interner == interner && hello2.interner == interner
    ensures interner.data.Find("hello") == Some(hello1.span) && interner.data.Find("goodbye") == Some(goodbye.span)
    ensures hello1 == hello2
  {
    interner := new Interner(true);
    var o1 := interner.Intern("hello");
    var o2 := interner.Intern("goodbye");
    var o3 := interner.Intern("hello");
    hello1, goodbye, hello2 := o1.value, o2.value, o3.value;
  }

  /** The `interner` test: "hello" interned twice gives equal handles whose
   *  refs read "hello" at one and the same span, and "goodbye" an unequal
   *  one whose ref reads "goodbye". */
  method InternerTest() returns (hello1: Intern, goodbye: Intern, hello2: Intern, t1: seq<char>, t2: seq<char>, t3: seq<char>)
    ensures hello1 == hello2 && hello1 != goodbye
    ensures t1 == t2 == "hello" && t3 == "goodbye"
  {
    var at := Location("src/unsync/interning.rs", 173, 5);
    var interner;
    interner, hello1, goodbye, hello2 := InternHelloGoodbyeHello();
    interner.HandlesEqualIffSameText(hello1, goodbye, "hello", "goodbye");
    t1 := ReadRef(hello1, "hello", at);
    t2 := ReadRef(hello2, "hello", at);
    t3 := ReadRef(goodbye, "goodbye", at);
  }

  /** "hello" interned into a new interner. */
  method InternFreshHello() returns (interner: Interner, hello: Intern)
    ensures fresh(interner) && fresh(interner.data) && fresh(interner.data.index)
    ensures interner.Valid() && interner.refs == 0 && hello.interner == interner
    ensures interner.data.text == "hello" && interner.data.Find("hello") == Some(hello.span)
  {
    interner := new Interner(true);
    var o := interner.Intern("hello");
    hello := o.value;
  }

  /** A store that holds "hello" holds its substring "ll". */
  lemma LlInHello(data: Store)
    requires data.Valid() && data.Find("hello").Some?
    ensures data.Find("ll").Some?
  {
    assert "hello"[2..4] == "ll";
  }

  /** Substring reuse: after "hello", interning "ll" appends nothing; its
   *  handle is a span of the "hello" already stored. */
  method InternSubstringReusesStore() returns (interner: Interner, ll: Intern)
    ensures interner.Valid() && ll.interner == interner
    ensures interner.data.text == "hello"
    ensures interner.data.Find("ll") == Some(ll.span) && interner.data.Spells(ll.span, "ll")
  {
    var hello;
    interner, hello := InternFreshHello();
    LlInHello(interner.data);
    var o := interner.Intern("ll");
    ll := o.value;
  }

  /** No two neighbouring characters of "hello" are "ho". */
  lemma NoHoInHello(a: nat)
    requires a + 2 <= 5
    ensures "hello"[a..a + 2] != "ho"
  {
    assert "hello"[a..a + 2][0] == "hello"[a];
    assert "hello"[a..a + 2][1] == "hello"[a + 1];
  }

  /** A store reading "hello" finds neither "ho" nor "hoho". */
  lemma HoNotInHello(data: Store)
    requires data.Valid() && data.text == "hello"
    ensures data.Find("ho").None? && data.Find("hoho").None?
  {
    if data.Find("ho").Some? {
      data.FoundSpells("ho");
      NoHoInHello(data.Find("ho").value.start);
      assert false;
    }
    assert "hoho"[0..2] == "ho";
    if data.Find("hoho").Some? {
      assert false;
    }
  }

  /** "hoho" interned into an interner whose store reads "hello". */
  method InternHohoAfterHello(interner: Interner) returns (hoho: Intern)
    requires interner.Valid() && interner.refs == 0 && interner.data.text == "hello"
    modifies interner, interner.data, interner.data.index
    ensures interner.Valid() && interner.data.text == "hello" + "hoho"
    ensures interner.data.Find("hoho") == Some(hoho.span) && hoho.span == Span(5, 9)
    ensures interner.data.Find("ho") == Some(Span(5, 7))
  {
    HoNotInHello(interner.data);
    var o := interner.Intern("hoho");
    hoho := o.value;
    assert interner.data.text == "hello" + "hoho" && hoho.span == Span(5, 9);
    assert "hoho"[0..2] == "ho";
    assert PlacedAtOrBefore(interner.data.Find("ho").value, "hoho", 5, "ho", 0);
    PlacedAtFirstOccurrence(interner.data.Find("ho").value, "hoho", 5, "ho", 0);
  }

  /** After "hello", "hoho" is stored at 5..9 and "ho" is found at 5..7 (the
   *  spans of the trie's own unit test, shifted to the interner's store). */
  method InternHelloHohoTest() returns (interner: Interner, hoho: Intern)
    ensures interner.Valid() && interner.data.text == "hello" + "hoho"
    ensures interner.data.Find("hoho") == Some(hoho.span) && hoho.span == Span(5, 9)
    ensures interner.data.Find("ho") == Some(Span(5, 7))
  {
    var hello;
    interner, hello := InternFreshHello();
    hoho := InternHohoAfterHello(interner);
  }

  /** The `interner_errors_while_holding_refs` test: interning while a ref
   *  is alive panics, naming where that ref was made. */
  method InternWhileHoldingTest() returns (o: Outcome<Intern>)
    ensures o == Panicked(CannotInternWhileHolding(Location("src/unsync/interning.rs", 189, 29)))
  {
    var at := Location("src/unsync/interning.rs", 189, 29);
    var interner := new Interner(true);
    var hello := interner.Intern("hello");
    var helloRef := hello.value.GetRef(at);
    o := interner.Intern("hello");
  }
}
