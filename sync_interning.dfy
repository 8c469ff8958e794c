/** The bookkeeping of the thread-shared interner of src/sync/interning.rs,
 *  taken one call at a time.
 *
 *  Besides the store and its index, `InternerInternal` counts the live
 *  `InternRef`s twice: `refs` in all, and `local_refs` per thread.  A thread
 *  holding a ref may not intern (it would wait on itself); a thread whose
 *  interning finds refs held elsewhere waits on the condition variable, and
 *  the drop that brings `refs` back to 0 wakes all waiters.  Here the calling
 *  thread is a parameter, the wait is a returned flag, and so is the wake-up.
 */
module SyncInterning {
  import opened Common
  import opened SuffixTrie
  import opened InternStore

  /** `thread::current().id()`: only ever compared for equality. */
  type ThreadId = nat

  /** src/sync/error.rs: the one way `try_intern` fails. */
  datatype InternError = OutstandingLocalRef(location: Location)

  /** The sum of the per-thread counts. */
  ghost function Total(m: map<ThreadId, nat>): nat
    decreases |m.Keys|
  {
    if m.Keys == {} then 0
    else
      var t :| t in m.Keys;
      assert (m - {t}).Keys < m.Keys;
      m[t] + Total(m - {t})
  }

  /** The sum splits off any one thread's count. */
  lemma {:induction false} TotalRemove(m: map<ThreadId, nat>, t: ThreadId)
    requires t in m
    ensures Total(m) == m[t] + Total(m - {t})
    decreases |m.Keys|
  {
    var u :| u in m.Keys && Total(m) == m[u] + Total(m - {u});
    if u != t {
      var mu, mt := m - {u}, m - {t};
      assert mu.Keys < m.Keys && t in mu && mu[t] == m[t];
      assert mt.Keys < m.Keys && u in mt && mt[u] == m[u];
      TotalRemove(mu, t);
      TotalRemove(mt, u);
      assert mu - {t} == mt - {u};
    }
  }

  /** Setting one thread's count changes the sum by the difference. */
  lemma TotalUpdate(m: map<ThreadId, nat>, t: ThreadId, v: nat)
    ensures Total(m[t := v]) == Total(m) - (if t in m then m[t] else 0) + v
    ensures t in m ==> m[t] <= Total(m)
  {
    TotalRemove(m[t := v], t);
    assert m[t := v] - {t} == m - {t};
    if t in m {
      TotalRemove(m, t);
    } else {
      assert m - {t} == m;
    }
  }

  /** The sum is 0 exactly when every thread's count is. */
  lemma {:induction false} TotalZero(m: map<ThreadId, nat>)
    ensures Total(m) == 0 <==> forall t :: t in m ==> m[t] == 0
    decreases |m.Keys|
  {
    if m.Keys != {} {
      var u :| u in m.Keys;
      TotalRemove(m, u);
      assert (m - {u}).Keys < m.Keys;
      TotalZero(m - {u});
      assert forall t :: t in m ==> t == u || t in m - {u};
    }
  }

  class Interner {
    const data: Store
    var refs: nat
    var localRefs: map<ThreadId, nat>
    var lastRef: Option<Location>

    /** The store is spelled by its index, `refs` is the sum of the
     *  per-thread counts, and a live ref has recorded where it was made. */
    ghost predicate Valid()
      reads this, data, data.index
    {
      && data.Valid()
      && refs == Total(localRefs)
      && (refs > 0 ==> lastRef.Some?)
    }

    /** `Interner::new`: an empty store and index, no counts. */
    constructor ()
      ensures Valid() && fresh(data) && fresh(data.index)
      ensures refs == 0 && localRefs == map[] && lastRef == None && data.text == []
      ensures forall key :: data.Find(key) == if key == [] then Some(Span(0, 0)) else None
    {
      data := new Store();
      refs := 0;
      localRefs := map[];
      lastRef := None;
    }

    /** The wake-up condition: no ref is counted exactly when no thread holds one. */
    lemma NoRefsIffNoThreadHolds()
      requires Valid()
      ensures refs == 0 <==> forall t :: t in localRefs ==> localRefs[t] == 0
    {
      TotalZero(localRefs);
    }

    /** `intern`, called from `thread`: a panic if that thread holds a ref,
     *  with nothing changed; otherwise the thread gets a count of 0 if it had
     *  none, waits if refs are held elsewhere, and interns `s`. */
    method Intern(s: seq<char>, thread: ThreadId) returns (o: Outcome<Intern>, waited: bool)
      requires Valid()
      modifies this, data, data.index
      ensures Valid()
      ensures o.Panicked? <==> thread in old(localRefs) && old(localRefs)[thread] > 0
      ensures o.Panicked? ==>
                old(lastRef).Some? && o.panic == CannotInternWhileHolding(old(lastRef).value) &&
                !waited && unchanged(this, data, data.index)
      ensures o.Returned? ==>
                && localRefs == (if thread in old(localRefs) then old(localRefs) else old(localRefs)[thread := 0])
                && refs == old(refs) && lastRef == old(lastRef)
                && (waited <==> old(refs) > 0)
                && o.value.interner == this && data.InternedAt(s, o.value.span)
    {
      if thread in localRefs {
        if localRefs[thread] > 0 {
          TotalUpdate(localRefs, thread, 0);
          return Panicked(CannotInternWhileHolding(lastRef.value)), false;
        }
      } else {
        TotalUpdate(localRefs, thread, 0);
        localRefs := localRefs[thread := 0];
      }
      waited := refs > 0;
      var span := data.InternUncontested(s);
      o := Returned(Handle(span, this));
    }

    /** `try_intern`, called from `thread`: as `intern`, with the refusal as
     *  an error instead of a panic. */
    method TryIntern(s: seq<char>, thread: ThreadId) returns (o: Result<Intern, InternError>, waited: bool)
      requires Valid()
      modifies this, data, data.index
      ensures Valid()
      ensures o.Err? <==> thread in old(localRefs) && old(localRefs)[thread] > 0
      ensures o.Err? ==>
                old(lastRef).Some? && o.error == OutstandingLocalRef(old(lastRef).value) &&
                !waited && unchanged(this, data, data.index)
      ensures o.Ok? ==>
                && localRefs == (if thread in old(localRefs) then old(localRefs) else old(localRefs)[thread := 0])
                && refs == old(refs) && lastRef == old(lastRef)
                && (waited <==> old(refs) > 0)
                && o.value.interner == this && data.InternedAt(s, o.value.span)
    {
      if thread in localRefs {
        if localRefs[thread] > 0 {
          TotalUpdate(localRefs, thread, 0);
          return Err(OutstandingLocalRef(lastRef.value)), false;
        }
      } else {
        TotalUpdate(localRefs, thread, 0);
        localRefs := localRefs[thread := 0];
      }
      waited := refs > 0;
      var span := data.InternUncontested(s);
      o := Ok(Handle(span, this));
    }

    /** Two handles of this interner, found for `sa` and `sb`, are equal
     *  exactly when the texts are. */
    lemma HandlesEqualIffSameText(a: Intern, b: Intern, sa: seq<char>, sb: seq<char>)
      requires Valid() && a.interner == this && b.interner == this
      requires data.Find(sa) == Some(a.span) && data.Find(sb) == Some(b.span)
      ensures a.Eq(b) <==> sa == sb
    {
      data.FindInjective(sa, sb);
    }
  }

  /** A handle: a span of the store of `interner`. */
  datatype Intern = Handle(span: Span, interner: Interner)
  {
    /** `get_ref`, called from `thread`: records the caller, counts one more
     *  ref in all and one more for the thread (its first, if it had no
     *  count), and answers the store's text at the span (a span outside the
     *  store panics at the slice, after the counts went up). */
    method GetRef(loc: Location, thread: ThreadId) returns (o: Outcome<InternRef>)
      requires interner.Valid()
      modifies interner
      ensures interner.Valid()
      ensures interner.lastRef == Some(loc)
      ensures interner.refs == old(interner.refs) + 1
      ensures interner.localRefs ==
                old(interner.localRefs)[thread := if thread in old(interner.localRefs) then old(interner.localRefs)[thread] + 1 else 1]
      ensures o.Returned? <==> span.start <= span.end <= |interner.data.text|
      ensures o.Returned? ==> o.value == InternRef(interner.data.text[span.start..span.end], interner)
      ensures o.Panicked? ==> o.panic == SliceOutOfRange
    {
      interner.lastRef := Some(loc);
      interner.refs := interner.refs + 1;
      var local := if thread in interner.localRefs then interner.localRefs[thread] + 1 else 1;
      TotalUpdate(interner.localRefs, thread, local);
      interner.localRefs := interner.localRefs[thread := local];
      if !(span.start <= span.end <= |interner.data.text|) {
        return Panicked(SliceOutOfRange);
      }
      o := Returned(InternRef(interner.data.text[span.start..span.end], interner));
    }

    /** `eq`: the same interner (`Arc::ptr_eq`) and the same span. */
    function Eq(other: Intern): (r: bool)
      ensures r <==> this == other
    {
      interner == other.interner && span == other.span
    }
  }

  /** A live view of an interned text. */
  datatype InternRef = InternRef(text: seq<char>, interner: Interner)
  {
    /** `drop`, called from `thread`: a thread with no count is unreachable
     *  and one with a count of 0 panics; otherwise the thread's count and
     *  `refs` each go down by one, and all waiters are woken exactly when
     *  `refs` reaches 0.  The second panic of the source, for `refs == 0`
     *  after the thread's count was positive, cannot happen: `refs` is the
     *  sum of the counts. */
    method Drop(thread: ThreadId) returns (o: Outcome<()>, notify: bool)
      requires interner.Valid()
      modifies interner
      ensures interner.Valid()
      ensures thread !in old(interner.localRefs) ==> o == Panicked(Unreachable) && !notify && unchanged(interner)
      ensures thread in old(interner.localRefs) && old(interner.localRefs)[thread] == 0 ==>
                o == Panicked(NonlocalRefCountOverflow) && !notify && unchanged(interner)
      ensures thread in old(interner.localRefs) && old(interner.localRefs)[thread] > 0 ==>
                && o == Returned(())
                && interner.localRefs == old(interner.localRefs)[thread := old(interner.localRefs)[thread] - 1]
                && interner.refs == old(interner.refs) - 1
                && interner.lastRef == old(interner.lastRef)
                && (notify <==> interner.refs == 0)
    {
      var local := interner.localRefs;
      if thread !in local {
        return Panicked(Unreachable), false;
      }
      if local[thread] == 0 {
        return Panicked(NonlocalRefCountOverflow), false;
      }
      TotalUpdate(local, thread, local[thread] - 1);
      interner.localRefs := local[thread := local[thread] - 1];
      if interner.refs == 0 {
        assert false;
      }
      interner.refs := interner.refs - 1;
      notify := interner.refs == 0;
      o := Returned(());
    }
  }

  /** `&*h.get_ref()` from `thread` in a statement of its own: the ref reads
   *  the text the handle was interned for and is dropped at the statement's
   *  end, so the total count is as before. */
  method ReadRef(h: Intern, s: seq<char>, at: Location, thread: ThreadId) returns (text: seq<char>)
    requires h.interner.Valid() && h.interner.data.Find(s) == Some(h.span)
    modifies h.interner
    ensures h.interner.Valid()
    ensures text == s
    ensures h.interner.refs == old(h.interner.refs)
    ensures h.interner.lastRef == Some(at)
  {
    h.interner.data.FoundSpells(s);
    var r := h.GetRef(at, thread);
    text := r.value.text;
    var _, _ := r.value.Drop(thread);
  }

  /** The first half of the `interner` test: "hello", "goodbye", "hello"
   *  interned into a new interner from one thread. */
  method InternHelloGoodbyeHello(thread: ThreadId)
    returns (interner: Interner, hello1: Intern, goodbye: Intern, hello2: Intern)
    ensures fresh(interner) && interner.Valid() && interner.refs == 0
    ensures hello1.interner == interner && goodbye.interner == interner && hello2.interner == interner
    ensures interner.data.Find("hello") == Some(hello1.span) && interner.data.Find("goodbye") == Some(goodbye.span)
    ensures hello1 == hello2
  {
    interner := new Interner();
    var o1, _ := interner.Intern("hello", thread);
    var o2, _ := interner.Intern("goodbye", thread);
    var o3, _ := interner.Intern("hello", thread);
    hello1, goodbye, hello2 := o1.value, o2.value, o3.value;
  }

  /** The `interner` test: "hello" interned twice gives equal handles whose
   *  refs read "hello", and "goodbye" an unequal one whose ref reads
   *  "goodbye". */
  method InternerTest(thread: ThreadId)
    returns (hello1: Intern, goodbye: Intern, hello2: Intern, t1: seq<char>, t2: seq<char>, t3: seq<char>)
    ensures hello1 == hello2 && hello1 != goodbye
    ensures t1 == t2 == "hello" && t3 == "goodbye"
  {
    var at := Location("src/sync/interning.rs", 336, 5);
    var interner;
    interner, hello1, goodbye, hello2 := InternHelloGoodbyeHello(thread);
    interner.HandlesEqualIffSameText(hello1, goodbye, "hello", "goodbye");
    t1 := ReadRef(hello1, "hello", at, thread);
    t2 := ReadRef(hello2, "hello", at, thread);
    t3 := ReadRef(goodbye, "goodbye", at, thread);
  }

  /** The `interner_errors_while_holding_refs` test: a thread that interns
   *  while holding a ref panics, naming where that ref was made. */
  method InternWhileHoldingTest(thread: ThreadId) returns (o: Outcome<Intern>)
    ensures o == Panicked(CannotInternWhileHolding(Location("src/sync/interning.rs", 352, 29)))
  {
    var at := Location("src/sync/interning.rs", 352, 29);
    var interner := new Interner();
    var hello, _ := interner.Intern("hello", thread);
    var helloRef := hello.value.GetRef(at, thread);
    var waited;
    o, waited := interner.Intern("hello", thread);
  }
}
