/** What a dictionary is for, said without any table or tree: the value of a key is the one
    stored last under an equal key, unless it was removed or everything was cleared since. */
module Dictionary {

  /** A `void *` seen as a 64-bit number. */
  type Ptr = p: int | 0 <= p < 0x1_0000_0000_0000_0000

  const NULL: Ptr := 0

  datatype Option<+T> = None | Some(value: T)

  /** What a finished operation did, as far as later lookups can tell. */
  datatype Event = Stored(key: Ptr, val: Ptr) | Removed(key: Ptr) | Cleared

  /** How one event changes the answer for `q`. */
  function After(same: (Ptr, Ptr) -> bool, e: Event, before: Option<Ptr>, q: Ptr): Option<Ptr> {
    match e
    case Stored(k, v) => if same(k, q) then Some(v) else before
    case Removed(k) => if same(k, q) then None else before
    case Cleared => None
  }

  /** The last value stored under a key equal to `q` and still there. */
  function Latest(same: (Ptr, Ptr) -> bool, events: seq<Event>, q: Ptr): Option<Ptr> {
    if events == [] then None
    else
      var n := |events| - 1;
      After(same, events[n], Latest(same, events[..n], q), q)
  }

  /** The library answers NULL for an absent key. */
  function OrNull(o: Option<Ptr>): Ptr {
    if o.Some? then o.value else NULL
  }

  ghost predicate Equivalence(same: (Ptr, Ptr) -> bool) {
    && (forall a: Ptr :: same(a, a))
    && (forall a: Ptr, b: Ptr :: same(a, b) ==> same(b, a))
    && (forall a: Ptr, b: Ptr, c: Ptr :: same(a, b) && same(b, c) ==> same(a, c))
  }

  lemma LatestAppend(same: (Ptr, Ptr) -> bool, events: seq<Event>, e: Event, q: Ptr)
    ensures Latest(same, events + [e], q) == After(same, e, Latest(same, events, q), q)
  {}

  /** Histories that agree on equal keys have equal answers. */
  lemma {:induction false} LatestSame(f: (Ptr, Ptr) -> bool, g: (Ptr, Ptr) -> bool, events: seq<Event>, q: Ptr)
    requires forall e | e in events && !e.Cleared? :: f(e.key, q) == g(e.key, q)
    ensures Latest(f, events, q) == Latest(g, events, q)
  {
    if events == [] {
    } else {
      var n := |events| - 1;
      assert events[n] in events;
      assert forall e | e in events[..n] :: e in events;
      LatestSame(f, g, events[..n], q);
    }
  }

  // ----- Counting pointers -----

  function One(x: Ptr, p: Ptr): nat { if x == p then 1 else 0 }

  /** How often `p` occurs in a record of calls. */
  function Times(log: seq<Ptr>, p: Ptr): nat { multiset(log)[p] }

  lemma TimesAppend(log: seq<Ptr>, x: Ptr, p: Ptr)
    ensures Times(log + [x], p) == Times(log, p) + One(x, p)
  {}
}
