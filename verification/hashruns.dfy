/** Runs of the hash table: its invariant, its load bound, its agreement with the dictionary
    and the conservation of keys and values. */
module HashRuns {
  import opened Words
  import opened XorFold
  import opened Dictionary
  import opened HashSpec
  import opened HashMap

  // ----- The load -----

  /** `count` counts the puts that succeeded since the table was last empty.  It bounds the
      live entries from above, and the number of buckets lies between it and twice it. */
  ghost predicate Loaded(st: State) {
    && st.bits <= MAX_BITS
    && if st.table == [] then st.bits == 0 && st.count == 0
       else
         && HasTable(st)
         && |Flat(st.table)| <= st.count <= Pow2(st.bits)
         && Pow2(st.bits) <= if st.count == 0 then 1 else 2 * st.count
  }

  lemma AddItemSize(cb: Callbacks, st: State, e: Entry)
    requires HasTable(st)
    ensures |Flat(AddItem(cb, st, e).table)| <= |Flat(st.table)| + 1
  {
    var i := Bucket(st, e.hash);
    FlatUpdate(st.table, i, AddItem(cb, st, e).table[i]);
  }

  /** Relinking makes no entries, whatever the callbacks say. */
  lemma {:induction false} RehashSize(cb: Callbacks, st: State, todo: seq<Entry>)
    requires HasTable(st)
    ensures |Flat(Rehash(cb, st, todo).table)| <= |Flat(st.table)| + |todo|
    decreases |todo|
  {
    if todo == [] {
    } else {
      AddItemSize(cb, st, todo[0]);
      RehashSize(cb, AddItem(cb, st, todo[0]), todo[1..]);
    }
  }

  lemma ExtendSize(cb: Callbacks, st: State, tableOk: bool)
    ensures var (r, ok) := Extend(cb, st, tableOk);
      && r.count == st.count
      && (ok ==>
        && HasTable(r) && r.bits <= MAX_BITS
        && r.bits == (if st.count != 0 then st.bits + 1 else st.bits)
        && |Flat(r.table)| <= |Flat(st.table)|)
      && (!ok && (st.count == 0 ==> st.bits == 0) ==> r == st)
  {
    var (r, ok) := Extend(cb, st, tableOk);
    if ok {
      var blank := st.(bits := r.bits, table := EmptyTable(r.bits));
      FlatOfEmpty(blank.table);
      RehashSize(cb, blank, Flat(st.table));
    }
  }

  /** Doubling a full table restores the load bound with room for one more. */
  lemma MakeRoomLoaded(cb: Callbacks, st: State, tableOk: bool)
    requires Loaded(st)
    ensures var (r, ok) := MakeRoom(cb, st, tableOk);
      && r.count == st.count
      && (!ok ==> r == st)
      && (ok ==> HasTable(r) && Loaded(r) && st.count + 1 <= Pow2(r.bits) <= 2 * (st.count + 1))
  {
    if MustExtend(st) {
      BitsWhenEmpty(st);
      ExtendSize(cb, st, tableOk);
    }
  }

  lemma PutLoaded(cb: Callbacks, st: State, key: Ptr, val: Ptr, tableOk: bool, itemOk: bool)
    requires Loaded(st)
    ensures Loaded(Put(cb, st, key, val, tableOk, itemOk).0)
  {
    MakeRoomLoaded(cb, st, tableOk);
    var (st', ok) := MakeRoom(cb, st, tableOk);
    if ok && itemOk {
      AddItemSize(cb, st', Entry(cb.hash(key), key, val));
    }
  }

  lemma RemoveLoaded(cb: Callbacks, st: State, key: Ptr)
    requires Loaded(st) && HasTable(st)
    ensures Loaded(Remove(cb, st, key).0) && Loaded(Delete(cb, st, key))
  {
    var i := Bucket(st, cb.hash(key));
    var found := Find(cb, st.table[i], cb.hash(key), key);
    if found.Some? {
      FlatUpdate(st.table, i, Without(st.table[i], found.value));
    }
  }

  lemma StepLoaded(cb: Callbacks, r: Run, op: Op)
    requires Loaded(r.st) && Enabled(r.st, op)
    ensures Loaded(Step(cb, r, op).st)
  {
    match op
    case OpPut(k, v, tableOk, itemOk) => PutLoaded(cb, r.st, k, v, tableOk, itemOk);
    case OpGet(_) =>
    case OpRemove(k) => RemoveLoaded(cb, r.st, k);
    case OpDelete(k) => RemoveLoaded(cb, r.st, k);
    case OpClean =>
  }

  /** The load bound holds in every reachable state, whatever the callbacks say. */
  lemma {:induction false} AlwaysLoaded(cb: Callbacks, script: seq<Op>)
    requires Exec(cb, script).Some?
    ensures Loaded(Exec(cb, script).value.st)
  {
    if script == [] {
    } else {
      var before := script[..|script| - 1];
      AlwaysLoaded(cb, before);
      StepLoaded(cb, Exec(cb, before).value, script[|script| - 1]);
    }
  }

  // ----- The invariant -----

  ghost predicate Invariant(cb: Callbacks, st: State) {
    && (st.table != [] ==> WellFormed(cb, st))
    && Loaded(st)
  }

  /** What get would answer, with an empty table for a NULL one. */
  function Answer(cb: Callbacks, st: State, q: Ptr): Option<Ptr> {
    if HasTable(st) then Lookup(cb, st, q) else None
  }

  /** The invariant speaks of the table, not of the callback records. */
  lemma WellFormedCopy(cb: Callbacks, st: State, r: State)
    requires WellFormed(cb, st) && r.table == st.table && r.bits == st.bits
    ensures WellFormed(cb, r)
    ensures forall q :: Lookup(cb, r, q) == Lookup(cb, st, q)
  {}

  /** The first table has one bucket. */
  lemma FirstTable(cb: Callbacks, st: State, tableOk: bool)
    requires Invariant(cb, st) && st.table == []
    ensures var (r, ok) := Extend(cb, st, tableOk);
      && ok == tableOk
      && r == (if ok then st.(table := [[]]) else st)
      && Flat(r.table) == []
      && (ok ==> WellFormed(cb, r) && forall q :: Lookup(cb, r, q) == None)
  {}

  ghost predicate SameEntries(st: State, r: State) {
    && r == st.(table := r.table, bits := r.bits)
    && multiset(Flat(r.table)) == multiset(Flat(st.table))
    && |Flat(r.table)| == |Flat(st.table)|
  }

  /** What put relies on after it has made room, or failed to. */
  ghost predicate Room(cb: Callbacks, st: State, r: State, ok: bool) {
    && (!ok ==> r == st)
    && (ok ==> WellFormed(cb, r))
    && SameEntries(st, r)
    && forall q :: Answer(cb, r, q) == Answer(cb, st, q)
  }

  lemma MakeRoomFacts(cb: Callbacks, st: State, tableOk: bool)
    requires Sound(cb) && Invariant(cb, st)
    ensures var (r, ok) := MakeRoom(cb, st, tableOk); Room(cb, st, r, ok)
  {
    if MustExtend(st) && st.table == [] {
      FirstTable(cb, st, tableOk);
    } else if MustExtend(st) {
      BitsWhenEmpty(st);
      ExtendPreserves(cb, st, tableOk);
      var (r, ok) := Extend(cb, st, tableOk);
      RegrownIsRoom(cb, st, r, ok);
    }
  }

  lemma RegrownIsRoom(cb: Callbacks, st: State, r: State, ok: bool)
    requires Regrown(cb, st, r, ok)
    ensures Room(cb, st, r, ok)
  {
    assert HasTable(r) && HasTable(st);
  }

  /** A table that counts no put has one bucket. */
  lemma BitsWhenEmpty(st: State)
    requires Loaded(st)
    ensures st.count == 0 ==> st.bits == 0
  {}

  lemma PutKeepsInvariant(cb: Callbacks, st: State, key: Ptr, val: Ptr, tableOk: bool, itemOk: bool)
    requires Sound(cb) && Invariant(cb, st)
    ensures Invariant(cb, Put(cb, st, key, val, tableOk, itemOk).0)
  {
    PutLoaded(cb, st, key, val, tableOk, itemOk);
    MakeRoomFacts(cb, st, tableOk);
    var (st', ok) := MakeRoom(cb, st, tableOk);
    if ok && itemOk {
      var e := Entry(cb.hash(key), key, val);
      var added := AddItem(cb, st', e);
      AddItemWellFormed(cb, st', e);
      WellFormedCopy(cb, added, added.(count := added.count + 1));
    }
  }

  /** A well-formed table without one of its entries. */
  lemma CutWellFormed(cb: Callbacks, st: State, i: nat, j: nat)
    requires WellFormed(cb, st) && i < |st.table| && j < |st.table[i]|
    ensures WellFormed(cb, st.(table := st.table[i := Without(st.table[i], j)]))
  {
    var rest := Without(st.table[i], j);
    assert forall e | e in rest :: e in st.table[i];
    assert Distinct(cb, rest);
  }

  lemma RemoveWellFormed(cb: Callbacks, st: State, key: Ptr)
    requires WellFormed(cb, st)
    ensures WellFormed(cb, Remove(cb, st, key).0)
  {
    var i := Bucket(st, cb.hash(key));
    var found := Find(cb, st.table[i], cb.hash(key), key);
    if found.Some? {
      CutWellFormed(cb, st, i, found.value);
      var rest := Without(st.table[i], found.value);
      WellFormedCopy(cb, st.(table := st.table[i := rest]), Remove(cb, st, key).0);
    }
  }

  lemma RemoveKeepsInvariant(cb: Callbacks, st: State, key: Ptr)
    requires Invariant(cb, st) && HasTable(st)
    ensures Invariant(cb, Remove(cb, st, key).0)
    ensures Invariant(cb, Delete(cb, st, key))
  {
    var r := Remove(cb, st, key).0;
    RemoveLoaded(cb, st, key);
    RemoveWellFormed(cb, st, key);
    WellFormedCopy(cb, r, Delete(cb, st, key));
  }

  // ----- The answers -----

  lemma PutAnswers(cb: Callbacks, st: State, key: Ptr, val: Ptr, tableOk: bool, itemOk: bool, q: Ptr)
    requires Sound(cb) && Invariant(cb, st)
    ensures var (r, ok) := Put(cb, st, key, val, tableOk, itemOk);
      Answer(cb, r, q) == if ok && cb.equal(key, q) then Some(val) else Answer(cb, st, q)
  {
    MakeRoomFacts(cb, st, tableOk);
    var (st', ok) := MakeRoom(cb, st, tableOk);
    if ok && itemOk {
      var e := Entry(cb.hash(key), key, val);
      var added := AddItem(cb, st', e);
      AddItemLookup(cb, st', e, q);
      assert Lookup(cb, added.(count := added.count + 1), q) == Lookup(cb, added, q);
    }
  }

  lemma RemoveAnswers(cb: Callbacks, st: State, key: Ptr, q: Ptr)
    requires Sound(cb) && WellFormed(cb, st)
    ensures var (r, v) := Remove(cb, st, key);
      && v == OrNull(Lookup(cb, st, key))
      && Lookup(cb, r, q) == if cb.equal(key, q) then None else Lookup(cb, st, q)
  {
    var i := Bucket(st, cb.hash(key));
    var chain := st.table[i];
    match Find(cb, chain, cb.hash(key), key)
    case Some(j) =>
      var rest := Without(chain, j);
      if cb.equal(key, q) {
        forall e | e in rest
          ensures !Matches(cb, e, cb.hash(q), q)
        {
          var k :| 0 <= k < |chain| && k != j && chain[k] == e;
          assert !cb.equal(chain[if k < j then k else j].key, chain[if k < j then j else k].key);
        }
      } else if cb.hash(q) == cb.hash(key) || Bucket(st, cb.hash(q)) == i {
        assert !cb.equal(chain[j].key, q);
        DropAnswer(cb, chain, j, cb.hash(q), q);
      }
    case None =>
      if cb.equal(key, q) {
        AbsentFromChain(cb, st, key);
        AbsentFromChain(cb, st, q);
      }
  }

  /** Dropping an entry that does not match leaves what Find finds, one place further up if it was
      behind. */
  lemma {:induction false} DropFind(cb: Callbacks, chain: Chain, j: nat, hash: nat, key: Ptr)
    requires j < |chain| && !Matches(cb, chain[j], hash, key)
    ensures var f, g := Find(cb, Without(chain, j), hash, key), Find(cb, chain, hash, key);
      && (g.None? <==> f.None?)
      && (g.Some? ==> f == Some(if g.value < j then g.value else g.value - 1))
    decreases |chain|
  {
    var rest := Without(chain, j);
    if j == 0 {
      assert rest == chain[1..];
    } else {
      assert rest[0] == chain[0] && rest[1..] == Without(chain[1..], j - 1);
      DropFind(cb, chain[1..], j - 1, hash, key);
    }
  }

  lemma DropAnswer(cb: Callbacks, chain: Chain, j: nat, hash: nat, key: Ptr)
    requires j < |chain| && !Matches(cb, chain[j], hash, key)
    ensures var rest := Without(chain, j);
      var f, g := Find(cb, rest, hash, key), Find(cb, chain, hash, key);
      && f.Some? == g.Some?
      && (f.Some? ==> rest[f.value] == chain[g.value])
  {
    DropFind(cb, chain, j, hash, key);
  }

  lemma {:induction false} FreeAllFields(cb: Callbacks, st: State, items: seq<Entry>)
    ensures var r := FreeAll(cb, st, items);
      r == st.(keysFreed := r.keysFreed, valsFreed := r.valsFreed)
    decreases |items|
  {
    if items == [] {
    } else {
      FreeAllFields(cb, ItemFree(cb, st, items[0].key, items[0].val), items[1..]);
    }
  }

  // ----- Whole runs -----

  /** The table answers every key as the dictionary does. */
  ghost predicate Refines(cb: Callbacks, r: Run) {
    forall q :: Answer(cb, r.st, q) == Latest(cb.equal, r.events, q)
  }

  lemma StepInvariant(cb: Callbacks, r: Run, op: Op)
    requires Sound(cb) && Invariant(cb, r.st) && Enabled(r.st, op)
    ensures Invariant(cb, Step(cb, r, op).st)
  {
    match op
    case OpPut(k, v, tableOk, itemOk) => PutKeepsInvariant(cb, r.st, k, v, tableOk, itemOk);
    case OpGet(_) =>
    case OpRemove(k) => RemoveKeepsInvariant(cb, r.st, k);
    case OpDelete(k) => RemoveKeepsInvariant(cb, r.st, k);
    case OpClean => FreeAllFields(cb, r.st, Flat(r.st.table));
  }

  lemma StepRefines(cb: Callbacks, r: Run, op: Op)
    requires Sound(cb) && Invariant(cb, r.st) && Enabled(r.st, op) && Refines(cb, r)
    ensures Refines(cb, Step(cb, r, op))
  {
    var r' := Step(cb, r, op);
    forall q
      ensures Answer(cb, r'.st, q) == Latest(cb.equal, r'.events, q)
    {
      match op
      case OpPut(k, v, tableOk, itemOk) =>
        PutAnswers(cb, r.st, k, v, tableOk, itemOk, q);
        LatestAppend(cb.equal, r.events, Stored(k, v), q);
      case OpGet(_) =>
      case OpRemove(k) =>
        RemoveAnswers(cb, r.st, k, q);
        LatestAppend(cb.equal, r.events, Removed(k), q);
      case OpDelete(k) =>
        RemoveAnswers(cb, r.st, k, q);
        LatestAppend(cb.equal, r.events, Removed(k), q);
      case OpClean =>
        LatestAppend(cb.equal, r.events, Cleared, q);
        FreeAllFields(cb, r.st, Flat(r.st.table));
    }
  }

  /** Over every run that does not crash, the table keeps its invariant (chains, placement,
      load bound) and answers every key as the dictionary. */
  lemma {:induction false} TableRefinesDictionary(cb: Callbacks, script: seq<Op>)
    requires Sound(cb) && Exec(cb, script).Some?
    ensures var r := Exec(cb, script).value;
      Invariant(cb, r.st) && Refines(cb, r)
  {
    if script == [] {
    } else {
      var before := script[..|script| - 1];
      TableRefinesDictionary(cb, before);
      StepInvariant(cb, Exec(cb, before).value, script[|script| - 1]);
      StepRefines(cb, Exec(cb, before).value, script[|script| - 1]);
    }
  }

  /** The values returned: get and remove answer with the last value put for an equal key. */
  lemma AnswersAreLatest(cb: Callbacks, script: seq<Op>, key: Ptr)
    requires Sound(cb) && Exec(cb, script).Some?
    requires Enabled(Exec(cb, script).value.st, OpGet(key))
    ensures var r := Exec(cb, script).value;
      var last := OrNull(Latest(cb.equal, r.events, key));
      Get(cb, r.st, key) == last && Remove(cb, r.st, key).1 == last
  {
    TableRefinesDictionary(cb, script);
    var r := Exec(cb, script).value;
    RemoveAnswers(cb, r.st, key, key);
    assert Answer(cb, r.st, key) == Latest(cb.equal, r.events, key);
  }

  /** A run crashes only by looking a key up before the first put or after a clean. */
  lemma OnlyLookupsCrash(cb: Callbacks, script: seq<Op>, op: Op)
    requires Exec(cb, script).Some?
    ensures Enabled(Exec(cb, script).value.st, op) <==>
      op.OpPut? || op.OpClean? || Exec(cb, script).value.st.table != []
  {
    AlwaysLoaded(cb, script);
  }

  // ----- What follows -----

  /** A live key is in one place only: in the chain of its reduced hash, once. */
  lemma OnePlace(cb: Callbacks, script: seq<Op>, q: Ptr, i: nat, j: nat, i': nat, j': nat)
    requires Sound(cb) && Exec(cb, script).Some?
    requires var t := Exec(cb, script).value.st.table;
      && i < |t| && j < |t[i]| && i' < |t| && j' < |t[i']|
      && cb.equal(t[i][j].key, q) && cb.equal(t[i'][j'].key, q)
    ensures HasTable(Exec(cb, script).value.st)
    ensures i == i' == Bucket(Exec(cb, script).value.st, cb.hash(q)) && j == j'
  {
    TableRefinesDictionary(cb, script);
    var t: seq<Chain> := Exec(cb, script).value.st.table;
    assert t[i][j] in t[i] && t[i'][j'] in t[i'];
    assert cb.equal(t[i][j].key, t[i'][j'].key) && cb.equal(t[i'][j'].key, t[i][j].key);
  }

  /** Successful puts since the table was last empty. */
  function Puts(events: seq<Event>): nat {
    if events == [] then 0
    else
      PutsAfter(events[|events| - 1], Puts(events[..|events| - 1]))
  }

  function PutsAfter(e: Event, before: nat): nat {
    match e
    case Stored(_, _) => before + 1
    case Removed(_) => before
    case Cleared => 0
  }

  lemma PutsAppend(events: seq<Event>, e: Event)
    ensures Puts(events + [e]) == PutsAfter(e, Puts(events))
  {}

  /** The counter changes in put and in clean only. */
  lemma PutCounts(cb: Callbacks, st: State, key: Ptr, val: Ptr, tableOk: bool, itemOk: bool)
    requires !MustExtend(st) ==> HasTable(st)
    ensures var (r, ok) := Put(cb, st, key, val, tableOk, itemOk); r.count == st.count + if ok then 1 else 0
  {}

  lemma RemoveCounts(cb: Callbacks, st: State, key: Ptr)
    requires HasTable(st)
    ensures Remove(cb, st, key).0.count == st.count == Delete(cb, st, key).count
  {}

  lemma StepCounts(cb: Callbacks, r: Run, op: Op)
    requires Enabled(r.st, op) && r.st.count == Puts(r.events)
    ensures Step(cb, r, op).st.count == Puts(Step(cb, r, op).events)
  {
    match op
    case OpPut(k, v, tableOk, itemOk) =>
      PutCounts(cb, r.st, k, v, tableOk, itemOk);
      PutsAppend(r.events, Stored(k, v));
    case OpGet(_) =>
    case OpRemove(k) =>
      RemoveCounts(cb, r.st, k);
      PutsAppend(r.events, Removed(k));
    case OpDelete(k) =>
      RemoveCounts(cb, r.st, k);
      PutsAppend(r.events, Removed(k));
    case OpClean => PutsAppend(r.events, Cleared);
  }

  /** `count` counts puts, not entries: replacing increments it, removing does not decrement
      it. */
  lemma {:induction false} CountIsPuts(cb: Callbacks, script: seq<Op>)
    requires Exec(cb, script).Some?
    ensures Exec(cb, script).value.st.count == Puts(Exec(cb, script).value.events)
  {
    if script == [] {
    } else {
      var before := script[..|script| - 1];
      CountIsPuts(cb, before);
      StepCounts(cb, Exec(cb, before).value, script[|script| - 1]);
    }
  }

  /** When a put must succeed, by the puts since the last clean and the number of buckets. */
  predicate Accepts(puts: nat, size: nat, tableOk: bool, itemOk: bool) {
    itemOk && (puts == 0 || puts >= size ==> tableOk && (puts > 0 ==> size < 0x4000_0000))
  }

  lemma SizeBelow(bits: nat)
    requires bits <= MAX_BITS
    ensures Pow2(bits) < 0x4000_0000 <==> bits < MAX_BITS
  {
    PowersOfTwo();
    if bits < MAX_BITS {
      Pow2Grows(bits + 1, MAX_BITS);
    }
  }

  lemma ExtendSucceeds(cb: Callbacks, st: State, tableOk: bool)
    requires Loaded(st)
    ensures Extend(cb, st, tableOk).1 <==> tableOk && (st.count > 0 ==> st.bits < MAX_BITS)
  {}

  lemma PutAccepts(cb: Callbacks, st: State, key: Ptr, val: Ptr, tableOk: bool, itemOk: bool)
    requires Loaded(st)
    ensures Put(cb, st, key, val, tableOk, itemOk).1 <==> Accepts(st.count, |st.table|, tableOk, itemOk)
  {
    SizeBelow(st.bits);
    ExtendSucceeds(cb, st, tableOk);
    assert st.count > 0 ==> |st.table| == Pow2(st.bits);
    assert MustExtend(st) <==> st.count == 0 || st.count >= |st.table|;
    assert MakeRoom(cb, st, tableOk).1 <==> (MustExtend(st) ==> Extend(cb, st, tableOk).1);
  }

  /** A put succeeds exactly when there is memory for the item and, if the buckets are as few as
      the puts before it, for a bigger table of at most 2^30 buckets. */
  lemma PutSucceeds(cb: Callbacks, script: seq<Op>, key: Ptr, val: Ptr, tableOk: bool, itemOk: bool)
    requires Exec(cb, script).Some?
    ensures var r := Exec(cb, script).value;
      Put(cb, r.st, key, val, tableOk, itemOk).1 <==> Accepts(Puts(r.events), |r.st.table|, tableOk, itemOk)
  {
    AlwaysLoaded(cb, script);
    CountIsPuts(cb, script);
    PutAccepts(cb, Exec(cb, script).value.st, key, val, tableOk, itemOk);
  }

  /** Whatever the callbacks say, a lookup succeeds exactly when an item of the bucket has both the
      hash and an equal key. */
  lemma LookupExact(cb: Callbacks, st: State, key: Ptr)
    requires HasTable(st)
    ensures Lookup(cb, st, key).Some? <==>
      exists i, e :: 0 <= i < |st.table| && e in st.table[i]
        && i == Reduce(cb.hash(key), st.bits) && e.hash == cb.hash(key) && cb.equal(e.key, key)
  {
    var i := Bucket(st, cb.hash(key));
    var found := Find(cb, st.table[i], cb.hash(key), key);
    if found.Some? {
      assert st.table[i][found.value] in st.table[i];
    }
  }

  /** The load bound in every reachable state, failed puts included. */
  lemma LoadBound(cb: Callbacks, script: seq<Op>)
    requires Exec(cb, script).Some? && Exec(cb, script).value.st.table != []
    ensures var r := Exec(cb, script).value;
      var size := |r.st.table|;
      && |Flat(r.st.table)| <= Puts(r.events) <= size
      && size <= (if Puts(r.events) == 0 then 1 else 2 * Puts(r.events))
      && size <= 0x4000_0000
  {
    AlwaysLoaded(cb, script);
    CountIsPuts(cb, script);
    Pow2Grows(Exec(cb, script).value.st.bits, MAX_BITS);
    PowersOfTwo();
  }
}
