/** Ownership in the hash table: nothing handed to put is lost or freed twice. */
module HashOwner {
  import opened Dictionary
  import opened HashSpec
  import opened HashMap
  import opened HashRuns

  function KeyOf(e: Entry): Ptr { e.key }
  function ValOf(e: Entry): Ptr { e.val }

  /** How many of the entries hold the pointer `p`. */
  function Count(f: Entry -> Ptr, items: seq<Entry>, p: Ptr): nat
    decreases |items|
  {
    if items == [] then 0 else (if f(items[0]) == p then 1 else 0) + Count(f, items[1..], p)
  }

  // ----- Counting -----

  lemma {:induction false} CountAppend(f: Entry -> Ptr, a: seq<Entry>, b: seq<Entry>, p: Ptr)
    ensures Count(f, a + b, p) == Count(f, a, p) + Count(f, b, p)
    decreases |a|
  {
    if a == [] {
      assert a + b == b;
    } else {
      assert (a + b)[1..] == a[1..] + b;
      CountAppend(f, a[1..], b, p);
    }
  }

  /** Taking one item out. */
  lemma CountDrop(f: Entry -> Ptr, items: seq<Entry>, j: nat, p: Ptr)
    requires j < |items|
    ensures Count(f, items, p) == Count(f, Without(items, j), p) + One(f(items[j]), p)
  {
    assert items == items[..j] + ([items[j]] + items[j + 1..]);
    CountAppend(f, items[..j], [items[j]] + items[j + 1..], p);
    CountAppend(f, items[..j], items[j + 1..], p);
    assert ([items[j]] + items[j + 1..])[1..] == items[j + 1..];
  }

  /** Exchanging one item. */
  lemma CountUpdate(f: Entry -> Ptr, items: seq<Entry>, j: nat, x: Entry, p: Ptr)
    requires j < |items|
    ensures Count(f, items[j := x], p) + One(f(items[j]), p) == Count(f, items, p) + One(f(x), p)
  {
    CountDrop(f, items, j, p);
    CountDrop(f, items[j := x], j, p);
    assert Without(items[j := x], j) == Without(items, j);
  }

  /** Exchanging one chain. */
  lemma {:induction false} CountOfTable(f: Entry -> Ptr, table: seq<Chain>, i: nat, chain: Chain, p: Ptr)
    requires i < |table|
    ensures Count(f, Flat(table[i := chain]), p) + Count(f, table[i], p)
      == Count(f, Flat(table), p) + Count(f, chain, p)
  {
    var table' := table[i := chain];
    CountAppend(f, table[0], Flat(table[1..]), p);
    CountAppend(f, table'[0], Flat(table'[1..]), p);
    if i == 0 {
      assert table'[1..] == table[1..];
    } else {
      assert table'[1..] == table[1..][i - 1 := chain];
      CountOfTable(f, table[1..], i - 1, chain, p);
    }
  }

  // ----- What each operation does with one pointer -----

  /** How often `p` is stored as a key, or has been passed to the key callback. */
  function Keys(st: State, p: Ptr): nat {
    Count(KeyOf, Flat(st.table), p) + Times(st.keysFreed, p)
  }

  function Vals(st: State, p: Ptr): nat {
    Count(ValOf, Flat(st.table), p) + Times(st.valsFreed, p)
  }

  lemma AddItemOwner(cb: Callbacks, st: State, e: Entry, p: Ptr)
    requires HasTable(st)
    ensures var r := AddItem(cb, st, e);
      && (cb.keyFree ==> Keys(r, p) == Keys(st, p) + One(e.key, p))
      && (cb.valFree ==> Vals(r, p) == Vals(st, p) + One(e.val, p))
  {
    var i := Bucket(st, e.hash);
    match Find(cb, st.table[i], e.hash, e.key)
    case Some(j) => ReplaceOwner(cb, st, e, i, j, p);
    case None =>
      var chain := st.table[i];
      assert ([e] + chain)[1..] == chain;
      CountOfTable(KeyOf, st.table, i, [e] + chain, p);
      CountOfTable(ValOf, st.table, i, [e] + chain, p);
  }

  /** The duplicate branch of add_item: the old key stays, the old value goes. */
  lemma ReplaceOwner(cb: Callbacks, st: State, e: Entry, i: nat, j: nat, p: Ptr)
    requires i < |st.table| && j < |st.table[i]|
    ensures var chain := st.table[i];
      var r := ItemFree(cb, st.(table := st.table[i := Revalued(chain, j, e.val)]), e.key, chain[j].val);
      && (cb.keyFree ==> Keys(r, p) == Keys(st, p) + One(e.key, p))
      && (cb.valFree ==> Vals(r, p) == Vals(st, p) + One(e.val, p))
  {
    var chain := st.table[i];
    var x := chain[j].(val := e.val);
    CountUpdate(KeyOf, chain, j, x, p);
    CountOfTable(KeyOf, st.table, i, Revalued(chain, j, e.val), p);
    TimesAppend(st.keysFreed, e.key, p);
    CountUpdate(ValOf, chain, j, x, p);
    CountOfTable(ValOf, st.table, i, Revalued(chain, j, e.val), p);
    TimesAppend(st.valsFreed, chain[j].val, p);
  }

  /** Relinking conserves too: if it meets a duplicate, add_item frees what it drops. */
  lemma {:induction false} RehashOwner(cb: Callbacks, st: State, todo: seq<Entry>, p: Ptr)
    requires HasTable(st)
    ensures var r := Rehash(cb, st, todo);
      && (cb.keyFree ==> Keys(r, p) == Keys(st, p) + Count(KeyOf, todo, p))
      && (cb.valFree ==> Vals(r, p) == Vals(st, p) + Count(ValOf, todo, p))
    decreases |todo|
  {
    if todo == [] {
    } else {
      AddItemOwner(cb, st, todo[0], p);
      RehashOwner(cb, AddItem(cb, st, todo[0]), todo[1..], p);
    }
  }

  lemma MakeRoomOwner(cb: Callbacks, st: State, tableOk: bool, p: Ptr)
    ensures var r := MakeRoom(cb, st, tableOk).0;
      (cb.keyFree ==> Keys(r, p) == Keys(st, p)) && (cb.valFree ==> Vals(r, p) == Vals(st, p))
  {
    var (r, ok) := MakeRoom(cb, st, tableOk);
    if MustExtend(st) && ok {
      var blank := st.(bits := r.bits, table := EmptyTable(r.bits));
      FlatOfEmpty(blank.table);
      RehashOwner(cb, blank, Flat(st.table), p);
    }
  }

  lemma PutOwner(cb: Callbacks, st: State, key: Ptr, val: Ptr, tableOk: bool, itemOk: bool, p: Ptr)
    requires !MustExtend(st) ==> HasTable(st)
    ensures var (r, ok) := Put(cb, st, key, val, tableOk, itemOk);
      && (cb.keyFree ==> Keys(r, p) == Keys(st, p) + if ok then One(key, p) else 0)
      && (cb.valFree ==> Vals(r, p) == Vals(st, p) + if ok then One(val, p) else 0)
  {
    MakeRoomOwner(cb, st, tableOk, p);
    var (st', ok) := MakeRoom(cb, st, tableOk);
    if ok && itemOk {
      AddItemOwner(cb, st', Entry(cb.hash(key), key, val), p);
    }
  }

  // ----- A put on an equal key -----

  /** Find finds the one entry with an equal key. */
  lemma FindsEqual(cb: Callbacks, st: State, e: Entry, key: Ptr)
    requires Sound(cb) && WellFormed(cb, st) && e in Flat(st.table) && cb.equal(e.key, key)
    ensures var chain := st.table[Bucket(st, cb.hash(key))];
      var found := Find(cb, chain, cb.hash(key), key);
      found.Some? && chain[found.value] == e
  {
    FlatMember(st.table, e);
    var chain := st.table[Bucket(st, cb.hash(key))];
    var j :| 0 <= j < |chain| && chain[j] == e;
    assert Matches(cb, chain[j], cb.hash(key), key);
    var f := Find(cb, chain, cb.hash(key), key).value;
    assert cb.equal(chain[f].key, key) && cb.equal(chain[f].key, e.key);
  }

  lemma RevaluedEntries(chain: Chain, j: nat, val: Ptr)
    requires j < |chain|
    ensures multiset(Revalued(chain, j, val)) == multiset(chain) - multiset{chain[j]} + multiset{chain[j].(val := val)}
  {}

  lemma ReplaceEntry(a: multiset<Entry>, b: multiset<Entry>, c: multiset<Entry>, x: Entry, y: Entry)
    requires x in b && x in c && a + c == b + (c - multiset{x} + multiset{y})
    ensures a == b - multiset{x} + multiset{y}
  {
    forall z
      ensures a[z] == (b - multiset{x} + multiset{y})[z]
    {
      assert (a + c)[z] == b[z] + (c - multiset{x} + multiset{y})[z];
    }
  }

  /** A put on an equal key that has the memory it may need succeeds: it keeps the old key and
      frees the new one; the new value is stored and the old one freed.  Growing on the way
      changes nothing of this. */
  lemma PutKeepsOldKey(cb: Callbacks, script: seq<Op>, e: Entry, key: Ptr, val: Ptr, tableOk: bool)
    requires Sound(cb) && Exec(cb, script).Some?
    requires e in Flat(Exec(cb, script).value.st.table) && cb.equal(e.key, key)
    requires Accepts(Puts(Exec(cb, script).value.events), |Exec(cb, script).value.st.table|, tableOk, true)
    ensures var st := Exec(cb, script).value.st;
      var (r, ok) := Put(cb, st, key, val, tableOk, true);
      && ok
      && multiset(Flat(r.table)) == multiset(Flat(st.table)) - multiset{e} + multiset{e.(val := val)}
      && r.keysFreed == st.keysFreed + (if cb.keyFree then [key] else [])
      && r.valsFreed == st.valsFreed + (if cb.valFree then [e.val] else [])
  {
    TableRefinesDictionary(cb, script);
    PutSucceeds(cb, script, key, val, tableOk, true);
    PutOnEqual(cb, Exec(cb, script).value.st, e, key, val, tableOk);
  }

  /** A put that fails, growing or not, keeps every entry and frees nothing. */
  lemma FailedPut(cb: Callbacks, script: seq<Op>, key: Ptr, val: Ptr, tableOk: bool, itemOk: bool)
    requires Sound(cb) && Exec(cb, script).Some?
    requires !Accepts(Puts(Exec(cb, script).value.events), |Exec(cb, script).value.st.table|, tableOk, itemOk)
    ensures var st := Exec(cb, script).value.st;
      var (r, ok) := Put(cb, st, key, val, tableOk, itemOk);
      !ok && SameEntries(st, r)
  {
    TableRefinesDictionary(cb, script);
    PutSucceeds(cb, script, key, val, tableOk, itemOk);
    MakeRoomFacts(cb, Exec(cb, script).value.st, tableOk);
  }

  lemma PutOnEqual(cb: Callbacks, st: State, e: Entry, key: Ptr, val: Ptr, tableOk: bool)
    requires Sound(cb) && Invariant(cb, st) && e in Flat(st.table) && cb.equal(e.key, key)
    ensures var (r, ok) := Put(cb, st, key, val, tableOk, true);
      ok ==>
        && multiset(Flat(r.table)) == multiset(Flat(st.table)) - multiset{e} + multiset{e.(val := val)}
        && r.keysFreed == st.keysFreed + (if cb.keyFree then [key] else [])
        && r.valsFreed == st.valsFreed + (if cb.valFree then [e.val] else [])
  {
    MakeRoomFacts(cb, st, tableOk);
    var (r, ok) := MakeRoom(cb, st, tableOk);
    if ok {
      assert e in multiset(Flat(r.table));
      FindsEqual(cb, r, e, key);
      var i := Bucket(r, cb.hash(key));
      var chain := r.table[i];
      var j := Find(cb, chain, cb.hash(key), key).value;
      FlatUpdate(r.table, i, Revalued(chain, j, val));
      RevaluedEntries(chain, j, val);
      ReplaceEntry(multiset(Flat(r.table[i := Revalued(chain, j, val)])), multiset(Flat(r.table)), multiset(chain),
        e, e.(val := val));
    }
  }

  // ----- Removing and clearing -----

  /** The removed value moves to the caller and the value callback gets a NULL; when there is
      none, the caller gets the NULL. */
  lemma RemoveOwner(cb: Callbacks, st: State, key: Ptr, p: Ptr)
    requires HasTable(st)
    ensures var (r, v) := Remove(cb, st, key);
      && (cb.keyFree ==> Keys(r, p) == Keys(st, p))
      && (cb.valFree ==> Vals(r, p) + One(v, p) == Vals(st, p) + One(NULL, p))
  {
    var i := Bucket(st, cb.hash(key));
    var chain := st.table[i];
    match Find(cb, chain, cb.hash(key), key)
    case Some(j) =>
      var rest := Without(chain, j);
      CountOfTable(KeyOf, st.table, i, rest, p);
      CountOfTable(ValOf, st.table, i, rest, p);
      CountDrop(KeyOf, chain, j, p);
      CountDrop(ValOf, chain, j, p);
      TimesAppend(st.keysFreed, chain[j].key, p);
      TimesAppend(st.valsFreed, NULL, p);
    case None =>
  }

  /** Deleting passes the value to its callback instead. */
  lemma DeleteOwner(cb: Callbacks, st: State, key: Ptr, p: Ptr)
    requires HasTable(st)
    ensures var r := Delete(cb, st, key);
      && (cb.keyFree ==> Keys(r, p) == Keys(st, p))
      && (cb.valFree ==> Vals(r, p) == Vals(st, p) + One(NULL, p))
  {
    var (r, v) := Remove(cb, st, key);
    RemoveOwner(cb, st, key, p);
    TimesAppend(r.valsFreed, v, p);
  }

  lemma {:induction false} FreeAllOwner(cb: Callbacks, st: State, items: seq<Entry>, p: Ptr)
    ensures var r := FreeAll(cb, st, items);
      && (cb.keyFree ==> Times(r.keysFreed, p) == Times(st.keysFreed, p) + Count(KeyOf, items, p))
      && (cb.valFree ==> Times(r.valsFreed, p) == Times(st.valsFreed, p) + Count(ValOf, items, p))
    decreases |items|
  {
    if items == [] {
    } else {
      TimesAppend(st.keysFreed, items[0].key, p);
      TimesAppend(st.valsFreed, items[0].val, p);
      FreeAllOwner(cb, ItemFree(cb, st, items[0].key, items[0].val), items[1..], p);
    }
  }

  // ----- Whole runs -----

  /** How many keys were removed or deleted, present or not. */
  function Removals(events: seq<Event>): nat {
    if events == [] then 0
    else Removals(events[..|events| - 1]) + if events[|events| - 1].Removed? then 1 else 0
  }

  /** The NULLs they bring into play. */
  function Nulls(events: seq<Event>, p: Ptr): nat {
    if p == NULL then Removals(events) else 0
  }

  lemma RemovalsAppend(events: seq<Event>, e: Event)
    ensures Removals(events + [e]) == Removals(events) + if e.Removed? then 1 else 0
  {}

  /** Every key accepted by put is stored or was passed to the key callback, once; every value is
      stored, or was passed to the value callback, or was returned by remove, once; besides, every
      remove and every delete passes or returns one NULL. */
  ghost predicate Conserved(cb: Callbacks, r: Run) {
    && (cb.keyFree ==> forall p :: r.keysIn[p] == Keys(r.st, p))
    && (cb.valFree ==> forall p ::
          r.valsIn[p] + Nulls(r.events, p) == Vals(r.st, p) + r.valsOut[p])
  }

  lemma StepConservesOne(cb: Callbacks, r: Run, op: Op, p: Ptr)
    requires Enabled(r.st, op)
    ensures var r' := Step(cb, r, op);
      && (cb.keyFree ==> r'.keysIn[p] - Keys(r'.st, p) == r.keysIn[p] - Keys(r.st, p))
      && (cb.valFree ==>
        r'.valsIn[p] + Nulls(r'.events, p) - Vals(r'.st, p) - r'.valsOut[p]
          == r.valsIn[p] + Nulls(r.events, p) - Vals(r.st, p) - r.valsOut[p])
  {
    match op
    case OpPut(k, v, tableOk, itemOk) =>
      PutOwner(cb, r.st, k, v, tableOk, itemOk, p);
      RemovalsAppend(r.events, Stored(k, v));
    case OpGet(_) =>
    case OpRemove(k) =>
      RemoveOwner(cb, r.st, k, p);
      RemovalsAppend(r.events, Removed(k));
    case OpDelete(k) =>
      DeleteOwner(cb, r.st, k, p);
      RemovalsAppend(r.events, Removed(k));
    case OpClean =>
      RemovalsAppend(r.events, Cleared);
      FreeAllOwner(cb, r.st, Flat(r.st.table), p);
      FreeAllFields(cb, r.st, Flat(r.st.table));
  }

  lemma StepConserves(cb: Callbacks, r: Run, op: Op)
    requires Enabled(r.st, op) && Conserved(cb, r)
    ensures Conserved(cb, Step(cb, r, op))
  {
    forall p {
      StepConservesOne(cb, r, op, p);
    }
  }

  /** Over every run, whatever hash and equality say. */
  lemma {:induction false} OwnershipConserved(cb: Callbacks, script: seq<Op>)
    requires Exec(cb, script).Some?
    ensures Conserved(cb, Exec(cb, script).value)
  {
    if script == [] {
    } else {
      var before := script[..|script| - 1];
      OwnershipConserved(cb, before);
      StepConserves(cb, Exec(cb, before).value, script[|script| - 1]);
    }
  }

  /** After a clean nothing is stored: all was freed or returned. */
  lemma NothingLeftAfterClean(cb: Callbacks, script: seq<Op>)
    requires Exec(cb, script).Some? && cb.keyFree && cb.valFree
    ensures var r := Step(cb, Exec(cb, script).value, OpClean);
      && r.st.table == []
      && (forall p :: r.keysIn[p] == Times(r.st.keysFreed, p))
      && (forall p | p != NULL :: r.valsIn[p] == Times(r.st.valsFreed, p) + r.valsOut[p])
      && r.valsIn[NULL] + Removals(r.events) == Times(r.st.valsFreed, NULL) + r.valsOut[NULL]
  {
    OwnershipConserved(cb, script);
    StepConserves(cb, Exec(cb, script).value, OpClean);
  }

  // ----- The calls themselves -----

  function KeysOf(items: seq<Entry>): (keys: seq<Ptr>) {
    seq(|items|, i requires 0 <= i < |items| => items[i].key)
  }

  function ValsOf(items: seq<Entry>): (vals: seq<Ptr>) {
    seq(|items|, i requires 0 <= i < |items| => items[i].val)
  }

  lemma FirstOf(items: seq<Entry>)
    requires items != []
    ensures KeysOf(items) == [items[0].key] + KeysOf(items[1..])
    ensures ValsOf(items) == [items[0].val] + ValsOf(items[1..])
  {}

  /** Freeing a chain passes on its keys and its values in its order. */
  lemma {:induction false} FreeAllCalls(cb: Callbacks, st: State, items: seq<Entry>)
    ensures var r := FreeAll(cb, st, items);
      && r.keysFreed == st.keysFreed + (if cb.keyFree then KeysOf(items) else [])
      && r.valsFreed == st.valsFreed + (if cb.valFree then ValsOf(items) else [])
    decreases |items|
  {
    if items == [] {
    } else {
      FirstOf(items);
      FreeAllCalls(cb, ItemFree(cb, st, items[0].key, items[0].val), items[1..]);
    }
  }

  lemma {:induction false} RehashSilent(cb: Callbacks, st: State, todo: seq<Entry>)
    requires HasTable(st)
    ensures var r := Rehash(cb, st, todo);
      (!cb.keyFree ==> r.keysFreed == st.keysFreed) && (!cb.valFree ==> r.valsFreed == st.valsFreed)
    decreases |todo|
  {
    if todo == [] {
    } else {
      RehashSilent(cb, AddItem(cb, st, todo[0]), todo[1..]);
    }
  }

  lemma StepSilent(cb: Callbacks, r: Run, op: Op)
    requires Enabled(r.st, op)
    ensures var r' := Step(cb, r, op);
      (!cb.keyFree ==> r'.st.keysFreed == r.st.keysFreed) && (!cb.valFree ==> r'.st.valsFreed == r.st.valsFreed)
  {
    match op
    case OpPut(k, v, tableOk, itemOk) =>
      var (st, ok) := MakeRoom(cb, r.st, tableOk);
      if MustExtend(r.st) && ok {
        RehashSilent(cb, r.st.(bits := st.bits, table := EmptyTable(st.bits)), Flat(r.st.table));
      }
    case OpGet(_) =>
    case OpRemove(k) =>
    case OpDelete(k) =>
    case OpClean => FreeAllCalls(cb, r.st, Flat(r.st.table));
  }

  /** A callback that is NULL is never called. */
  lemma {:induction false} NullCallbacksSilent(cb: Callbacks, script: seq<Op>)
    requires Exec(cb, script).Some?
    ensures var st := Exec(cb, script).value.st;
      (!cb.keyFree ==> st.keysFreed == []) && (!cb.valFree ==> st.valsFreed == [])
  {
    if script == [] {
    } else {
      var before := script[..|script| - 1];
      NullCallbacksSilent(cb, before);
      StepSilent(cb, Exec(cb, before).value, script[|script| - 1]);
    }
  }
}
