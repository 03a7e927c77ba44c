/** The hash table refines the dictionary, over every run. */
module HashMap {
  import opened Words
  import opened XorFold
  import opened Dictionary
  import opened HashSpec

  /** What the table needs of its callbacks. */
  ghost predicate Sound(cb: Callbacks) {
    && Equivalence(cb.equal)
    && forall a: Ptr, b: Ptr :: cb.equal(a, b) ==> cb.hash(a) == cb.hash(b)
  }

  /** Every entry carries its key's hash and sits in the chain of its reduced hash. */
  ghost predicate Placed(cb: Callbacks, st: State)
    requires HasTable(st)
  {
    forall i, e | 0 <= i < |st.table| && e in st.table[i] ::
      e.hash == cb.hash(e.key) && Bucket(st, e.hash) == i
  }

  /** No two entries have equal keys. */
  ghost predicate Distinct(cb: Callbacks, items: seq<Entry>) {
    forall a, b | 0 <= a < b < |items| :: !cb.equal(items[a].key, items[b].key)
  }

  ghost predicate WellFormed(cb: Callbacks, st: State) {
    && HasTable(st)
    && Placed(cb, st)
    && forall i | 0 <= i < |st.table| :: Distinct(cb, st.table[i])
  }

  /** No entry of the table has a key equal to `key`. */
  ghost predicate Absent(cb: Callbacks, st: State, key: Ptr) {
    forall e | e in Flat(st.table) :: !cb.equal(e.key, key)
  }

  // ----- Chains and the flat sequence -----

  lemma {:induction false} FlatMember(table: seq<Chain>, e: Entry)
    ensures e in Flat(table) <==> exists i :: 0 <= i < |table| && e in table[i]
  {
    if table == [] {
    } else {
      FlatMember(table[1..], e);
      if i :| 0 <= i < |table| && e in table[i] {
        if i > 0 {
          assert e in table[1..][i - 1];
        }
      }
      if e in Flat(table) && e !in table[0] {
        var i :| 0 <= i < |table[1..]| && e in table[1..][i];
        assert e in table[i + 1];
      }
    }
  }

  lemma AddCommon<T>(a: multiset<T>, b: multiset<T>, c: multiset<T>, d: multiset<T>, common: multiset<T>)
    requires a + b == c + d
    ensures (common + a) + b == (common + c) + d
  {
    assert (common + a) + b == common + (a + b);
    assert (common + c) + d == common + (c + d);
  }

  /** Exchanging one chain exchanges its entries, nothing else. */
  lemma {:induction false} FlatUpdate(table: seq<Chain>, i: nat, chain: Chain)
    requires i < |table|
    ensures multiset(Flat(table[i := chain])) + multiset(table[i]) == multiset(Flat(table)) + multiset(chain)
    ensures |Flat(table[i := chain])| + |table[i]| == |Flat(table)| + |chain|
  {
    var table' := table[i := chain];
    assert Flat(table) == table[0] + Flat(table[1..]);
    assert Flat(table') == table'[0] + Flat(table'[1..]);
    if i == 0 {
      assert table'[1..] == table[1..];
    } else {
      assert table'[1..] == table[1..][i - 1 := chain];
      FlatUpdate(table[1..], i - 1, chain);
      AddCommon(multiset(Flat(table'[1..])), multiset(table[i]), multiset(Flat(table[1..])), multiset(chain),
        multiset(table[0]));
    }
  }

  lemma {:induction false} FlatOfEmpty(table: seq<Chain>)
    requires forall i | 0 <= i < |table| :: table[i] == []
    ensures Flat(table) == []
  {
    if table == [] {
    } else {
      FlatOfEmpty(table[1..]);
    }
  }

  /** A key absent from its own chain is absent from the table. */
  lemma AbsentFromChain(cb: Callbacks, st: State, key: Ptr)
    requires Sound(cb) && WellFormed(cb, st)
    ensures Absent(cb, st, key) <==> Find(cb, st.table[Bucket(st, cb.hash(key))], cb.hash(key), key).None?
  {
    var i := Bucket(st, cb.hash(key));
    var found := Find(cb, st.table[i], cb.hash(key), key);
    if found.Some? {
      var e := st.table[i][found.value];
      FlatMember(st.table, e);
    } else {
      forall e | e in Flat(st.table)
        ensures !cb.equal(e.key, key)
      {
        FlatMember(st.table, e);
      }
    }
  }

  /** Find returns the only entry with an equal key. */
  lemma LookupMeaning(cb: Callbacks, st: State, e: Entry, key: Ptr)
    requires Sound(cb) && WellFormed(cb, st)
    requires e in Flat(st.table) && cb.equal(e.key, key)
    ensures Lookup(cb, st, key) == Some(e.val)
  {
    FlatMember(st.table, e);
    var i := Bucket(st, cb.hash(key));
    var chain := st.table[i];
    assert e in chain;
    var j :| 0 <= j < |chain| && chain[j] == e;
    assert Matches(cb, chain[j], cb.hash(key), key);
    var f := Find(cb, chain, cb.hash(key), key).value;
    assert cb.equal(chain[f].key, key);
    assert cb.equal(chain[f].key, chain[j].key);
    assert f == j;
  }

  lemma CancelCommon<T>(a: multiset<T>, common: multiset<T>, b: multiset<T>, added: multiset<T>)
    requires a + common == b + (added + common)
    ensures a == b + added
  {
    forall x
      ensures a[x] == (b + added)[x]
    {
      assert (a + common)[x] == (b + (added + common))[x];
    }
  }

  // ----- add_item -----

  lemma AddItemWellFormed(cb: Callbacks, st: State, e: Entry)
    requires Sound(cb) && WellFormed(cb, st) && e.hash == cb.hash(e.key)
    ensures WellFormed(cb, AddItem(cb, st, e))
  {}

  /** A new key adds its entry and frees nothing. */
  lemma AddItemNew(cb: Callbacks, st: State, e: Entry)
    requires Sound(cb) && WellFormed(cb, st) && e.hash == cb.hash(e.key)
    requires Absent(cb, st, e.key)
    ensures var r := AddItem(cb, st, e);
      && multiset(Flat(r.table)) == multiset(Flat(st.table)) + multiset{e}
      && |Flat(r.table)| == |Flat(st.table)| + 1
      && r.keysFreed == st.keysFreed && r.valsFreed == st.valsFreed
  {
    AbsentFromChain(cb, st, e.key);
    var i := Bucket(st, e.hash);
    var chain := st.table[i];
    FlatUpdate(st.table, i, [e] + chain);
    assert multiset([e] + chain) == multiset{e} + multiset(chain);
    CancelCommon(multiset(Flat(st.table[i := [e] + chain])), multiset(chain), multiset(Flat(st.table)), multiset{e});
  }

  /** After add_item the key has the new value and every other key the old one. */
  lemma AddItemLookup(cb: Callbacks, st: State, e: Entry, q: Ptr)
    requires Sound(cb) && WellFormed(cb, st) && e.hash == cb.hash(e.key)
    ensures Lookup(cb, AddItem(cb, st, e), q) == if cb.equal(e.key, q) then Some(e.val) else Lookup(cb, st, q)
  {
    var r := AddItem(cb, st, e);
    var i := Bucket(st, e.hash);
    var chain := st.table[i];
    AddItemWellFormed(cb, st, e);
    match Find(cb, chain, e.hash, e.key)
    case Some(j) =>
      if cb.equal(e.key, q) {
        var x := r.table[i][j];
        FlatMember(r.table, x);
        assert x in r.table[i];
        assert cb.equal(x.key, q);
        LookupMeaning(cb, r, x, q);
      } else {
        ReplaceFind(cb, chain, j, e.val, cb.hash(q), q);
        assert cb.equal(chain[j].key, e.key);
      }
    case None =>
      assert ([e] + chain)[1..] == chain;
  }

  /** Changing a value does not change what Find finds. */
  lemma {:induction false} ReplaceFind(cb: Callbacks, chain: Chain, j: nat, val: Ptr, hash: nat, key: Ptr)
    requires j < |chain|
    ensures Find(cb, Revalued(chain, j, val), hash, key) == Find(cb, chain, hash, key)
    decreases |chain|
  {
    var chain' := Revalued(chain, j, val);
    if j == 0 {
      assert chain'[1..] == chain[1..];
    } else {
      assert chain'[1..] == Revalued(chain[1..], j - 1, val);
      ReplaceFind(cb, chain[1..], j - 1, val, hash, key);
    }
  }

  // ----- extend -----

  /** The entries of a well-formed table have pairwise different keys. */
  lemma {:induction false} FlatDistinct(cb: Callbacks, table: seq<Chain>)
    requires forall i | 0 <= i < |table| :: Distinct(cb, table[i])
    requires forall i, j, x, y | 0 <= i < j < |table| && x in table[i] && y in table[j] :: !cb.equal(x.key, y.key)
    ensures Distinct(cb, Flat(table))
  {
    if table == [] {
    } else {
      FlatDistinct(cb, table[1..]);
      var head: seq<Entry>, rest: seq<Entry> := table[0], Flat(table[1..]);
      forall a, b | 0 <= a < b < |head + rest|
        ensures !cb.equal((head + rest)[a].key, (head + rest)[b].key)
      {
        if a < |head| <= b {
          FlatMember(table[1..], rest[b - |head|]);
        } else if b < |head| {
          assert !cb.equal(head[a].key, head[b].key);
        } else {
          assert !cb.equal(rest[a - |head|].key, rest[b - |head|].key);
        }
      }
    }
  }

  lemma TableDistinct(cb: Callbacks, st: State)
    requires Sound(cb) && WellFormed(cb, st)
    ensures Distinct(cb, Flat(st.table))
  {
    FlatDistinct(cb, st.table);
  }

  lemma StillAbsent(cb: Callbacks, st: State, r: State, e: Entry, key: Ptr)
    requires multiset(Flat(r.table)) == multiset(Flat(st.table)) + multiset{e}
    requires Absent(cb, st, key) && !cb.equal(e.key, key)
    ensures Absent(cb, r, key)
  {
    forall y | y in Flat(r.table)
      ensures !cb.equal(y.key, key)
    {
      assert y in multiset(Flat(r.table));
      assert y == e || y in multiset(Flat(st.table));
    }
  }

  /** Relinking distinct entries never meets a duplicate: each is linked once and none freed. */
  lemma {:induction false} RehashLinksAll(cb: Callbacks, st: State, todo: seq<Entry>)
    requires Sound(cb) && WellFormed(cb, st)
    requires Distinct(cb, todo)
    requires forall e | e in todo :: e.hash == cb.hash(e.key) && Absent(cb, st, e.key)
    ensures var r := Rehash(cb, st, todo);
      && WellFormed(cb, r)
      && multiset(Flat(r.table)) == multiset(Flat(st.table)) + multiset(todo)
      && |Flat(r.table)| == |Flat(st.table)| + |todo|
      && r.keysFreed == st.keysFreed && r.valsFreed == st.valsFreed
    decreases |todo|
  {
    if todo == [] {
    } else {
      var e, rest := todo[0], todo[1..];
      assert todo == [e] + rest;
      var st' := AddItem(cb, st, e);
      assert e in todo;
      AddItemWellFormed(cb, st, e);
      AddItemNew(cb, st, e);
      forall x | x in rest
        ensures x.hash == cb.hash(x.key) && Absent(cb, st', x.key)
      {
        assert x in todo;
        StillAbsent(cb, st, st', e, x.key);
      }
      RehashLinksAll(cb, st', rest);
    }
  }

  /** The outcome `r` of growing `st`: every entry is linked once, no callback was called, every
      answer is the same, and a failed allocation changed nothing. */
  ghost predicate Regrown(cb: Callbacks, st: State, r: State, ok: bool) {
    && WellFormed(cb, r) && HasTable(st)
    && r == st.(table := r.table, bits := r.bits)
    && r.bits == (if ok && st.count != 0 then st.bits + 1 else st.bits)
    && (ok ==> r.bits <= MAX_BITS)
    && multiset(Flat(r.table)) == multiset(Flat(st.table))
    && |Flat(r.table)| == |Flat(st.table)|
    && (!ok ==> r == st)
    && forall q :: Lookup(cb, r, q) == Lookup(cb, st, q)
  }

  /** Growing preserves the map.  Its calls of add_item never take the duplicate branch, and a
      failed allocation leaves table, bits and contents as they were. */
  lemma ExtendPreserves(cb: Callbacks, st: State, tableOk: bool)
    requires Sound(cb) && WellFormed(cb, st)
    requires st.count == 0 ==> st.bits == 0
    ensures var (r, ok) := Extend(cb, st, tableOk); Regrown(cb, st, r, ok)
  {
    var (r, ok) := Extend(cb, st, tableOk);
    if ok {
      var blank := st.(bits := r.bits, table := EmptyTable(r.bits));
      FlatOfEmpty(blank.table);
      TableDistinct(cb, st);
      forall e | e in Flat(st.table)
        ensures e.hash == cb.hash(e.key)
      {
        FlatMember(st.table, e);
      }
      RehashLinksAll(cb, blank, Flat(st.table));
      forall q
        ensures Lookup(cb, r, q) == Lookup(cb, st, q)
      {
        SameEntriesSameLookup(cb, st, r, q);
      }
    }
  }

  lemma SameEntriesSameLookup(cb: Callbacks, st: State, r: State, q: Ptr)
    requires Sound(cb) && WellFormed(cb, st) && WellFormed(cb, r)
    requires multiset(Flat(r.table)) == multiset(Flat(st.table))
    ensures Lookup(cb, r, q) == Lookup(cb, st, q)
  {
    assert forall e :: e in multiset(Flat(r.table)) <==> e in Flat(r.table);
    assert forall e :: e in multiset(Flat(st.table)) <==> e in Flat(st.table);
    AbsentFromChain(cb, st, q);
    AbsentFromChain(cb, r, q);
    if !Absent(cb, st, q) {
      var e :| e in Flat(st.table) && cb.equal(e.key, q);
      LookupMeaning(cb, st, e, q);
      LookupMeaning(cb, r, e, q);
    }
  }
}
