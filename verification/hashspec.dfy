/** The chained hash table of a/hash.c on values: a table is the sequence of its chains, each
    in link order; the empty sequence stands for the NULL table. */
module HashSpec {
  import opened Words
  import opened XorFold
  import opened Dictionary
  import Joat

  /** The function pointers of the table; a `false` stands for a NULL free callback. */
  datatype Callbacks = Callbacks(
    hash: Ptr -> Joat.Word, equal: (Ptr, Ptr) -> bool, keyFree: bool, valFree: bool)

  datatype Entry = Entry(hash: Joat.Word, key: Ptr, val: Ptr)

  type Chain = seq<Entry>

  /** `keysFreed` and `valsFreed` record the arguments of the free callbacks, in call order. */
  datatype State = State(
    table: seq<Chain>, bits: nat, count: nat, keysFreed: seq<Ptr>, valsFreed: seq<Ptr>)

  const EMPTY := State([], 0, 0, [], [])

  /** `1 << bits` is an `int`: no table has more than 2^30 buckets. */
  const MAX_BITS: nat := 30

  // ----- Operations -----

  predicate HasTable(st: State) {
    st.table != [] && |st.table| == Pow2(st.bits)
  }

  function Bucket(st: State, hash: nat): (i: nat)
    requires HasTable(st)
    ensures i < |st.table|
  {
    ReduceBelow(hash, st.bits);
    Reduce(hash, st.bits)
  }

  predicate Matches(cb: Callbacks, e: Entry, hash: nat, key: Ptr) {
    e.hash == hash && cb.equal(e.key, key)
  }

  /** The position of the first entry of the chain that matches. */
  function Find(cb: Callbacks, chain: Chain, hash: nat, key: Ptr): (r: Option<nat>)
    ensures r.Some? ==> r.value < |chain| && Matches(cb, chain[r.value], hash, key)
    ensures forall i | 0 <= i < (if r.Some? then r.value else |chain|) :: !Matches(cb, chain[i], hash, key)
  {
    if chain == [] then None
    else if Matches(cb, chain[0], hash, key) then Some(0)
    else
      match Find(cb, chain[1..], hash, key)
      case Some(i) => Some(i + 1)
      case None => None
  }

  /** item_free: the callbacks that exist are called, with a NULL as with any pointer. */
  function ItemFree(cb: Callbacks, st: State, key: Ptr, val: Ptr): State {
    st.(keysFreed := st.keysFreed + (if cb.keyFree then [key] else []),
        valsFreed := st.valsFreed + (if cb.valFree then [val] else []))
  }

  function Revalued(chain: Chain, j: nat, val: Ptr): Chain
    requires j < |chain|
  {
    chain[j := chain[j].(val := val)]
  }

  /** add_item: a duplicate keeps the old key, takes the new value and frees the rest. */
  function AddItem(cb: Callbacks, st: State, e: Entry): (r: State)
    requires HasTable(st)
    ensures HasTable(r) && r.bits == st.bits && r.count == st.count
  {
    var i := Bucket(st, e.hash);
    var chain := st.table[i];
    match Find(cb, chain, e.hash, e.key)
    case Some(j) =>
      ItemFree(cb, st.(table := st.table[i := Revalued(chain, j, e.val)]), e.key, chain[j].val)
    case None =>
      st.(table := st.table[i := [e] + chain])
  }

  function Rehash(cb: Callbacks, st: State, todo: seq<Entry>): (r: State)
    requires HasTable(st)
    ensures HasTable(r) && r.bits == st.bits && r.count == st.count
    decreases |todo|
  {
    if todo == [] then st else Rehash(cb, AddItem(cb, st, todo[0]), todo[1..])
  }

  /** All entries, chain after chain. */
  function Flat(table: seq<Chain>): seq<Entry> {
    if table == [] then [] else table[0] + Flat(table[1..])
  }

  function EmptyTable(bits: nat): seq<Chain> {
    seq(Pow2(bits), _ => [])
  }

  /** extend: a failed allocation undoes the increment of `bits`. */
  function Extend(cb: Callbacks, st: State, tableOk: bool): (State, bool) {
    var bits := if st.count != 0 then st.bits + 1 else st.bits;
    if tableOk && bits <= MAX_BITS then
      (Rehash(cb, st.(bits := bits, table := EmptyTable(bits)), Flat(st.table)), true)
    else
      (st.(bits := if bits > 0 then bits - 1 else bits), false)
  }

  predicate MustExtend(st: State) {
    st.count == 0 || Pow2(st.bits) < st.count + 1
  }

  function MakeRoom(cb: Callbacks, st: State, tableOk: bool): (State, bool) {
    if MustExtend(st) then Extend(cb, st, tableOk) else (st, true)
  }

  /** a_hash_put; the flags say which allocations would succeed. */
  function Put(cb: Callbacks, st: State, key: Ptr, val: Ptr, tableOk: bool, itemOk: bool): (State, bool)
    requires !MustExtend(st) ==> HasTable(st)
  {
    var (st', ok) := MakeRoom(cb, st, tableOk);
    if !ok || !itemOk then (st', false)
    else
      var added := AddItem(cb, st', Entry(cb.hash(key), key, val));
      (added.(count := added.count + 1), true)
  }

  function Lookup(cb: Callbacks, st: State, key: Ptr): Option<Ptr>
    requires HasTable(st)
  {
    var chain := st.table[Bucket(st, cb.hash(key))];
    match Find(cb, chain, cb.hash(key), key)
    case Some(j) => Some(chain[j].val)
    case None => None
  }

  /** a_hash_get */
  function Get(cb: Callbacks, st: State, key: Ptr): Ptr
    requires HasTable(st)
  {
    OrNull(Lookup(cb, st, key))
  }

  /** A sequence without its element at `j`. */
  function Without<T>(s: seq<T>, j: nat): seq<T>
    requires j < |s|
  {
    s[..j] + s[j + 1..]
  }

  /** a_hash_remove: the value goes to the caller, the key to its callback, and the value
      callback is called with NULL. */
  function Remove(cb: Callbacks, st: State, key: Ptr): (State, Ptr)
    requires HasTable(st)
  {
    var i := Bucket(st, cb.hash(key));
    var chain := st.table[i];
    match Find(cb, chain, cb.hash(key), key)
    case Some(j) =>
      var rest := Without(chain, j);
      (ItemFree(cb, st.(table := st.table[i := rest]), chain[j].key, NULL), chain[j].val)
    case None => (st, NULL)
  }

  /** a_hash_delete */
  function Delete(cb: Callbacks, st: State, key: Ptr): State
    requires HasTable(st)
  {
    var (st', val) := Remove(cb, st, key);
    if cb.valFree then st'.(valsFreed := st'.valsFreed + [val]) else st'
  }

  function FreeAll(cb: Callbacks, st: State, items: seq<Entry>): State
    decreases |items|
  {
    if items == [] then st else FreeAll(cb, ItemFree(cb, st, items[0].key, items[0].val), items[1..])
  }

  /** a_hash_clean */
  function Clean(cb: Callbacks, st: State): State {
    FreeAll(cb, st, Flat(st.table)).(table := [], bits := 0, count := 0)
  }

  // ----- Runs -----

  datatype Op =
    | OpPut(key: Ptr, val: Ptr, tableOk: bool, itemOk: bool)
    | OpGet(key: Ptr)
    | OpRemove(key: Ptr)
    | OpDelete(key: Ptr)
    | OpClean

  /** A run remembers, besides the table, what the caller handed in and got back. */
  datatype Run = Run(
    st: State, events: seq<Event>, answers: seq<Ptr>,
    keysIn: multiset<Ptr>, valsIn: multiset<Ptr>, valsOut: multiset<Ptr>)

  const START := Run(EMPTY, [], [], multiset{}, multiset{}, multiset{})

  /** Lookups through a NULL table crash. */
  predicate Enabled(st: State, op: Op) {
    match op
    case OpPut(_, _, _, _) => !MustExtend(st) ==> HasTable(st)
    case OpClean => true
    case _ => HasTable(st)
  }

  function Step(cb: Callbacks, r: Run, op: Op): Run
    requires Enabled(r.st, op)
  {
    match op
    case OpPut(k, v, tableOk, itemOk) =>
      var (st, ok) := Put(cb, r.st, k, v, tableOk, itemOk);
      if ok then
        r.(st := st, events := r.events + [Stored(k, v)],
           keysIn := r.keysIn + multiset{k}, valsIn := r.valsIn + multiset{v})
      else r.(st := st)
    case OpGet(k) =>
      r.(answers := r.answers + [Get(cb, r.st, k)])
    case OpRemove(k) =>
      var (st, v) := Remove(cb, r.st, k);
      r.(st := st, events := r.events + [Removed(k)], answers := r.answers + [v],
         valsOut := r.valsOut + multiset{v})
    case OpDelete(k) =>
      r.(st := Delete(cb, r.st, k), events := r.events + [Removed(k)])
    case OpClean =>
      r.(st := Clean(cb, r.st), events := r.events + [Cleared])
  }

  /** The run of a script from a fresh table; None when some step would crash. */
  function Exec(cb: Callbacks, script: seq<Op>): (r: Option<Run>)
    ensures r.Some? && !MustExtend(r.value.st) ==> HasTable(r.value.st)
  {
    if script == [] then Some(START)
    else
      match Exec(cb, script[..|script| - 1])
      case None => None
      case Some(r) =>
        var op := script[|script| - 1];
        if Enabled(r.st, op) then Some(Step(cb, r, op)) else None
  }
}
