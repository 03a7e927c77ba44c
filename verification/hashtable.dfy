/** The hash table of a/hash.c in its own form: an array of bucket heads, items linked through
    `ptr`, all changed in place.  Every method is proved to do to `view` what the function of
    the same name in HashSpec does. */
module HashTable {
  import opened Words
  import opened XorFold
  import opened Dictionary
  import opened HashSpec
  import HashRuns
  import Joat

  class Item {
    var ptr: Item?
    var hash: Joat.Word
    var key: Ptr
    var val: Ptr
    ghost var home: nat  // the bucket whose chain holds the item

    constructor (ptr: Item?, key: Ptr, hash: Joat.Word, val: Ptr)
      ensures this.ptr == ptr && this.hash == hash && this.key == key && this.val == val
    {
      this.ptr, this.hash, this.key, this.val := ptr, hash, key, val;
    }

    function Value(): Entry
      reads this
    {
      Entry(hash, key, val)
    }
  }

  /** The item at position `k` of a chain, or the NULL that ends it. */
  function At(items: seq<Item>, k: nat): Item? {
    if k < |items| then items[k] else null
  }

  /** One chain: linked in order from its head to a NULL, all in bucket `home`. */
  ghost predicate Holds(head: Item?, items: seq<Item>, entries: Chain, home: nat)
    reads items
  {
    && head == At(items, 0)
    && |entries| == |items|
    && (forall j | 0 <= j < |items| ::
          && items[j].ptr == At(items, j + 1)
          && items[j].Value() == entries[j]
          && items[j].home == home)
  }

  /** A chain that ends holds no item twice. */
  lemma {:induction false} NoRepeat(items: seq<Item>, j: nat, k: nat)
    requires forall m | 0 <= m < |items| :: items[m].ptr == At(items, m + 1)
    requires j < k < |items|
    ensures items[j] != items[k]
    decreases |items| - k
  {
    if items[j] == items[k] {
      assert At(items, j + 1) == At(items, k + 1);
      if k + 1 < |items| {
        NoRepeat(items, j + 1, k + 1);
      }
    }
  }

  lemma NoRepeats(items: seq<Item>)
    requires forall m | 0 <= m < |items| :: items[m].ptr == At(items, m + 1)
    ensures forall j, k | 0 <= j < k < |items| :: items[j] != items[k]
  {
    forall j, k | 0 <= j < k < |items|
      ensures items[j] != items[k]
    {
      NoRepeat(items, j, k);
    }
  }

  /** A table that extend is taking apart. */
  datatype OldTable = OldTable(chains: seq<seq<Item>>, entries: seq<Chain>, nodes: set<Item>)

  class Table {
    const cb: Callbacks
    var table: array?<Item?>
    var bits: nat
    var count: nat
    // the calls made to the free callbacks
    var keysFreed: seq<Ptr>
    var valsFreed: seq<Ptr>

    ghost var view: State
    ghost var chains: seq<seq<Item>>
    ghost var nodes: set<Item>

    /** The chains are linked as `chains` says, share no item, and hold what `view` says. */
    ghost predicate Valid()
      reads this, table, nodes
    {
      && Scalars()
      && (forall i, x | 0 <= i < |chains| && x in chains[i] :: x in nodes)
      && (forall i | 0 <= i < |chains| :: Holds(table[i], chains[i], view.table[i], i))
    }

    ghost predicate Scalars()
      reads this
    {
      && view == State(view.table, bits, count, keysFreed, valsFreed)
      && bits <= MAX_BITS && (count == 0 ==> bits == 0) && (count != 0 ==> table != null)
      && |view.table| == |chains|
      && (table == null <==> chains == [])
      && (table != null ==> table.Length == |chains| == Pow2(bits))
    }

    constructor (cb: Callbacks)
      ensures Valid() && this.cb == cb && view == EMPTY && fresh(nodes)
    {
      this.cb := cb;
      table, bits, count := null, 0, 0;
      keysFreed, valsFreed := [], [];
      view, chains, nodes := EMPTY, [], {};
    }

    /** item_free: the node itself is not released. */
    method FreeItem(item: Item)
      modifies item, this`keysFreed, this`valsFreed
      ensures keysFreed == old(keysFreed) + (if cb.keyFree then [old(item.key)] else [])
      ensures valsFreed == old(valsFreed) + (if cb.valFree then [old(item.val)] else [])
      ensures item.key == NULL && item.val == NULL && item.ptr == null
    {
      if cb.keyFree {
        keysFreed := keysFreed + [item.key];
      }
      if cb.valFree {
        valsFreed := valsFreed + [item.val];
      }
      item.key, item.val := NULL, NULL;
      item.ptr := null;
    }

    /** item_list_find on bucket `i`. */
    method ListFind(list: Item?, hash: Joat.Word, key: Ptr, ghost i: nat) returns (found: Item?)
      requires Valid() && i < |chains| && list == At(chains[i], 0)
      ensures var f := Find(cb, view.table[i], hash, key);
        found == if f.Some? then chains[i][f.value] else null
    {
      var ptr := list;
      ghost var j := 0;
      while ptr != null
        invariant j <= |chains[i]| && ptr == At(chains[i], j)
        invariant forall k | 0 <= k < j :: !Matches(cb, view.table[i][k], hash, key)
        decreases |chains[i]| - j
      {
        assert chains[i][j].Value() == view.table[i][j];
        if ptr.hash == hash && cb.equal(ptr.key, key) {
          return ptr;
        }
        ptr := ptr.ptr;
        j := j + 1;
      }
      return null;
    }

    /** Stores a bucket head, once the other chains and the new one are known to be right. */
    method SetChain(i: nat, head: Item?, ghost items: seq<Item>, ghost entries: Chain)
      requires Scalars() && i < |chains|
      requires Holds(head, items, entries, i)
      requires forall x | x in items :: x in nodes
      requires forall k, x | 0 <= k < |chains| && k != i && x in chains[k] :: x in nodes
      requires forall k | 0 <= k < |chains| && k != i :: Holds(table[k], chains[k], view.table[k], k)
      modifies this`view, this`chains, table
      ensures Valid() && chains == old(chains)[i := items]
      ensures view == old(view).(table := old(view).table[i := entries])
    {
      table[i] := head;
      chains := chains[i := items];
      view := view.(table := view.table[i := entries]);
    }

    /** The end of add_item: the item becomes the head of its chain. */
    method Prepend(item: Item, i: nat)
      requires Valid() && i < |chains| && item !in nodes
      modifies this`view, this`chains, this`nodes, table, item
      ensures Valid()
      ensures view == old(view).(table := old(view).table[i := [old(item.Value())] + old(view).table[i]])
      ensures nodes == old(nodes) + {item}
    {
      item.ptr := table[i];
      item.home := i;
      nodes := nodes + {item};
      SetChain(i, item, [item] + chains[i], [item.Value()] + view.table[i]);
    }

    /** item_free on an item that no chain holds any more. */
    method Release(item: Item)
      requires Valid()
      requires forall i | 0 <= i < |chains| :: item !in chains[i]
      modifies this`view, this`keysFreed, this`valsFreed, item
      ensures Valid()
      ensures view == ItemFree(cb, old(view), old(item.key), old(item.val))
    {
      view := ItemFree(cb, view, item.key, item.val);
      FreeItem(item);
    }

    /** The swap of the duplicate branch of add_item. */
    method SwapValues(dup: Item, item: Item, ghost i: nat, ghost j: nat)
      requires Valid() && i < |chains| && j < |chains[i]| && dup == chains[i][j] && item !in nodes
      modifies this`view, dup, item
      ensures Valid()
      ensures item.key == old(item.key) && item.val == old(view).table[i][j].val
      ensures view == old(view).(table := old(view).table[i := Revalued(old(view).table[i], j, old(item.val))])
    {
      ghost var items, entries := chains[i], view.table[i];
      NoRepeats(items);
      dup.val, item.val := item.val, dup.val;
      assert forall k, x | 0 <= k < |chains| && k != i && x in chains[k] :: x.home == k && x != dup;
      SetEntries(i, Revalued(entries, j, dup.val));
    }

    ghost method SetEntries(i: nat, entries: Chain)
      requires Scalars() && i < |chains|
      requires Holds(table[i], chains[i], entries, i)
      requires forall k, x | 0 <= k < |chains| && x in chains[k] :: x in nodes
      requires forall k | 0 <= k < |chains| && k != i :: Holds(table[k], chains[k], view.table[k], k)
      modifies this`view
      ensures Valid() && view == old(view).(table := old(view).table[i := entries])
    {
      view := view.(table := view.table[i := entries]);
    }

    /** add_item */
    method AddItem(item: Item)
      requires Valid() && table != null && item !in nodes
      modifies this`view, this`chains, this`nodes, this`keysFreed, this`valsFreed, table, nodes, item
      ensures Valid()
      ensures view == HashSpec.AddItem(cb, old(view), old(item.Value()))
      ensures nodes <= old(nodes) + {item}
    {
      var reduced := HashReduce(item.hash, bits);
      var list := table[reduced];
      if list != null {
        var dup := ListFind(list, item.hash, item.key, reduced);
        if dup != null {
          AddDuplicate(dup, item, reduced, Find(cb, view.table[reduced], item.hash, item.key).value);
          return;
        }
      }
      Prepend(item, reduced);
    }

    /** The duplicate branch of add_item: the values are swapped and the new item freed. */
    method AddDuplicate(dup: Item, item: Item, ghost i: nat, ghost j: nat)
      requires Valid() && item !in nodes
      requires i < |chains| && j < |chains[i]| && dup == chains[i][j]
      modifies this`view, this`keysFreed, this`valsFreed, dup, item
      ensures Valid()
      ensures var chain := old(view).table[i];
        view == ItemFree(cb,
          old(view).(table := old(view).table[i := Revalued(chain, j, old(item.val))]), old(item.key), chain[j].val)
    {
      SwapValues(dup, item, i, j);
      Release(item);
    }

    /** The inner loop of extend over one old chain; `next` is read before add_item changes
        the link. */
    method RelinkChain(head: Item?, ghost items: seq<Item>, ghost entries: seq<Entry>, ghost home: nat)
      requires Valid() && table != null
      requires Holds(head, items, entries, home)
      requires forall x | x in items :: x !in nodes
      modifies this`view, this`chains, this`nodes, this`keysFreed, this`valsFreed, table, nodes, items
      ensures Valid()
      ensures view == Rehash(cb, old(view), entries)
      ensures forall x | x in nodes :: x in old(nodes) || x in items
    {
      var ptr := head;
      ghost var k := 0;
      NoRepeats(items);
      while ptr != null
        invariant k <= |items| && ptr == At(items, k)
        invariant Valid()
        invariant forall x | x in nodes :: x in old(nodes) || x in items
        invariant forall m | k <= m < |items| ::
          items[m] !in nodes && items[m].ptr == At(items, m + 1) && items[m].Value() == entries[m]
        invariant Rehash(cb, view, entries[k..]) == Rehash(cb, old(view), entries)
        decreases |items| - k
      {
        var next := ptr.ptr;
        assert entries[k..][0] == entries[k] && entries[k..][1..] == entries[k + 1..];
        AddItem(ptr);
        ptr := next;
        k := k + 1;
      }
    }

    /** Items of different buckets are different. */
    static lemma Apart(chains: seq<seq<Item>>, entries: seq<Chain>, heads: seq<Item?>, b: nat)
      requires |heads| == |entries| == |chains| && b < |chains|
      requires forall i | b <= i < |chains| :: Holds(heads[i], chains[i], entries[i], i)
      ensures forall i, x | b < i < |chains| && x in chains[i] :: x !in chains[b]
    {}

    /** The old chains from bucket `b` on are as they were and not yet in the new table. */
    ghost predicate Pending(oldTable: array<Item?>, was: OldTable, b: nat)
      reads this, oldTable, was.nodes
    {
      && oldTable.Length == |was.chains| == |was.entries|
      && nodes <= was.nodes
      && (forall i, x | b <= i < |was.chains| && x in was.chains[i] :: x in was.nodes && x !in nodes)
      && (forall i | b <= i < |was.chains| :: Holds(oldTable[i], was.chains[i], was.entries[i], i))
    }

    /** One round of the outer loop of extend. */
    method RelinkBucket(oldTable: array<Item?>, b: nat, ghost was: OldTable)
      requires Valid() && table != null && table != oldTable && b < oldTable.Length && Pending(oldTable, was, b)
      modifies this`view, this`chains, this`nodes, this`keysFreed, this`valsFreed, table, was.nodes
      ensures Valid() && Pending(oldTable, was, b + 1)
      ensures view == Rehash(cb, old(view), was.entries[b])
    {
      Apart(was.chains, was.entries, oldTable[..], b);
      ghost var moved := nodes;
      RelinkChain(oldTable[b], was.chains[b], was.entries[b], b);
      forall i, x | b < i < |was.chains| && x in was.chains[i]
        ensures x !in nodes
      {
        assert x !in moved && x !in was.chains[b];
      }
    }

    /** The outer loop of extend. */
    method Relink(oldTable: array<Item?>, ghost was: OldTable)
      requires Valid() && table != null && table != oldTable && Pending(oldTable, was, 0)
      modifies this`view, this`chains, this`nodes, this`keysFreed, this`valsFreed, table, was.nodes
      ensures Valid()
      ensures view == Rehash(cb, old(view), Flat(was.entries))
      ensures nodes <= was.nodes
    {
      var b := 0;
      while b < oldTable.Length
        invariant b <= oldTable.Length
        invariant Valid() && Pending(oldTable, was, b)
        invariant Rehash(cb, view, Flat(was.entries[b..])) == Rehash(cb, old(view), Flat(was.entries))
      {
        assert was.entries[b..][0] == was.entries[b] && was.entries[b..][1..] == was.entries[b + 1..];
        RehashAppend(cb, view, was.entries[b], Flat(was.entries[b + 1..]));
        RelinkBucket(oldTable, b, was);
        b := b + 1;
      }
    }

    static lemma {:induction false} RehashAppend(cb: Callbacks, st: State, a: seq<Entry>, b: seq<Entry>)
      requires HasTable(st)
      ensures Rehash(cb, st, a + b) == Rehash(cb, Rehash(cb, st, a), b)
      decreases |a|
    {
      if a == [] {
        assert a + b == b;
      } else {
        assert (a + b)[1..] == a[1..] + b;
        RehashAppend(cb, HashSpec.AddItem(cb, st, a[0]), a[1..], b);
      }
    }

    /** extend: a bigger table, into which every node of every old chain is relinked. */
    method Extend(tableOk: bool) returns (ok: bool)
      requires Valid()
      modifies this, nodes
      ensures Valid()
      ensures view == HashSpec.Extend(cb, old(view), tableOk).0
      ensures ok == HashSpec.Extend(cb, old(view), tableOk).1
      ensures ok ==> table != null
      ensures nodes <= old(nodes) && (table == old(table) || fresh(table))
    {
      ghost var was := OldTable(chains, view.table, nodes);
      var oldTable := table;
      if count != 0 {
        bits := bits + 1;
      }
      if !(tableOk && bits <= MAX_BITS) {
        if bits != 0 {
          bits := bits - 1;
        }
        return false;
      }
      Rebuild(oldTable, was);
      return true;
    }

    /** The part of extend after its allocation succeeded. */
    method Rebuild(oldTable: array?<Item?>, ghost was: OldTable)
      requires bits <= MAX_BITS && (count == 0 ==> bits == 0)
      requires view == State(view.table, view.bits, count, keysFreed, valsFreed)
      requires if oldTable == null then was.entries == [] else
        && oldTable.Length == |was.chains| == |was.entries|
        && (forall i, x | 0 <= i < |was.chains| && x in was.chains[i] :: x in was.nodes)
        && (forall i | 0 <= i < |was.chains| :: Holds(oldTable[i], was.chains[i], was.entries[i], i))
      modifies this`table, this`view, this`chains, this`nodes, this`keysFreed, this`valsFreed, was.nodes
      ensures Valid() && fresh(table) && nodes <= was.nodes
      ensures view == Rehash(cb, old(view).(bits := bits, table := EmptyTable(bits)), Flat(was.entries))
    {
      NewTable();
      if oldTable != null {
        Relink(oldTable, was);
      }
    }

    /** The allocation of extend: every bucket is NULL. */
    method NewTable()
      requires bits <= MAX_BITS && (count == 0 ==> bits == 0)
      requires view == State(view.table, view.bits, count, keysFreed, valsFreed)
      modifies this`table, this`view, this`chains, this`nodes
      ensures Valid() && fresh(table) && nodes == {}
      ensures view == old(view).(bits := bits, table := EmptyTable(bits))
    {
      table := new Item?[Pow2(bits)](_ => null);
      chains, nodes := seq(Pow2(bits), _ => []), {};
      view := view.(bits := bits, table := EmptyTable(bits));
    }

    /** a_hash_put */
    method Put(key: Ptr, val: Ptr, tableOk: bool, itemOk: bool) returns (ok: bool)
      requires Valid()
      modifies this, table, nodes
      ensures Valid() && fresh(nodes - old(nodes)) && (table == old(table) || fresh(table))
      ensures view == HashSpec.Put(cb, old(view), key, val, tableOk, itemOk).0
      ensures ok == HashSpec.Put(cb, old(view), key, val, tableOk, itemOk).1
    {
      if count == 0 || Pow2(bits) < count + 1 {
        ok := Extend(tableOk);
        if !ok {
          return;
        }
      }
      if !itemOk {
        return false;
      }
      PutItem(key, val);
      return true;
    }

    /** The end of a_hash_put, when there is room. */
    method PutItem(key: Ptr, val: Ptr)
      requires Valid() && table != null
      modifies this, table, nodes
      ensures Valid() && fresh(nodes - old(nodes)) && table == old(table)
      ensures var added := HashSpec.AddItem(cb, old(view), Entry(cb.hash(key), key, val));
        view == added.(count := added.count + 1)
    {
      var item := new Item(null, key, cb.hash(key), val);
      AddItem(item);
      CountOne();
    }

    method CountOne()
      requires Valid() && table != null
      modifies this`count, this`view
      ensures Valid() && view == old(view).(count := old(view).count + 1)
    {
      count := count + 1;
      view := view.(count := count);
    }

    /** a_hash_get */
    method Get(key: Ptr) returns (val: Ptr)
      requires Valid() && table != null
      ensures val == HashSpec.Get(cb, view, key)
    {
      var keyHash := cb.hash(key);
      var reduced := HashReduce(keyHash, bits);
      var list := table[reduced];
      if list == null {
        return NULL;
      }
      var item := ListFind(list, keyHash, key, reduced);
      if item == null {
        return NULL;
      }
      assert item.Value() == view.table[reduced][Find(cb, view.table[reduced], keyHash, key).value];
      return item.val;
    }

    /** item_list_remove: the link that leads to the item, in the table or in the item
        before it, is led past it. */
    method ListRemove(reduced: nat, hash: Joat.Word, key: Ptr) returns (found: Item?)
      requires Valid() && reduced < |chains|
      modifies this`view, this`chains, table, nodes
      ensures Valid() && nodes == old(nodes)
      ensures var f := Find(cb, old(view).table[reduced], hash, key);
        && (found != null <==> f.Some?)
        && (f.Some? ==>
          var chain := old(view).table[reduced];
          && found in nodes && found.Value() == chain[f.value]
          && (forall i | 0 <= i < |chains| :: found !in chains[i])
          && view == old(view).(table := old(view).table[reduced := Without(chain, f.value)]))
        && (f.None? ==> view == old(view))
    {
      var prev: Item? := null;
      var ptr := table[reduced];
      ghost var j := 0;
      while ptr != null
        invariant j <= |chains[reduced]| && ptr == At(chains[reduced], j)
        invariant prev == if j == 0 then null else chains[reduced][j - 1]
        invariant forall k | 0 <= k < j :: !Matches(cb, view.table[reduced][k], hash, key)
        decreases |chains[reduced]| - j
      {
        assert chains[reduced][j].Value() == view.table[reduced][j];
        if ptr.hash == hash && cb.equal(ptr.key, key) {
          assert Find(cb, view.table[reduced], hash, key) == Some(j);
          Unlink(reduced, prev, ptr, j);
          return ptr;
        }
        prev := ptr;
        ptr := ptr.ptr;
        j := j + 1;
      }
      return null;
    }

    method Unlink(i: nat, prev: Item?, ptr: Item, ghost j: nat)
      requires Valid() && i < |chains| && j < |chains[i]| && ptr == chains[i][j]
      requires prev == if j == 0 then null else chains[i][j - 1]
      modifies this`view, this`chains, table, nodes
      ensures Valid() && nodes == old(nodes) && ptr.Value() == old(view).table[i][j]
      ensures forall i' | 0 <= i' < |chains| :: ptr !in chains[i']
      ensures view == old(view).(table := old(view).table[i := Without(old(view).table[i], j)])
    {
      ghost var before := chains;
      NoRepeats(chains[i]);
      if prev == null {
        UnlinkHead(i, ptr);
      } else {
        UnlinkAfter(i, prev, ptr, j);
      }
      Unlinked(before, i, ptr, j);
    }

    method UnlinkHead(i: nat, ptr: Item)
      requires Valid() && i < |chains| && 0 < |chains[i]| && ptr == chains[i][0]
      modifies this`view, this`chains, table
      ensures Valid() && ptr.Value() == old(view).table[i][0]
      ensures chains == old(chains)[i := Without(old(chains)[i], 0)]
      ensures view == old(view).(table := old(view).table[i := Without(old(view).table[i], 0)])
    {
      SetChain(i, ptr.ptr, Without(chains[i], 0), Without(view.table[i], 0));
    }

    method UnlinkAfter(i: nat, prev: Item, ptr: Item, ghost j: nat)
      requires Valid() && i < |chains| && 0 < j < |chains[i]| && ptr == chains[i][j] && prev == chains[i][j - 1]
      modifies this`view, this`chains, table, prev`ptr
      ensures Valid() && ptr.Value() == old(view).table[i][j]
      ensures chains == old(chains)[i := Without(old(chains)[i], j)]
      ensures view == old(view).(table := old(view).table[i := Without(old(view).table[i], j)])
    {
      LeadPast(i, prev, ptr, j);
      SetChain(i, table[i], Without(chains[i], j), Without(view.table[i], j));
    }

    /** The write through `list` that leads the link before an item past it. */
    method LeadPast(i: nat, prev: Item, ptr: Item, ghost j: nat)
      requires Valid() && i < |chains| && 0 < j < |chains[i]| && ptr == chains[i][j] && prev == chains[i][j - 1]
      modifies prev`ptr
      ensures Holds(table[i], Without(chains[i], j), Without(view.table[i], j), i)
      ensures forall k | 0 <= k < |chains| && k != i :: Holds(table[k], chains[k], view.table[k], k)
    {
      NoRepeats(chains[i]);
      assert forall k, x | 0 <= k < |chains| && k != i && x in chains[k] :: x.home == k && x != prev;
      prev.ptr := ptr.ptr;
      ChainWithout(table[i], chains[i], view.table[i], i, j);
    }

    /** The chain whose link to position `j` has been led past it. */
    static lemma ChainWithout(head: Item?, items: seq<Item>, entries: Chain, home: nat, j: nat)
      requires |items| == |entries| && 0 < j < |items| && head == items[0]
      requires forall k | 0 <= k < |items| :: items[k].Value() == entries[k] && items[k].home == home
      requires forall k | 0 <= k < |items| :: items[k].ptr == At(items, if k == j - 1 then j + 1 else k + 1)
      ensures Holds(head, Without(items, j), Without(entries, j), home)
    {}

    /** The removed item is in no chain any more. */
    lemma Unlinked(before: seq<seq<Item>>, i: nat, ptr: Item, j: nat)
      requires Valid() && i < |before| && j < |before[i]| && ptr == before[i][j]
      requires chains == before[i := Without(before[i], j)] && ptr.home == i
      requires forall k, m | 0 <= k < m < |before[i]| :: before[i][k] != before[i][m]
      ensures forall k | 0 <= k < |chains| :: ptr !in chains[k]
    {}

    method ClearValue(item: Item)
      requires Valid()
      requires forall i | 0 <= i < |chains| :: item !in chains[i]
      modifies item`val
      ensures Valid() && item.val == NULL
    {
      item.val := NULL;
    }

    /** a_hash_remove */
    method Remove(key: Ptr) returns (val: Ptr)
      requires Valid() && table != null
      modifies this, table, nodes
      ensures Valid() && nodes == old(nodes) && table == old(table)
      ensures view == HashSpec.Remove(cb, old(view), key).0
      ensures val == HashSpec.Remove(cb, old(view), key).1
    {
      var keyHash := cb.hash(key);
      var reduced := HashReduce(keyHash, bits);
      var item := ListRemove(reduced, keyHash, key);
      if item == null {
        return NULL;
      }
      val := item.val;
      ClearValue(item);
      Release(item);
    }

    /** a_hash_delete */
    method Delete(key: Ptr)
      requires Valid() && table != null
      modifies this, table, nodes
      ensures Valid() && nodes == old(nodes) && table == old(table)
      ensures view == HashSpec.Delete(cb, old(view), key)
    {
      var value := Remove(key);
      if cb.valFree {
        valsFreed := valsFreed + [value];
        view := view.(valsFreed := valsFreed);
      }
    }

    /** list_free */
    method ListFree(list: Item?, ghost items: seq<Item>, ghost entries: seq<Entry>, ghost home: nat, ghost st: State)
      requires Holds(list, items, entries, home)
      requires st.keysFreed == keysFreed && st.valsFreed == valsFreed
      modifies this`keysFreed, this`valsFreed, items
      ensures var r := FreeAll(cb, st, entries); keysFreed == r.keysFreed && valsFreed == r.valsFreed
    {
      var item := list;
      ghost var k, now := 0, st;
      NoRepeats(items);
      while item != null
        invariant k <= |items| && item == At(items, k)
        invariant forall m | k <= m < |items| :: items[m].ptr == At(items, m + 1) && items[m].Value() == entries[m]
        invariant now.keysFreed == keysFreed && now.valsFreed == valsFreed
        invariant FreeAll(cb, now, entries[k..]) == FreeAll(cb, st, entries)
        decreases |items| - k
      {
        assert entries[k..][0] == entries[k] && entries[k..][1..] == entries[k + 1..];
        var next := item.ptr;
        now := ItemFree(cb, now, item.key, item.val);
        FreeItem(item);
        item := next;
        k := k + 1;
      }
    }

    static lemma {:induction false} FreeAllAppend(cb: Callbacks, st: State, a: seq<Entry>, b: seq<Entry>)
      ensures FreeAll(cb, st, a + b) == FreeAll(cb, FreeAll(cb, st, a), b)
      decreases |a|
    {
      if a == [] {
        assert a + b == b;
      } else {
        assert (a + b)[1..] == a[1..] + b;
        FreeAllAppend(cb, ItemFree(cb, st, a[0].key, a[0].val), a[1..], b);
      }
    }

    /** a_hash_clean */
    method Clean()
      requires Valid()
      modifies this, nodes
      ensures Valid() && table == null && nodes == {}
      ensures view == HashSpec.Clean(cb, old(view))
    {
      ghost var now := view;
      if table != null {
        ghost var was := OldTable(chains, view.table, nodes);
        nodes := {};
        var entry := 0;
        while entry < table.Length
          invariant table == old(table) && table != null && entry <= table.Length && nodes == {}
          invariant Pending(table, was, entry)
          invariant now == old(view).(keysFreed := keysFreed, valsFreed := valsFreed)
          invariant FreeAll(cb, now, Flat(was.entries[entry..])) == FreeAll(cb, old(view), Flat(was.entries))
        {
          assert was.entries[entry..][0] == was.entries[entry];
          assert was.entries[entry..][1..] == was.entries[entry + 1..];
          FreeAllAppend(cb, now, was.entries[entry], Flat(was.entries[entry + 1..]));
          FreeBucket(entry, was, now);
          HashRuns.FreeAllFields(cb, now, was.entries[entry]);
          now := FreeAll(cb, now, was.entries[entry]);
          entry := entry + 1;
        }
        table := null;
      }
      bits, count := 0, 0;
      chains, nodes := [], {};
      view := State([], 0, 0, keysFreed, valsFreed);
    }

    /** One round of the loop of a_hash_clean. */
    method FreeBucket(b: nat, ghost was: OldTable, ghost st: State)
      requires table != null && b < table.Length && Pending(table, was, b) && nodes == {}
      requires st.keysFreed == keysFreed && st.valsFreed == valsFreed
      modifies this`keysFreed, this`valsFreed, was.nodes
      ensures Pending(table, was, b + 1)
      ensures var r := FreeAll(cb, st, was.entries[b]); keysFreed == r.keysFreed && valsFreed == r.valsFreed
    {
      Apart(was.chains, was.entries, table[..], b);
      ListFree(table[b], was.chains[b], was.entries[b], b, st);
    }
  }
}
