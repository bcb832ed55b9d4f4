/** The chained hash table itself: an array of linked chains that are rewired in place. */
module HashTable {
  import opened Errors
  import opened Options
  import opened Seqs
  import opened Words
  import opened HashModel

  const MIN_CAP_BITS: nat := 2

  /** No memory holds 2^MAX_CAP_BITS pointers. */
  const MAX_CAP_BITS: nat := 61

  datatype Strategy = Add | Set | Update | Append

  class Entry<K, V> {
    var key: K
    var value: V
    var next: Entry?<K, V>

    constructor (key: K, value: V, next: Entry?<K, V>)
      ensures this.key == key && this.value == value && this.next == next
    {
      this.key, this.value, this.next := key, value, next;
    }
  }

  /** head leads through exactly the entries of c. */
  ghost predicate Linked<K, V>(head: Entry?<K, V>, c: seq<Entry<K, V>>)
    reads c`next
  {
    head == At(c, 0) && forall i {:trigger c[i]} :: 0 <= i < |c| ==> c[i].next == At(c, i + 1)
  }

  ghost function At<K, V>(c: seq<Entry<K, V>>, i: nat): Entry?<K, V> {
    if i < |c| then c[i] else null
  }

  /** A chain without its i-th entry, once the pointer to that entry leads on to the next. */
  lemma LinkedDropped<K, V>(head: Entry?<K, V>, c: seq<Entry<K, V>>, i: nat)
    requires i < |c| && head == if i == 0 then At(c, 1) else c[0]
    requires forall j {:trigger c[j]} :: 0 <= j < |c| && j != i && j + 1 != i ==> c[j].next == At(c, j + 1)
    requires i > 0 ==> c[i - 1].next == At(c, i + 1)
    ensures Linked(head, c[..i] + c[i + 1..])
  {
    var d := c[..i] + c[i + 1..];
    forall j | 0 <= j < |d| ensures d[j].next == At(d, j + 1) {
      assert d[j] == c[if j < i then j else j + 1];
    }
  }

  ghost function Items<K, V>(c: seq<Entry<K, V>>): (s: seq<(K, V)>)
    reads c`key, c`value
    ensures |s| == |c| && forall i :: 0 <= i < |c| ==> s[i] == (c[i].key, c[i].value)
  {
    if c == [] then [] else [(c[0].key, c[0].value)] + Items(c[1..])
  }

  ghost function AllItems<K, V>(cs: seq<seq<Entry<K, V>>>, nodes: set<Entry<K, V>>): (m: Chains<K, V>)
    requires Within(cs, nodes)
    reads nodes`key, nodes`value
    ensures |m| == |cs| && forall b :: 0 <= b < |cs| ==> m[b] == Items(cs[b])
  {
    if cs == [] then [] else
      assert forall i :: 0 <= i < |cs[0]| ==> cs[0][i] in nodes;
      [Items(cs[0])] + AllItems(cs[1..], nodes)
  }

  lemma ItemsPush<K, V>(cs: seq<seq<Entry<K, V>>>, nodes: set<Entry<K, V>>, m: Chains<K, V>, h: nat, e: Entry<K, V>)
    requires Within(cs, nodes) && |m| == |cs| && h < |cs| && cs[h] != [] && cs[h][0] == e
    requires Items(cs[h][1..]) == m[h] && forall b :: 0 <= b < |cs| && b != h ==> Items(cs[b]) == m[b]
    ensures AllItems(cs, nodes) == m[h := [(e.key, e.value)] + m[h]]
  {
  }

  lemma SameItems<K, V>(cs: seq<seq<Entry<K, V>>>, nodes: set<Entry<K, V>>, more: set<Entry<K, V>>)
    requires Within(cs, nodes) && nodes <= more
    ensures Within(cs, more) && AllItems(cs, nodes) == AllItems(cs, more)
  {
  }

  lemma ItemsAt<K, V>(cs: seq<seq<Entry<K, V>>>, nodes: set<Entry<K, V>>, m: Chains<K, V>, h: nat)
    requires Within(cs, nodes) && |m| == |cs| && h < |cs| && forall b :: 0 <= b < |cs| && b != h ==> Items(cs[b]) == m[b]
    ensures AllItems(cs, nodes) == m[h := Items(cs[h])]
  {
  }

  lemma ItemsDropped<K, V>(c: seq<Entry<K, V>>, i: nat, d: seq<Entry<K, V>>)
    requires i < |c| && d == c[..i] + c[i + 1..]
    ensures Items(d) == Items(c)[..i] + Items(c)[i + 1..]
  {
    hide Items;
  }

  /** No entry occurs twice. */
  ghost predicate Distinct<K, V>(cs: seq<seq<Entry<K, V>>>) {
    forall b, i, b', i' {:trigger cs[b][i], cs[b'][i']} ::
      0 <= b < |cs| && 0 <= i < |cs[b]| && 0 <= b' < |cs| && 0 <= i' < |cs[b']| && cs[b][i] == cs[b'][i'] ==> b == b' && i == i'
  }

  lemma DistinctPush<K, V>(cs: seq<seq<Entry<K, V>>>, b: nat, e: Entry<K, V>)
    requires Distinct(cs) && b < |cs| && forall d, i :: 0 <= d < |cs| && 0 <= i < |cs[d]| ==> cs[d][i] != e
    ensures Distinct(cs[b := [e] + cs[b]])
  {
  }

  lemma DistinctDrop<K, V>(cs: seq<seq<Entry<K, V>>>, b: nat, i: nat)
    requires Distinct(cs) && b < |cs| && i < |cs[b]|
    ensures Distinct(cs[b := cs[b][..i] + cs[b][i + 1..]])
  {
    var cs' := cs[b := cs[b][..i] + cs[b][i + 1..]];
    forall d, j, d', j' | 0 <= d < |cs'| && 0 <= j < |cs'[d]| && 0 <= d' < |cs'| && 0 <= j' < |cs'[d']| && cs'[d][j] == cs'[d'][j']
      ensures d == d' && j == j'
    {
      var k := if d == b && j >= i then j + 1 else j;
      var k' := if d' == b && j' >= i then j' + 1 else j';
      assert cs[d][k] == cs[d'][k'];
    }
  }

  /** The entries of one chain are distinct and in no other. */
  lemma DistinctChain<K, V>(cs: seq<seq<Entry<K, V>>>, b: nat)
    requires Distinct(cs) && b < |cs|
    ensures forall i, j :: 0 <= i < j < |cs[b]| ==> cs[b][i] != cs[b][j]
    ensures forall d, j :: 0 <= d < |cs| && d != b && 0 <= j < |cs[d]| ==> cs[d][j] !in SetOf(cs[b])
  {
  }

  /** An entry is in one place only. */
  lemma OnlyThere<K, V>(cs: seq<seq<Entry<K, V>>>, b: nat, i: nat)
    requires Distinct(cs) && b < |cs| && i < |cs[b]|
    ensures forall d, j :: 0 <= d < |cs| && 0 <= j < |cs[d]| && (d != b || j != i) ==> cs[d][j] != cs[b][i]
  {
  }

  ghost predicate Within<K, V>(cs: seq<seq<Entry<K, V>>>, nodes: set<Entry<K, V>>) {
    forall b, i :: 0 <= b < |cs| && 0 <= i < |cs[b]| ==> cs[b][i] in nodes
  }

  ghost predicate LinkedAll<K, V>(bs: array<Entry?<K, V>>, cs: seq<seq<Entry<K, V>>>, nodes: set<Entry<K, V>>)
    requires Within(cs, nodes)
    reads bs, nodes`next
  {
    bs.Length == |cs| && forall b :: 0 <= b < |cs| ==> Linked(bs[b], cs[b])
  }

  ghost function SetOf<T>(s: seq<T>): set<T> {
    set x | x in s
  }

  lemma SetOfNone<T>()
    ensures forall s: seq<T> :: s == [] ==> SetOf(s) == {}
  {
  }

  lemma SetOfSnoc<T>(c: seq<T>, i: nat)
    requires i < |c| && forall j, k :: 0 <= j < k < |c| ==> c[j] != c[k]
    ensures SetOf(c[..i + 1]) == SetOf(c[..i]) + {c[i]} && c[i] !in SetOf(c[..i])
  {
    assert c[..i + 1] == c[..i] + [c[i]];
  }

  lemma NotYetMoved<T, U>(done: set<T>, s: seq<U>, its: seq<U>, c: seq<T>, i: nat)
    requires i < |c| == |its| && c[i] !in done && forall j, k :: 0 <= j < k < |c| ==> c[j] != c[k]
    ensures c[i] !in done + SetOf(c[..i]) && done + SetOf(c[..i]) + {c[i]} == done + SetOf(c[..i + 1])
    ensures s + its[..i] + [its[i]] == s + its[..i + 1]
  {
    SetOfSnoc(c, i);
  }

  /** The entries s have been moved to new buckets. */
  ghost predicate Moved<K(!new), V>(ks: Keys<K>, bits: nat, bs: array<Entry?<K, V>>, cs: seq<seq<Entry<K, V>>>, done: set<Entry<K, V>>, s: seq<(K, V)>)
    reads bs, done
  {
    bits <= 64 && |cs| == Pow2(bits) && Within(cs, done) && Distinct(cs) && LinkedAll(bs, cs, done) &&
    AllItems(cs, done) == Rehash(ks, bits, s)
  }

  lemma NothingMoved<K(!new), V>(ks: Keys<K>, bits: nat, bs: array<Entry?<K, V>>)
    requires bits <= 64 && bs.Length == Pow2(bits) && forall b :: 0 <= b < bs.Length ==> bs[b] == null
    ensures Moved(ks, bits, bs, Empties(Pow2(bits)), {}, [])
  {
    var cs: seq<seq<Entry<K, V>>> := Empties(Pow2(bits));
    RehashNothing<K, V>(ks, bits);
    assert AllItems(cs, {}) == Empties<(K, V)>(Pow2(bits));
  }

  function GrownBits(bits: nat): nat {
    if bits + 1 < MIN_CAP_BITS then MIN_CAP_BITS else bits + 1
  }

  /** Growth makes room for one more entry. */
  lemma RoomAfterGrowth(sz: nat, cap: nat, bits: nat, newBits: nat)
    requires sz * 4 / 3 <= cap && (if cap == 0 then bits == 0 else cap == Pow2(bits) && MIN_CAP_BITS <= bits)
    requires newBits == GrownBits(bits)
    ensures sz * 4 / 3 <= (sz + 1) * 4 / 3 <= Pow2(newBits)
  {
    assert cap > 0 ==> Pow2(newBits) == 2 * cap;
    assert cap == 0 ==> Pow2(newBits) == 4;
  }

  class Table<K(!new), V> {
    const keys: Keys<K>
    var buckets: array?<Entry?<K, V>>
    var cap: nat
    var capBits: nat
    var sz: nat
    ghost var chains: seq<seq<Entry<K, V>>>
    ghost var nodes: set<Entry<K, V>>

    /** The pointers: each bucket leads through its chain, and no entry is shared. */
    ghost predicate Structure()
      reads this`buckets, this`cap, this`chains, this`nodes, buckets, nodes`next
    {
      (buckets == null <==> cap == 0) && (buckets != null ==> buckets.Length == cap) &&
      |chains| == cap && Within(chains, nodes) && Distinct(chains) &&
      forall b :: 0 <= b < cap ==> Linked(buckets[b], chains[b])
    }

    ghost predicate Valid()
      reads this, buckets, nodes
    {
      Structure() && keys.Lawful() &&
      (if cap == 0 then capBits == 0 else cap == Pow2(capBits) && MIN_CAP_BITS <= capBits <= MAX_CAP_BITS) &&
      (cap > 0 ==> Placed(keys, capBits, Model())) &&
      sz == |Flatten(Model())| && sz * 4 / 3 <= cap
    }

    /** The contents, chain by chain. */
    ghost function Model(): (m: Chains<K, V>)
      reads this`chains, this`nodes, nodes`key, nodes`value
      requires Within(chains, nodes)
      ensures |m| == |chains|
    {
      AllItems(chains, nodes)
    }

    /** All values associated with a key, in the order in which they are visited. */
    ghost function Lookup(k: K): seq<V>
      reads this`chains, this`nodes, this`capBits, nodes`key, nodes`value
      requires Within(chains, nodes) && capBits <= 64
    {
      KeyValues(keys, capBits, Model(), k)
    }

    /** Empty, or more than three quarters full with one more entry. */
    predicate NeedsToGrow()
      reads this
    {
      cap == 0 || (sz + 1) * 4 / 3 > cap
    }

    constructor (keys: Keys<K>)
      requires keys.Lawful()
      ensures Valid() && this.keys == keys && sz == 0 && nodes == {} && buckets == null
      ensures forall k :: Lookup(k) == []
    {
      this.keys := keys;
      buckets, cap, capBits, sz := null, 0, 0, 0;
      chains, nodes := [], {};
    }

    /** Searches the chain of a key. */
    method FindEntry(k: K, h: nat) returns (entry: Entry?<K, V>, prev: Entry?<K, V>, ghost i: nat)
      requires Valid() && h == Bucket(keys, capBits, k)
      ensures entry == null ==> Lookup(k) == []
      ensures entry != null ==> h < cap && i < |chains[h]| && entry == chains[h][i] && IsFirst(keys, Model()[h], k, i)
      ensures entry != null ==> prev == if i == 0 then null else chains[h][i - 1]
    {
      hide Distinct, HashBits, Items, AllItems, Placed, Flatten;
      i := 0;
      prev := null;
      if buckets == null {
        return null, null, 0;
      }
      ghost var c := chains[h];
      entry := buckets[h];
      while entry != null
        invariant i <= |c| && entry == At(c, i) && prev == if i == 0 then null else c[i - 1]
        invariant forall j :: 0 <= j < i ==> !keys.eq(c[j].key, k)
        decreases |c| - i
      {
        if keys.eq(entry.key, k) { return; }
        prev := entry;
        entry := entry.next;
        i := i + 1;
      }
      ValuesElsewhere(keys, Model()[h], k);
    }

    /** A value of the key, if there is one. */
    method Find(k: K) returns (r: Option<V>)
      requires Valid()
      ensures r == if Lookup(k) == [] then None else Some(Lookup(k)[0])
    {
      var h := Bucket(keys, capBits, k);
      var entry, _, i := FindEntry(k, h);
      if entry == null { return None; }
      FirstValue(keys, Model()[h], k, i);
      return Some(entry.value);
    }

    /** The loop over all entries of a key. */
    method ForEachKeyEntry(k: K) returns (vs: seq<V>)
      requires Valid()
      ensures vs == Lookup(k)
    {
      hide Distinct, HashBits, Values, Items, AllItems, Placed, Flatten, Linked, Keys.Lawful;
      if buckets == null { return []; }
      var h := Bucket(keys, capBits, k);
      vs := CollectValues(buckets[h], chains[h], k);
    }

    /** The loop along one chain. */
    method CollectValues(head: Entry?<K, V>, ghost c: seq<Entry<K, V>>, k: K) returns (vs: seq<V>)
      requires Linked(head, c)
      ensures vs == Values(keys, Items(c), k)
    {
      hide Values, Items;
      ghost var its, i := Items(c), 0;
      vs := [];
      var cur := head;
      while cur != null
        invariant i <= |c| && cur == At(c, i)
        invariant vs + Values(keys, its[i..], k) == Values(keys, its, k)
        decreases |c| - i
      {
        ValuesStep(keys, its, i, k);
        assert its[i] == (cur.key, cur.value);
        if keys.eq(cur.key, k) { vs := vs + [cur.value]; }
        cur := cur.next;
        i := i + 1;
      }
      NoValues(keys, its[i..], k);
    }

    /** A lookup misses nothing that is stored under the key anywhere in the table. */
    lemma LookupComplete(k: K)
      requires Valid()
      ensures Lookup(k) == Values(keys, Flatten(Model()), k)
    {
      if cap > 0 {
        KeyValuesComplete(keys, capBits, Model(), k);
      }
    }

    /** Rewires one bucket to lead through `entry` first. */
    method LinkFront(b: nat, entry: Entry<K, V>)
      requires Structure() && b < cap && entry !in nodes
      modifies this`chains, this`nodes, buckets, entry`next
      ensures Structure() && chains == old(chains)[b := [entry] + old(chains)[b]] && nodes == old(nodes) + {entry}
    {
      DistinctPush(chains, b, entry);
      entry.next := buckets[b];
      buckets[b] := entry;
      chains := chains[b := [entry] + chains[b]];
      nodes := nodes + {entry};
    }

    method Unlink(b: nat, entry: Entry<K, V>, prev: Entry?<K, V>, ghost i: nat)
      requires Structure() && b < cap && i < |chains[b]| && entry == chains[b][i]
      requires prev == if i == 0 then null else chains[b][i - 1]
      modifies this`chains, buckets, nodes`next
      ensures Structure() && chains == old(chains)[b := old(chains)[b][..i] + old(chains)[b][i + 1..]]
    {
      hide Distinct, Linked;
      ghost var cs, c := chains, chains[b];
      DistinctDrop(cs, b, i);
      LeadPast(b, entry, prev, i);
      ghost var c' := c[..i] + c[i + 1..];
      assert forall j :: 0 <= j < |c'| ==> c'[j] == c[if j < i then j else j + 1];
      chains := cs[b := c'];
    }

    /** Rewires the pointers around an entry. */
    method LeadPast(b: nat, entry: Entry<K, V>, prev: Entry?<K, V>, ghost i: nat)
      requires Structure() && b < cap && i < |chains[b]| && entry == chains[b][i]
      requires prev == if i == 0 then null else chains[b][i - 1]
      modifies buckets, nodes`next
      ensures Linked(buckets[b], chains[b][..i] + chains[b][i + 1..])
      ensures forall d :: 0 <= d < cap && d != b ==> Linked(buckets[d], chains[d])
    {
      hide Distinct;
      OnlyThere(chains, b, i);
      if i > 0 { OnlyThere(chains, b, i - 1); }
      if prev == null {
        buckets[b] := entry.next;
      } else {
        prev.next := entry.next;
      }
      entry.next := null;
      LinkedDropped(buckets[b], chains[b], i);
    }

    /** A new entry at the front of the chain of its key. */
    method PushEntry(k: K, v: V)
      requires Valid() && cap > 0 && (sz + 1) * 4 / 3 <= cap
      modifies this, buckets
      ensures Valid() && fresh(nodes - old(nodes)) && buckets == old(buckets) && capBits == old(capBits)
      ensures Model() == Pushed(keys, capBits, old(Model()), k, v)
      ensures sz == old(sz) + 1
    {
      hide HashBits, Flatten, Distinct, Placed, Items, AllItems, Linked, Keys.Lawful, Bucket;
      ghost var m := Model();
      PushKey(keys, capBits, m, k, v, k);
      var b := Bucket(keys, capBits, k);
      PlacedSize(keys, capBits, m);
      SplitBucket(m, b, [(k, v)] + m[b]);
      NewAtFront(b, k, v);
      sz := sz + 1;
    }

    method NewAtFront(b: nat, k: K, v: V)
      requires Structure() && b < cap
      modifies this`chains, this`nodes, buckets
      ensures Structure() && fresh(nodes - old(nodes)) && old(nodes) <= nodes
      ensures Model() == old(Model())[b := [(k, v)] + old(Model())[b]]
    {
      hide Distinct, Items, AllItems, Linked;
      ghost var m, cs := Model(), chains;
      var entry := new Entry(k, v, null);
      LinkFront(b, entry);
      assert chains[b][1..] == cs[b];
      ItemsPush(chains, nodes, m, b, entry);
    }

    /** Overwrites the key and the value of an entry in place. */
    method ReplaceEntry(entry: Entry<K, V>, k: K, v: V, ghost i: nat)
      requires Valid() && cap > 0 && i < |chains[Bucket(keys, capBits, k)]| && entry == chains[Bucket(keys, capBits, k)][i]
      requires IsFirst(keys, Model()[Bucket(keys, capBits, k)], k, i)
      modifies entry`key, entry`value
      ensures Valid()
      ensures var b := Bucket(keys, capBits, k); Model() == old(Model())[b := old(Model())[b][i := (k, v)]]
    {
      hide HashBits, Flatten, Distinct, Placed, Items, AllItems, Linked, Keys.Lawful, Bucket;
      ghost var m, b := Model(), Bucket(keys, capBits, k);
      ReplaceKey(keys, capBits, m, k, v, i, k);
      SplitBucket(m, b, m[b][i := (k, v)]);
      OnlyThere(chains, b, i);
      entry.key := k;
      entry.value := v;
      assert Items(chains[b]) == m[b][i := (k, v)];
      ItemsAt(chains, nodes, m, b);
    }

    /** Unlinks the entry found for a key and forgets it. */
    method RemoveEntry(h: nat, entry: Entry<K, V>, prev: Entry?<K, V>, ghost k: K, ghost i: nat)
      requires Valid() && cap > 0 && h == Bucket(keys, capBits, k) && i < |chains[h]| && entry == chains[h][i]
      requires IsFirst(keys, Model()[h], k, i) && prev == if i == 0 then null else chains[h][i - 1]
      modifies this, buckets, nodes
      ensures Valid() && nodes == old(nodes) && capBits == old(capBits) && buckets == old(buckets)
      ensures Model() == old(Model())[h := old(Model())[h][..i] + old(Model())[h][i + 1..]]
      ensures sz == old(sz) - 1
    {
      hide HashBits, Flatten, Distinct, Placed, Items, AllItems, Linked, Keys.Lawful, Bucket;
      ghost var m, c := Model(), chains[h];
      RemoveKey(keys, capBits, m, k, i, k);
      PlacedSize(keys, capBits, m);
      SplitBucket(m, h, m[h][..i] + m[h][i + 1..]);
      Unlink(h, entry, prev, i);
      sz := sz - 1;
      ItemsDropped(c, i, chains[h]);
      ItemsAt(chains, nodes, m, h);
    }

    /** Moves one entry to the front of its new chain. */
    method MoveEntry(cur: Entry<K, V>, bs: array<Entry?<K, V>>, bits: nat,
                     ghost cs: seq<seq<Entry<K, V>>>, ghost done: set<Entry<K, V>>, ghost s: seq<(K, V)>)
      returns (ghost cs': seq<seq<Entry<K, V>>>)
      requires Moved(keys, bits, bs, cs, done, s) && cur !in done
      modifies bs, cur`next
      ensures Moved(keys, bits, bs, cs', done + {cur}, s + [(cur.key, cur.value)])
    {
      hide HashBits, Distinct, Items, AllItems, Rehash;
      var h := Bucket(keys, bits, cur.key);
      ghost var m := AllItems(cs, done);
      DistinctPush(cs, h, cur);
      RehashStep(keys, bits, s, (cur.key, cur.value));
      cur.next := bs[h];
      bs[h] := cur;
      cs' := cs[h := [cur] + cs[h]];
      ItemsPush(cs', done + {cur}, m, h, cur);
    }

    /** Moves one chain, entry by entry, to the fronts of the new chains. */
    method MoveChain(head: Entry?<K, V>, ghost c: seq<Entry<K, V>>, bs: array<Entry?<K, V>>, bits: nat,
                     ghost cs: seq<seq<Entry<K, V>>>, ghost done: set<Entry<K, V>>, ghost s: seq<(K, V)>)
      returns (ghost cs': seq<seq<Entry<K, V>>>)
      requires Linked(head, c) && Moved(keys, bits, bs, cs, done, s)
      requires (forall i :: 0 <= i < |c| ==> c[i] !in done) && (forall i, j :: 0 <= i < j < |c| ==> c[i] != c[j])
      modifies bs, c`next
      ensures Moved(keys, bits, bs, cs', done + SetOf(c), s + Items(c))
    {
      hide Moved, Items, SetOf;
      cs' := cs;
      var cur := head;
      ghost var i, its := 0, Items(c);
      ghost var d: set<Entry<K, V>>, t: seq<(K, V)> := done, s;
      SetOfNone<Entry<K, V>>();
      while cur != null
        invariant i <= |c| && cur == At(c, i)
        invariant forall j {:trigger c[j]} :: i <= j < |c| ==> c[j].next == At(c, j + 1)
        invariant Moved(keys, bits, bs, cs', d, t) && d == done + SetOf(c[..i]) && t == s + its[..i]
        decreases |c| - i
      {
        NotYetMoved(done, s, its, c, i);
        var tmp := cur.next;
        cs' := MoveEntry(cur, bs, bits, cs', d, t);
        d, t := d + {cur}, t + [its[i]];
        cur := tmp;
        i := i + 1;
      }
      assert c[..|c|] == c && its[..|c|] == its;
    }

    /** Moves all chains to new buckets; the old buckets are left dangling. */
    method MoveAll(newBuckets: array<Entry?<K, V>>, newCapBits: nat) returns (ghost cs: seq<seq<Entry<K, V>>>, ghost done: set<Entry<K, V>>)
      requires Structure() && newCapBits <= 64 && newBuckets != buckets
      requires newBuckets.Length == Pow2(newCapBits) && forall b :: 0 <= b < newBuckets.Length ==> newBuckets[b] == null
      modifies newBuckets, nodes`next
      ensures done <= nodes && Moved(keys, newCapBits, newBuckets, cs, done, Flatten(Model()))
    {
      hide Moved, Distinct, Items, AllItems;
      ghost var m := Model();
      cs, done := Empties(Pow2(newCapBits)), {};
      NothingMoved(keys, newCapBits, newBuckets);
      assert Flatten(m[..0]) == [];
      for bkt := 0 to cap
        invariant Model() == m
        invariant forall b :: bkt <= b < cap ==> Linked(buckets[b], chains[b])
        invariant forall b, i :: bkt <= b < cap && 0 <= i < |chains[b]| ==> chains[b][i] !in done
        invariant done <= nodes && Moved(keys, newCapBits, newBuckets, cs, done, Flatten(m[..bkt]))
      {
        DistinctChain(chains, bkt);
        cs := MoveChain(buckets[bkt], chains[bkt], newBuckets, newCapBits, cs, done, Flatten(m[..bkt]));
        done := done + SetOf(chains[bkt]);
        FlattenSnoc(m, bkt);
      }
      assert m[..cap] == m;
    }

    /** Doubles the number of buckets and rehashes every entry into them, in place. */
    method Grow() returns (err: int)
      requires Valid()
      modifies this, nodes`next
      ensures err == 0 || err == ENOMEM
      ensures Valid() && nodes == old(nodes) && sz == old(sz)
      ensures err != 0 ==> Model() == old(Model()) && capBits == old(capBits) && cap == old(cap) && buckets == old(buckets)
      ensures err == 0 ==> fresh(buckets) && (sz + 1) * 4 / 3 <= cap
      ensures err == 0 ==> Model() == Rehash(keys, capBits, Flatten(old(Model()))) && capBits == GrownBits(old(capBits))
    {
      hide HashBits, Distinct, Items, AllItems, Rehash, Flatten, Placed, Pow2, Moved, Keys.Lawful;
      var newCapBits := GrownBits(capBits);
      var oom: bool := *;
      if oom || newCapBits > MAX_CAP_BITS { return ENOMEM; }
      var newCap := Pow2(newCapBits);
      var newBuckets := new Entry?<K, V>[newCap](_ => null);
      RoomAfterGrowth(sz, cap, capBits, newCapBits);
      ghost var s := Flatten(Model());
      RehashPlaced(keys, newCapBits, s);
      RehashKeepsEntries(keys, newCapBits, s);
      ghost var cs, done := MoveAll(newBuckets, newCapBits);
      Install(newBuckets, newCapBits, cs, done, s);
      return 0;
    }

    /** Switches to the new buckets once every entry has been moved to them. */
    method Install(bs: array<Entry?<K, V>>, bits: nat, ghost cs: seq<seq<Entry<K, V>>>, ghost done: set<Entry<K, V>>, ghost s: seq<(K, V)>)
      requires keys.Lawful() && MIN_CAP_BITS <= bits <= MAX_CAP_BITS && done <= nodes && bs.Length == Pow2(bits)
      requires Moved(keys, bits, bs, cs, done, s) && Placed(keys, bits, Rehash(keys, bits, s))
      requires sz == |Flatten(Rehash(keys, bits, s))| && sz * 4 / 3 <= bs.Length
      modifies this`chains, this`cap, this`capBits, this`buckets
      ensures Valid() && buckets == bs && capBits == bits && cap == bs.Length
      ensures Model() == Rehash(keys, bits, s)
    {
      hide HashBits, Distinct, Items, AllItems, Rehash, Flatten, Placed, Pow2, Linked, Keys.Lawful;
      chains := cs;
      SameItems(cs, done, nodes);
      cap := bs.Length;
      capBits := bits;
      buckets := bs;
    }

    /** Insertion under each strategy. `found` is the entry that the key already had. */
    method Insert(k: K, v: V, strategy: Strategy) returns (err: int, found: Option<(K, V)>)
      requires Valid()
      modifies this, buckets, nodes
      ensures Valid() && fresh(nodes - old(nodes)) && (buckets == old(buckets) || fresh(buckets))
      ensures found == None <==> strategy == Append || old(Lookup(k)) == []
      ensures found.Some? ==> keys.eq(found.value.0, k) && found.value.1 == old(Lookup(k))[0]
      ensures found.Some? && strategy == Add ==> err == EEXIST
      ensures found == None && strategy == Update ==> err == ENOENT
      ensures found.Some? && strategy != Add ==> err == 0
      ensures found == None && strategy != Update ==> err == 0 || err == ENOMEM
      ensures err == EEXIST || err == ENOENT ==> Model() == old(Model()) && capBits == old(capBits)
      ensures err == ENOMEM ==> ValuesKept(keys, old(capBits), old(Model()), capBits, Model())
      ensures err == ENOMEM ==> capBits == old(capBits) || (old(NeedsToGrow()) && capBits == GrownBits(old(capBits)))
      ensures err == 0 && found.Some? ==> capBits == old(capBits) && ValueReplaced(keys, capBits, old(Model()), Model(), k, v)
      ensures err == 0 && found == None ==> ValueAdded(keys, old(capBits), old(Model()), capBits, Model(), k, v)
      ensures err == 0 && found == None ==> capBits == if old(NeedsToGrow()) then GrownBits(old(capBits)) else old(capBits)
      ensures sz == old(sz) + if err == 0 && found == None then 1 else 0
    {
      hide HashBits, Distinct, Items, AllItems, Rehash, Flatten, Placed, Pow2, Values, Linked, ValueAdded, ValueReplaced, ValuesKept;
      ghost var m := Model();
      found := None;
      if strategy != Append {
        var h := Bucket(keys, capBits, k);
        var entry, _, i := FindEntry(k, h);
        if entry != null {
          FirstValue(keys, m[h], k, i);
          found := Some((entry.key, entry.value));
          if strategy == Add { return EEXIST, found; }
          ReplaceReplacesValue(keys, capBits, m, k, v, i);
          ReplaceEntry(entry, k, v, i);
          return 0, found;
        }
      }
      if strategy == Update { return ENOENT, None; }
      err := InsertNew(k, v);
    }

    /** Adds an entry, growing the table first when it is three quarters full. */
    method InsertNew(k: K, v: V) returns (err: int)
      requires Valid()
      modifies this, buckets, nodes
      ensures Valid() && fresh(nodes - old(nodes)) && (buckets == old(buckets) || fresh(buckets))
      ensures err == 0 || err == ENOMEM
      ensures sz == old(sz) + if err == 0 then 1 else 0
      ensures err == 0 ==> ValueAdded(keys, old(capBits), old(Model()), capBits, Model(), k, v)
      ensures err == 0 ==> capBits == if old(NeedsToGrow()) then GrownBits(old(capBits)) else old(capBits)
      ensures err != 0 ==> ValuesKept(keys, old(capBits), old(Model()), capBits, Model())
      ensures err != 0 ==> capBits == old(capBits) || (old(NeedsToGrow()) && capBits == GrownBits(old(capBits)))
    {
      hide HashBits, Distinct, Items, AllItems, Rehash, Flatten, Placed, Pow2, Values, Linked, ValueAdded, ValuesKept;
      ghost var m, bits := Model(), capBits;
      NothingChanged(keys, bits, m);
      if NeedsToGrow() {
        err := Grow();
        if err != 0 { return; }
        GrowthKeepsValues(keys, bits, m, capBits);
      }
      ghost var m1 := Model();
      var oom: bool := *;
      if oom { return ENOMEM; }
      PushAddsValue(keys, capBits, m1, k, v);
      PushEntry(k, v);
      GrowThenAdd(keys, bits, m, capBits, m1, Model(), k, v);
      return 0;
    }

    /** Removes the entry of a key that a search finds first. */
    method Delete(k: K) returns (found: Option<(K, V)>)
      requires Valid()
      modifies this, buckets, nodes
      ensures Valid() && nodes == old(nodes) && capBits == old(capBits) && buckets == old(buckets)
      ensures found == None <==> old(Lookup(k)) == []
      ensures found == None ==> sz == old(sz) && Model() == old(Model())
      ensures found.Some? ==> keys.eq(found.value.0, k) && found.value.1 == old(Lookup(k))[0] && sz == old(sz) - 1
      ensures found.Some? ==> ValueRemoved(keys, capBits, old(Model()), Model(), k)
    {
      hide HashBits, Distinct, Items, AllItems, Rehash, Flatten, Placed, Pow2, Values, Linked, ValueRemoved;
      ghost var m := Model();
      var h := Bucket(keys, capBits, k);
      var entry, prev, i := FindEntry(k, h);
      if entry == null { return None; }
      FirstValue(keys, m[h], k, i);
      found := Some((entry.key, entry.value));
      RemoveRemovesValue(keys, capBits, m, k, i);
      RemoveEntry(h, entry, prev, k, i);
    }
  }
}
