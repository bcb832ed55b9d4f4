/** What a search finds after any sequence of operations: every value carries the moment it was
    inserted, so "the value inserted last" has a meaning that the order of the chains does not fix. */
module HashHistory {
  import opened Options
  import opened Errors
  import opened Seqs
  import opened Words
  import opened HashModel
  import opened HashTable

  /** What happened to a table, one thing after the other. */
  datatype Event<K, V> = Grown | Added(key: K, value: V) | Replaced(key: K, value: V) | Removed(key: K)

  /** A value and the position in the history at which it was inserted. */
  datatype Stamped<V> = Stamped(value: V, when: nat)

  /** The values that key k has, in the order of its chain. */
  function Live<K(!new), V>(ks: Keys<K>, log: seq<Event<K, V>>, k: K): (s: seq<Stamped<V>>)
    decreases |log|
  {
    if log == [] then []
    else
      var n := |log| - 1;
      Changed(ks, Live(ks, log[..n], k), log[n], n, k)
  }

  function Changed<K(!new), V>(ks: Keys<K>, s: seq<Stamped<V>>, e: Event<K, V>, n: nat, k: K): seq<Stamped<V>> {
    if e.Grown? then Reverse(s)
    else if !ks.eq(e.key, k) then s
    else if e.Added? then [Stamped(e.value, n)] + s
    else if e.Replaced? then [Stamped(e.value, n)] + Tail(s)
    else Tail(s)
  }

  /** How often the table has grown since the given position of its history. */
  function Growths<K, V>(log: seq<Event<K, V>>, from: nat): nat
    decreases |log|
  {
    if |log| <= from then 0
    else Growths(log[..|log| - 1], from) + if log[|log| - 1].Grown? then 1 else 0
  }

  function ValuesOf<V>(s: seq<Stamped<V>>): (vs: seq<V>)
    ensures |vs| == |s| && forall i :: 0 <= i < |s| ==> vs[i] == s[i].value
  {
    if s == [] then [] else [s[0].value] + ValuesOf(s[1..])
  }

  /** The value inserted last. */
  function Newest<V>(s: seq<Stamped<V>>): (n: Stamped<V>)
    requires s != []
    ensures n in s && forall x :: x in s ==> x.when <= n.when
  {
    if |s| == 1 then s[0]
    else
      var n := Newest(s[1..]);
      if s[0].when > n.when then s[0] else n
  }

  // The shape of a chain --------------------------------------------------------------------

  /** Going along the chain, values get older while the table has grown an even number of times
      since they came, and then newer again while it has grown an odd number of times. */
  ghost predicate Valley<K, V>(log: seq<Event<K, V>>, s: seq<Stamped<V>>, p: nat) {
    p <= |s| &&
    (forall i :: 0 <= i < |s| ==> s[i].when < |log| && (Growths(log, s[i].when) % 2 == 0 <==> i < p)) &&
    (forall i, j :: 0 <= i < j < p ==> s[i].when > s[j].when) &&
    (forall i, j :: p <= i < j < |s| ==> s[i].when < s[j].when)
  }

  lemma GrowthsStep<K, V>(log: seq<Event<K, V>>, e: Event<K, V>, from: nat)
    requires from <= |log|
    ensures Growths(log + [e], from) == Growths(log, from) + if e.Grown? then 1 else 0
  {
    assert (log + [e])[..|log|] == log;
  }

  lemma LiveStep<K(!new), V>(ks: Keys<K>, log: seq<Event<K, V>>, e: Event<K, V>, k: K)
    ensures Live(ks, log + [e], k) == Changed(ks, Live(ks, log, k), e, |log|, k)
  {
    assert (log + [e])[..|log|] == log;
  }

  lemma ValleyReversed<K, V>(log: seq<Event<K, V>>, s: seq<Stamped<V>>, p: nat)
    requires Valley(log, s, p)
    ensures Valley(log + [Grown], Reverse(s), |s| - p)
  {
    hide Reverse, Growths;
    var r, log' := Reverse(s), log + [Grown];
    forall i | 0 <= i < |r|
      ensures r[i].when < |log'| && (Growths(log', r[i].when) % 2 == 0 <==> i < |s| - p)
    {
      assert r[i] == s[|s| - 1 - i];
      GrowthsStep(log, Grown, r[i].when);
    }
  }

  /** Values that stay, in their order, while the table does not grow. */
  lemma ValleyKept<K, V>(log: seq<Event<K, V>>, e: Event<K, V>, s: seq<Stamped<V>>, p: nat)
    requires Valley(log, s, p) && !e.Grown?
    ensures Valley(log + [e], s, p)
    ensures s != [] ==> Valley(log + [e], s[1..], if p == 0 then 0 else p - 1)
  {
    forall i | 0 <= i < |s| ensures Growths(log + [e], s[i].when) == Growths(log, s[i].when) {
      GrowthsStep(log, e, s[i].when);
    }
  }

  lemma ValleyPushed<K, V>(log: seq<Event<K, V>>, e: Event<K, V>, s: seq<Stamped<V>>, p: nat, v: V)
    requires Valley(log + [e], s, p) && !e.Grown? && forall i :: 0 <= i < |s| ==> s[i].when < |log|
    ensures Valley(log + [e], [Stamped(v, |log|)] + s, p + 1)
  {
    GrowthsStep(log, e, |log|);
    var t := [Stamped(v, |log|)] + s;
    assert forall i :: 1 <= i < |t| ==> t[i] == s[i - 1];
  }

  /** Every key's chain has this shape, whatever has happened. */
  lemma {:induction false} ChainIsValley<K(!new), V>(ks: Keys<K>, log: seq<Event<K, V>>, k: K) returns (p: nat)
    ensures Valley(log, Live(ks, log, k), p)
    decreases |log|
  {
    if log == [] { return 0; }
    hide Live, Growths, Reverse;
    var n := |log| - 1;
    var was, e := log[..n], log[n];
    assert log == was + [e];
    p := ChainIsValley(ks, was, k);
    var s := Live(ks, was, k);
    LiveStep(ks, was, e, k);
    if e.Grown? {
      ValleyReversed(was, s, p);
      p := |s| - p;
    } else {
      p := ValleyChanged(was, e, s, p, ks.eq(e.key, k));
    }
  }

  /** An operation on the front, or none. */
  lemma ValleyChanged<K, V>(was: seq<Event<K, V>>, e: Event<K, V>, s: seq<Stamped<V>>, p: nat, here: bool) returns (p': nat)
    requires Valley(was, s, p) && !e.Grown?
    ensures Valley(was + [e],
      if !here then s else if e.Added? then [Stamped(e.value, |was|)] + s else if e.Replaced? then [Stamped(e.value, |was|)] + Tail(s) else Tail(s), p')
  {
    hide Growths;
    p' := p;
    ValleyKept(was, e, s, p);
    if here {
      if !e.Added? && s != [] { p' := if p == 0 then 0 else p - 1; }
      if !e.Removed? {
        ValleyPushed(was, e, if e.Added? then s else Tail(s), p', e.value);
        p' := p' + 1;
      }
    }
  }

  // What a search finds ----------------------------------------------------------------------

  /** The value inserted last is at one end of the chain: in front exactly if the table has grown an
      even number of times since, or if the key has no other value. */
  lemma NewestAtAnEnd<K(!new), V>(ks: Keys<K>, log: seq<Event<K, V>>, k: K)
    requires Live(ks, log, k) != []
    ensures var s := Live(ks, log, k); var n := Newest(s);
      (s[0] == n <==> Growths(log, n.when) % 2 == 0 || |s| == 1) &&
      (Growths(log, n.when) % 2 == 1 ==> s[|s| - 1] == n)
  {
    hide Live, Growths, Newest;
    var p := ChainIsValley(ks, log, k);
    NewestOfValley(log, Live(ks, log, k), p);
  }

  lemma NewestOfValley<K, V>(log: seq<Event<K, V>>, s: seq<Stamped<V>>, p: nat)
    requires s != [] && Valley(log, s, p)
    ensures var n := Newest(s);
      (s[0] == n <==> Growths(log, n.when) % 2 == 0 || |s| == 1) &&
      (Growths(log, n.when) % 2 == 1 ==> s[|s| - 1] == n)
  {
    hide Growths, Newest;
    var n := Newest(s);
    var i :| 0 <= i < |s| && s[i] == n;
    assert s[0] in s && s[|s| - 1] in s;
    assert i < p ==> i == 0;
    assert i >= p ==> i == |s| - 1;
  }

  /** Every key has the values of the history. */
  ghost predicate Holds<K(!new), V>(ks: Keys<K>, bits: nat, m: Chains<K, V>, log: seq<Event<K, V>>) {
    bits <= 64 && forall k :: KeyValues(ks, bits, m, k) == ValuesOf(Live(ks, log, k))
  }

  // The capacity -----------------------------------------------------------------------------

  function BitsOf<K, V>(log: seq<Event<K, V>>): nat {
    if log == [] then 0
    else
      var bits := BitsOf(log[..|log| - 1]);
      if log[|log| - 1].Grown? then GrownBits(bits) else bits
  }

  function EntriesIn<K, V>(log: seq<Event<K, V>>): int {
    if log == [] then 0
    else EntriesIn(log[..|log| - 1]) + Gain(log[|log| - 1])
  }

  function Gain<K, V>(e: Event<K, V>): int {
    if e.Added? then 1 else if e.Removed? then -1 else 0
  }

  /** The history has led to this capacity and this number of entries, and everything but growth has
      happened to a table with buckets. */
  ghost predicate Sized<K, V>(log: seq<Event<K, V>>, bits: nat, sz: int) {
    bits == BitsOf(log) && sz == EntriesIn(log) &&
    forall i :: 0 <= i < |log| && !log[i].Grown? ==> BitsOf(log[..i]) >= MIN_CAP_BITS
  }

  lemma SizedStep<K, V>(log: seq<Event<K, V>>, e: Event<K, V>, bits: nat, sz: int)
    requires Sized(log, bits, sz) && (!e.Grown? ==> bits >= MIN_CAP_BITS)
    ensures Sized(log + [e], if e.Grown? then GrownBits(bits) else bits, sz + Gain(e))
  {
    var log' := log + [e];
    assert log'[..|log|] == log;
    forall i | 0 <= i < |log'| && !log'[i].Grown? ensures BitsOf(log'[..i]) >= MIN_CAP_BITS {
      if i < |log| { assert log'[..i] == log[..i] && log'[i] == log[i]; }
    }
  }

  /** Since a table has buckets, its growths can be read from its capacity. */
  lemma {:induction false} GrowthsFromBits<K, V>(log: seq<Event<K, V>>, from: nat)
    requires from <= |log| && BitsOf(log[..from]) >= MIN_CAP_BITS
    ensures Growths(log, from) == BitsOf(log) - BitsOf(log[..from])
    decreases |log|
  {
    if from < |log| {
      var was := log[..|log| - 1];
      assert was[..from] == log[..from];
      GrowthsFromBits(was, from);
    } else {
      assert log[..from] == log;
    }
  }

  /** Every value was put in when its stamp says. */
  lemma {:induction false} StampsArePuts<K(!new), V>(ks: Keys<K>, log: seq<Event<K, V>>, k: K)
    ensures forall x :: x in Live(ks, log, k) ==> x.when < |log| && !log[x.when].Grown?
    decreases |log|
  {
    if log != [] {
      hide Live, Reverse;
      var was, e := log[..|log| - 1], log[|log| - 1];
      assert log == was + [e];
      StampsArePuts(ks, was, k);
      LiveStep(ks, was, e, k);
    }
  }

  /** The next entry needs a larger table. */
  predicate Full(sz: int, bits: nat) {
    bits == 0 || (sz + 1) * 4 / 3 > Pow2(bits)
  }

  lemma FullExactly<K(!new), V>(t: Table<K, V>)
    requires t.Valid()
    ensures t.NeedsToGrow() <==> Full(t.sz, t.capBits)
    ensures t.sz > 0 ==> t.capBits >= MIN_CAP_BITS
    ensures t.capBits == 0 ==> forall k :: t.Lookup(k) == []
  {
  }

  ghost predicate Records<K(!new), V>(ks: Keys<K>, bits: nat, m: Chains<K, V>, sz: int, log: seq<Event<K, V>>) {
    Holds(ks, bits, m, log) && Sized(log, bits, sz)
  }

  /** The table holds what its history says. */
  ghost predicate Agrees<K(!new), V>(t: Table<K, V>, log: seq<Event<K, V>>)
    reads t, t.buckets, t.nodes
  {
    t.Valid() && Records(t.keys, t.capBits, t.Model(), t.sz, log)
  }

  /** A search finds the value inserted last exactly if the table has grown an even number of times
      since that insertion, or the first and the last value of the key are equal anyway. */
  lemma FindsNewestExactly<K(!new), V>(t: Table<K, V>, log: seq<Event<K, V>>, k: K)
    requires Agrees(t, log) && t.Lookup(k) != []
    ensures Live(t.keys, log, k) != []
    ensures var was := t.Lookup(k); var n := Newest(Live(t.keys, log, k));
      was[0] == n.value <==> Growths(log, n.when) % 2 == 0 || was[0] == was[|was| - 1]
  {
    hide KeyValues, Live, Newest, Growths, Distinct, Items, AllItems, Flatten, Placed, Linked, HashBits, Pow2;
    NewestAtAnEnd(t.keys, log, k);
  }

  /** Whether it does can be read from the capacity, now and right after that insertion: what counts is
      whether the table has doubled an even number of times in between. */
  lemma CapacityTells<K(!new), V>(t: Table<K, V>, log: seq<Event<K, V>>, k: K)
    requires Agrees(t, log) && t.Lookup(k) != []
    ensures Live(t.keys, log, k) != []
    ensures var was := t.Lookup(k); var n := Newest(Live(t.keys, log, k));
      n.when < |log| && t.capBits >= BitsOf(log[..n.when + 1]) >= MIN_CAP_BITS &&
      (was[0] == n.value <==> (t.capBits - BitsOf(log[..n.when + 1])) % 2 == 0 || was[0] == was[|was| - 1])
  {
    hide KeyValues, Live, Newest, Growths, Distinct, Items, AllItems, Flatten, Placed, Linked, HashBits, Pow2, BitsOf, Holds, Sized;
    FindsNewestExactly(t, log, k);
    GrowthsOfNewest(t.keys, log, t.capBits, t.sz, k);
  }

  lemma GrowthsOfNewest<K(!new), V>(ks: Keys<K>, log: seq<Event<K, V>>, bits: nat, sz: int, k: K)
    requires Sized(log, bits, sz) && Live(ks, log, k) != []
    ensures var n := Newest(Live(ks, log, k));
      n.when < |log| && BitsOf(log[..n.when + 1]) >= MIN_CAP_BITS && Growths(log, n.when) == bits - BitsOf(log[..n.when + 1])
  {
    hide Live, Newest, Growths, BitsOf, EntriesIn;
    StampsArePuts(ks, log, k);
    var n := Newest(Live(ks, log, k));
    GrowthsFromBits(log, n.when);
    PutKeepsBits(log, n.when);
  }

  lemma PutKeepsBits<K, V>(log: seq<Event<K, V>>, i: nat)
    requires i < |log| && !log[i].Grown?
    ensures BitsOf(log[..i + 1]) == BitsOf(log[..i])
  {
    assert log[..i + 1][..i] == log[..i];
  }

  // Running operations -----------------------------------------------------------------------

  datatype Op<K, V> = Put(key: K, value: V, strategy: Strategy) | Drop(key: K)

  /** What one operation adds to the history. Only a new entry can make a table grow, and does when
      the table is full; a lack of memory, before or after growth, is up to the system. */
  ghost predicate Explains<K(!new), V>(ks: Keys<K>, log: seq<Event<K, V>>, op: Op<K, V>, es: seq<Event<K, V>>) {
    var has := Live(ks, log, op.key) != [];
    match op
    case Drop(k) => es == if has then [Removed(k)] else []
    case Put(k, v, s) =>
      if has && s == Add then es == []
      else if has && s != Append then es == [Replaced(k, v)]
      else if s == Update then es == []
      else if Full(EntriesIn(log), BitsOf(log)) then es == [Grown, Added(k, v)] || es == [Grown] || es == []
      else es == [Added(k, v)] || es == []
  }

  lemma ValuesOfReverse<V>(s: seq<Stamped<V>>)
    ensures ValuesOf(Reverse(s)) == Reverse(ValuesOf(s))
  {
    hide Reverse, ValuesOf;
  }

  /** The values of a key after an event. */
  lemma ValuesChanged<K(!new), V>(ks: Keys<K>, log: seq<Event<K, V>>, e: Event<K, V>, k: K)
    ensures var was := ValuesOf(Live(ks, log, k)); var now := ValuesOf(Live(ks, log + [e], k));
      now ==
        if e.Grown? then Reverse(was)
        else if !ks.eq(e.key, k) then was
        else if e.Added? then [e.value] + was
        else if e.Replaced? then [e.value] + Tail(was)
        else Tail(was)
  {
    LiveStep(ks, log, e, k);
    ValuesOfReverse(Live(ks, log, k));
  }

  method Step<K(!new), V>(t: Table<K, V>, op: Op<K, V>, ghost log: seq<Event<K, V>>) returns (ghost es: seq<Event<K, V>>)
    requires Agrees(t, log)
    modifies t, t.buckets, t.nodes
    ensures fresh(t.nodes - old(t.nodes)) && (t.buckets == old(t.buckets) || fresh(t.buckets))
    ensures Agrees(t, log + es) && Explains(t.keys, log, op, es)
  {
    if op.Drop? {
      es := StepDrop(t, op.key, log);
    } else {
      es := StepPut(t, op.key, op.value, op.strategy, log);
    }
  }

  lemma AfterRemoval<K(!new), V>(ks: Keys<K>, bits: nat, m: Chains<K, V>, m': Chains<K, V>, log: seq<Event<K, V>>, k: K)
    requires Holds(ks, bits, m, log) && ValueRemoved(ks, bits, m, m', k)
    ensures Holds(ks, bits, m', log + [Removed(k)])
  {
    hide Live, KeyValues, Tail, ValuesOf, Reverse;
    forall k' ensures KeyValues(ks, bits, m', k') == ValuesOf(Live(ks, log + [Removed(k)], k')) {
      ValuesChanged(ks, log, Removed(k), k');
    }
  }

  lemma AfterReplacement<K(!new), V>(ks: Keys<K>, bits: nat, m: Chains<K, V>, m': Chains<K, V>, log: seq<Event<K, V>>, k: K, v: V)
    requires Holds(ks, bits, m, log) && ValueReplaced(ks, bits, m, m', k, v)
    ensures Holds(ks, bits, m', log + [Replaced(k, v)])
  {
    hide Live, KeyValues, Tail, ValuesOf, Reverse;
    forall k' ensures KeyValues(ks, bits, m', k') == ValuesOf(Live(ks, log + [Replaced(k, v)], k')) {
      ValuesChanged(ks, log, Replaced(k, v), k');
    }
  }

  lemma AfterGrowth<K(!new), V>(ks: Keys<K>, bits: nat, m: Chains<K, V>, bits': nat, m': Chains<K, V>, log: seq<Event<K, V>>)
    requires Holds(ks, bits, m, log) && ValuesKept(ks, bits, m, bits', m')
    ensures Holds(ks, bits', m', log + if bits != bits' then [Grown] else [])
  {
    hide Live, KeyValues, Tail, ValuesOf, Reverse;
    assert log + [] == log;
    forall k' ensures KeyValues(ks, bits', m', k') == ValuesOf(Live(ks, log + if bits != bits' then [Grown] else [], k')) {
      ValuesChanged(ks, log, Grown, k');
    }
  }

  lemma AfterAddition<K(!new), V>(ks: Keys<K>, bits: nat, m: Chains<K, V>, bits': nat, m': Chains<K, V>, log: seq<Event<K, V>>, k: K, v: V)
    requires Holds(ks, bits, m, log) && ValueAdded(ks, bits, m, bits', m', k, v)
    ensures Holds(ks, bits', m', log + (if bits != bits' then [Grown] else []) + [Added(k, v)])
  {
    hide Live, KeyValues, Tail, ValuesOf, Reverse;
    var log1 := log + if bits != bits' then [Grown] else [];
    assert log + [] == log;
    forall k' ensures KeyValues(ks, bits', m', k') == ValuesOf(Live(ks, log1 + [Added(k, v)], k')) {
      ValuesChanged(ks, log, Grown, k');
      ValuesChanged(ks, log1, Added(k, v), k');
    }
  }

  /** The growth that an insertion has led to. */
  ghost function GrowthOf<K, V>(bits: nat, bits': nat): seq<Event<K, V>> {
    if bits != bits' then [Grown] else []
  }

  lemma RecordsRemoval<K(!new), V>(ks: Keys<K>, bits: nat, m: Chains<K, V>, m': Chains<K, V>, sz: int, log: seq<Event<K, V>>, k: K)
    requires Records(ks, bits, m, sz, log) && ValueRemoved(ks, bits, m, m', k) && bits >= MIN_CAP_BITS
    ensures Records(ks, bits, m', sz - 1, log + [Removed(k)])
  {
    hide Holds, Sized;
    AfterRemoval(ks, bits, m, m', log, k);
    SizedStep(log, Removed(k), bits, sz);
  }

  lemma RecordsReplacement<K(!new), V>(ks: Keys<K>, bits: nat, m: Chains<K, V>, m': Chains<K, V>, sz: int, log: seq<Event<K, V>>, k: K, v: V)
    requires Records(ks, bits, m, sz, log) && ValueReplaced(ks, bits, m, m', k, v) && bits >= MIN_CAP_BITS
    ensures Records(ks, bits, m', sz, log + [Replaced(k, v)])
  {
    hide Holds, Sized;
    AfterReplacement(ks, bits, m, m', log, k, v);
    SizedStep(log, Replaced(k, v), bits, sz);
  }

  lemma RecordsGrowth<K(!new), V>(ks: Keys<K>, bits: nat, m: Chains<K, V>, bits': nat, m': Chains<K, V>, sz: int, log: seq<Event<K, V>>)
    requires Records(ks, bits, m, sz, log) && ValuesKept(ks, bits, m, bits', m') && (bits' == bits || bits' == GrownBits(bits))
    ensures Records(ks, bits', m', sz, log + GrowthOf(bits, bits'))
  {
    hide Holds, Sized;
    AfterGrowth(ks, bits, m, bits', m', log);
    SizedStep(log, Grown, bits, sz);
    assert log + [] == log;
  }

  lemma RecordsAddition<K(!new), V>(ks: Keys<K>, bits: nat, m: Chains<K, V>, bits': nat, m': Chains<K, V>, sz: int, log: seq<Event<K, V>>, k: K, v: V)
    requires Records(ks, bits, m, sz, log) && ValueAdded(ks, bits, m, bits', m', k, v)
    requires (bits' == bits || bits' == GrownBits(bits)) && bits' >= MIN_CAP_BITS
    ensures Records(ks, bits', m', sz + 1, log + (GrowthOf(bits, bits') + [Added(k, v)]))
  {
    hide Holds, Sized;
    var g: seq<Event<K, V>> := GrowthOf(bits, bits');
    AfterAddition(ks, bits, m, bits', m', log, k, v);
    SizedStep(log, Grown, bits, sz);
    assert log + [] == log;
    SizedStep(log + g, Added(k, v), bits', sz);
    assert log + (g + [Added(k, v)]) == log + g + [Added(k, v)];
  }

  method StepDrop<K(!new), V>(t: Table<K, V>, k: K, ghost log: seq<Event<K, V>>) returns (ghost es: seq<Event<K, V>>)
    requires Agrees(t, log)
    modifies t, t.buckets, t.nodes
    ensures t.nodes == old(t.nodes) && t.buckets == old(t.buckets)
    ensures Agrees(t, log + es) && Explains(t.keys, log, Drop(k), es)
  {
    hide Live, KeyValues, Distinct, Items, AllItems, Flatten, Placed, Linked, Pow2, ValueRemoved, Records, Full;
    ghost var bits, sz, m := t.capBits, t.sz, t.Model();
    HasValues(t, log, k);
    FullExactly(t);
    var found := t.Delete(k);
    if found.None? {
      assert log + [] == log;
      return [];
    }
    RecordsRemoval(t.keys, bits, m, t.Model(), sz, log, k);
    return [Removed(k)];
  }

  lemma HasValues<K(!new), V>(t: Table<K, V>, log: seq<Event<K, V>>, k: K)
    requires Agrees(t, log)
    ensures t.Lookup(k) == [] <==> Live(t.keys, log, k) == []
  {
  }

  method StepPut<K(!new), V>(t: Table<K, V>, k: K, v: V, s: Strategy, ghost log: seq<Event<K, V>>) returns (ghost es: seq<Event<K, V>>)
    requires Agrees(t, log)
    modifies t, t.buckets, t.nodes
    ensures fresh(t.nodes - old(t.nodes)) && (t.buckets == old(t.buckets) || fresh(t.buckets))
    ensures Agrees(t, log + es) && Explains(t.keys, log, Put(k, v, s), es)
  {
    hide Live, KeyValues, Distinct, Items, AllItems, Flatten, Placed, Linked, Pow2, ValueAdded, ValueReplaced, ValuesKept, Records, Full, GrownBits, BitsOf, EntriesIn;
    ghost var bits, sz, m := t.capBits, t.sz, t.Model();
    HasValues(t, log, k);
    FullExactly(t);
    SizedIs(t, log);
    var err, found := t.Insert(k, v, s);
    FullExactly(t);
    if err == 0 && found.Some? {
      RecordsReplacement(t.keys, bits, m, t.Model(), sz, log, k, v);
      return [Replaced(k, v)];
    }
    if err == 0 {
      RecordsAddition(t.keys, bits, m, t.capBits, t.Model(), sz, log, k, v);
      return GrowthOf(bits, t.capBits) + [Added(k, v)];
    }
    if err == ENOMEM { RecordsGrowth(t.keys, bits, m, t.capBits, t.Model(), sz, log); }
    assert log + [] == log;
    return GrowthOf(bits, t.capBits);
  }

  lemma SizedIs<K(!new), V>(t: Table<K, V>, log: seq<Event<K, V>>)
    requires Agrees(t, log)
    ensures t.capBits == BitsOf(log) && t.sz == EntriesIn(log) && GrownBits(t.capBits) != t.capBits
  {
  }

  /** The histories of consecutive operations. */
  ghost predicate Explained<K(!new), V>(ks: Keys<K>, ops: seq<Op<K, V>>, steps: seq<seq<Event<K, V>>>) {
    |steps| == |ops| &&
    forall i {:trigger steps[i]} :: 0 <= i < |ops| ==> Explains(ks, Flatten(steps[..i]), ops[i], steps[i])
  }

  lemma NoHistory<K(!new), V>(ks: Keys<K>, bits: nat, m: Chains<K, V>)
    requires bits <= 64 && forall k :: KeyValues(ks, bits, m, k) == []
    ensures Holds(ks, bits, m, [])
  {
    hide KeyValues, Live;
    forall k ensures KeyValues(ks, bits, m, k) == ValuesOf(Live(ks, [], k)) { NoneLive<K, V>(ks, k); }
  }

  lemma NoneLive<K(!new), V>(ks: Keys<K>, k: K)
    ensures Live<K, V>(ks, [], k) == []
  {
  }

  /** Any operations on a new table: its contents are those of the history they leave behind. */
  method Run<K(!new), V>(keys: Keys<K>, ops: seq<Op<K, V>>) returns (t: Table<K, V>, ghost steps: seq<seq<Event<K, V>>>)
    requires keys.Lawful()
    ensures t.keys == keys && Explained(keys, ops, steps) && Agrees(t, Flatten(steps))
  {
    hide Explained, Agrees;
    t := NewTable(keys);
    steps := [];
    NothingDone<K, V>(keys);
    var i := 0;
    while i < |ops|
      invariant 0 <= i <= |ops| && t.keys == keys && fresh(t) && fresh(t.nodes) && (t.buckets == null || fresh(t.buckets))
      invariant Explained(keys, ops[..i], steps) && Agrees(t, Flatten(steps))
    {
      ghost var es := Step(t, ops[i], Flatten(steps));
      OneMoreDone(keys, ops, i, steps, es);
      steps := steps + [es];
      i := i + 1;
    }
    assert ops[..|ops|] == ops;
  }

  method NewTable<K(!new), V>(keys: Keys<K>) returns (t: Table<K, V>)
    requires keys.Lawful()
    ensures t.keys == keys && fresh(t) && t.nodes == {} && t.buckets == null && Agrees(t, [])
  {
    hide Live, Holds, KeyValues, ValuesOf, Distinct, Items, AllItems, Placed, Linked, Pow2;
    t := new Table(keys);
    forall k ensures KeyValues(keys, t.capBits, t.Model(), k) == [] { assert t.Lookup(k) == []; }
    NoHistory(keys, t.capBits, t.Model());
  }

  lemma NothingDone<K(!new), V>(ks: Keys<K>)
    ensures Explained<K, V>(ks, [], []) && Flatten<Event<K, V>>([]) == []
  {
  }

  lemma OneMoreDone<K(!new), V>(ks: Keys<K>, ops: seq<Op<K, V>>, i: nat, steps: seq<seq<Event<K, V>>>, es: seq<Event<K, V>>)
    requires i < |ops| && Explained(ks, ops[..i], steps) && Explains(ks, Flatten(steps), ops[i], es)
    ensures Explained(ks, ops[..i + 1], steps + [es]) && Flatten(steps + [es]) == Flatten(steps) + es
  {
    hide Explains, Flatten;
    var steps' := steps + [es];
    FlattenSnoc(steps', i);
    assert steps'[..i] == steps && steps'[..i + 1] == steps';
    assert forall j :: 0 <= j < i ==> steps'[..j] == steps[..j] && ops[..i + 1][j] == ops[..i][j];
  }

  /** Equal keys have the same values. */
  lemma {:induction false} LiveOfEqualKeys<K(!new), V>(ks: Keys<K>, log: seq<Event<K, V>>, k: K, k': K)
    requires ks.Lawful() && ks.eq(k, k')
    ensures Live(ks, log, k) == Live(ks, log, k')
    decreases |log|
  {
    if log != [] {
      LiveOfEqualKeys(ks, log[..|log| - 1], k, k');
    }
  }

  /** An operation other than appending leaves every key with one value at most. */
  lemma StaysSingle<K(!new), V>(ks: Keys<K>, log: seq<Event<K, V>>, op: Op<K, V>, es: seq<Event<K, V>>, k: K)
    requires ks.Lawful() && Explains(ks, log, op, es) && (op.Put? ==> op.strategy != Append)
    requires |Live(ks, log, k)| <= 1
    ensures |Live(ks, log + es, k)| <= 1
  {
    hide Live, Reverse;
    if ks.eq(op.key, k) { LiveOfEqualKeys(ks, log, op.key, k); }
    assert log + [] == log;
    LiveStep(ks, log, Grown, k);
    if es != [] && es[|es| - 1] != Grown {
      var e := es[|es| - 1];
      LiveStep(ks, log, e, k);
      if |es| == 2 {
        LiveStep(ks, log + [Grown], e, k);
        assert log + es == log + [Grown] + [e];
      }
    }
  }

  /** Where nothing is ever appended, no key has two values, so that a search finds the newest. */
  lemma {:induction false} WithoutAppends<K(!new), V>(ks: Keys<K>, ops: seq<Op<K, V>>, steps: seq<seq<Event<K, V>>>, k: K)
    requires ks.Lawful() && Explained(ks, ops, steps)
    requires forall i :: 0 <= i < |ops| && ops[i].Put? ==> ops[i].strategy != Append
    ensures |Live(ks, Flatten(steps), k)| <= 1
    decreases |ops|
  {
    if ops != [] {
      hide Live, Flatten, Explains;
      var n := |ops| - 1;
      assert forall i :: 0 <= i < n ==> steps[..n][..i] == steps[..i];
      WithoutAppends(ks, ops[..n], steps[..n], k);
      StaysSingle(ks, Flatten(steps[..n]), ops[n], steps[n], k);
      FlattenSnoc(steps, n);
      assert steps[..n + 1] == steps;
    }
  }

  /** One append, seen from key k. */
  method AppendTo<K(!new), V>(t: Table<K, V>, k': K, v: V, ghost k: K) returns (ok: bool)
    requires t.Valid()
    modifies t, t.buckets, t.nodes
    ensures t.Valid() && fresh(t.nodes - old(t.nodes)) && (t.buckets == old(t.buckets) || fresh(t.buckets))
    ensures ok ==> t.sz == old(t.sz) + 1
    ensures ok ==> t.capBits == if old(t.NeedsToGrow()) then GrownBits(old(t.capBits)) else old(t.capBits)
    ensures ok ==> t.Lookup(k) == (if t.keys.eq(k', k) then [v] else []) + After(old(t.Lookup(k)), old(t.NeedsToGrow()))
  {
    hide KeyValues, Reverse, Distinct, Items, AllItems, Flatten, Placed, Linked, Pow2;
    var err, _ := t.Insert(k', v, Append);
    return err == 0;
  }

  lemma SmallReversals<T>(a: T, b: T)
    ensures Reverse<T>([]) == [] && Reverse([a, b]) == [b, a]
  {
    assert [a, b][1..] == [b] && [b][1..] == [];
    assert Reverse([b]) == Reverse<T>([]) + [b] == [b];
  }

  lemma CapacityKnown<K(!new), V>(t: Table<K, V>)
    requires t.Valid()
    ensures t.cap == if t.capBits == 0 then 0 else Pow2(t.capBits)
  {
  }

  /** Where nothing grows, an append is seen as it is. */
  method AppendWithin<K(!new), V>(t: Table<K, V>, k': K, v: V, ghost k: K) returns (ok: bool)
    requires t.Valid() && t.capBits == 2 && (t.sz + 1) * 4 / 3 <= 4
    modifies t, t.buckets, t.nodes
    ensures t.Valid() && fresh(t.nodes - old(t.nodes)) && (t.buckets == old(t.buckets) || fresh(t.buckets))
    ensures ok ==> t.capBits == 2 && t.sz == old(t.sz) + 1
    ensures ok ==> t.Lookup(k) == (if t.keys.eq(k', k) then [v] else []) + old(t.Lookup(k))
  {
    hide KeyValues, Reverse, Distinct, Items, AllItems, Flatten, Placed, Linked, HashBits;
    CapacityKnown(t);
    ok := AppendTo(t, k', v, k);
  }

  /** The first three appends leave the new table as full as it may be. */
  method ThreeAppends<K(!new), V>(keys: Keys<K>, k: K, x: K, v1: V, v2: V) returns (t: Table<K, V>, ok: bool)
    requires keys.Lawful() && !keys.eq(x, k)
    ensures t.Valid() && t.keys == keys && fresh(t) && fresh(t.nodes) && (t.buckets == null || fresh(t.buckets))
    ensures ok ==> t.capBits == 2 && t.sz == 3 && t.Lookup(k) == [v2, v1]
  {
    hide KeyValues, Reverse, Distinct, Items, AllItems, Flatten, Placed, Linked, HashBits;
    SmallReversals(v2, v1);
    t := new Table(keys);
    ok := AppendTo(t, k, v1, k);
    if !ok { return; }
    assert t.Lookup(k) == [v1];
    ok := AppendWithin(t, k, v2, k);
    if !ok { return; }
    assert t.Lookup(k) == [v2, v1];
    ok := AppendWithin(t, x, v1, k);
  }

  /** Four appends to a new table, the first two of them for key k: the fourth makes the table grow,
      and a search for k finds the value appended first. */
  method FourAppends<K(!new), V>(keys: Keys<K>, k: K, x: K, y: K, v1: V, v2: V) returns (ok: bool, r: Option<V>)
    requires keys.Lawful() && !keys.eq(x, k) && !keys.eq(y, k)
    ensures ok ==> r == Some(v1)
  {
    hide KeyValues, Reverse, Distinct, Items, AllItems, Flatten, Placed, Linked, HashBits;
    SmallReversals(v2, v1);
    var t;
    t, ok := ThreeAppends(keys, k, x, v1, v2);
    if !ok { return false, None; }
    CapacityKnown(t);
    ok := AppendTo(t, y, v1, k);
    if !ok { return false, None; }
    r := t.Find(k);
  }
}
