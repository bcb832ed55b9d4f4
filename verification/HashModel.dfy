/** The contents of a chained hash table as values: which chain holds a key, what rehashing does to
    the chains, and what each key is associated with. */
module HashModel {

  import opened Words
  import opened Seqs

  const GOLDEN: nat := 11400714819323198485

  /** The 64-bit hash, shuffled. */
  function Shuffled(h: nat): (y: nat)
    ensures y < WORD64
  {
    h * GOLDEN % WORD64
  }

  function ShiftRight(y: nat, n: nat): nat {
    DivNat(y, Pow2(n));
    y / Pow2(n)
  }

  lemma DivNat(y: nat, p: nat)
    requires p > 0
    ensures y / p >= 0
  {
  }

  /** The upper `bits` bits of the shuffled hash; an empty table (0 bits) never looks. */
  function HashBits(h: nat, bits: nat): nat
    requires bits <= 64
  {
    if bits == 0 then 0 else ShiftRight(Shuffled(h), 64 - bits)
  }

  lemma HashBitsInRange(h: nat, bits: nat)
    requires bits <= 64
    ensures HashBits(h, bits) < Pow2(bits)
  {
    if bits > 0 {
      hide Shuffled;
      ShiftInRange(Shuffled(h), bits);
    }
  }

  lemma ShiftInRange(y: nat, bits: nat)
    requires y < WORD64 && bits <= 64
    ensures ShiftRight(y, 64 - bits) < Pow2(bits)
  {
    hide Pow2;
    Pow2Sum(64 - bits, bits);
    Word64IsPow2();
    DivBelow(y, Pow2(64 - bits), Pow2(bits));
  }

  /** The caller's hash and equality. */
  datatype Keys<!K(!new)> = Keys(hash: K -> nat, eq: (K, K) -> bool) {
    /** Equality is an equivalence that the hash respects. */
    ghost predicate Lawful() {
      (forall a :: eq(a, a)) &&
      (forall a, b :: eq(a, b) ==> eq(b, a) && hash(a) == hash(b)) &&
      (forall a, b, c :: eq(a, b) && eq(b, c) ==> eq(a, c))
    }
  }

  type Chains<!K, !V> = seq<seq<(K, V)>>

  function Bucket<K(!new)>(ks: Keys<K>, bits: nat, k: K): (b: nat)
    requires bits <= 64
    ensures b < Pow2(bits)
  {
    HashBitsInRange(ks.hash(k), bits);
    HashBits(ks.hash(k), bits)
  }

  /** Every entry is in the chain its key hashes to. */
  ghost predicate Placed<K(!new), V>(ks: Keys<K>, bits: nat, m: Chains<K, V>) {
    bits <= 64 && |m| == Pow2(bits) &&
    forall b, i :: 0 <= b < |m| && 0 <= i < |m[b]| ==> Bucket(ks, bits, m[b][i].0) == b
  }

  /** The values of the entries whose key equals k, in order. */
  function Values<K(!new), V>(ks: Keys<K>, s: seq<(K, V)>, k: K): seq<V> {
    if s == [] then []
    else (if ks.eq(s[0].0, k) then [s[0].1] else []) + Values(ks, s[1..], k)
  }

  /** What iterating over the entries of key k visits. */
  function KeyValues<K(!new), V>(ks: Keys<K>, bits: nat, m: Chains<K, V>, k: K): seq<V>
    requires bits <= 64
  {
    if Bucket(ks, bits, k) < |m| then Values(ks, m[Bucket(ks, bits, k)], k) else []
  }

  /** The entries of s that go into bucket b. */
  function Select<K(!new), V>(ks: Keys<K>, bits: nat, s: seq<(K, V)>, b: nat): seq<(K, V)>
    requires bits <= 64
  {
    if s == [] then []
    else (if Bucket(ks, bits, s[0].0) == b then [s[0]] else []) + Select(ks, bits, s[1..], b)
  }

  /** Entries pushed one by one onto the fronts of fresh chains. */
  function Rehash<K(!new), V>(ks: Keys<K>, bits: nat, s: seq<(K, V)>): (m: Chains<K, V>)
    requires bits <= 64
    ensures |m| == Pow2(bits)
  {
    seq(Pow2(bits), b requires 0 <= b < Pow2(bits) => Reverse(Select(ks, bits, s, b)))
  }

  // Sequences ------------------------------------------------------------------------------

  lemma ValuesUnfold<K(!new), V>(ks: Keys<K>, s: seq<(K, V)>, k: K)
    ensures s == [] ==> Values(ks, s, k) == []
    ensures s != [] ==> Values(ks, s, k) == (if ks.eq(s[0].0, k) then [s[0].1] else []) + Values(ks, s[1..], k)
  {
  }

  lemma {:induction false} ValuesConcat<K(!new), V>(ks: Keys<K>, a: seq<(K, V)>, b: seq<(K, V)>, k: K)
    ensures Values(ks, a + b, k) == Values(ks, a, k) + Values(ks, b, k)
  {
    hide Values;
    ValuesUnfold(ks, a, k);
    if a == [] {
      assert a + b == b;
    } else {
      ValuesConcat(ks, a[1..], b, k);
      ValuesUnfold(ks, a + b, k);
      assert (a + b)[1..] == a[1..] + b;
      Associative(if ks.eq(a[0].0, k) then [a[0].1] else [], Values(ks, a[1..], k), Values(ks, b, k));
    }
  }

  lemma {:induction false} ValuesReverse<K(!new), V>(ks: Keys<K>, s: seq<(K, V)>, k: K)
    ensures Values(ks, Reverse(s), k) == Reverse(Values(ks, s, k))
  {
    if s != [] {
      ValuesReverse(ks, s[1..], k);
      ValuesConcat(ks, Reverse(s[1..]), [s[0]], k);
      var h := if ks.eq(s[0].0, k) then [s[0].1] else [];
      ReverseConcat(h, Values(ks, s[1..], k));
      assert Values(ks, [s[0]], k) == h + Values(ks, [s[0]][1..], k) == h;
      assert Reverse(h) == h;
    }
  }

  // Keys and chains ------------------------------------------------------------------------

  /** No entry of another bucket has the key. */
  lemma {:induction false} ValuesElsewhere<K(!new), V>(ks: Keys<K>, s: seq<(K, V)>, k: K)
    requires forall i :: 0 <= i < |s| ==> !ks.eq(s[i].0, k)
    ensures Values(ks, s, k) == []
  {
    if s != [] {
      ValuesElsewhere(ks, s[1..], k);
    }
  }

  lemma SameBucket<K(!new)>(ks: Keys<K>, bits: nat, a: K, b: K)
    requires ks.Lawful() && bits <= 64 && ks.eq(a, b)
    ensures Bucket(ks, bits, a) == Bucket(ks, bits, b)
  {
  }

  lemma {:induction false} ValuesOfSelect<K(!new), V>(ks: Keys<K>, bits: nat, s: seq<(K, V)>, k: K)
    requires ks.Lawful() && bits <= 64
    ensures Values(ks, Select(ks, bits, s, Bucket(ks, bits, k)), k) == Values(ks, s, k)
  {
    if s != [] {
      ValuesOfSelect(ks, bits, s[1..], k);
      var b := Bucket(ks, bits, k);
      var h := if Bucket(ks, bits, s[0].0) == b then [s[0]] else [];
      ValuesConcat(ks, h, Select(ks, bits, s[1..], b), k);
      if ks.eq(s[0].0, k) { SameBucket(ks, bits, s[0].0, k); }
      assert Values(ks, [s[0]], k) == (if ks.eq(s[0].0, k) then [s[0].1] else []) + Values(ks, [s[0]][1..], k);
    }
  }

  /** Iterating over a key's bucket finds everything the whole table holds for the key. */
  lemma KeyValuesComplete<K(!new), V>(ks: Keys<K>, bits: nat, m: Chains<K, V>, k: K)
    requires ks.Lawful() && Placed(ks, bits, m)
    ensures KeyValues(ks, bits, m, k) == Values(ks, Flatten(m), k)
  {
    hide Values, Flatten, Bucket;
    var b := Bucket(ks, bits, k);
    SplitBucket(m, b, m[b]);
    ValuesConcat(ks, Flatten(m[..b]) + m[b], Flatten(m[b + 1..]), k);
    ValuesConcat(ks, Flatten(m[..b]), m[b], k);
    OtherBuckets(ks, bits, m, 0, b, k);
    OtherBuckets(ks, bits, m, b + 1, |m|, k);
    assert m[0..b] == m[..b] && m[b + 1..|m|] == m[b + 1..];
  }

  lemma {:induction false} OtherBuckets<K(!new), V>(ks: Keys<K>, bits: nat, m: Chains<K, V>, lo: nat, hi: nat, k: K)
    requires ks.Lawful() && Placed(ks, bits, m) && lo <= hi <= |m|
    requires !(lo <= Bucket(ks, bits, k) < hi)
    ensures Values(ks, Flatten(m[lo..hi]), k) == []
    decreases hi - lo
  {
    if lo < hi {
      OtherBuckets(ks, bits, m, lo + 1, hi, k);
      assert m[lo..hi][1..] == m[lo + 1..hi];
      forall i | 0 <= i < |m[lo]| ensures !ks.eq(m[lo][i].0, k) {
        if ks.eq(m[lo][i].0, k) { SameBucket(ks, bits, m[lo][i].0, k); }
      }
      ValuesElsewhere(ks, m[lo], k);
      ValuesConcat(ks, m[lo], Flatten(m[lo + 1..hi]), k);
    }
  }

  lemma {:induction false} SelectPlaced<K(!new), V>(ks: Keys<K>, bits: nat, s: seq<(K, V)>, b: nat)
    requires bits <= 64
    ensures forall p :: p in Select(ks, bits, s, b) ==> Bucket(ks, bits, p.0) == b
  {
    if s != [] {
      SelectPlaced(ks, bits, s[1..], b);
    }
  }

  lemma RehashPlaced<K(!new), V>(ks: Keys<K>, bits: nat, s: seq<(K, V)>)
    requires bits <= 64
    ensures Placed(ks, bits, Rehash(ks, bits, s))
  {
    var m: Chains<K, V> := Rehash(ks, bits, s);
    forall b, i | 0 <= b < |m| && 0 <= i < |m[b]| ensures Bucket(ks, bits, m[b][i].0) == b {
      SelectPlaced(ks, bits, s, b);
      ReverseMultiset(Select(ks, bits, s, b));
      assert m[b][i] in multiset(m[b]);
      assert m[b][i] in Select(ks, bits, s, b);
    }
  }

  /** Growing the table reverses the order in which a key's values are visited. */
  lemma RehashReverses<K(!new), V>(ks: Keys<K>, bits: nat, m: Chains<K, V>, bits': nat, k: K)
    requires ks.Lawful() && Placed(ks, bits, m) && bits' <= 64
    ensures KeyValues(ks, bits', Rehash(ks, bits', Flatten(m)), k) == Reverse(KeyValues(ks, bits, m, k))
  {
    KeyValuesComplete(ks, bits, m, k);
    var b := Bucket(ks, bits', k);
    ValuesReverse(ks, Select(ks, bits', Flatten(m), b), k);
    ValuesOfSelect(ks, bits', Flatten(m), k);
  }

  // Size and entries -----------------------------------------------------------------------

  lemma {:induction false} SplitBucket<T>(m: seq<seq<T>>, b: nat, c: seq<T>)
    requires b < |m|
    ensures Flatten(m[b := c]) == Flatten(m[..b]) + c + Flatten(m[b + 1..])
    ensures Flatten(m) == Flatten(m[..b]) + m[b] + Flatten(m[b + 1..])
  {
    assert m[b := c] == m[..b] + [c] + m[b + 1..];
    assert m == m[..b] + [m[b]] + m[b + 1..];
    FlattenConcat(m[..b] + [c], m[b + 1..]);
    FlattenConcat(m[..b], [c]);
    FlattenConcat(m[..b] + [m[b]], m[b + 1..]);
    FlattenConcat(m[..b], [m[b]]);
    assert Flatten([c]) == c + Flatten([c][1..]) == c;
    assert Flatten([m[b]]) == m[b] + Flatten([m[b]][1..]) == m[b];
  }

  function Empties<T>(n: nat): (m: seq<seq<T>>)
    ensures |m| == n
  {
    seq(n, _ => [])
  }

  lemma {:induction false} FlattenEmpties<T>(n: nat)
    ensures Flatten(Empties<T>(n)) == []
  {
    if n > 0 {
      FlattenEmpties<T>(n - 1);
      assert Empties<T>(n)[1..] == Empties<T>(n - 1);
    }
  }

  /** Rehashing one more entry pushes it onto the front of its chain. */
  lemma RehashStep<K(!new), V>(ks: Keys<K>, bits: nat, s: seq<(K, V)>, p: (K, V))
    requires bits <= 64
    ensures var b := Bucket(ks, bits, p.0);
      Rehash(ks, bits, s + [p]) == Rehash(ks, bits, s)[b := [p] + Rehash(ks, bits, s)[b]]
  {
    var b := Bucket(ks, bits, p.0);
    forall c | 0 <= c < Pow2(bits)
      ensures Reverse(Select(ks, bits, s + [p], c)) == if c == b then [p] + Reverse(Select(ks, bits, s, c)) else Reverse(Select(ks, bits, s, c))
    {
      SelectSnoc(ks, bits, s, p, c);
      ReverseConcat(Select(ks, bits, s, c), [p]);
      assert Reverse([p]) == Reverse([p][1..]) + [p] == [p];
      assert Select(ks, bits, s, c) + [] == Select(ks, bits, s, c);
    }
  }

  lemma {:induction false} SelectSnoc<K(!new), V>(ks: Keys<K>, bits: nat, s: seq<(K, V)>, p: (K, V), c: nat)
    requires bits <= 64
    ensures Select(ks, bits, s + [p], c) == Select(ks, bits, s, c) + if Bucket(ks, bits, p.0) == c then [p] else []
  {
    if s == [] {
      assert s + [p] == [p] && [p][1..] == [];
    } else {
      SelectSnoc(ks, bits, s[1..], p, c);
      assert (s + [p])[1..] == s[1..] + [p];
    }
  }

  /** Rehashing keeps every entry, each as often as it was there. */
  lemma {:induction false} RehashKeepsEntries<K(!new), V>(ks: Keys<K>, bits: nat, s: seq<(K, V)>)
    requires bits <= 64
    ensures multiset(Flatten(Rehash(ks, bits, s))) == multiset(s)
    ensures |Flatten(Rehash(ks, bits, s))| == |s|
    decreases |s|
  {
    hide Bucket, Rehash;
    if s == [] {
      RehashNothing<K, V>(ks, bits);
      FlattenEmpties<(K, V)>(Pow2(bits));
    } else {
      var t, p := s[..|s| - 1], s[|s| - 1];
      assert s == t + [p];
      RehashKeepsEntries(ks, bits, t);
      RehashStep(ks, bits, t, p);
      var m, b := Rehash(ks, bits, t), Bucket(ks, bits, p.0);
      SplitBucket(m, b, [p] + m[b]);
    }
  }

  lemma RehashNothing<K(!new), V>(ks: Keys<K>, bits: nat)
    requires bits <= 64
    ensures Rehash<K, V>(ks, bits, []) == Empties<(K, V)>(Pow2(bits))
  {
  }

  function Tail<T>(s: seq<T>): seq<T> {
    if s == [] then [] else s[1..]
  }

  // What the operations do to a key ---------------------------------------------------------

  /** The entry that a search for k stops at. */
  ghost predicate IsFirst<K(!new), V>(ks: Keys<K>, s: seq<(K, V)>, k: K, i: nat) {
    i < |s| && ks.eq(s[i].0, k) && forall j :: 0 <= j < i ==> !ks.eq(s[j].0, k)
  }

  lemma NoValues<K(!new), V>(ks: Keys<K>, s: seq<(K, V)>, k: K)
    ensures s == [] ==> Values(ks, s, k) == []
  {
  }

  lemma ValuesStep<K(!new), V>(ks: Keys<K>, s: seq<(K, V)>, i: nat, k: K)
    requires i < |s|
    ensures Values(ks, s[i..], k) == (if ks.eq(s[i].0, k) then [s[i].1] else []) + Values(ks, s[i + 1..], k)
  {
    assert s[i..][1..] == s[i + 1..];
  }

  lemma {:induction false} FirstValue<K(!new), V>(ks: Keys<K>, s: seq<(K, V)>, k: K, i: nat)
    requires IsFirst(ks, s, k, i)
    ensures Values(ks, s, k) == [s[i].1] + Values(ks, s[i + 1..], k)
  {
    var pre := s[..i];
    ValuesElsewhere(ks, pre, k);
    ValuesConcat(ks, pre, s[i..], k);
    assert s == pre + s[i..] && s[i..][1..] == s[i + 1..];
  }

  /** Replacing one entry by another with an equal key. */
  lemma {:induction false} ReplaceValue<K(!new), V>(ks: Keys<K>, s: seq<(K, V)>, k: K, v: V, i: nat, k': K)
    requires ks.Lawful() && IsFirst(ks, s, k, i)
    ensures ks.eq(k, k') ==> Values(ks, s, k') != []
    ensures Values(ks, s[i := (k, v)], k') == if ks.eq(k, k') then [v] + Tail(Values(ks, s, k')) else Values(ks, s, k')
  {
    hide Values;
    var s' := s[i := (k, v)];
    if ks.eq(k, k') {
      assert IsFirst(ks, s, k', i) && IsFirst(ks, s', k', i);
      FirstValue(ks, s, k', i);
      FirstValue(ks, s', k', i);
      assert s'[i + 1..] == s[i + 1..];
    } else {
      ValuesStep(ks, s, i, k');
      ValuesStep(ks, s', i, k');
      ValuesConcat(ks, s[..i], s[i..], k');
      ValuesConcat(ks, s'[..i], s'[i..], k');
      assert s == s[..i] + s[i..] && s' == s'[..i] + s'[i..] && s'[..i] == s[..i] && s'[i + 1..] == s[i + 1..];
    }
  }

  lemma {:induction false} RemoveValue<K(!new), V>(ks: Keys<K>, s: seq<(K, V)>, k: K, i: nat, k': K)
    requires ks.Lawful() && IsFirst(ks, s, k, i)
    ensures ks.eq(k, k') ==> Values(ks, s, k') != []
    ensures Values(ks, s[..i] + s[i + 1..], k') == if ks.eq(k, k') then Tail(Values(ks, s, k')) else Values(ks, s, k')
  {
    hide Values;
    var pre, post := s[..i], s[i + 1..];
    ValuesConcat(ks, pre, post, k');
    if ks.eq(k, k') {
      assert IsFirst(ks, s, k', i);
      FirstValue(ks, s, k', i);
      ValuesElsewhere(ks, pre, k');
    } else {
      ValuesStep(ks, s, i, k');
      ValuesConcat(ks, pre, s[i..], k');
      assert s == pre + s[i..];
    }
  }

  function Pushed<K(!new), V>(ks: Keys<K>, bits: nat, m: Chains<K, V>, k: K, v: V): Chains<K, V>
    requires bits <= 64 && |m| == Pow2(bits)
  {
    var b := Bucket(ks, bits, k);
    m[b := [(k, v)] + m[b]]
  }

  lemma PlacedSize<K(!new), V>(ks: Keys<K>, bits: nat, m: Chains<K, V>)
    requires Placed(ks, bits, m)
    ensures bits <= 64 && |m| == Pow2(bits)
  {
  }

  /** The three ways of changing the chain of key k, seen from any key. */
  lemma PushKey<K(!new), V>(ks: Keys<K>, bits: nat, m: Chains<K, V>, k: K, v: V, k': K)
    requires ks.Lawful() && Placed(ks, bits, m)
    ensures var m' := Pushed(ks, bits, m, k, v);
      Placed(ks, bits, m') && KeyValues(ks, bits, m', k') == (if ks.eq(k, k') then [v] else []) + KeyValues(ks, bits, m, k')
  {
    hide Values, Bucket, Placed, Keys.Lawful;
    PlacedSize(ks, bits, m);
    var b := Bucket(ks, bits, k);
    PushPlaced(ks, bits, m, k, v);
    if ks.eq(k, k') { SameBucket(ks, bits, k, k'); }
    PushValues(ks, m[b], k, v, k');
  }

  lemma PushPlaced<K(!new), V>(ks: Keys<K>, bits: nat, m: Chains<K, V>, k: K, v: V)
    requires Placed(ks, bits, m)
    ensures Placed(ks, bits, Pushed(ks, bits, m, k, v))
  {
    hide Bucket;
    var m' := Pushed(ks, bits, m, k, v);
    assert forall b, i :: 0 <= b < |m'| && 0 < i < |m'[b]| && b == Bucket(ks, bits, k) ==> m'[b][i] == m[b][i - 1];
  }

  lemma PushValues<K(!new), V>(ks: Keys<K>, s: seq<(K, V)>, k: K, v: V, k': K)
    ensures Values(ks, [(k, v)] + s, k') == (if ks.eq(k, k') then [v] else []) + Values(ks, s, k')
  {
    assert ([(k, v)] + s)[1..] == s;
  }

  lemma ReplaceKey<K(!new), V>(ks: Keys<K>, bits: nat, m: Chains<K, V>, k: K, v: V, i: nat, k': K)
    requires ks.Lawful() && Placed(ks, bits, m) && IsFirst(ks, m[Bucket(ks, bits, k)], k, i)
    ensures var b := Bucket(ks, bits, k); var m' := m[b := m[b][i := (k, v)]];
      Placed(ks, bits, m') && (ks.eq(k, k') ==> KeyValues(ks, bits, m, k') != []) &&
      KeyValues(ks, bits, m', k') == if ks.eq(k, k') then [v] + Tail(KeyValues(ks, bits, m, k')) else KeyValues(ks, bits, m, k')
  {
    if ks.eq(k, k') { SameBucket(ks, bits, k, k'); }
    ReplaceValue(ks, m[Bucket(ks, bits, k)], k, v, i, k');
  }

  lemma RemoveKey<K(!new), V>(ks: Keys<K>, bits: nat, m: Chains<K, V>, k: K, i: nat, k': K)
    requires ks.Lawful() && Placed(ks, bits, m) && IsFirst(ks, m[Bucket(ks, bits, k)], k, i)
    ensures var b := Bucket(ks, bits, k); var m' := m[b := m[b][..i] + m[b][i + 1..]];
      Placed(ks, bits, m') && (ks.eq(k, k') ==> KeyValues(ks, bits, m, k') != []) &&
      KeyValues(ks, bits, m', k') == if ks.eq(k, k') then Tail(KeyValues(ks, bits, m, k')) else KeyValues(ks, bits, m, k')
  {
    if ks.eq(k, k') { SameBucket(ks, bits, k, k'); }
    RemoveValue(ks, m[Bucket(ks, bits, k)], k, i, k');
  }

  /** Growth, also of the table that has no buckets yet. */
  lemma GrownKey<K(!new), V>(ks: Keys<K>, bits: nat, m: Chains<K, V>, bits': nat, k: K)
    requires ks.Lawful() && bits <= 64 && bits' <= 64 && (m == [] || Placed(ks, bits, m))
    ensures KeyValues(ks, bits', Rehash(ks, bits', Flatten(m)), k) == Reverse(KeyValues(ks, bits, m, k))
  {
    if m == [] {
      assert Flatten(m) == [];
      assert Reverse<V>([]) == [];
    } else {
      RehashReverses(ks, bits, m, bits', k);
    }
  }

  // The table as a multimap from keys to values ---------------------------------------------

  /** The values of a key after the table has grown or not. */
  function After<T>(was: seq<T>, grown: bool): seq<T> {
    if grown then Reverse(was) else was
  }

  /** Every key keeps its values; growth turns their order round. */
  ghost predicate ValuesKept<K(!new), V>(ks: Keys<K>, bits: nat, m: Chains<K, V>, bits': nat, m': Chains<K, V>) {
    bits <= 64 && bits' <= 64 &&
    forall k' :: KeyValues(ks, bits', m', k') == After(KeyValues(ks, bits, m, k'), bits != bits')
  }

  /** Key k has got one more value, in front. */
  ghost predicate ValueAdded<K(!new), V>(ks: Keys<K>, bits: nat, m: Chains<K, V>, bits': nat, m': Chains<K, V>, k: K, v: V) {
    bits <= 64 && bits' <= 64 &&
    forall k' :: KeyValues(ks, bits', m', k') == (if ks.eq(k, k') then [v] else []) + After(KeyValues(ks, bits, m, k'), bits != bits')
  }

  /** The value of k that a search finds has become v. */
  ghost predicate ValueReplaced<K(!new), V>(ks: Keys<K>, bits: nat, m: Chains<K, V>, m': Chains<K, V>, k: K, v: V) {
    bits <= 64 &&
    forall k' :: KeyValues(ks, bits, m', k') ==
      if ks.eq(k, k') then [v] + Tail(KeyValues(ks, bits, m, k')) else KeyValues(ks, bits, m, k')
  }

  /** The value of k that a search finds has gone. */
  ghost predicate ValueRemoved<K(!new), V>(ks: Keys<K>, bits: nat, m: Chains<K, V>, m': Chains<K, V>, k: K) {
    bits <= 64 &&
    forall k' :: KeyValues(ks, bits, m', k') == if ks.eq(k, k') then Tail(KeyValues(ks, bits, m, k')) else KeyValues(ks, bits, m, k')
  }

  lemma NothingChanged<K(!new), V>(ks: Keys<K>, bits: nat, m: Chains<K, V>)
    requires bits <= 64
    ensures ValuesKept(ks, bits, m, bits, m)
  {
  }

  lemma PushAddsValue<K(!new), V>(ks: Keys<K>, bits: nat, m: Chains<K, V>, k: K, v: V)
    requires ks.Lawful() && Placed(ks, bits, m)
    ensures |m| == Pow2(bits) && ValueAdded(ks, bits, m, bits, Pushed(ks, bits, m, k, v), k, v)
  {
    forall k' ensures KeyValues(ks, bits, Pushed(ks, bits, m, k, v), k') == (if ks.eq(k, k') then [v] else []) + KeyValues(ks, bits, m, k') {
      PushKey(ks, bits, m, k, v, k');
    }
  }

  lemma GrowthKeepsValues<K(!new), V>(ks: Keys<K>, bits: nat, m: Chains<K, V>, bits': nat)
    requires ks.Lawful() && bits <= 64 && bits' <= 64 && bits != bits' && (m == [] || Placed(ks, bits, m))
    ensures ValuesKept(ks, bits, m, bits', Rehash(ks, bits', Flatten(m)))
  {
    forall k' ensures KeyValues(ks, bits', Rehash(ks, bits', Flatten(m)), k') == Reverse(KeyValues(ks, bits, m, k')) {
      GrownKey(ks, bits, m, bits', k');
    }
  }

  lemma ReplaceReplacesValue<K(!new), V>(ks: Keys<K>, bits: nat, m: Chains<K, V>, k: K, v: V, i: nat)
    requires ks.Lawful() && Placed(ks, bits, m) && IsFirst(ks, m[Bucket(ks, bits, k)], k, i)
    ensures ValueReplaced(ks, bits, m, m[Bucket(ks, bits, k) := m[Bucket(ks, bits, k)][i := (k, v)]], k, v)
  {
    forall k' ensures KeyValues(ks, bits, m[Bucket(ks, bits, k) := m[Bucket(ks, bits, k)][i := (k, v)]], k') ==
      if ks.eq(k, k') then [v] + Tail(KeyValues(ks, bits, m, k')) else KeyValues(ks, bits, m, k')
    {
      ReplaceKey(ks, bits, m, k, v, i, k');
    }
  }

  lemma RemoveRemovesValue<K(!new), V>(ks: Keys<K>, bits: nat, m: Chains<K, V>, k: K, i: nat)
    requires ks.Lawful() && Placed(ks, bits, m) && IsFirst(ks, m[Bucket(ks, bits, k)], k, i)
    ensures var b := Bucket(ks, bits, k); ValueRemoved(ks, bits, m, m[b := m[b][..i] + m[b][i + 1..]], k)
  {
    var b := Bucket(ks, bits, k);
    forall k' ensures KeyValues(ks, bits, m[b := m[b][..i] + m[b][i + 1..]], k') ==
      if ks.eq(k, k') then Tail(KeyValues(ks, bits, m, k')) else KeyValues(ks, bits, m, k')
    {
      RemoveKey(ks, bits, m, k, i, k');
    }
  }

  /** Growth and then an addition, seen as one step. */
  lemma GrowThenAdd<K(!new), V>(ks: Keys<K>, bits: nat, m: Chains<K, V>, bits': nat, m1: Chains<K, V>, m2: Chains<K, V>, k: K, v: V)
    requires ValuesKept(ks, bits, m, bits', m1) && ValueAdded(ks, bits', m1, bits', m2, k, v)
    ensures ValueAdded(ks, bits, m, bits', m2, k, v)
  {
  }

  // The table as a map, when nothing is appended ---------------------------------------------

  /** No key has two values. */
  ghost predicate IsMap<K(!new), V>(ks: Keys<K>, bits: nat, m: Chains<K, V>) {
    bits <= 64 && forall k :: |KeyValues(ks, bits, m, k)| <= 1
  }

  /** For a map, adding a new key or replacing its value is plain update: the order cannot matter. */
  lemma MapUpdate<K(!new), V>(ks: Keys<K>, bits: nat, m: Chains<K, V>, bits': nat, m': Chains<K, V>, k: K, v: V)
    requires ks.Lawful() && IsMap(ks, bits, m)
    requires (KeyValues(ks, bits, m, k) == [] && ValueAdded(ks, bits, m, bits', m', k, v)) || (bits == bits' && ValueReplaced(ks, bits, m, m', k, v))
    ensures IsMap(ks, bits', m')
    ensures forall k' :: KeyValues(ks, bits', m', k') == if ks.eq(k, k') then [v] else KeyValues(ks, bits, m, k')
  {
    hide KeyValues, Reverse, Tail, Keys.Lawful;
    forall k' ensures KeyValues(ks, bits', m', k') == if ks.eq(k, k') then [v] else KeyValues(ks, bits, m, k') {
      OneOrNone(KeyValues(ks, bits, m, k'));
      if ks.eq(k, k') { EqualKeysShareValues(ks, bits, m, k, k'); }
    }
  }

  lemma OneOrNone<T>(s: seq<T>)
    ensures |s| <= 1 ==> Reverse(s) == s && Tail(s) == []
  {
  }

  lemma EqualKeysShareValues<K(!new), V>(ks: Keys<K>, bits: nat, m: Chains<K, V>, k: K, k': K)
    requires ks.Lawful() && bits <= 64 && ks.eq(k, k')
    ensures KeyValues(ks, bits, m, k) == KeyValues(ks, bits, m, k')
  {
    SameBucket(ks, bits, k, k');
    if Bucket(ks, bits, k) < |m| { EqualKeysAgree(ks, m[Bucket(ks, bits, k)], k, k'); }
  }

  lemma {:induction false} EqualKeysAgree<K(!new), V>(ks: Keys<K>, s: seq<(K, V)>, k: K, k': K)
    requires ks.Lawful() && ks.eq(k, k')
    ensures Values(ks, s, k) == Values(ks, s, k')
  {
    if s != [] {
      EqualKeysAgree(ks, s[1..], k, k');
    }
  }

  /** One growth brings the value visited last to the front: a search then finds the value it found
      before exactly if the first and the last value of the key are equal. */
  lemma GrowthForgetsRecency<K(!new), V>(ks: Keys<K>, bits: nat, m: Chains<K, V>, bits': nat, k: K)
    requires ks.Lawful() && bits' <= 64 && Placed(ks, bits, m) && KeyValues(ks, bits, m, k) != []
    ensures var was := KeyValues(ks, bits, m, k); var now := KeyValues(ks, bits', Rehash(ks, bits', Flatten(m)), k);
      now != [] && (now[0] == was[0] <==> was[0] == was[|was| - 1])
  {
    RehashReverses(ks, bits, m, bits', k);
  }
}
