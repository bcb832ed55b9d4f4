/** AF_XDP rings between an application and the kernel: free-running 32-bit counters over a
    power-of-two number of slots, one producer and one consumer taking steps in any order. */
module XskRing {

  import opened Words

  /** The slot of the x-th entry. */
  function Slot(x: nat, size: nat): (s: nat)
    requires size > 0
    ensures s < size
  {
    if x < size then x else Slot(x - size, size)
  }

  lemma {:induction false} SlotHalves(x: nat, p: nat)
    requires p > 0
    ensures Slot(x, 2 * p) == 2 * Slot(x / 2, p) + x % 2
  {
    if x >= 2 * p {
      SlotHalves(x - 2 * p, p);
      assert (x - 2 * p) / 2 == x / 2 - p;
    }
  }

  /** Masking with size - 1 picks the slot, for a size that is a power of two. */
  lemma {:induction false} MaskPicksSlot(x: nat, k: nat)
    ensures And(x, Pow2(k) - 1) == Slot(x, Pow2(k))
  {
    hide And, Slot;
    if k == 0 {
      AndStep(x, 0);
      assert Slot(x, 1) == 0;
    } else {
      var p := Pow2(k - 1);
      MaskPicksSlot(x / 2, k - 1);
      SlotHalves(x, p);
      HalfOfOnes(p);
      AndStep(x, 2 * p - 1);
    }
  }

  lemma {:induction false} SlotSkipsPow2(x: nat, k: nat, l: nat)
    requires k <= l && x >= Pow2(l)
    ensures Slot(x - Pow2(l), Pow2(k)) == Slot(x, Pow2(k))
    decreases l
  {
    if k < l {
      SlotSkipsPow2(x, k, l - 1);
      SlotSkipsPow2(x - Pow2(l - 1), k, l - 1);
    }
  }

  lemma {:induction false} SlotOfWrapped(x: nat, k: nat)
    requires k <= 32
    ensures Slot(U32(x), Pow2(k)) == Slot(x, Pow2(k))
  {
    hide U32, Pow2;
    U32Small(x);
    if x >= WORD32 {
      Word32IsPow2();
      SlotOfWrapped(x - WORD32, k);
      SlotSkipsPow2(x, k, 32);
    }
  }

  /** A wrapped counter, masked, still picks the slot of the true position. */
  lemma WrappedIndexPicksSlot(x: nat, k: nat)
    requires k <= 32
    ensures And(U32(x), Pow2(k) - 1) == Slot(x, Pow2(k))
  {
    MaskPicksSlot(U32(x), k);
    SlotOfWrapped(x, k);
  }

  /** Positions less than one ring size apart use different slots. */
  lemma {:induction false} SlotsDiffer(i: nat, j: nat, size: nat)
    requires size > 0 && i < j < i + size
    ensures Slot(i, size) != Slot(j, size)
  {
    if i >= size {
      SlotsDiffer(i - size, j - size, size);
    }
  }

  /** Ring sizes are powers of two that fit the counters. */
  ghost predicate IsRingSize(size: nat, bits: nat) {
    bits < 32 && size == Pow2(bits)
  }

  lemma RingSizeFits(size: nat, bits: nat)
    requires IsRingSize(size, bits)
    ensures 0 < size < WORD32
  {
    Word32IsPow2();
    Pow2Monotone(bits, 31);
  }

  /** One step of either side; the application's steps name how much they want. */
  datatype Step<T> = Reserve(nb: nat) | Write(k: nat, value: T) | Submit(nb: nat) | Kernel

  datatype ConsumerStep<T> = Peek(nb: nat) | Release(nb: nat) | KernelAdds(value: T)

  /** The fill and TX rings: the application produces, the kernel consumes. The ghost fields do not
      wrap: positions below `consumed` have been read by the kernel, those below |submitted| are
      visible to it, and |pending| more are reserved. `seen` is the consumer position that the
      application last looked at. */
  class ProducerRing<T(0)> {
    var cachedProd: nat
    var cachedCons: nat
    const mask: nat
    const size: nat
    var producer: nat           // shared with the kernel
    var consumer: nat           // shared with the kernel
    const ring: array<T>

    ghost const bits: nat
    ghost var submitted: seq<T>
    ghost var pending: seq<T>
    ghost var consumed: nat
    ghost var seen: nat

    ghost predicate Counters()
      reads this
    {
      IsRingSize(size, bits) && mask == size - 1 && ring.Length == size &&
      producer == U32(|submitted|) && consumer == U32(consumed) &&
      cachedProd == U32(|submitted| + |pending|) && cachedCons == U32(seen + size) &&
      seen <= consumed <= |submitted| && |submitted| + |pending| <= seen + size
    }

    /** Every entry that is not yet read is in its slot. */
    ghost predicate Valid()
      reads this, ring
    {
      Counters() &&
      forall i: nat :: consumed <= i < |submitted| + |pending| ==> ring[Slot(i, size)] == (submitted + pending)[i]
    }

    constructor (size: nat, ghost bits: nat)
      requires IsRingSize(size, bits)
      ensures Valid() && submitted == [] && pending == [] && consumed == 0 && this.size == size && fresh(ring)
    {
      this.size, mask, this.bits := size, size - 1, bits;
      ring := new T[size];
      cachedProd, cachedCons, producer, consumer := 0, size, 0, 0;
      submitted, pending, consumed, seen := [], [], 0, 0;
      new;
      RingSizeFits(size, bits);
    }

    /** The number of slots known to be free; looks at the kernel's counter only when in need. */
    method NbFree(nb: nat) returns (free: nat)
      requires Valid()
      modifies this`cachedCons, this`seen
      ensures Valid() && free == seen + size - |submitted| - |pending|
      ensures free < U32(nb) ==> seen == consumed
    {
      hide U32, Pow2;
      RingSizeFits(size, bits);
      WrappedDifference(seen + size, |submitted| + |pending|);
      free := U32(cachedCons - cachedProd);
      if free >= U32(nb) { return; }
      WrappedSum(consumed, size);
      WrappedDifference(consumed + size, |submitted| + |pending|);
      cachedCons := U32(consumer + size);
      seen := consumed;
      free := U32(cachedCons - cachedProd);
    }

    /** Grants nb slots, or none when there is not enough room. What is granted lies within one
        ring size of what the kernel has still to read, so it overwrites none of it. */
    method Reserve(nb: nat) returns (n: nat, idx: nat)
      requires Valid()
      modifies this
      ensures Valid() && submitted == old(submitted) && consumed == old(consumed)
      ensures n == if old(|submitted| + |pending|) + nb <= consumed + size then nb else 0
      ensures |pending| == |old(pending)| + n && pending[..|old(pending)|] == old(pending)
      ensures n > 0 ==> idx == U32(|submitted| + |old(pending)|)
    {
      hide U32, Pow2, Slot;
      RingSizeFits(size, bits);
      U32Small(nb);
      var free := NbFree(nb);
      if free < nb {
        return 0, 0;
      }
      idx := cachedProd;
      WrappedSum(|submitted| + |pending|, nb);
      cachedProd := U32(cachedProd + nb);
      ghost var first, was := |submitted| + |pending|, pending;
      ghost var granted := seq(nb, i requires 0 <= i < nb reads this, ring requires ring.Length == size > 0 => ring[Slot(first + i, size)]);
      pending := pending + granted;
      forall i: nat | consumed <= i < first + nb ensures ring[Slot(i, size)] == (submitted + pending)[i] {
        if i < first {
          assert (submitted + pending)[i] == (submitted + was)[i];
        } else {
          assert (submitted + pending)[i] == granted[i - first];
        }
      }
      return nb, idx;
    }

    /** Writes a reserved slot through the index that Reserve gave out. */
    method Write(idx: nat, ghost k: nat, value: T)
      requires Valid() && k < |pending| && idx == U32(|submitted| + k)
      modifies ring, this`pending
      ensures Valid() && pending == old(pending)[k := value]
    {
      hide U32, Pow2, Slot, And;
      WrappedIndexPicksSlot(|submitted| + k, bits);
      ring[And(idx, mask)] := value;
      ghost var was := submitted + pending;
      pending := pending[k := value];
      forall i: nat | consumed <= i < |submitted| + |pending| ensures ring[Slot(i, size)] == (submitted + pending)[i] {
        if i < |submitted| + k { SlotsDiffer(i, |submitted| + k, size); }
        if |submitted| + k < i { SlotsDiffer(|submitted| + k, i, size); }
      }
    }

    /** Makes the next nb reserved entries visible. */
    method Submit(nb: nat)
      requires Valid() && nb <= |pending|
      modifies this
      ensures Valid() && consumed == old(consumed)
      ensures submitted == old(submitted) + old(pending)[..nb] && pending == old(pending)[nb..]
    {
      hide U32, Pow2;
      WrappedSum(|submitted|, nb);
      producer := U32(producer + nb);
      assert submitted + pending == (submitted + pending[..nb]) + pending[nb..];
      submitted, pending := submitted + pending[..nb], pending[nb..];
    }

    /** A kernel step: takes the next entry, if there is one. */
    method KernelConsume() returns (ok: bool, value: T)
      requires Valid()
      modifies this`consumer, this`consumed
      ensures Valid() && ok == (old(consumed) < |submitted|)
      ensures consumed == old(consumed) + if ok then 1 else 0
      ensures ok ==> value == submitted[old(consumed)]
    {
      hide U32, Pow2;
      RingSizeFits(size, bits);
      WrappedDifference(|submitted|, consumed);
      ok := U32(producer - consumer) != 0;
      value := ring[0];
      if ok {
        WrappedIndexPicksSlot(consumed, bits);
        value := ring[And(consumer, mask)];
        WrappedSum(consumed, 1);
        consumer := U32(consumer + 1);
        consumed := consumed + 1;
      }
    }

    /** Any run: whatever the order of the steps, the kernel receives the submitted entries in
        order. Steps that break the application's side of the contract are not taken. */
    method Run(steps: seq<Step<T>>) returns (received: seq<T>)
      requires Valid() && submitted == pending == [] && consumed == 0
      modifies this, ring
      ensures Valid() && received == submitted[..consumed]
      ensures |submitted| <= consumed + size
    {
      hide U32;
      received := [];
      var outstanding := 0;
      for i := 0 to |steps|
        invariant Valid() && outstanding == |pending|
        invariant received == submitted[..consumed]
      {
        ghost var was := submitted;
        match steps[i] {
          case Reserve(nb) =>
            var n, _ := this.Reserve(nb);
            outstanding := outstanding + n;
          case Write(k, value) =>
            if k < outstanding {
              WrappedSum(|submitted|, k);
              this.Write(U32(producer + k), k, value);
            }
          case Submit(nb) =>
            if nb <= outstanding {
              this.Submit(nb);
              outstanding := outstanding - nb;
              assert submitted[..|was|] == was;
            }
          case Kernel =>
            var ok, value := KernelConsume();
            if ok {
              received := received + [value];
            }
        }
      }
    }
  }

  /** The completion and RX rings: the kernel produces, the application consumes. Positions below
      `released` are free again, those below `peeked` are in the application's hands, and `seen` is
      the producer position that the application last looked at. */
  class ConsumerRing<T(0)> {
    var cachedProd: nat
    var cachedCons: nat
    const mask: nat
    const size: nat
    var producer: nat           // shared with the kernel
    var consumer: nat           // shared with the kernel
    const ring: array<T>

    ghost const bits: nat
    ghost var produced: seq<T>
    ghost var released: nat
    ghost var peeked: nat
    ghost var seen: nat

    ghost predicate Valid()
      reads this, ring
    {
      IsRingSize(size, bits) && mask == size - 1 && ring.Length == size &&
      producer == U32(|produced|) && consumer == U32(released) &&
      cachedProd == U32(seen) && cachedCons == U32(peeked) &&
      released <= peeked <= seen <= |produced| <= released + size &&
      forall i: nat :: released <= i < |produced| ==> ring[Slot(i, size)] == produced[i]
    }

    constructor (size: nat, ghost bits: nat)
      requires IsRingSize(size, bits)
      ensures Valid() && produced == [] && released == peeked == 0 && this.size == size && fresh(ring)
    {
      this.size, mask, this.bits := size, size - 1, bits;
      ring := new T[size];
      cachedProd, cachedCons, producer, consumer := 0, 0, 0, 0;
      produced, released, peeked, seen := [], 0, 0, 0;
    }

    method NbAvail(nb: nat) returns (n: nat)
      requires Valid()
      modifies this`cachedProd, this`seen
      ensures Valid() && n == (if seen - peeked > U32(nb) then U32(nb) else seen - peeked)
      ensures seen == if old(seen) == peeked then |produced| else old(seen)
    {
      hide U32, Pow2;
      RingSizeFits(size, bits);
      WrappedDifference(seen, peeked);
      var entries := U32(cachedProd - cachedCons);
      if entries == 0 {
        WrappedDifference(|produced|, peeked);
        cachedProd := producer;
        seen := |produced|;
        entries := U32(cachedProd - cachedCons);
      }
      n := if entries > U32(nb) then U32(nb) else entries;
    }

    /** Hands out up to nb entries that follow those handed out before. The count is taken modulo
        2^32; with a nonzero one, nothing comes back only when the ring is empty. */
    method Peek(nb: nat) returns (n: nat, idx: nat)
      requires Valid()
      modifies this
      ensures Valid() && produced == old(produced) && released == old(released)
      ensures seen == if old(seen) == old(peeked) then |produced| else old(seen)
      ensures n == if seen - old(peeked) > U32(nb) then U32(nb) else seen - old(peeked)
      ensures peeked == old(peeked) + n <= |produced| && n <= nb
      ensures n == 0 ==> U32(nb) == 0 || old(peeked) == |produced|
      ensures n > 0 ==> idx == U32(old(peeked))
    {
      hide U32, Pow2;
      U32Small(nb);
      n := NbAvail(nb);
      idx := 0;
      if n > 0 {
        idx := cachedCons;
        WrappedSum(peeked, n);
        cachedCons := U32(cachedCons + n);
        peeked := peeked + n;
      }
    }

    /** Reads an entry in the application's hands: always the one the kernel produced there. */
    method Read(idx: nat, ghost i: nat) returns (value: T)
      requires Valid() && released <= i < peeked && idx == U32(i)
      ensures value == produced[i]
    {
      hide U32, Pow2;
      WrappedIndexPicksSlot(i, bits);
      value := ring[And(idx, mask)];
    }

    method Release(nb: nat)
      requires Valid() && nb <= peeked - released
      modifies this
      ensures Valid() && produced == old(produced) && peeked == old(peeked)
      ensures released == old(released) + nb
    {
      hide U32, Pow2;
      WrappedSum(released, nb);
      consumer := U32(consumer + nb);
      released := released + nb;
    }

    /** A kernel step: adds an entry unless the ring is full. */
    method KernelProduce(value: T) returns (ok: bool)
      requires Valid()
      modifies ring, this`producer, this`produced
      ensures Valid() && ok == (|old(produced)| < released + size)
      ensures produced == old(produced) + if ok then [value] else []
    {
      hide U32, Pow2;
      RingSizeFits(size, bits);
      WrappedDifference(|produced|, released);
      ok := U32(producer - consumer) != size;
      if ok { Add(value); }
    }

    /** Writes behind the last entry. No slot that is in use is hit, as there are fewer than `size`. */
    method Add(value: T)
      requires Valid() && |produced| < released + size
      modifies ring, this`producer, this`produced
      ensures Valid() && produced == old(produced) + [value]
    {
      hide U32, Pow2, Slot, And;
      ghost var n := |produced|;
      WrappedIndexPicksSlot(n, bits);
      WrappedSum(n, 1);
      forall i: nat | released <= i < n ensures Slot(i, size) != Slot(n, size) {
        SlotsDiffer(i, n, size);
      }
      ring[And(producer, mask)] := value;
      producer := U32(producer + 1);
      produced := produced + [value];
    }

    /** Any run: the application's hands are given the produced entries in order, each once. */
    method Run(steps: seq<ConsumerStep<T>>) returns (received: seq<T>)
      requires Valid() && produced == [] && peeked == released == 0
      modifies this, ring
      ensures Valid() && received == produced[..peeked]
      ensures |produced| <= released + size
    {
      hide U32;
      received := [];
      var held := 0;
      for i := 0 to |steps|
        invariant Valid() && held == peeked - released
        invariant received == produced[..peeked]
      {
        match steps[i] {
          case Peek(nb) =>
            ghost var first, free := peeked, released;
            var n, idx := this.Peek(nb);
            for k := 0 to n
              invariant Valid() && released == free && peeked == first + n && received == produced[..first + k]
            {
              WrappedSum(first, k);
              var value := Read(U32(idx + k), first + k);
              received := received + [value];
            }
            held := held + n;
          case Release(nb) =>
            if nb <= held {
              this.Release(nb);
              held := held - nb;
            }
          case KernelAdds(value) =>
            ghost var was := produced;
            var ok := KernelProduce(value);
            assert produced[..peeked] == was[..peeked];
        }
      }
    }
  }
}
