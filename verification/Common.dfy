/** Error codes, as negative numbers. */
module Errors {
  const ENOENT: int := -2
  const E2BIG: int := -7
  const ENOMEM: int := -12
  const EEXIST: int := -17
  const EINVAL: int := -22
  const ELOOP: int := -40
  const ERELOC: int := -4006
}

module Options {
  datatype Option<+T> = None | Some(value: T)
}

/** Sequences of any kind. */
module Seqs {

  function Reverse<T>(s: seq<T>): (r: seq<T>)
    ensures |r| == |s| && forall i :: 0 <= i < |s| ==> r[i] == s[|s| - 1 - i]
  {
    if s == [] then [] else Reverse(s[1..]) + [s[0]]
  }

  lemma ReverseConcat<T>(x: seq<T>, y: seq<T>)
    ensures Reverse(x + y) == Reverse(y) + Reverse(x) && Reverse(Reverse(x)) == x
  {
    hide Reverse;
  }

  lemma {:induction false} ReverseMultiset<T>(s: seq<T>)
    ensures multiset(Reverse(s)) == multiset(s)
  {
    if s != [] {
      ReverseMultiset(s[1..]);
      assert s == [s[0]] + s[1..];
    }
  }

  lemma Associative<T>(a: seq<T>, b: seq<T>, c: seq<T>)
    ensures a + b + c == a + (b + c)
  {
  }

  function Flatten<T>(m: seq<seq<T>>): seq<T> {
    if m == [] then [] else m[0] + Flatten(m[1..])
  }

  lemma FlattenStep<T>(a: seq<seq<T>>)
    ensures a == [] ==> Flatten(a) == []
    ensures a != [] ==> Flatten(a) == a[0] + Flatten(a[1..])
  {
  }

  lemma {:induction false} FlattenConcat<T>(a: seq<seq<T>>, b: seq<seq<T>>)
    ensures Flatten(a + b) == Flatten(a) + Flatten(b)
  {
    hide Flatten;
    FlattenStep(a);
    if a == [] {
      assert a + b == b;
    } else {
      FlattenConcat(a[1..], b);
      FlattenStep(a + b);
      assert (a + b)[1..] == a[1..] + b;
      Associative(a[0], Flatten(a[1..]), Flatten(b));
    }
  }

  lemma FlattenSnoc<T>(m: seq<seq<T>>, b: nat)
    requires b < |m|
    ensures Flatten(m[..b + 1]) == Flatten(m[..b]) + m[b]
  {
    assert m[..b + 1] == m[..b] + [m[b]];
    FlattenConcat(m[..b], [m[b]]);
    assert Flatten([m[b]]) == m[b] + Flatten([m[b]][1..]) == m[b];
  }
}
