/**
Scratch views over a shared arena (scripts/patch_exl3_mixk.py: _mixk_scratch_view): which bytes of the arena a
view of some shape and element size uses.
*/
module ScratchViews {
  import opened Options
  import opened MixedK

  /** A position in a buffer of this shape, one coordinate per dimension. */
  predicate IndexIn(shape: seq<nat>, at: seq<nat>) {
    |at| == |shape| && forall i :: 0 <= i < |shape| ==> at[i] < shape[i]
  }

  /** Row-major: the last dimension is contiguous. */
  function Offset(shape: seq<nat>, at: seq<nat>): nat
    requires |at| == |shape|
  {
    if shape == [] then 0
    else Offset(shape[..|shape| - 1], at[..|at| - 1]) * shape[|shape| - 1] + at[|at| - 1]
  }

  /** Byte b of the element at a position, counted from the start of the arena. */
  function Address(spec: Spec, at: seq<nat>, b: nat): nat
    requires |at| == |spec.shape|
  {
    Offset(spec.shape, at) * spec.element + b
  }

  lemma ProductGrows(a: nat, b: nat, d: nat)
    requires a <= b
    ensures a * d <= b * d
  {
  }

  lemma BelowProduct(q: nat, r: nat, p: nat, d: nat)
    requires q < p && r < d
    ensures q * d + r < p * d
  {
    ProductGrows(q + 1, p, d);
  }

  lemma SplitOnce(q: nat, r: nat, q': nat, r': nat, d: nat)
    requires r < d && r' < d && q * d + r == q' * d + r'
    ensures q == q' && r == r'
  {
    if q < q' {
      ProductGrows(q + 1, q', d);
    } else if q' < q {
      ProductGrows(q' + 1, q, d);
    }
  }

  lemma {:induction false} OffsetBelow(shape: seq<nat>, at: seq<nat>)
    requires IndexIn(shape, at)
    ensures Offset(shape, at) < Product(shape)
  {
    if shape != [] {
      var n := |shape| - 1;
      OffsetBelow(shape[..n], at[..n]);
      BelowProduct(Offset(shape[..n], at[..n]), at[n], Product(shape[..n]), shape[n]);
    }
  }

  lemma {:induction false} OffsetOnce(shape: seq<nat>, at: seq<nat>, at': seq<nat>)
    requires IndexIn(shape, at) && IndexIn(shape, at') && Offset(shape, at) == Offset(shape, at')
    ensures at == at'
  {
    if shape != [] {
      var n := |shape| - 1;
      SplitOnce(Offset(shape[..n], at[..n]), at[n], Offset(shape[..n], at'[..n]), at'[n], shape[n]);
      OffsetOnce(shape[..n], at[..n], at'[..n]);
      assert at == at[..n] + [at[n]] && at' == at'[..n] + [at'[n]];
    }
  }

  lemma NothingLess(o: nat, p: nat, d: nat)
    requires o < p * d
    ensures d > 0
  {
  }

  lemma {:induction false} OffsetReached(shape: seq<nat>, o: nat) returns (at: seq<nat>)
    requires o < Product(shape)
    ensures IndexIn(shape, at) && Offset(shape, at) == o
  {
    if shape == [] {
      at := [];
    } else {
      var n := |shape| - 1;
      var d := shape[n];
      NothingLess(o, Product(shape[..n]), d);
      QuotientBelow(o, Product(shape[..n]), d);
      var front := OffsetReached(shape[..n], o / d);
      at := front + [o % d];
      assert at[..n] == front;
    }
  }

  lemma QuotientBelow(o: nat, p: nat, d: nat)
    requires d > 0 && o < p * d
    ensures o / d < p && (o / d) * d + o % d == o && o % d < d
  {
    if o / d >= p {
      ProductGrows(p, o / d, d);
    }
  }

  /** Main result: the bytes of a view are exactly the first ByteSize bytes of the arena, each used by one byte of one
      element. */
  lemma ViewIsByteSize(spec: Spec, at: seq<nat>, b: nat, at': seq<nat>, b': nat)
    requires IndexIn(spec.shape, at) && b < spec.element && IndexIn(spec.shape, at') && b' < spec.element
    ensures Address(spec, at, b) < ByteSize(spec)
    ensures Address(spec, at, b) == Address(spec, at', b') ==> at == at' && b == b'
  {
    OffsetBelow(spec.shape, at);
    BelowProduct(Offset(spec.shape, at), b, Product(spec.shape), spec.element);
    if Address(spec, at, b) == Address(spec, at', b') {
      SplitOnce(Offset(spec.shape, at), b, Offset(spec.shape, at'), b', spec.element);
      OffsetOnce(spec.shape, at, at');
    }
  }

  lemma ViewHasNoGap(spec: Spec, x: nat) returns (at: seq<nat>, b: nat)
    requires x < ByteSize(spec)
    ensures IndexIn(spec.shape, at) && b < spec.element && Address(spec, at, b) == x
  {
    NothingLess(x, Product(spec.shape), spec.element);
    QuotientBelow(x, Product(spec.shape), spec.element);
    at := OffsetReached(spec.shape, x / spec.element);
    b := x % spec.element;
  }

  /** Every byte of every scratch view of a planned runtime lies inside the arena it shares. */
  lemma ViewsStayInArena(rt: Runtime, n: nat, i: nat, at: seq<nat>, b: nat)
    requires Planned(rt, n)
    ensures i < |rt.decode| && IndexIn(rt.decode[i].shape, at) && b < rt.decode[i].element ==>
              rt.decodeArena.Some? && Address(rt.decode[i], at, b) < rt.decodeArena.value
    ensures i < |rt.prefill| && IndexIn(rt.prefill[i].shape, at) && b < rt.prefill[i].element ==>
              rt.prefillArena.Some? && Address(rt.prefill[i], at, b) < rt.prefillArena.value
  {
    if i < |rt.decode| && IndexIn(rt.decode[i].shape, at) && b < rt.decode[i].element {
      ViewIsByteSize(rt.decode[i], at, b, at, b);
    }
    if i < |rt.prefill| && IndexIn(rt.prefill[i].shape, at) && b < rt.prefill[i].element {
      ViewIsByteSize(rt.prefill[i], at, b, at, b);
    }
  }
}
