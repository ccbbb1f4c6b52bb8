/** The size audit that closes a GGUF parse: four bytes per element, checked in 64 bits. */
module GgufAudit {
  import opened Machine
  import opened Products
  import opened GgufFormat

  datatype TensorInfo = TensorInfo(
    name: seq<byte>, nDimensions: nat, dimensions: seq<u64>, kind: nat, offset: nat, calculatedBytes: u64)

  /** A descriptor as parse pushes it, before the audit. */
  function Unaudited(d: Desc): TensorInfo {
    TensorInfo(d.name, |d.dims|, d.dims, d.kind, d.offset, 0)
  }

  function Unauditeds(ds: seq<Desc>): seq<TensorInfo> {
    seq(|ds|, i requires 0 <= i < |ds| => Unaudited(ds[i]))
  }

  ghost predicate SizeOk(dims: seq<u64>) {
    PrefixesFit(dims) && 4 * Product(dims) <= MAX64
  }

  /** The first n tensors fit and carry their byte size; nothing else differs. */
  ghost predicate AuditedTo(before: seq<TensorInfo>, after: seq<TensorInfo>, n: nat) {
    && n <= |before| == |after|
    && (forall i :: 0 <= i < n ==>
         SizeOk(before[i].dimensions) && after[i] == before[i].(calculatedBytes := 4 * Product(before[i].dimensions)))
    && (forall i :: n <= i < |before| ==> after[i] == before[i])
  }

  /** What validate_tensor_metadata does to the tensor list: it fills in sizes up to the first
      tensor that overflows. */
  ghost predicate Audits(before: seq<TensorInfo>, after: seq<TensorInfo>, status: Status) {
    || (status == Success && AuditedTo(before, after, |before|))
    || (status == ErrIntegerOverflow &&
        exists n :: 0 <= n < |before| && AuditedTo(before, after, n) && !SizeOk(before[n].dimensions))
  }

  /** The descriptor a stored tensor shows. */
  function Described(t: TensorInfo): Desc {
    Desc(t.name, t.dimensions, t.kind, t.offset)
  }

  function Descriptions(ts: seq<TensorInfo>): seq<Desc> {
    seq(|ts|, i requires 0 <= i < |ts| => Described(ts[i]))
  }

  /** The stored tensors show the descriptors read, one by one, whatever the audit said; after
      success each carries its true size. */
  ghost predicate Shows(ts: seq<TensorInfo>, ds: seq<Desc>) {
    && |ts| == |ds|
    && forall i :: 0 <= i < |ts| ==>
         && ts[i].name == ds[i].name && ts[i].nDimensions == |ds[i].dims| && ts[i].dimensions == ds[i].dims
         && ts[i].kind == ds[i].kind && ts[i].offset == ds[i].offset
  }

  ghost predicate Sized(ts: seq<TensorInfo>) {
    forall i :: 0 <= i < |ts| ==> ts[i].calculatedBytes == 4 * Product(ts[i].dimensions)
  }

  /** So do the tensors before the audit, still without sizes. */
  lemma UnauditedShows(ds: seq<Desc>)
    ensures Shows(Unauditeds(ds), ds)
    ensures forall i :: 0 <= i < |ds| ==> Unauditeds(ds)[i].calculatedBytes == 0
  {
  }

  lemma AuditShows(ds: seq<Desc>, ts: seq<TensorInfo>, st: Status)
    requires Audits(Unauditeds(ds), ts, st)
    ensures Shows(ts, ds) && Descriptions(ts) == ds
    ensures st in {Success, ErrIntegerOverflow} && (st == Success ==> Sized(ts))
  {
    hide PrefixesFit, Product;
    forall i | 0 <= i < |ts| ensures ts[i].nDimensions == |ds[i].dims| && Described(ts[i]) == ds[i] {
      assert Unauditeds(ds)[i].nDimensions == |ds[i].dims| && Described(Unauditeds(ds)[i]) == ds[i];
    }
  }

  /** Success exactly when every partial product and every byte size of every tensor is at most
      2^64 - 1; the audit has one possible outcome. */
  lemma AuditExact(before: seq<TensorInfo>, a: seq<TensorInfo>, st: Status, b: seq<TensorInfo>, su: Status)
    requires Audits(before, a, st) && Audits(before, b, su)
    ensures st == Success <==> forall i :: 0 <= i < |before| ==> SizeOk(before[i].dimensions)
    ensures st == su && a == b && st in {Success, ErrIntegerOverflow}
  {
    if st == ErrIntegerOverflow && su == ErrIntegerOverflow {
      var n :| 0 <= n < |before| && AuditedTo(before, a, n) && !SizeOk(before[n].dimensions);
      var m :| 0 <= m < |before| && AuditedTo(before, b, m) && !SizeOk(before[m].dimensions);
      assert n == m;
    }
  }

  /** Auditing again after success changes nothing. */
  lemma AuditTwice(ts: seq<TensorInfo>, us: seq<TensorInfo>, vs: seq<TensorInfo>, st: Status)
    requires Audits(ts, us, Success) && Audits(us, vs, st)
    ensures st == Success && vs == us
  {
    forall i | 0 <= i < |us| ensures SizeOk(us[i].dimensions) {
      assert SizeOk(ts[i].dimensions);
    }
  }

  /** For non-zero dimensions the verdict is that of the full product, so their order is
      irrelevant. */
  lemma OrderIrrelevant(a: seq<u64>, b: seq<u64>)
    requires multiset(a) == multiset(b)
    requires forall i :: 0 <= i < |a| ==> 0 < a[i]
    ensures SizeOk(a) <==> 4 * Product(a) <= MAX64
    ensures SizeOk(a) <==> SizeOk(b)
  {
    forall i | 0 <= i < |b| ensures 0 < b[i] {
      assert b[i] in multiset(a);
    }
    PositivePrefixesFit(a);
    PositivePrefixesFit(b);
    ProductPermuted(a, b);
  }

  /** The dimensions without the zeros, and the zeros. */
  function NonZero(ds: seq<u64>): seq<u64> {
    if ds == [] then [] else NonZero(ds[..|ds| - 1]) + (if ds[|ds| - 1] == 0 then [] else [ds[|ds| - 1]])
  }

  function Zeros(ds: seq<u64>): seq<u64> {
    if ds == [] then [] else Zeros(ds[..|ds| - 1]) + (if ds[|ds| - 1] == 0 then [0] else [])
  }

  lemma {:induction false} Separated(ds: seq<u64>)
    ensures multiset(NonZero(ds)) + multiset(Zeros(ds)) == multiset(ds)
  {
    if ds != [] {
      var init, last := ds[..|ds| - 1], ds[|ds| - 1];
      assert ds == init + [last];
      Separated(init);
    }
  }

  lemma {:induction false} OnlyZeros(ds: seq<u64>)
    ensures forall x :: x in Zeros(ds) ==> x == 0
    ensures 0 in ds ==> Zeros(ds) != []
  {
    if ds != [] {
      OnlyZeros(ds[..|ds| - 1]);
    }
  }

  lemma CountedNonZero(a: seq<u64>, b: seq<u64>)
    requires multiset(a) == multiset(b)
    ensures multiset(NonZero(a)) == multiset(NonZero(b))
  {
    forall x: u64 ensures multiset(NonZero(a))[x] == multiset(NonZero(b))[x] {
      NonZeroCount(a, x);
      NonZeroCount(b, x);
    }
  }

  lemma {:induction false} NonZeroCount(ds: seq<u64>, x: u64)
    ensures multiset(NonZero(ds))[x] == if x == 0 then 0 else multiset(ds)[x]
  {
    if ds != [] {
      var init, last := ds[..|ds| - 1], ds[|ds| - 1];
      assert ds == init + [last];
      NonZeroCount(init, x);
    }
  }

  /** No partial product exceeds the product of the non-zero dimensions. */
  lemma {:induction false} PrefixBelowNonZero(ds: seq<u64>, i: nat)
    requires i <= |ds|
    ensures Product(ds[..i]) <= Product(NonZero(ds[..i])) <= Product(NonZero(ds))
    decreases |ds|
  {
    if i < |ds| {
      var init, last := ds[..|ds| - 1], ds[|ds| - 1];
      assert init[..i] == ds[..i];
      PrefixBelowNonZero(init, i);
      StepNonZero(init, last);
    } else if ds != [] {
      var init, last := ds[..i - 1], ds[i - 1];
      assert ds[..i] == ds && init[..i - 1] == init;
      PrefixBelowNonZero(init, i - 1);
      StepNonZero(init, last);
      assert Product(ds) == Product(init) * last;
      Scaled(Product(init), Product(NonZero(init)), last);
    }
  }

  lemma Scaled(a: nat, b: nat, c: nat)
    requires a <= b
    ensures a * c <= b * c
  {
  }

  lemma StepNonZero(init: seq<u64>, last: u64)
    ensures Product(NonZero(init + [last])) == Product(NonZero(init)) * (if last == 0 then 1 else last)
    ensures Product(NonZero(init)) <= Product(NonZero(init + [last]))
  {
    assert (init + [last])[..|init|] == init;
    if last == 0 {
      assert NonZero(init) + [] == NonZero(init);
    } else {
      ProductSnoc(NonZero(init), last);
      FactorBelow(Product(NonZero(init)), last);
    }
  }

  lemma {:induction false} ZeroProduct(ds: seq<u64>)
    requires 0 in ds
    ensures Product(ds) == 0
  {
    var init, last := ds[..|ds| - 1], ds[|ds| - 1];
    if last != 0 {
      assert ds == init + [last];
      ZeroProduct(init);
    }
  }

  /** A list with a zero whose other dimensions fit together is accepted in every order. */
  lemma FitsInEveryOrder(a: seq<u64>, b: seq<u64>)
    requires multiset(a) == multiset(b) && 0 in a && Product(NonZero(a)) <= MAX64
    ensures SizeOk(b)
  {
    CountedNonZero(a, b);
    ProductPermuted(NonZero(a), NonZero(b));
    assert 0 in multiset(a);
    ZeroProduct(b);
    forall i | 0 <= i <= |b| ensures Product(b[..i]) <= MAX64 {
      PrefixBelowNonZero(b, i);
    }
  }

  /** Zeros in front make every partial product zero. */
  lemma ZerosFirst(ds: seq<u64>)
    requires 0 in ds
    ensures SizeOk(Zeros(ds) + NonZero(ds))
  {
    OnlyZeros(ds);
    var b := Zeros(ds) + NonZero(ds);
    assert Zeros(ds)[0] in Zeros(ds);
    assert b[0] == 0;
    ZeroProduct(b);
    forall i | 0 <= i <= |b| ensures Product(b[..i]) <= MAX64 {
      if 0 < i {
        assert b[..i][0] == 0;
        ZeroProduct(b[..i]);
      }
    }
  }

  /** Zeros behind leave the overflow of the others to be seen. */
  lemma ZerosLast(ds: seq<u64>)
    requires MAX64 < Product(NonZero(ds))
    ensures !SizeOk(NonZero(ds) + Zeros(ds))
  {
    var b := NonZero(ds) + Zeros(ds);
    assert b[..|NonZero(ds)|] == NonZero(ds);
  }

  /** The verdict is the same for every order of the dimensions exactly when none is zero or
      the non-zero ones fit together. */
  lemma OrderIrrelevantExactly(a: seq<u64>)
    ensures (forall b: seq<u64> :: multiset(b) == multiset(a) ==> (SizeOk(b) <==> SizeOk(a)))
       <==> 0 !in a || Product(NonZero(a)) <= MAX64
  {
    hide SizeOk, Product, NonZero, Zeros;
    if 0 !in a {
      forall b: seq<u64> | multiset(b) == multiset(a) ensures SizeOk(b) <==> SizeOk(a) {
        OrderIrrelevant(a, b);
      }
    } else if Product(NonZero(a)) <= MAX64 {
      forall b: seq<u64> | multiset(b) == multiset(a) ensures SizeOk(b) <==> SizeOk(a) {
        FitsInEveryOrder(a, b);
        FitsInEveryOrder(a, a);
      }
    } else {
      Separated(a);
      ZerosFirst(a);
      ZerosLast(a);
    }
  }

  /** With a zero dimension the order can matter: the same empty tensor is refused when the
      overflowing factors come first. */
  lemma ZeroDimensionOrderMatters()
    ensures var big: u64 := 0x8000_0000_0000_0000;
      multiset([big, big, 0]) == multiset([0, big, big]) && !SizeOk([big, big, 0]) && SizeOk([0, big, big])
  {
    var big: u64 := 0x8000_0000_0000_0000;
    var a, b := [big, big, 0], [0, big, big];
    assert a[..0] == b[..0] == [];
    ProductStep(a, 0);
    ProductStep(a, 1);
    assert Product(a[..2]) == big * big;
    ProductStep(b, 0);
    ProductStep(b, 1);
    ProductStep(b, 2);
    assert b[..3] == b;
    assert Product(b[..1]) == Product(b[..2]) == Product(b) == 0;
    forall i | 0 <= i <= |b| ensures Product(b[..i]) <= MAX64 {
      assert i == 0 || i == 1 || i == 2 || i == 3;
    }
  }
}
