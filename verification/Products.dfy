/** Products of tensor dimensions under a 64-bit ceiling. */
module Products {
  import opened Machine

  function Product(ds: seq<u64>): nat {
    if ds == [] then 1 else Product(ds[..|ds| - 1]) * ds[|ds| - 1]
  }

  lemma FactorBelow(a: nat, b: int)
    requires 0 < b
    ensures a <= a * b
  {
  }

  /** A product below 2^64 does not wrap. */
  lemma MulExact(a: u64, b: u64)
    requires a * b < WORD
    ensures Mul64(a, b) == a * b
  {
  }

  /** Every partial product fits in 64 bits. */
  ghost predicate PrefixesFit(ds: seq<u64>) {
    forall i :: 0 <= i <= |ds| ==> Product(ds[..i]) <= MAX64
  }

  /** The division guard of the loops is an exact test of the next product. */
  lemma GuardIsExact(total: u64, d: u64)
    requires 0 < d
    ensures total > MAX64 / d <==> total * d > MAX64
  {
    var q := MAX64 / d;
    assert q * d <= MAX64 < (q + 1) * d;
    if total > q {
      assert (q + 1) * d <= total * d;
    } else {
      assert total * d <= q * d;
    }
  }

  lemma ProductStep(ds: seq<u64>, i: nat)
    requires i < |ds|
    ensures Product(ds[..i + 1]) == Product(ds[..i]) * ds[i]
  {
    assert ds[..i + 1][..i] == ds[..i];
  }

  lemma {:induction false} PrefixBelow(ds: seq<u64>, i: nat)
    requires i <= |ds| && forall j :: 0 <= j < |ds| ==> 0 < ds[j]
    ensures 0 < Product(ds[..i]) <= Product(ds)
    decreases |ds| - i
  {
    if i == |ds| {
      assert ds[..i] == ds;
      Positive(ds);
    } else {
      PrefixBelow(ds, i + 1);
      ProductStep(ds, i);
      Positive(ds[..i]);
      assert Product(ds[..i]) * ds[i] >= Product(ds[..i]);
    }
  }

  lemma {:induction false} Positive(ds: seq<u64>)
    requires forall j :: 0 <= j < |ds| ==> 0 < ds[j]
    ensures 0 < Product(ds)
  {
    if ds != [] {
      Positive(ds[..|ds| - 1]);
    }
  }

  /** With positive dimensions only the full product matters. */
  lemma PositivePrefixesFit(ds: seq<u64>)
    requires forall j :: 0 <= j < |ds| ==> 0 < ds[j]
    ensures PrefixesFit(ds) <==> Product(ds) <= MAX64
  {
    assert ds[..|ds|] == ds;
    forall i | 0 <= i <= |ds| ensures Product(ds[..i]) <= Product(ds) {
      PrefixBelow(ds, i);
    }
  }

  lemma Regroup(p: int, q: int, x: int, y: int)
    requires p == x * q
    ensures p * y == x * (q * y)
  {
  }

  lemma ProductSnoc(ds: seq<u64>, x: u64)
    ensures Product(ds + [x]) == Product(ds) * x
  {
    assert (ds + [x])[..|ds|] == ds;
  }

  lemma {:induction false} ProductInsert(a: seq<u64>, x: u64, b: seq<u64>)
    ensures Product(a + [x] + b) == x * Product(a + b)
    decreases |b|
  {
    hide Product;
    if b == [] {
      assert a + [x] + b == a + [x] && a + b == a;
      ProductSnoc(a, x);
    } else {
      var init, y := b[..|b| - 1], b[|b| - 1];
      assert a + [x] + b == (a + [x] + init) + [y] && a + b == (a + init) + [y];
      ProductInsert(a, x, init);
      ProductSnoc(a + [x] + init, y);
      ProductSnoc(a + init, y);
      Regroup(Product(a + [x] + init), Product(a + init), x, y);
    }
  }

  lemma TakeOut(a: seq<u64>, b: seq<u64>, x: u64, i: nat)
    requires i < |b| && b[i] == x && multiset(a + [x]) == multiset(b)
    ensures multiset(a) == multiset(b[..i] + b[i + 1..])
    ensures b == b[..i] + [x] + b[i + 1..]
  {
    var front, back := b[..i], b[i + 1..];
    assert b == front + [x] + back;
    assert multiset(b) == multiset(front + back) + multiset{x};
    assert multiset(a) == multiset(a + [x]) - multiset{x};
  }

  /** The product does not depend on the order of the dimensions. */
  lemma {:induction false} ProductPermuted(a: seq<u64>, b: seq<u64>)
    requires multiset(a) == multiset(b)
    ensures Product(a) == Product(b)
    decreases |a|
  {
    hide Product;
    if a == [] {
      assert |multiset(b)| == 0;
      assert b == [];
    } else {
      var init, x := a[..|a| - 1], a[|a| - 1];
      assert a == init + [x];
      assert x in multiset(a);
      var i :| 0 <= i < |b| && b[i] == x;
      TakeOut(init, b, x, i);
      ProductPermuted(init, b[..i] + b[i + 1..]);
      ProductSnoc(init, x);
      ProductInsert(b[..i], x, b[i + 1..]);
    }
  }
}
