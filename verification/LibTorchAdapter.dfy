/** The LibTorch adapter: tensors by id, sized by an overflow-guarded product of dimensions. */
module LibTorchAdapter {
  import opened Machine
  import opened AllocationTable
  import opened AdapterRuns
  import opened Products
  import Shadow
  import Sanitizer

  type i64 = x: int | -0x8000_0000_0000_0000 <= x < 0x8000_0000_0000_0000

  datatype TensorInfo = TensorInfo(id: u64, sizes: seq<i64>, ptr: u64, bytes: u64)

  /** The dimensions that count: non-positive ones are skipped. */
  function PositiveDims(shape: seq<i64>): seq<u64> {
    if shape == [] then []
    else
      var last := shape[|shape| - 1];
      PositiveDims(shape[..|shape| - 1]) + (if 0 < last then [last] else [])
  }

  /** The elements of a tensor. */
  ghost function Elements(shape: seq<i64>): nat {
    Product(PositiveDims(shape))
  }

  ghost function HeldBy(tensors: map<u64, TensorInfo>): map<u64, Holding> {
    map k: u64 | k in tensors :: Holding(tensors[k].ptr, tensors[k].bytes)
  }

  /** validate_view_access, in 64-bit arithmetic. */
  predicate ViewAccess(table: map<u64, Region>, tensors: map<u64, TensorInfo>, id: u64, offset: u64, n: u64) {
    id in tensors && Add64(offset, n) <= tensors[id].bytes && CheckBounds(table, Add64(tensors[id].ptr, offset), n)
  }

  lemma ElementsSnoc(shape: seq<i64>, i: nat)
    requires i < |shape|
    ensures Elements(shape[..i + 1]) == if 0 < shape[i] then Elements(shape[..i]) * shape[i] else Elements(shape[..i])
  {
    assert shape[..i + 1][..i] == shape[..i];
    if 0 < shape[i] {
      ProductSnoc(PositiveDims(shape[..i]), shape[i]);
    } else {
      assert PositiveDims(shape[..i]) + [] == PositiveDims(shape[..i]);
    }
  }

  lemma {:induction false} OnlyPositive(shape: seq<i64>)
    ensures forall x :: x in PositiveDims(shape) ==> 0 < x
    ensures 0 < Elements(shape)
  {
    if shape != [] {
      OnlyPositive(shape[..|shape| - 1]);
    }
    assert forall j :: 0 <= j < |PositiveDims(shape)| ==> PositiveDims(shape)[j] in PositiveDims(shape);
    Positive(PositiveDims(shape));
  }

  /** The count never falls when dimensions are added, so an overflowing prefix overflows. */
  lemma {:induction false} PrefixElements(shape: seq<i64>, i: nat)
    requires i <= |shape|
    ensures Elements(shape[..i]) <= Elements(shape)
    decreases |shape| - i
  {
    if i == |shape| {
      assert shape[..i] == shape;
    } else {
      PrefixElements(shape, i + 1);
      ElementsSnoc(shape, i);
      if 0 < shape[i] {
        FactorBelow(Elements(shape[..i]), shape[i]);
      }
    }
  }

  ghost function Bag(s: seq<u64>): multiset<u64> { multiset(s) }

  ghost function ShapeBag(s: seq<i64>): multiset<i64> { multiset(s) }

  lemma {:induction false} PositiveCounts(shape: seq<i64>, x: u64)
    ensures Bag(PositiveDims(shape))[x] == if 0 < x < 0x8000_0000_0000_0000 then ShapeBag(shape)[x] else 0
  {
    if shape != [] {
      var init, last := shape[..|shape| - 1], shape[|shape| - 1];
      assert shape == init + [last];
      PositiveCounts(init, x);
    }
  }

  /** The order of the dimensions is irrelevant. */
  lemma ElementsPermuted(a: seq<i64>, b: seq<i64>)
    requires multiset(a) == multiset(b)
    ensures Elements(a) == Elements(b)
  {
    forall x: u64 ensures Bag(PositiveDims(a))[x] == Bag(PositiveDims(b))[x] {
      PositiveCounts(a, x);
      PositiveCounts(b, x);
    }
    assert Bag(PositiveDims(a)) == Bag(PositiveDims(b));
    ProductPermuted(PositiveDims(a), PositiveDims(b));
  }

  lemma LargestShape()
    ensures Elements([0x7FFF_FFFF_FFFF_FFFF]) * 2 == MAX64 - 1
  {
    var shape: seq<i64> := [0x7FFF_FFFF_FFFF_FFFF];
    assert shape[..0] == [] && shape[..1] == shape;
    ElementsSnoc(shape, 0);
  }

  /** A size the guard lets through although its redzones do not fit: 2^63 - 1 elements of two
      bytes become a request for 510 bytes that is tracked as 2^64 - 2. */
  lemma GuardIgnoresRedzones()
    ensures var size := MAX64 - 1;
      && Elements([0x7FFF_FFFF_FFFF_FFFF]) * 2 == size && RequestBytes(size, REDZONE) == 510
      && MayGrant(BLANK.live, RequestBytes(size, REDZONE), Some(4096))
      && !Inv(Acquire<u64>(BLANK, map[], 1, size, Some(4096)).device)
  {
    hide Elements;
    LargestShape();
    BlankInv();
    hide Inv, Acquire;
    AcquireKeepsInvExactly<u64>(BLANK, map[], 1, MAX64 - 1, 4096);
  }

  class LibTorchAdapter {
    const sanitizer: Sanitizer.CUDASanitizer
    var tensors: map<u64, TensorInfo>

    constructor (sanitizer: Sanitizer.CUDASanitizer)
      ensures this.sanitizer == sanitizer && tensors == map[]
    {
      this.sanitizer := sanitizer;
      tensors := map[];
    }

    /** The dimension loop with its division guard. */
    static method TotalElements(shape: seq<i64>) returns (total: u64, overflow: bool)
      ensures overflow <==> MAX64 < Elements(shape)
      ensures !overflow ==> total == Elements(shape)
    {
      total := 1;
      var i := 0;
      while i < |shape|
        invariant 0 <= i <= |shape|
        invariant total == Elements(shape[..i])
      {
        ElementsSnoc(shape, i);
        if 0 < shape[i] {
          var udim: u64 := shape[i];
          GuardIsExact(total, udim);
          if total > MAX64 / udim {
            PrefixElements(shape, i + 1);
            return total, true;
          }
          total := Mul64(total, udim);
        }
        i := i + 1;
      }
      assert shape[..i] == shape;
      return total, false;
    }

    /** Once the argument checks pass, ErrIntegerOverflow is returned exactly when the true size
        exceeds 2^64 - 1; otherwise exactly that size, at least 1, is requested. */
    method AllocateTensor(id: u64, shape: seq<i64>, elementSize: u64, hasOut: bool, grant: Option<u64>)
      returns (status: Status, out: Option<u64>)
      requires hasOut && 0 < elementSize && id !in tensors && Elements(shape) * elementSize <= MAX64 ==>
        MayGrant(sanitizer.driver.live, RequestBytes(Elements(shape) * elementSize, REDZONE), grant)
      modifies this, sanitizer, sanitizer.driver
      ensures !hasOut || elementSize == 0 || id in old(tensors) ==>
        && status == ErrCUDAAllocation && out == None
        && tensors == old(tensors) && sanitizer.State() == old(sanitizer.State())
      ensures hasOut && 0 < elementSize && id !in old(tensors) ==>
        var size := Elements(shape) * elementSize;
        && (status == ErrIntegerOverflow <==> MAX64 < size)
        && 1 <= size
        && (MAX64 < size ==> out == None && tensors == old(tensors) && sanitizer.State() == old(sanitizer.State()))
        && (size <= MAX64 ==>
             && Taken(sanitizer.State(), HeldBy(tensors), status)
                  == Acquire(old(sanitizer.State()), HeldBy(old(tensors)), id, size, grant)
             && out == (if status == Success then Some(HeldBy(tensors)[id].ptr) else None)
             && tensors == if status == Success
                  then old(tensors)[id := TensorInfo(id, shape, HeldBy(tensors)[id].ptr, size)] else old(tensors))
    {
      if !hasOut || elementSize == 0 {
        return ErrCUDAAllocation, None;
      }
      if id in tensors {
        return ErrCUDAAllocation, None;
      }
      OnlyPositive(shape);
      FactorBelow(Elements(shape), elementSize);
      var total, overflow := TotalElements(shape);
      if overflow {
        return ErrIntegerOverflow, None;
      }
      GuardIsExact(total, elementSize);
      if total > MAX64 / elementSize {
        return ErrIntegerOverflow, None;
      }
      var bytes := Mul64(total, elementSize);
      var ptr, st := sanitizer.AuditMalloc(true, bytes, REDZONE, grant);
      if st != Success {
        return st, None;
      }
      tensors := tensors[id := TensorInfo(id, shape, ptr.value, bytes)];
      assert HeldBy(tensors) == HeldBy(old(tensors))[id := Holding(ptr.value, bytes)];
      return Success, Some(ptr.value);
    }

    method ValidateViewAccess(id: u64, offset: u64, n: u64) returns (valid: bool)
      ensures TableOk(sanitizer.trackedRegions) ==>
        (valid <==> ViewAccess(sanitizer.trackedRegions, tensors, id, offset, n))
      ensures valid ==> ViewAccess(sanitizer.trackedRegions, tensors, id, offset, n)
    {
      if id !in tensors {
        return false;
      }
      var info := tensors[id];
      if Add64(offset, n) > info.bytes {
        return false;
      }
      valid := sanitizer.CheckBounds(Add64(info.ptr, offset), n);
    }

    method FreeTensor(id: u64, willing: bool) returns (status: Status)
      modifies this, sanitizer, sanitizer.driver
      ensures Taken(sanitizer.State(), HeldBy(tensors), status)
           == Release(old(sanitizer.State()), HeldBy(old(tensors)), id, willing)
      ensures tensors == old(tensors) - {id}
    {
      if id !in tensors {
        assert tensors - {id} == tensors;
        return ErrCUDABoundaryViolation;
      }
      status := sanitizer.AuditFree(tensors[id].ptr, willing);
      tensors := tensors - {id};
      assert HeldBy(tensors) == HeldBy(old(tensors)) - {id};
    }

    /** The tensors are freed in whatever order the hash map yields them. */
    method Reset(refused: set<u64>) returns (ghost order: seq<u64>)
      modifies this, sanitizer, sanitizer.driver
      ensures Lists(order, HeldBy(old(tensors)).Keys)
      ensures sanitizer.State() == ReleaseMany(old(sanitizer.State()), HeldBy(old(tensors)), order, refused).0
      ensures tensors == map[]
    {
      var todo := tensors.Keys;
      order := [];
      ghost var held := HeldBy(tensors);
      while todo != {}
        invariant tensors == old(tensors) && todo <= tensors.Keys
        invariant forall k :: k in order <==> k in held && k !in todo
        invariant forall i, j :: 0 <= i < j < |order| ==> order[i] != order[j]
        invariant sanitizer.State() == ReleaseMany(old(sanitizer.State()), held, order, refused).0
        decreases todo
      {
        var id :| id in todo;
        var p := tensors[id].ptr;
        var willing := p in sanitizer.trackedRegions ==> sanitizer.trackedRegions[p].RawBase() !in refused;
        var _ := sanitizer.AuditFree(p, willing);
        ghost var more := order + [id];
        assert more[..|order|] == order;
        todo, order := todo - {id}, more;
      }
      tensors := map[];
    }
  }

  // ---- views --------------------------------------------------------------------------

  ghost predicate LiveTensor(t: map<u64, Region>, info: TensorInfo) {
    info.ptr in t && t[info.ptr].size == info.bytes && !t[info.ptr].poisoned
  }

  predicate InBounds(info: TensorInfo, offset: u64, n: u64) {
    0 < n && offset + n <= info.bytes
  }

  /** For a live tensor a view whose end does not wrap is accepted exactly when it is a
      non-empty part of the tensor. */
  lemma ViewExact(table: map<u64, Region>, tensors: map<u64, TensorInfo>, id: u64, offset: u64, n: u64)
    requires TableOk(table) && id in tensors && LiveTensor(table, tensors[id]) && offset + n < WORD
    ensures ViewAccess(table, tensors, id, offset, n) <==> InBounds(tensors[id], offset, n)
  {
    var info := tensors[id];
    assert table[info.ptr].Fits();
    if InBounds(info, offset, n) {
      assert Accepts(table[info.ptr], Add64(info.ptr, offset), n);
    }
  }

  /** For every tensor, live or not, a view that stays inside the address space is accepted exactly
      when the id is known, the view ends inside the recorded size and every byte of it is
      addressable payload. */
  lemma ViewIsShadow(table: map<u64, Region>, tensors: map<u64, TensorInfo>, id: u64, offset: u64, n: u64)
    requires TableOk(table) && forall k :: k in table ==> 0 < table[k].redzone
    requires offset + n < WORD && (id in tensors ==> tensors[id].ptr + offset + n < WORD)
    ensures ViewAccess(table, tensors, id, offset, n) <==>
      && id in tensors && offset + n <= tensors[id].bytes
      && Shadow.Allows(Shadow.ShadowOf(table), tensors[id].ptr + offset, n)
  {
    hide CheckBounds, Shadow.ShadowOf, Shadow.Allows, TableOk;
    if id in tensors {
      Shadow.CheckRefinesShadow(table, tensors[id].ptr + offset, n);
    }
  }

  /** Some tenant's addressable payload holds the byte at p. */
  ghost predicate Addressed(table: map<u64, Region>, p: int) {
    exists k :: k in table && !table[k].poisoned && table[k].HasByte(p)
  }

  /** The views judged wrongly: the end offset + n wraps to at most the tensor's size, and the
      view starts, short of the end of the address space, in any addressable payload. */
  ghost predicate SlipsThrough(table: map<u64, Region>, info: TensorInfo, offset: u64, n: u64) {
    && WORD <= offset + n <= WORD + info.bytes
    && info.ptr + offset < WORD
    && Addressed(table, info.ptr + offset)
  }

  /** A wrapped view whose start wraps too would have to begin below the tensor and end in it. */
  lemma NoRegionSpans(table: map<u64, Region>, j: u64, k: u64, p: u64)
    requires TableOk(table) && k in table && 0 < table[k].redzone && j in table && p < k
    requires Hits(table[j], p)
    ensures table[j].PayloadEnd() < k
  {
    assert table[j].Fits() && table[k].Fits() && table[j].ApartFrom(table[k]);
  }

  lemma StartWrapsIsRefused(table: map<u64, Region>, info: TensorInfo, offset: u64, n: u64)
    requires TableOk(table) && LiveTensor(table, info) && 0 < table[info.ptr].redzone
    requires WORD <= offset + n <= WORD + info.bytes && WORD <= info.ptr + offset
    ensures !CheckBounds(table, Add64(info.ptr, offset), n)
  {
    var p := Add64(info.ptr, offset);
    assert table[info.ptr].Fits();
    forall k | k in table ensures !Accepts(table[k], p, n) {
      if Hits(table[k], p) {
        NoRegionSpans(table, k, info.ptr, p);
      }
    }
  }

  lemma EndWraps(table: map<u64, Region>, info: TensorInfo, offset: u64, n: u64)
    requires TableOk(table) && LiveTensor(table, info)
    requires WORD <= offset + n <= WORD + info.bytes && info.ptr + offset < WORD
    ensures CheckBounds(table, info.ptr + offset, n) <==> Addressed(table, info.ptr + offset)
  {
    var p := info.ptr + offset;
    assert table[info.ptr].Fits();
    if k :| k in table && !table[k].poisoned && table[k].HasByte(p) {
      assert table[k].Fits();
      assert k != info.ptr ==> table[k].ApartFrom(table[info.ptr]);
      assert Accepts(table[k], p, n);
    }
    if CheckBounds(table, p, n) {
      var k :| k in table && Accepts(table[k], p, n);
      assert table[k].Fits();
    }
  }

  /** For a live tensor between redzones and every view whatever, inside or outside, the
      verdict is right exactly when the view does not slip through. */
  lemma ViewRightExactly(table: map<u64, Region>, tensors: map<u64, TensorInfo>, id: u64, offset: u64, n: u64)
    requires TableOk(table) && id in tensors
    requires LiveTensor(table, tensors[id]) && 0 < table[tensors[id].ptr].redzone
    ensures (ViewAccess(table, tensors, id, offset, n) <==> InBounds(tensors[id], offset, n))
       <==> !SlipsThrough(table, tensors[id], offset, n)
  {
    var info := tensors[id];
    if offset + n < WORD {
      ViewExact(table, tensors, id, offset, n);
    } else if offset + n <= WORD + info.bytes {
      if info.ptr + offset < WORD {
        EndWraps(table, info, offset, n);
      } else {
        StartWrapsIsRefused(table, info, offset, n);
      }
    }
  }

  /** Two tensors between their redzones, and a view of the first that starts at the second. */
  lemma ViewOfAnotherTensor()
    ensures var table := map[
        0x1100 := Region(0x1100, 64, REDZONE, false), 0x1400 := Region(0x1400, 64, REDZONE, false)];
      var tensors := map[1 := TensorInfo(1, [16], 0x1100, 64), 2 := TensorInfo(2, [16], 0x1400, 64)];
      && TableOk(table) && LiveTensor(table, tensors[1])
      && ViewAccess(table, tensors, 1, 0x300, WORD - 0x300 + 1)
  {
    var table: map<u64, Region> := map[
      0x1100 := Region(0x1100, 64, REDZONE, false), 0x1400 := Region(0x1400, 64, REDZONE, false)];
    assert Accepts(table[0x1400], 0x1400, WORD - 0x300 + 1);
  }
}
