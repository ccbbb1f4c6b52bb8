/**
 Byte-level shadow memory as the reference meaning of the allocation table: every byte of
 the address space is unmapped, redzone, addressable payload or poisoned payload. The
 operations repaint the shadow, and check_bounds is compared with a byte-by-byte test.
 */
module Shadow {
  import opened Machine
  import opened AllocationTable

  datatype Cell = Unmapped | Redzone | Payload | Poisoned

  type Memory = imap<int, Cell>

  ghost predicate Covers(r: Region, a: int) {
    r.address - r.redzone <= a < r.address + r.size + r.redzone
  }

  ghost function CellIn(r: Region, a: int): Cell {
    if !r.HasByte(a) then Redzone else if r.poisoned then Poisoned else Payload
  }

  ghost function CellAt(t: map<u64, Region>, a: int): Cell {
    if exists k :: k in t && Covers(t[k], a) then
      var k :| k in t && Covers(t[k], a);
      CellIn(t[k], a)
    else Unmapped
  }

  ghost function ShadowOf(t: map<u64, Region>): Memory {
    imap a: int | CellAt(t, a) != Unmapped :: CellAt(t, a)
  }

  // ---- the reference operations -------------------------------------------------------

  ghost function Paint(m: Memory, lo: int, hi: int, c: Cell): Memory {
    imap a: int | a in m || lo <= a < hi :: if lo <= a < hi then c else m[a]
  }

  ghost function Unmap(m: Memory, lo: int, hi: int): Memory {
    imap a: int | a in m && !(lo <= a < hi) :: m[a]
  }

  /** Every byte of the access is addressable payload. */
  ghost predicate Allows(m: Memory, p: int, n: int) {
    0 < n && forall a :: p <= a < p + n ==> a in m && m[a] == Payload
  }

  // ---- the table against the shadow ---------------------------------------------------

  lemma Owned(t: map<u64, Region>, k: u64, a: int)
    requires TableOk(t) && k in t && Covers(t[k], a)
    ensures CellAt(t, a) == CellIn(t[k], a)
    ensures forall j :: j in t && j != k ==> !Covers(t[j], a)
  {
    forall j | j in t && j != k ensures !Covers(t[j], a) {
      assert t[j].ApartFrom(t[k]);
    }
  }

  /** The cell at a byte outside region p depends only on the other regions. */
  lemma SameElsewhere(t: map<u64, Region>, u: map<u64, Region>, p: u64, a: int)
    requires TableOk(t) && TableOk(u)
    requires t - {p} == u - {p}
    ensures p in u && Covers(u[p], a) ==> CellAt(u, a) == CellIn(u[p], a)
    ensures !(p in u && Covers(u[p], a)) && !(p in t && Covers(t[p], a)) ==> CellAt(u, a) == CellAt(t, a)
  {
    if p in u && Covers(u[p], a) {
      Owned(u, p, a);
    } else if !(p in t && Covers(t[p], a)) {
      if k :| k in t && Covers(t[k], a) {
        assert k in t - {p} && u[k] == t[k];
        Owned(t, k, a);
        Owned(u, k, a);
      } else {
        forall k | k in u ensures !Covers(u[k], a) {
          assert k != p ==> k in u - {p} && t[k] == u[k];
        }
      }
    }
  }

  lemma InsertPaints(t: map<u64, Region>, r: Region)
    requires TableOk(t) && r.address !in t && !r.poisoned && TableOk(t[r.address := r])
    ensures ShadowOf(t[r.address := r])
         == Paint(Paint(ShadowOf(t), r.address - r.redzone, r.address + r.size + r.redzone, Redzone),
                  r.address, r.address + r.size, Payload)
  {
    hide TableOk;
    var u := t[r.address := r];
    var painted := Paint(Paint(ShadowOf(t), r.address - r.redzone, r.address + r.size + r.redzone, Redzone),
                         r.address, r.address + r.size, Payload);
    forall a: int
      ensures a in ShadowOf(u) <==> a in painted
      ensures a in painted ==> ShadowOf(u)[a] == painted[a]
    {
      SameElsewhere(t, u, r.address, a);
      assert u[r.address] == r && CellIn(r, a) != Unmapped;
    }
  }

  lemma GrownPaints(d: Device, base: u64, size: u64, redzone: u64)
    requires TableOk(d.table) && 0 < size && base + size + 2 * redzone < WORD && d.total + size < WORD
    requires base + redzone !in d.table && TableOk(Grown(d, base, size, redzone).table)
    ensures ShadowOf(Grown(d, base, size, redzone).table)
         == Paint(Paint(ShadowOf(d.table), base, base + size + 2 * redzone, Redzone),
                  base + redzone, base + redzone + size, Payload)
  {
    hide ShadowOf, Paint, TableOk;
    InsertPaints(d.table, Region(base + redzone, size, redzone, false));
  }

  /** audit_malloc paints one redzone-payload-redzone strip over the granted bytes. */
  lemma MallocPaints(d: Device, size: u64, redzone: u64, base: u64)
    requires Inv(d) && 0 < size && FitsPadded(size, redzone)
    requires MayGrant(d.live, RequestBytes(size, redzone), Some(base))
    ensures ShadowOf(Malloc(d, true, size, redzone, Some(base)).device.table)
         == Paint(Paint(ShadowOf(d.table), base, base + size + 2 * redzone, Redzone),
                  base + redzone, base + redzone + size, Payload)
  {
    hide ShadowOf, Paint, LiveOk, TableOk, Backed, SumSizes, Malloc, Grown;
    PaddedRequest(size, redzone);
    MallocKeepsInv(d, size, redzone, base);
    GrownPaints(d, base, size, redzone);
  }

  /** audit_free unmaps the payload and both redzones, whatever the driver answers. */
  lemma FreeUnmaps(d: Device, p: u64, willing: bool)
    requires Inv(d) && p in d.table
    ensures ShadowOf(Free(d, p, willing).device.table)
         == Unmap(ShadowOf(d.table), p - d.table[p].redzone, p + d.table[p].size + d.table[p].redzone)
  {
    FreeKeepsInv(d, p, willing);
    var t: map<u64, Region> := d.table;
    var u: map<u64, Region> := t - {p};
    forall a: int
      ensures Covers(t[p], a) ==> CellAt(u, a) == Unmapped
      ensures !Covers(t[p], a) ==> CellAt(u, a) == CellAt(t, a)
    {
      SameElsewhere(t, u, p, a);
      if Covers(t[p], a) {
        Owned(t, p, a);
      }
    }
  }

  lemma UpdatePaints(t: map<u64, Region>, p: u64, flag: bool)
    requires TableOk(t) && p in t && TableOk(t[p := t[p].(poisoned := flag)])
    ensures ShadowOf(t[p := t[p].(poisoned := flag)])
         == Paint(ShadowOf(t), p, p + t[p].size, if flag then Poisoned else Payload)
  {
    var r := t[p].(poisoned := flag);
    var u := t[p := r];
    var painted := Paint(ShadowOf(t), p, p + t[p].size, if flag then Poisoned else Payload);
    forall a: int
      ensures a in ShadowOf(u) <==> a in painted
      ensures a in painted ==> ShadowOf(u)[a] == painted[a]
    {
      SameElsewhere(t, u, p, a);
      assert u[p] == r && CellIn(r, a) != Unmapped && CellIn(t[p], a) != Unmapped;
      if Covers(t[p], a) {
        Owned(t, p, a);
      }
    }
  }

  /** poison_region and unpoison_region repaint the whole payload, whatever size they are given. */
  lemma SetPoisonPaints(d: Device, p: u64, size: u64, flag: bool)
    requires Inv(d) && p in d.table && 0 < size
    ensures ShadowOf(SetPoison(d, p, size, flag).device.table)
         == Paint(ShadowOf(d.table), p, p + d.table[p].size, if flag then Poisoned else Payload)
  {
    assert d.table[p].Fits();
    SetPoisonKeepsInv(d, p, size, flag);
    UpdatePaints(d.table, p, flag);
  }

  /** The bytes poison_region and unpoison_region really mark. */
  function MarkedBytes(d: Device, p: u64, size: u64): nat {
    if p in d.table && 0 < size then d.table[p].size else 0
  }

  function Marking(flag: bool): Cell {
    if flag then Poisoned else Payload
  }

  function Min(x: nat, y: nat): nat { if x < y then x else y }

  function Max(x: nat, y: nat): nat { if x < y then y else x }

  ghost predicate AllAre(m: Memory, lo: int, hi: int, c: Cell) {
    forall a :: lo <= a < hi ==> a in m && m[a] == c
  }

  lemma SetPoisonMarks(d: Device, p: u64, size: u64, flag: bool)
    requires Inv(d)
    ensures ShadowOf(SetPoison(d, p, size, flag).device.table)
         == Paint(ShadowOf(d.table), p, p + MarkedBytes(d, p, size), Marking(flag))
  {
    NullIsNotTracked(d);
    if p in d.table && 0 < size {
      SetPoisonPaints(d, p, size, flag);
    }
  }

  /** Two lengths repaint a memory alike exactly when the bytes between their ends already have
      the painted value. */
  lemma PaintsAlike(m: Memory, p: int, x: nat, y: nat, c: Cell)
    ensures Paint(m, p, p + x, c) == Paint(m, p, p + y, c)
       <==> AllAre(m, p + Min(x, y), p + Max(x, y), c)
  {
    var u, v := Paint(m, p, p + x, c), Paint(m, p, p + y, c);
    var lo, hi := p + Min(x, y), p + Max(x, y);
    if u == v {
      forall a | lo <= a < hi ensures a in m && m[a] == c {
        assert a in u && u[a] == v[a];
      }
    }
    if AllAre(m, lo, hi, c) {
      forall a: int
        ensures a in u <==> a in v
        ensures a in u ==> u[a] == v[a]
      {
      }
    }
  }

  /** poison_region and unpoison_region are documented as marking `size` bytes from p. They do
      so, for any p and size, exactly when every byte between the end of what they mark and
      p + size has that mark already. */
  lemma MarksAsDocumentedExactly(d: Device, p: u64, size: u64, flag: bool)
    requires Inv(d)
    ensures var n := MarkedBytes(d, p, size);
      ShadowOf(SetPoison(d, p, size, flag).device.table) == Paint(ShadowOf(d.table), p, p + size, Marking(flag))
      <==> AllAre(ShadowOf(d.table), p + Min(n, size), p + Max(n, size), Marking(flag))
  {
    hide ShadowOf, Paint, AllAre, Inv, SetPoison;
    SetPoisonMarks(d, p, size, flag);
    PaintsAlike(ShadowOf(d.table), p, MarkedBytes(d, p, size), size, Marking(flag));
  }

  /** On a region between redzones that is: when the size is the region's own, or smaller and
      the region is so marked already. A larger size never works out. */
  lemma MarksRegionAsDocumentedExactly(d: Device, p: u64, size: u64, flag: bool)
    requires Inv(d) && p in d.table && 0 < d.table[p].redzone && 0 < size
    ensures ShadowOf(SetPoison(d, p, size, flag).device.table) == Paint(ShadowOf(d.table), p, p + size, Marking(flag))
       <==> size == d.table[p].size || (size < d.table[p].size && d.table[p].poisoned == flag)
  {
    var r := d.table[p];
    var m := ShadowOf(d.table);
    assert r.Fits();
    MarksAsDocumentedExactly(d, p, size, flag);
    forall a | p <= a < p + r.size ensures a in m && (m[a] == Marking(flag) <==> r.poisoned == flag) {
      Owned(d.table, p, a);
    }
    Owned(d.table, p, p + r.size);
    assert m[p + r.size] == Redzone;
    if size < r.size {
      assert m[p + size] == Marking(flag) <==> r.poisoned == flag;
    }
  }

  /** reset unmaps everything, also what the driver refused to free. */
  lemma ResetBlanks(d: Device, refused: set<u64>)
    ensures ShadowOf(Reset(d, refused).table) == imap[]
  {
    forall a: int ensures CellAt(map[], a) == Unmapped {
    }
  }

  // ---- check_bounds against the byte test ---------------------------------------------

  lemma PayloadByte(t: map<u64, Region>, a: int) returns (k: u64)
    requires TableOk(t) && a in ShadowOf(t) && ShadowOf(t)[a] == Payload
    ensures k in t && t[k].HasByte(a) && !t[k].poisoned
  {
    assert CellAt(t, a) == Payload;
    k :| k in t && Covers(t[k], a) && CellAt(t, a) == CellIn(t[k], a);
    assert CellIn(t[k], a) == Payload;
  }

  lemma AcceptedIsAllowed(t: map<u64, Region>, p: u64, n: u64)
    requires TableOk(t) && p + n < WORD && CheckBounds(t, p, n)
    ensures Allows(ShadowOf(t), p, n)
  {
    var k :| k in t && Accepts(t[k], p, n);
    assert t[k].Fits();
    forall a | p <= a < p + n ensures a in ShadowOf(t) && ShadowOf(t)[a] == Payload {
      Owned(t, k, a);
    }
  }

  /** Two addressable payloads meet without a byte between them. */
  ghost predicate Abuts(t: map<u64, Region>, j: u64, k: u64) {
    j in t && k in t && !t[j].poisoned && !t[k].poisoned && j + t[j].size == k
  }

  ghost predicate NoAbuttingPayloads(t: map<u64, Region>) {
    forall j, k :: !Abuts(t, j, k)
  }

  /** Without abutting payloads the byte after an addressable payload is not addressable. */
  lemma EndIsClosed(t: map<u64, Region>, k: u64)
    requires TableOk(t) && NoAbuttingPayloads(t) && k in t && !t[k].poisoned
    ensures !Allows(ShadowOf(t), k + t[k].size, 1)
  {
    var end := k + t[k].size;
    forall j | j in t ensures !t[j].HasByte(end) || t[j].poisoned {
      assert !Abuts(t, k, j) && t[k].Fits() && t[j].Fits();
      assert j != k ==> t[k].ApartFrom(t[j]);
    }
    if Allows(ShadowOf(t), end, 1) {
      var j := PayloadByte(t, end);
    }
  }

  lemma AllowedIsAccepted(t: map<u64, Region>, p: u64, n: u64)
    requires TableOk(t) && NoAbuttingPayloads(t) && p + n < WORD && Allows(ShadowOf(t), p, n)
    ensures CheckBounds(t, p, n)
  {
    var k := PayloadByte(t, p);
    assert t[k].Fits();
    EndIsClosed(t, k);
    assert Accepts(t[k], p, n);
  }

  lemma RedzonesSeparate(t: map<u64, Region>)
    requires TableOk(t) && forall k :: k in t ==> 0 < t[k].redzone
    ensures NoAbuttingPayloads(t)
  {
    forall j, k ensures !Abuts(t, j, k) {
      if j in t && k in t {
        assert t[j].Fits();
        assert j != k ==> t[j].ApartFrom(t[k]);
      }
    }
  }

  /** With redzones of at least one byte, check_bounds is the byte test for every access that
      stays inside the address space. */
  lemma CheckRefinesShadow(t: map<u64, Region>, p: u64, n: u64)
    requires TableOk(t) && p + n < WORD
    requires forall k :: k in t ==> 0 < t[k].redzone
    ensures CheckBounds(t, p, n) <==> Allows(ShadowOf(t), p, n)
  {
    RedzonesSeparate(t);
    if CheckBounds(t, p, n) {
      AcceptedIsAllowed(t, p, n);
    } else if Allows(ShadowOf(t), p, n) {
      AllowedIsAccepted(t, p, n);
    }
  }

  /** Exactly the tables without abutting addressable payloads make check_bounds the byte
      test: a zero-byte redzone loses accesses that span two neighbours. */
  lemma CheckRefinesShadowExactly(t: map<u64, Region>)
    requires TableOk(t)
    ensures (forall p: u64, n: u64 :: p + n < WORD ==> (CheckBounds(t, p, n) <==> Allows(ShadowOf(t), p, n)))
       <==> NoAbuttingPayloads(t)
  {
    if NoAbuttingPayloads(t) {
      forall p: u64, n: u64 | p + n < WORD ensures CheckBounds(t, p, n) <==> Allows(ShadowOf(t), p, n) {
        if CheckBounds(t, p, n) {
          AcceptedIsAllowed(t, p, n);
        } else if Allows(ShadowOf(t), p, n) {
          AllowedIsAccepted(t, p, n);
        }
      }
    } else {
      var j, k :| Abuts(t, j, k);
      AbuttingIsRefused(t, j, k);
    }
  }

  lemma AbuttingIsRefused(t: map<u64, Region>, j: u64, k: u64)
    requires TableOk(t) && Abuts(t, j, k)
    ensures j + t[j].size + 1 < WORD
    ensures Allows(ShadowOf(t), j, t[j].size + 1) && !CheckBounds(t, j, t[j].size + 1)
  {
    assert t[j].Fits() && t[k].Fits();
    forall a | j <= a < j + t[j].size + 1 ensures a in ShadowOf(t) && ShadowOf(t)[a] == Payload {
      Owned(t, if a < k then j else k, a);
    }
    forall i | i in t ensures !Accepts(t[i], j, t[j].size + 1) {
      assert i != j ==> t[i].ApartFrom(t[j]) && t[i].Fits();
    }
  }

  lemma WrappedIsNotAllowed(t: map<u64, Region>, p: u64, n: u64)
    requires TableOk(t) && WORD <= p + n
    ensures !Allows(ShadowOf(t), p, n)
  {
    forall k | k in t ensures !t[k].HasByte(WORD - 1) {
      assert t[k].Fits();
    }
    if Allows(ShadowOf(t), p, n) {
      var k := PayloadByte(t, WORD - 1);
    }
  }

  /** An access that leaves the address space is never allowed byte by byte, yet check_bounds
      grants it exactly when its first byte is addressable: the sum p + n has wrapped. */
  lemma WrappedAccess(t: map<u64, Region>, p: u64, n: u64)
    requires TableOk(t) && WORD <= p + n
    ensures !Allows(ShadowOf(t), p, n)
    ensures CheckBounds(t, p, n) <==> Allows(ShadowOf(t), p, 1)
  {
    WrappedIsNotAllowed(t, p, n);
    if CheckBounds(t, p, n) {
      var k :| k in t && Accepts(t[k], p, n);
      Owned(t, k, p);
    }
    if Allows(ShadowOf(t), p, 1) {
      var k := PayloadByte(t, p);
      assert t[k].Fits() && Accepts(t[k], p, n);
    }
  }

  /** An access inside the address space that touches a redzone is refused. */
  lemma RedzoneIsRefused(t: map<u64, Region>, p: u64, n: u64, a: int)
    requires TableOk(t) && p + n < WORD && p <= a < p + n
    requires a in ShadowOf(t) && ShadowOf(t)[a] == Redzone
    ensures !CheckBounds(t, p, n)
  {
    if CheckBounds(t, p, n) {
      AcceptedIsAllowed(t, p, n);
    }
  }
}
