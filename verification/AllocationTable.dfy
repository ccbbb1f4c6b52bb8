/**
 The allocation table of the CUDA sanitizer as a value, together with the live
 allocations of the driver underneath it. Every operation of the sanitizer is a
 function on this value: the class in Sanitizer.dfy and the threads in Protocol.dfy
 are both tied to the functions below.
 */
module AllocationTable {
  import opened Machine

  datatype Region = Region(address: u64, size: u64, redzone: u64, poisoned: bool) {
    /** The pointer audit_free and reset compute and hand to cudaFree. */
    function RawBase(): u64 { Sub64(address, redzone) }

    /** One past the payload, as check_bounds computes it. */
    function PayloadEnd(): u64 { Add64(address, size) }

    /** Bytes of the raw allocation: the payload and both redzones. */
    function Span(): int { size + 2 * redzone }

    /** The raw interval lies strictly inside the address space and nothing above wraps. */
    predicate Fits() {
      0 < size && redzone < address && address + size + redzone < WORD
    }

    predicate ApartFrom(other: Region) {
      Apart(address - redzone, Span(), other.address - other.redzone, other.Span())
    }

    predicate HasByte(a: int) { address <= a < address + size }
  }

  datatype Report = Report(address: u64, bytes: u64, kind: Status)

  datatype Device = Device(
    live: map<u64, u64>,          // driver: base address to length of every live allocation
    table: map<u64, Region>,      // m_tracked_regions
    total: u64,                   // m_total_bytes
    violation: Option<Report>)    // m_last_violation

  const BLANK := Device(map[], map[], 0, None)

  predicate Apart(a: int, aLen: int, b: int, bLen: int) {
    a + aLen <= b || b + bLen <= a
  }

  // ---- the driver -------------------------------------------------------------------

  /** What cudaMalloc may answer: a fresh non-null interval inside the address space and
      apart from every live one, or a failure. */
  ghost predicate MayGrant(live: map<u64, u64>, bytes: u64, grant: Option<u64>) {
    grant.Some? ==>
      && 0 < bytes
      && 0 < grant.value
      && grant.value + bytes < WORD
      && forall b :: b in live ==> Apart(grant.value, bytes, b, live[b])
  }

  function DriverFree(live: map<u64, u64>, base: u64, willing: bool): map<u64, u64> {
    if willing then live - {base} else live
  }

  // ---- the operations ---------------------------------------------------------------

  /** Bytes requested from cudaMalloc for a payload and two redzones. */
  function RequestBytes(size: u64, redzone: u64): u64 {
    Add64(size, Mul64(redzone, 2))
  }

  function DriverAlloc(d: Device, base: u64, bytes: u64): Device {
    d.(live := d.live[base := bytes])
  }

  /** The locked section of audit_malloc. */
  function Register(d: Device, base: u64, size: u64, redzone: u64): Device {
    var usable := Add64(base, redzone);
    d.(table := d.table[usable := Region(usable, size, redzone, false)], total := Add64(d.total, size))
  }

  function LogRefusal(d: Device, size: u64): Device {
    d.(violation := Some(Report(0, size, ErrCUDAAllocation)))
  }

  /** The locked section of audit_free when the pointer is tracked, and when it is not. */
  function Erase(d: Device, p: u64): Device
    requires p in d.table
  {
    d.(table := d.table - {p}, total := Sub64(d.total, d.table[p].size))
  }

  function LogBadFree(d: Device, p: u64): Device {
    d.(violation := Some(Report(p, 0, ErrCUDABoundaryViolation)))
  }

  datatype Allocated = Allocated(device: Device, written: Option<u64>, status: Status)

  /** audit_malloc. `written` is the pointer stored through dev_ptr, if any. */
  function Malloc(d: Device, hasOut: bool, size: u64, redzone: u64, grant: Option<u64>): Allocated {
    if !hasOut then Allocated(d, None, ErrCUDAAllocation)
    else if size == 0 then Allocated(d, Some(0), Success)
    else if grant.None? then Allocated(LogRefusal(d, size), None, ErrCUDAAllocation)
    else
      var granted := DriverAlloc(d, grant.value, RequestBytes(size, redzone));
      Allocated(Register(granted, grant.value, size, redzone), Some(Add64(grant.value, redzone)), Success)
  }

  datatype Freed = Freed(device: Device, status: Status)

  /** audit_free. `willing` is the driver's answer to the cudaFree it may issue. */
  function Free(d: Device, p: u64, willing: bool): Freed {
    if p == 0 then Freed(d, Success)
    else if p !in d.table then Freed(LogBadFree(d, p), ErrCUDABoundaryViolation)
    else
      var raw := d.table[p].RawBase();
      var e := Erase(d, p);
      Freed(e.(live := DriverFree(e.live, raw, willing)),
            if willing && raw in d.live then Success else ErrCUDAAllocation)
  }

  /** poison_region (flag true) and unpoison_region (flag false). */
  function SetPoison(d: Device, p: u64, size: u64, flag: bool): Freed {
    if p == 0 || size == 0 then Freed(d, Success)
    else if p in d.table then Freed(d.(table := d.table[p := d.table[p].(poisoned := flag)]), Success)
    else Freed(d, ErrCUDABoundaryViolation)
  }

  function Bases(t: map<u64, Region>): set<u64> {
    set k | k in t :: t[k].RawBase()
  }

  /** reset. The driver refuses to free the bases in `refused`. */
  function Reset(d: Device, refused: set<u64>): Device {
    Device(d.live - (Bases(d.table) - refused), map[], 0, None)
  }

  /** The two tests check_bounds makes on one region, in 64-bit arithmetic. */
  predicate Hits(r: Region, p: u64) {
    r.address <= p < r.PayloadEnd()
  }

  predicate Accepts(r: Region, p: u64, n: u64) {
    Hits(r, p) && Add64(p, n) <= r.PayloadEnd() && !r.poisoned
  }

  predicate CheckBounds(t: map<u64, Region>, p: u64, n: u64) {
    p != 0 && n != 0 && exists k :: k in t && Accepts(t[k], p, n)
  }

  // ---- the invariant ----------------------------------------------------------------

  ghost predicate LiveOk(live: map<u64, u64>) {
    && (forall b :: b in live ==> 0 < b && 0 < live[b] && b + live[b] < WORD)
    && (forall a, b {:trigger Apart(a, live[a], b, live[b])} :: a in live && b in live && a != b ==>
         Apart(a, live[a], b, live[b]))
  }

  ghost predicate TableOk(t: map<u64, Region>) {
    && (forall k :: k in t ==> t[k].Fits() && t[k].address == k)
    && (forall j, k {:trigger t[j].ApartFrom(t[k])} :: j in t && k in t && j != k ==> t[j].ApartFrom(t[k]))
  }

  ghost predicate Backed(d: Device) {
    forall k :: k in d.table ==>
      d.table[k].RawBase() in d.live && d.live[d.table[k].RawBase()] == d.table[k].Span()
  }

  ghost function SumSizes(t: map<u64, Region>): nat
  {
    if t == map[] then 0
    else
      var k :| k in t;
      t[k].size + SumSizes(t - {k})
  }

  ghost predicate Inv(d: Device) {
    && LiveOk(d.live)
    && TableOk(d.table)
    && Backed(d)
    && d.total == SumSizes(d.table)
  }

  lemma BlankInv()
    ensures Inv(BLANK)
  {
  }

  lemma NullIsNotTracked(d: Device)
    requires Inv(d)
    ensures 0 !in d.table
  {
    assert 0 in d.table ==> d.table[0].Fits();
  }

  // ---- sums of tracked sizes --------------------------------------------------------

  lemma {:induction false} SumRemove(t: map<u64, Region>, k: u64)
    requires k in t
    ensures SumSizes(t) == t[k].size + SumSizes(t - {k})
    decreases |t|
  {
    var c :| c in t && SumSizes(t) == t[c].size + SumSizes(t - {c});
    if c != k {
      SumRemove(t - {c}, k);
      SumRemove(t - {k}, c);
      assert t - {c} - {k} == t - {k} - {c};
    }
  }

  lemma SumInsert(t: map<u64, Region>, k: u64, r: Region)
    requires k !in t
    ensures SumSizes(t[k := r]) == SumSizes(t) + r.size
  {
    SumRemove(t[k := r], k);
    assert t[k := r] - {k} == t;
  }

  lemma SumReplace(t: map<u64, Region>, k: u64, r: Region)
    requires k in t && r.size == t[k].size
    ensures SumSizes(t[k := r]) == SumSizes(t)
  {
    SumRemove(t, k);
    SumRemove(t[k := r], k);
    assert t[k := r] - {k} == t - {k};
  }

  lemma {:induction false} HighestKey(t: map<u64, Region>) returns (k: u64)
    requires t != map[]
    ensures k in t && forall j :: j in t ==> j <= k
    decreases |t|
  {
    var some :| some in t;
    k := some;
    if t - {some} != map[] {
      var m := HighestKey(t - {some});
      k := if some < m then m else some;
      forall j | j in t ensures j <= k {
        assert j == some || j in t - {some};
      }
    }
  }

  /** Disjoint non-empty payloads below `bound` hold at most `bound` bytes together. */
  lemma {:induction false} SumBelow(t: map<u64, Region>, bound: int)
    requires TableOk(t) && 0 <= bound
    requires forall k :: k in t ==> k + t[k].size <= bound
    ensures SumSizes(t) <= bound
    decreases |t|
  {
    if t != map[] {
      var k := HighestKey(t);
      SumRemove(t, k);
      var rest := t - {k};
      forall j | j in rest ensures j + rest[j].size <= k {
        assert t[j].ApartFrom(t[k]);
      }
      assert TableOk(rest);
      SumBelow(rest, k);
    }
  }

  // ---- every operation keeps the invariant --------------------------------------------

  /** A request whose padding does not wrap in 64 bits. */
  predicate FitsPadded(size: u64, redzone: u64) {
    size + 2 * redzone < WORD
  }

  lemma PaddedRequest(size: u64, redzone: u64)
    requires FitsPadded(size, redzone)
    ensures RequestBytes(size, redzone) == size + 2 * redzone
  {
  }

  /** A region placed in a freshly granted interval is apart from every tracked one, its key
      is new, and the byte total cannot wrap. */
  lemma FreshRegion(d: Device, base: u64, size: u64, redzone: u64)
    requires Inv(d) && 0 < size && FitsPadded(size, redzone)
    requires MayGrant(d.live, size + 2 * redzone, Some(base))
    ensures var r := Region(base + redzone, size, redzone, false);
      && r.Fits()
      && r.address !in d.table
      && (forall k :: k in d.table ==> d.table[k].ApartFrom(r) && r.ApartFrom(d.table[k]))
      && d.total + size < WORD
  {
    var r := Region(base + redzone, size, redzone, false);
    forall k | k in d.table ensures d.table[k].ApartFrom(r) && k != r.address {
      assert d.table[k].Fits();
      assert Apart(base, size + 2 * redzone, d.table[k].RawBase(), d.live[d.table[k].RawBase()]);
    }
    var t := d.table[r.address := r];
    SumInsert(d.table, r.address, r);
    SumBelow(t, MAX64);
  }

  lemma LiveGrows(live: map<u64, u64>, base: u64, bytes: u64)
    requires LiveOk(live) && MayGrant(live, bytes, Some(base))
    ensures base !in live && LiveOk(live[base := bytes])
  {
    var u := live[base := bytes];
    forall a, b | a in u && b in u && a != b ensures Apart(a, u[a], b, u[b]) {
      assert a in live && b in live ==> Apart(a, live[a], b, live[b]);
    }
  }

  lemma LiveShrinks(live: map<u64, u64>, bases: set<u64>)
    requires LiveOk(live)
    ensures LiveOk(live - bases)
  {
    var u := live - bases;
    forall a, b | a in u && b in u && a != b ensures Apart(a, u[a], b, u[b]) {
      assert Apart(a, live[a], b, live[b]);
    }
  }

  lemma TableGrows(t: map<u64, Region>, r: Region)
    requires TableOk(t) && r.Fits() && r.address !in t
    requires forall k :: k in t ==> t[k].ApartFrom(r) && r.ApartFrom(t[k])
    ensures TableOk(t[r.address := r])
  {
    var u := t[r.address := r];
    forall j, k | j in u && k in u && j != k ensures u[j].ApartFrom(u[k]) {
      if j in t && k in t && j != r.address && k != r.address {
        assert t[j].ApartFrom(t[k]);
      }
    }
  }

  lemma TableShrinks(t: map<u64, Region>, p: u64)
    requires TableOk(t)
    ensures TableOk(t - {p})
  {
    var u := t - {p};
    forall j, k | j in u && k in u && j != k ensures u[j].ApartFrom(u[k]) {
      assert t[j].ApartFrom(t[k]);
    }
  }

  /** Distinct tracked regions sit in distinct driver allocations. */
  lemma DistinctBases(t: map<u64, Region>, j: u64, k: u64)
    requires TableOk(t) && j in t && k in t && j != k
    ensures t[j].RawBase() != t[k].RawBase()
  {
    assert t[j].ApartFrom(t[k]) && t[j].Fits() && t[k].Fits();
  }

  /** The device after a granted audit_malloc, free of machine arithmetic. */
  ghost function Grown(d: Device, base: u64, size: u64, redzone: u64): Device
    requires 0 < size && base + size + 2 * redzone < WORD && d.total + size < WORD
  {
    var p := base + redzone;
    Device(d.live[base := size + 2 * redzone], d.table[p := Region(p, size, redzone, false)],
           d.total + size, d.violation)
  }

  lemma GrownIsBacked(d: Device, base: u64, size: u64, redzone: u64)
    requires Backed(d) && 0 < size && base + size + 2 * redzone < WORD && d.total + size < WORD
    requires base !in d.live
    ensures Backed(Grown(d, base, size, redzone))
  {
  }

  lemma GrownKeepsInv(d: Device, base: u64, size: u64, redzone: u64)
    requires Inv(d) && 0 < size && FitsPadded(size, redzone)
    requires MayGrant(d.live, size + 2 * redzone, Some(base))
    ensures d.total + size < WORD && base !in d.live && base + redzone !in d.table
    ensures Inv(Grown(d, base, size, redzone))
  {
    hide LiveOk, TableOk, Backed, SumSizes, MayGrant;
    FreshRegion(d, base, size, redzone);
    var r := Region(base + redzone, size, redzone, false);
    SumInsert(d.table, r.address, r);
    LiveGrows(d.live, base, size + 2 * redzone);
    TableGrows(d.table, r);
    GrownIsBacked(d, base, size, redzone);
  }

  lemma MallocKeepsInv(d: Device, size: u64, redzone: u64, base: u64)
    requires Inv(d) && 0 < size && FitsPadded(size, redzone)
    requires MayGrant(d.live, RequestBytes(size, redzone), Some(base))
    ensures d.total + size < WORD && base !in d.live && base + redzone !in d.table
    ensures Malloc(d, true, size, redzone, Some(base))
         == Allocated(Grown(d, base, size, redzone), Some(base + redzone), Success)
    ensures Inv(Grown(d, base, size, redzone))
  {
    hide LiveOk, TableOk, Backed, SumSizes;
    PaddedRequest(size, redzone);
    GrownKeepsInv(d, base, size, redzone);
  }

  /** Exactly when the padded request does not wrap does a successful audit_malloc keep the
      invariant: a wrapped request tracks bytes the driver never granted. */
  lemma MallocKeepsInvExactly(d: Device, size: u64, redzone: u64, base: u64)
    requires Inv(d) && 0 < size
    requires MayGrant(d.live, RequestBytes(size, redzone), Some(base))
    ensures Inv(Malloc(d, true, size, redzone, Some(base)).device) <==> FitsPadded(size, redzone)
  {
    if FitsPadded(size, redzone) {
      MallocKeepsInv(d, size, redzone, base);
    } else {
      var after := Malloc(d, true, size, redzone, Some(base)).device;
      var key := Add64(base, redzone);
      assert after.table[key] == Region(key, size, redzone, false);
      assert !after.table[key].Fits();
    }
  }

  /** Such a request exists: one byte behind a redzone of 2^63 + 8 asks the driver for 17. */
  lemma WrappedRequestIsGranted()
    ensures var size, redzone := 1, 0x8000_0000_0000_0008;
      && RequestBytes(size, redzone) == 17
      && MayGrant(BLANK.live, RequestBytes(size, redzone), Some(4096))
      && Malloc(BLANK, true, size, redzone, Some(4096)).status == Success
      && !Inv(Malloc(BLANK, true, size, redzone, Some(4096)).device)
  {
    assert RequestBytes(1, 0x8000_0000_0000_0008) == 17;
    MallocKeepsInvExactly(BLANK, 1, 0x8000_0000_0000_0008, 4096);
  }

  lemma FreeKeepsInv(d: Device, p: u64, willing: bool)
    requires Inv(d) && p in d.table
    ensures var r := d.table[p];
      var f := Free(d, p, willing);
      && Inv(f.device)
      && r.size <= d.total
      && r.RawBase() in d.live
      && f == Freed(Device(if willing then d.live - {r.RawBase()} else d.live,
                           d.table - {p}, d.total - r.size, d.violation),
                    if willing then Success else ErrCUDAAllocation)
  {
    assert d.table[p].Fits();
    SumRemove(d.table, p);
    TableShrinks(d.table, p);
    LiveShrinks(d.live, {d.table[p].RawBase()});
    var after := Free(d, p, willing).device;
    forall k | k in after.table ensures after.table[k].RawBase() in after.live {
      DistinctBases(d.table, k, p);
    }
  }

  lemma SetPoisonKeepsInv(d: Device, p: u64, size: u64, flag: bool)
    requires Inv(d)
    ensures Inv(SetPoison(d, p, size, flag).device)
  {
    if p in d.table {
      var t := d.table;
      var u := t[p := t[p].(poisoned := flag)];
      SumReplace(t, p, t[p].(poisoned := flag));
      forall j, k | j in u && k in u && j != k ensures u[j].ApartFrom(u[k]) {
        assert t[j].ApartFrom(t[k]);
      }
    }
  }

  lemma ResetKeepsInv(d: Device, refused: set<u64>)
    requires Inv(d)
    ensures Inv(Reset(d, refused))
  {
    LiveShrinks(d.live, Bases(d.table) - refused);
  }

  /** Freeing what was just allocated gives back the device it was allocated on. */
  lemma FreeUndoesMalloc(d: Device, size: u64, redzone: u64, base: u64)
    requires Inv(d) && 0 < size && FitsPadded(size, redzone)
    requires MayGrant(d.live, RequestBytes(size, redzone), Some(base))
    ensures var m := Malloc(d, true, size, redzone, Some(base));
      Free(m.device, m.written.value, true) == Freed(d, Success)
  {
    MallocKeepsInv(d, size, redzone, base);
    var m := Malloc(d, true, size, redzone, Some(base));
    FreeKeepsInv(m.device, m.written.value, true);
    PaddedRequest(size, redzone);
    assert base !in d.live;
    assert m.device.table - {m.written.value} == d.table;
    assert m.device.live - {base} == d.live;
  }

  /** A second free of the same pointer is reported and changes nothing but the report. */
  lemma DoubleFreeIsReported(d: Device, p: u64, first: bool, second: bool)
    requires p in d.table && p != 0
    ensures Free(Free(d, p, first).device, p, second)
         == Freed(LogBadFree(Free(d, p, first).device, p), ErrCUDABoundaryViolation)
  {
  }

  // ---- what each call answers, in numbers ---------------------------------------------

  /** audit_malloc in all its cases, with plain arithmetic modulo 2^64. */
  lemma MallocAnswers(d: Device, hasOut: bool, size: u64, redzone: u64, grant: Option<u64>)
    ensures var m := Malloc(d, hasOut, size, redzone, grant);
      && (!hasOut ==> m.device == d && m.written == None && m.status == ErrCUDAAllocation)
      && (hasOut && size == 0 ==> m.device == d && m.written == Some(0) && m.status == Success)
      && (hasOut && 0 < size && grant.None? ==>
           && m.written == None && m.status == ErrCUDAAllocation
           && m.device.live == d.live && m.device.table == d.table && m.device.total == d.total
           && m.device.violation.Some?
           && m.device.violation.value.address == 0 && m.device.violation.value.bytes == size
           && m.device.violation.value.kind == ErrCUDAAllocation)
      && (hasOut && 0 < size && grant.Some? ==>
           var p := (grant.value + redzone) % WORD;
           && m.written == Some(p) && m.status == Success
           && m.device.live == d.live[grant.value := (size + 2 * redzone) % WORD]
           && p in m.device.table && m.device.table == d.table[p := m.device.table[p]]
           && m.device.table[p].address == p && m.device.table[p].size == size
           && m.device.table[p].redzone == redzone && !m.device.table[p].poisoned
           && m.device.total == (d.total + size) % WORD && m.device.violation == d.violation)
  {
  }

  /** audit_free of null, of an unknown pointer and of a tracked one. */
  lemma FreeAnswers(d: Device, p: u64, willing: bool)
    ensures var f := Free(d, p, willing);
      && (p == 0 ==> f.device == d && f.status == Success)
      && (p != 0 && p !in d.table ==>
           && f.status == ErrCUDABoundaryViolation
           && f.device.live == d.live && f.device.table == d.table && f.device.total == d.total
           && f.device.violation.Some?
           && f.device.violation.value.address == p && f.device.violation.value.bytes == 0
           && f.device.violation.value.kind == ErrCUDABoundaryViolation)
      && (p != 0 && p in d.table ==>
           var raw := (d.table[p].address - d.table[p].redzone) % WORD;
           && f.status == (if willing && raw in d.live then Success else ErrCUDAAllocation)
           && f.device.live == (if willing then d.live - {raw} else d.live)
           && f.device.table == d.table - {p}
           && f.device.total == (d.total - d.table[p].size) % WORD
           && f.device.violation == d.violation)
  {
  }

  /** poison_region and unpoison_region: who is answered Success, and what changes. */
  lemma SetPoisonAnswers(d: Device, p: u64, size: u64, flag: bool)
    ensures var f := SetPoison(d, p, size, flag);
      && (f.status == Success <==> p == 0 || size == 0 || p in d.table)
      && (f.status != Success ==> f.status == ErrCUDABoundaryViolation && f.device == d)
      && f.device.live == d.live && f.device.total == d.total && f.device.violation == d.violation
      && f.device.table.Keys == d.table.Keys
      && forall k :: k in d.table ==>
           && f.device.table[k].address == d.table[k].address && f.device.table[k].size == d.table[k].size
           && f.device.table[k].redzone == d.table[k].redzone
           && f.device.table[k].poisoned == if k == p && p != 0 && size != 0 then flag else d.table[k].poisoned
  {
  }

  /** reset forgets every entry, the total and the last report, and frees exactly the raw bases of
      the entries that the driver does not refuse. */
  lemma ResetAnswers(d: Device, refused: set<u64>)
    ensures var e := Reset(d, refused);
      && e.table == map[] && e.total == 0 && e.violation == None
      && (forall b :: b in e.live <==>
           b in d.live
           && (b in refused || forall k :: k in d.table ==> (d.table[k].address - d.table[k].redzone) % WORD != b))
      && forall b :: b in e.live ==> e.live[b] == d.live[b]
  {
    forall k | k in d.table ensures d.table[k].RawBase() == (d.table[k].address - d.table[k].redzone) % WORD {
    }
    forall b | b in d.live
      ensures b in Bases(d.table) <==> exists k :: k in d.table && (d.table[k].address - d.table[k].redzone) % WORD == b
    {
    }
  }
}
