/**
 The CUDA sanitizer as a mutable object over a driver object. Every method is tied to the
 function of AllocationTable.dfy that gives the device after the call; the laws proved
 there and in Shadow.dfy are laws of these methods.
 */
module Sanitizer {
  import opened Machine
  import opened AllocationTable

  /** cudaMalloc and cudaFree. What the real driver decides is an argument of each call. */
  class Driver {
    var live: map<u64, u64>

    constructor ()
      ensures live == map[]
    {
      live := map[];
    }

    method CudaMalloc(bytes: u64, grant: Option<u64>) returns (base: Option<u64>)
      requires MayGrant(live, bytes, grant)
      modifies this
      ensures base == grant
      ensures live == if grant.Some? then old(live)[grant.value := bytes] else old(live)
    {
      if grant.Some? {
        live := live[grant.value := bytes];
      }
      base := grant;
    }

    method CudaFree(base: u64, willing: bool) returns (ok: bool)
      modifies this
      ensures ok <==> willing && base in old(live)
      ensures live == DriverFree(old(live), base, willing)
    {
      ok := willing && base in live;
      if willing {
        live := live - {base};
      }
    }
  }

  class CUDASanitizer {
    const driver: Driver
    var trackedRegions: map<u64, Region>
    var totalBytes: u64
    var lastViolation: Option<Report>

    ghost function State(): Device
      reads this, driver
    {
      Device(driver.live, trackedRegions, totalBytes, lastViolation)
    }

    constructor (driver: Driver)
      ensures this.driver == driver
      ensures State() == Device(driver.live, map[], 0, None)
    {
      this.driver := driver;
      trackedRegions, totalBytes, lastViolation := map[], 0, None;
    }

    method AuditMalloc(hasOut: bool, size: u64, redzone: u64, grant: Option<u64>)
      returns (written: Option<u64>, status: Status)
      requires hasOut && 0 < size ==> MayGrant(driver.live, RequestBytes(size, redzone), grant)
      modifies this, driver
      ensures Allocated(State(), written, status) == Malloc(old(State()), hasOut, size, redzone, grant)
    {
      if !hasOut {
        return None, ErrCUDAAllocation;
      }
      if size == 0 {
        return Some(0), Success;
      }
      var bytes := Add64(size, Mul64(redzone, 2));
      var raw := driver.CudaMalloc(bytes, grant);
      if raw.None? {
        lastViolation := Some(Report(0, size, ErrCUDAAllocation));
        return None, ErrCUDAAllocation;
      }
      var usable := Add64(raw.value, redzone);
      trackedRegions := trackedRegions[usable := Region(usable, size, redzone, false)];
      totalBytes := Add64(totalBytes, size);
      return Some(usable), Success;
    }

    method AuditFree(p: u64, willing: bool) returns (status: Status)
      modifies this, driver
      ensures Freed(State(), status) == Free(old(State()), p, willing)
    {
      if p == 0 {
        return Success;
      }
      if p !in trackedRegions {
        lastViolation := Some(Report(p, 0, ErrCUDABoundaryViolation));
        return ErrCUDABoundaryViolation;
      }
      var region := trackedRegions[p];
      var raw := Sub64(region.address, region.redzone);
      totalBytes := Sub64(totalBytes, region.size);
      trackedRegions := trackedRegions - {p};
      var ok := driver.CudaFree(raw, willing);
      return if ok then Success else ErrCUDAAllocation;
    }

    /** The loop visits the regions in whatever order the hash map yields them. */
    method CheckBounds(p: u64, n: u64) returns (valid: bool)
      ensures valid ==> AllocationTable.CheckBounds(trackedRegions, p, n)
      ensures TableOk(trackedRegions) ==> (valid <==> AllocationTable.CheckBounds(trackedRegions, p, n))
    {
      if p == 0 || n == 0 {
        return false;
      }
      var end := Add64(p, n);
      var todo := trackedRegions.Keys;
      while todo != {}
        invariant todo <= trackedRegions.Keys
        invariant forall k :: k in trackedRegions && k !in todo ==> !Hits(trackedRegions[k], p)
        decreases todo
      {
        var k :| k in todo;
        var region := trackedRegions[k];
        if region.address <= p && p < region.PayloadEnd() {
          if TableOk(trackedRegions) {
            OneHit(trackedRegions, p, k);
          }
          return !(end > region.PayloadEnd() || region.poisoned);
        }
        todo := todo - {k};
      }
      return false;
    }

    method PoisonRegion(p: u64, size: u64) returns (status: Status)
      modifies this`trackedRegions
      ensures Freed(State(), status) == SetPoison(old(State()), p, size, true)
    {
      if p == 0 || size == 0 {
        return Success;
      }
      if p in trackedRegions {
        trackedRegions := trackedRegions[p := trackedRegions[p].(poisoned := true)];
        return Success;
      }
      return ErrCUDABoundaryViolation;
    }

    method UnpoisonRegion(p: u64, size: u64) returns (status: Status)
      modifies this`trackedRegions
      ensures Freed(State(), status) == SetPoison(old(State()), p, size, false)
    {
      if p == 0 || size == 0 {
        return Success;
      }
      if p in trackedRegions {
        trackedRegions := trackedRegions[p := trackedRegions[p].(poisoned := false)];
        return Success;
      }
      return ErrCUDABoundaryViolation;
    }

    method Reset(refused: set<u64>)
      modifies this, driver
      ensures State() == AllocationTable.Reset(old(State()), refused)
    {
      ghost var before := driver.live;
      var todo := trackedRegions.Keys;
      ghost var done: map<u64, Region> := map[];
      while todo != {}
        invariant todo <= trackedRegions.Keys
        invariant trackedRegions == old(trackedRegions)
        invariant done == trackedRegions - todo
        invariant driver.live == before - (Bases(done) - refused)
        decreases todo
      {
        var k :| k in todo;
        var raw := Sub64(trackedRegions[k].address, trackedRegions[k].redzone);
        var _ := driver.CudaFree(raw, raw !in refused);
        BasesGrow(done, k, trackedRegions[k]);
        todo, done := todo - {k}, done[k := trackedRegions[k]];
      }
      assert done == trackedRegions;
      trackedRegions, lastViolation, totalBytes := map[], None, 0;
    }
  }

  /** At most one tracked payload holds a given address. */
  lemma OneHit(t: map<u64, Region>, p: u64, k: u64)
    requires TableOk(t) && k in t && Hits(t[k], p)
    ensures forall j :: j in t && Hits(t[j], p) ==> j == k
  {
    forall j | j in t && j != k ensures !Hits(t[j], p) {
      assert t[j].ApartFrom(t[k]) && t[j].Fits() && t[k].Fits();
    }
  }

  lemma BasesGrow(t: map<u64, Region>, k: u64, r: Region)
    requires k !in t
    ensures Bases(t[k := r]) == Bases(t) + {r.RawBase()}
  {
    var u := t[k := r];
    assert u[k].RawBase() in Bases(u);
    forall b | b in Bases(t) ensures b in Bases(u) {
      var j :| j in t && t[j].RawBase() == b;
      assert u[j].RawBase() == b;
    }
  }
}
