/** The llama.cpp adapter: one context holding at most one device region. */
module LlamaCppAdapter {
  import opened Machine
  import opened AllocationTable
  import opened AdapterRuns
  import opened Products
  import Sanitizer

  type i32 = x: int | -0x8000_0000 <= x < 0x8000_0000

  datatype Params = Params(nCtx: u32, nBatch: u32, nGpuLayers: u32, vocabSize: u64, embeddingDim: u64)

  const DEFAULTS := Params(2048, 512, 0, 32000, 4096)

  datatype Plan = Refuse(status: Status) | Need(bytes: u64)

  /** The size computation: the first product is guarded exactly, the doubling wraps. */
  ghost function PlanFor(p: Params): Plan {
    if p.nCtx == 0 || p.vocabSize == 0 || p.embeddingDim == 0 then Refuse(ErrMalformedHeader)
    else if MAX64 < p.nCtx * p.embeddingDim then Refuse(ErrIntegerOverflow)
    else if MAX64 / 2 < Mul64(p.nCtx * p.embeddingDim, 2) then Refuse(ErrIntegerOverflow)
    else Need(2 * Mul64(p.nCtx * p.embeddingDim, 2))
  }

  /** The plan is right, the true size of four bytes per token and dimension or a refusal when
      that size exceeds 2^64 - 1, exactly when the product is below 2^63, where the doubling
      does not wrap, or at least 3 * 2^62, where the wrapped double is refused all the same. In
      between 2^65 bytes are missing from the plan. */
  lemma PlanExact(p: Params)
    requires 0 < p.nCtx && 0 < p.vocabSize && 0 < p.embeddingDim
    ensures var n := p.nCtx * p.embeddingDim;
      (PlanFor(p) == if n * 4 <= MAX64 then Need(n * 4) else Refuse(ErrIntegerOverflow))
      <==> !(0x8000_0000_0000_0000 <= n < 0xC000_0000_0000_0000)
    ensures var n := p.nCtx * p.embeddingDim;
      0x8000_0000_0000_0000 <= n < 0xC000_0000_0000_0000 ==> PlanFor(p) == Need(n * 4 - 2 * WORD)
  {
    var n := p.nCtx * p.embeddingDim;
    if n <= MAX64 {
      assert Mul64(n, 2) == if n < 0x8000_0000_0000_0000 then 2 * n else 2 * n - WORD;
    }
  }

  /** A zero field is malformed, whatever the others are. */
  lemma ZeroFieldIsMalformed(p: Params)
    ensures p.nCtx == 0 || p.vocabSize == 0 || p.embeddingDim == 0 <==> PlanFor(p) == Refuse(ErrMalformedHeader)
  {
  }

  /** In between the doubling wraps into the guard: a context of 2^31 tokens of 2^32 dimensions needs 2^65
      bytes and is planned as needing none. */
  lemma WrappedPlan()
    ensures PlanFor(Params(0x8000_0000, 512, 1, 32000, 0x1_0000_0000)) == Need(0)
  {
  }

  /** What the adapter holds, as a map with the one key 0. */
  ghost function HeldBy(ptr: u64, bytes: u64): map<u64, Holding> {
    if ptr == 0 then map[] else map[0 as u64 := Holding(ptr, bytes)]
  }

  /** The adapter and the device under it. */
  datatype Context = Context(device: Device, ptr: u64, bytes: u64, initialized: bool)

  ghost function Released(c: Context, willing: bool): Context {
    Context(Release(c.device, HeldBy(c.ptr, c.bytes), 0, willing).device, 0, 0, false)
  }

  /** A release, then on success an acquisition of the planned bytes when layers are offloaded. */
  ghost function Initialized(c: Context, p: Params, willing: bool, grant: Option<u64>): (Context, Status) {
    var r := Released(c, willing);
    match PlanFor(p)
    case Refuse(st) => (r, st)
    case Need(bytes) =>
      if p.nGpuLayers == 0 || bytes == 0 then (Context(r.device, 0, bytes, true), Success)
      else
        var t := Acquire<u64>(r.device, map[], 0, bytes, grant);
        if t.status == Success then (Context(t.device, t.held[0].ptr, bytes, true), Success)
        else (r.(device := t.device), t.status)
  }

  class LlamaCppAdapter {
    const sanitizer: Sanitizer.CUDASanitizer
    var params: Params
    var gpuContextPtr: u64
    var allocatedBytes: u64
    var initialized: bool

    ghost function State(): Context
      reads this, sanitizer, sanitizer.driver
    {
      Context(sanitizer.State(), gpuContextPtr, allocatedBytes, initialized)
    }

    constructor (sanitizer: Sanitizer.CUDASanitizer)
      ensures this.sanitizer == sanitizer && params == Params(2048, 512, 0, 32000, 4096)
      ensures State() == Context(sanitizer.State(), 0, 0, false)
    {
      this.sanitizer := sanitizer;
      params, gpuContextPtr, allocatedBytes, initialized := DEFAULTS, 0, 0, false;
    }

    /** Gives back the region, if any; the outcome of the free is ignored. */
    method ReleaseContext(willing: bool)
      modifies this, sanitizer, sanitizer.driver
      ensures State() == Released(old(State()), willing) == AfterCall(old(State()), Drop(willing))
      ensures params == old(params)
    {
      if gpuContextPtr != 0 {
        var _ := sanitizer.AuditFree(gpuContextPtr, willing);
        gpuContextPtr := 0;
      }
      allocatedBytes := 0;
      initialized := false;
    }

    /** The size computation of init_context; Success stands for going on. */
    static method Plan(p: Params) returns (refusal: Status, requiredBytes: u64)
      ensures PlanFor(p) == if refusal == Success then Need(requiredBytes) else Refuse(refusal)
    {
      if p.nCtx == 0 || p.vocabSize == 0 || p.embeddingDim == 0 {
        return ErrMalformedHeader, 0;
      }
      var tokens: u64, dims: u64 := p.nCtx, p.embeddingDim;
      GuardIsExact(tokens, dims);
      if tokens > MAX64 / dims {
        return ErrIntegerOverflow, 0;
      }
      hide Mul64;
      MulExact(tokens, dims);
      var totalElements := Mul64(Mul64(tokens, dims), 2);
      if totalElements > MAX64 / 2 {
        return ErrIntegerOverflow, 0;
      }
      MulExact(totalElements, 2);
      return Success, Mul64(totalElements, 2);
    }

    method InitContext(p: Params, willing: bool, grant: Option<u64>) returns (status: Status)
      requires PlanFor(p).Need? && 0 < PlanFor(p).bytes && 0 < p.nGpuLayers ==>
        MayGrant(Released(State(), willing).device.live, RequestBytes(PlanFor(p).bytes, REDZONE), grant)
      modifies this, sanitizer, sanitizer.driver
      ensures (State(), status) == Initialized(old(State()), p, willing, grant)
      ensures State() == AfterCall(old(State()), Init(p, willing, grant))
      ensures params == if status == Success then p else old(params)
    {
      hide Free, PlanFor, MayGrant;
      ReleaseContext(willing);
      var refusal, requiredBytes := Plan(p);
      if refusal != Success {
        return refusal;
      }
      if p.nGpuLayers > 0 {
        var ptr, st := sanitizer.AuditMalloc(true, requiredBytes, REDZONE, grant);
        if st != Success {
          return st;
        }
        gpuContextPtr := ptr.value;
      }
      params, allocatedBytes, initialized := p, requiredBytes, true;
      return Success;
    }

    /** Success exactly for an initialised adapter, at most nCtx tokens, and every token id
        inside the vocabulary. */
    method AuditTokens(tokens: seq<i32>) returns (status: Status)
      ensures status == Success <==>
        && initialized && |tokens| <= params.nCtx
        && forall i :: 0 <= i < |tokens| ==> 0 <= tokens[i] < params.vocabSize
      ensures status == ErrSanitizerViolation <==> !initialized
      ensures status in {Success, ErrSanitizerViolation, ErrOutOfBoundsRead}
    {
      if !initialized {
        return ErrSanitizerViolation;
      }
      if |tokens| > params.nCtx {
        return ErrOutOfBoundsRead;
      }
      for i := 0 to |tokens|
        invariant forall j :: 0 <= j < i ==> 0 <= tokens[j] < params.vocabSize
      {
        if tokens[i] < 0 || tokens[i] >= params.vocabSize {
          return ErrOutOfBoundsRead;
        }
      }
      return Success;
    }
  }

  // ---- lifecycle ----------------------------------------------------------------------

  /** The tracked regions are those of others plus at most the adapter's own one, of the
      recorded size; an uninitialised adapter has none and records nothing. */
  ghost predicate OwnsAtMostOne(c: Context, others: map<u64, Region>) {
    && Inv(c.device)
    && (c.ptr == 0 ==> c.device.table == others)
    && (c.ptr != 0 ==>
         && c.initialized && c.ptr in c.device.table && c.device.table[c.ptr].size == c.bytes
         && c.device.table - {c.ptr} == others)
    && (!c.initialized ==> c.ptr == 0 && c.bytes == 0)
  }

  datatype Call = Init(p: Params, willing: bool, grant: Option<u64>) | Drop(willing: bool)

  ghost function AfterCall(c: Context, call: Call): Context {
    match call
    case Init(p, willing, grant) => Initialized(c, p, willing, grant).0
    case Drop(willing) => Released(c, willing)
  }

  ghost predicate Legal(c: Context, call: Call) {
    call.Init? && PlanFor(call.p).Need? && 0 < PlanFor(call.p).bytes && 0 < call.p.nGpuLayers ==>
      && FitsPadded(PlanFor(call.p).bytes, REDZONE)
      && MayGrant(Released(c, call.willing).device.live, RequestBytes(PlanFor(call.p).bytes, REDZONE), call.grant)
  }

  lemma DropKeeps(c: Context, others: map<u64, Region>, willing: bool)
    requires OwnsAtMostOne(c, others)
    ensures OwnsAtMostOne(Released(c, willing), others)
  {
    hide Inv;
    if c.ptr != 0 {
      FreeKeepsInv(c.device, c.ptr, willing);
    }
  }

  lemma TakeKeeps(d: Device, bytes: u64, grant: Option<u64>)
    requires Inv(d) && 0 < bytes && FitsPadded(bytes, REDZONE)
    requires MayGrant(d.live, RequestBytes(bytes, REDZONE), grant)
    ensures var t := Acquire<u64>(d, map[], 0, bytes, grant);
      && (t.status == Success ==>
           && 0 in t.held && t.held[0].ptr != 0
           && OwnsAtMostOne(Context(t.device, t.held[0].ptr, bytes, true), d.table))
      && (t.status != Success ==> Inv(t.device) && t.device.table == d.table)
  {
    hide Inv;
    PaddedRequest(bytes, REDZONE);
    if grant.Some? {
      MallocKeepsInv(d, bytes, REDZONE, grant.value);
      var key := grant.value + REDZONE;
      var grown := Grown(d, grant.value, bytes, REDZONE);
      NullIsNotTracked(grown);
      assert grown.table - {key} == d.table;
    } else {
      RefusedKeepsInv(d, bytes);
    }
  }

  lemma InitKeeps(c: Context, others: map<u64, Region>, p: Params, willing: bool, grant: Option<u64>)
    requires OwnsAtMostOne(c, others) && Legal(c, Init(p, willing, grant))
    ensures var (d, st) := Initialized(c, p, willing, grant);
      && OwnsAtMostOne(d, others)
      && (st == Success <==> d.initialized)
      && (st != Success ==> d.ptr == 0 && d.bytes == 0 && d.device.table == others)
  {
    hide Inv, PlanFor, Released, MayGrant, Acquire;
    DropKeeps(c, others, willing);
    ReleasedIsEmpty(c, willing);
    PlanRefusals(p);
    if PlanFor(p).Need? && 0 < PlanFor(p).bytes && 0 < p.nGpuLayers {
      TakeKeeps(Released(c, willing).device, PlanFor(p).bytes, grant);
    }
  }

  /** The device once the adapter's region, if any, is given back. */
  ghost function GivenBack(c: Context, willing: bool): Device {
    if c.ptr == 0 then c.device else Free(c.device, c.ptr, willing).device
  }

  ghost predicate Empty(c: Context) {
    !c.initialized && c.ptr == 0 && c.bytes == 0
  }

  /** release takes the region out of the table and its bytes off the total, reports nothing
      and leaves the adapter empty. */
  lemma ReleaseDrops(c: Context, others: map<u64, Region>, willing: bool)
    requires OwnsAtMostOne(c, others)
    ensures var r := Released(c, willing);
      && Empty(r) && r.device == GivenBack(c, willing) && Inv(r.device)
      && r.device.table == others
      && r.device.total == c.device.total - (if c.ptr == 0 then 0 else c.bytes)
      && r.device.violation == c.device.violation
  {
    NullIsNotTracked(c.device);
    DropKeeps(c, others, willing);
    if c.ptr != 0 {
      FreeKeepsInv(c.device, c.ptr, willing);
    }
  }

  /** init_context that plans no or too many bytes: the status, and the empty adapter. */
  lemma InitRefuses(c: Context, others: map<u64, Region>, p: Params, willing: bool, grant: Option<u64>)
    requires OwnsAtMostOne(c, others)
    ensures var n := p.nCtx * p.embeddingDim;
      var (d, st) := Initialized(c, p, willing, grant);
      var malformed := p.nCtx == 0 || p.vocabSize == 0 || p.embeddingDim == 0;
      && (malformed ==> st == ErrMalformedHeader)
      && (!malformed && MAX64 < n * 4 && !(0x8000_0000_0000_0000 <= n < 0xC000_0000_0000_0000) ==>
           st == ErrIntegerOverflow)
      && (malformed || st == ErrIntegerOverflow ==>
           Empty(d) && d.device == GivenBack(c, willing) && d.device.table == others)
  {
    hide PlanFor, Inv, Released, Acquire, GivenBack;
    ReleaseDrops(c, others, willing);
    ZeroFieldIsMalformed(p);
    if 0 < p.nCtx && 0 < p.vocabSize && 0 < p.embeddingDim {
      PlanExact(p);
    }
    AcquireAnswers<u64>(Released(c, willing).device, map[], 0, if PlanFor(p).Need? then PlanFor(p).bytes else 0, grant);
  }

  /** init_context that plans the true size of n * 4 bytes: with layers to offload it holds
      exactly that many bytes, 256 behind the granted base, or reports the driver's refusal;
      without layers it only remembers the size. */
  lemma InitHolds(c: Context, others: map<u64, Region>, p: Params, willing: bool, grant: Option<u64>)
    requires OwnsAtMostOne(c, others) && Legal(c, Init(p, willing, grant))
    requires 0 < p.nCtx && 0 < p.vocabSize && 0 < p.embeddingDim && p.nCtx * p.embeddingDim * 4 <= MAX64
    ensures var bytes := p.nCtx * p.embeddingDim * 4;
      var total := c.device.total - (if c.ptr == 0 then 0 else c.bytes);
      var (d, st) := Initialized(c, p, willing, grant);
      && (p.nGpuLayers == 0 ==>
           && st == Success && d.initialized && d.ptr == 0 && d.bytes == bytes
           && d.device == GivenBack(c, willing) && d.device.table == others && d.device.total == total)
      && (0 < p.nGpuLayers && grant.Some? ==>
           && st == Success && d.initialized && d.ptr == grant.value + 256 && d.bytes == bytes
           && d.ptr in d.device.table && d.device.table[d.ptr].size == bytes
           && d.device.table - {d.ptr} == others && d.device.total == total + bytes)
      && (0 < p.nGpuLayers && grant.None? ==>
           st == ErrCUDAAllocation && Empty(d) && d.device.table == others && d.device.total == total)
  {
    hide PlanFor, Inv, Released, Acquire, GivenBack, MayGrant;
    ReleaseDrops(c, others, willing);
    PlanExact(p);
    TrueSize(p);
    if 0 < p.nGpuLayers {
      TakeHolds(Released(c, willing).device, p.nCtx * p.embeddingDim * 4, grant);
    }
  }

  lemma TrueSize(p: Params)
    requires 0 < p.nCtx && 0 < p.embeddingDim && p.nCtx * p.embeddingDim * 4 <= MAX64
    ensures p.nCtx * p.embeddingDim < 0x8000_0000_0000_0000 && 0 < p.nCtx * p.embeddingDim * 4
  {
    FactorBelow(p.nCtx, p.embeddingDim);
  }

  lemma TakeHolds(d: Device, bytes: u64, grant: Option<u64>)
    requires Inv(d) && 0 < bytes && FitsPadded(bytes, REDZONE)
    requires MayGrant(d.live, RequestBytes(bytes, REDZONE), grant)
    ensures var t := Acquire<u64>(d, map[], 0, bytes, grant);
      && (grant.Some? ==>
           var p := grant.value + 256;
           && t.status == Success && p < WORD && 0 in t.held && t.held[0].ptr == p
           && p in t.device.table && t.device.table[p].size == bytes
           && t.device.table - {p} == d.table && t.device.total == d.total + bytes)
      && (grant.None? ==> t.status == ErrCUDAAllocation && t.device.table == d.table && t.device.total == d.total)
  {
    hide Inv, Acquire, MayGrant;
    AcquireAnswers<u64>(d, map[], 0, bytes, grant);
    PaddedRequest(bytes, REDZONE);
    if grant.Some? {
      MallocKeepsInv(d, bytes, REDZONE, grant.value);
    }
  }

  lemma ReleasedIsEmpty(c: Context, willing: bool)
    ensures var r := Released(c, willing);
      r.ptr == 0 && r.bytes == 0 && !r.initialized
  {
  }

  lemma PlanRefusals(p: Params)
    ensures PlanFor(p).Refuse? ==> PlanFor(p).status != Success
  {
  }

  ghost function Exec(c: Context, calls: seq<Call>): Context
    decreases |calls|
  {
    if calls == [] then c else Exec(AfterCall(c, calls[0]), calls[1..])
  }

  ghost predicate LegalRun(c: Context, calls: seq<Call>)
    decreases |calls|
  {
    calls != [] ==> Legal(c, calls[0]) && LegalRun(AfterCall(c, calls[0]), calls[1..])
  }

  /** Over any sequence of init_context and release nothing but the adapter's current region is
      ever added to the table: repeated initialisation loses no region. */
  lemma {:induction false} Lifecycle(c: Context, others: map<u64, Region>, calls: seq<Call>)
    requires OwnsAtMostOne(c, others) && LegalRun(c, calls)
    ensures OwnsAtMostOne(Exec(c, calls), others)
    decreases |calls|
  {
    hide OwnsAtMostOne, Legal, Initialized, Released;
    if calls != [] {
      match calls[0] {
        case Init(p, willing, grant) => InitKeeps(c, others, p, willing, grant);
        case Drop(willing) => DropKeeps(c, others, willing);
      }
      Lifecycle(AfterCall(c, calls[0]), others, calls[1..]);
    }
  }
}
