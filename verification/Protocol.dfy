/**
 Any number of threads inside audit_malloc, audit_free, poison_region and reset at once.
 cudaMalloc and cudaFree run outside the mutex, so every driver call and every locked section
 is one step; a run is any interleaving of such steps. reset keeps the mutex across its
 driver calls and takes one step per region.
 */
module Protocol {
  import opened Machine
  import opened AllocationTable

  type Tid = nat

  datatype Pc =
    | Idle
    | Refused(size: u64)                            // cudaMalloc failed, report not yet written
    | Granted(base: u64, size: u64, redzone: u64)   // cudaMalloc answered, region not yet tracked
    | Erased(base: u64, span: int)                  // entry erased, cudaFree not yet issued
    | Resetting(todo: set<u64>)                     // inside reset: keys not yet freed

  datatype World = World(
    dev: Device,
    pcs: map<Tid, Pc>,
    holder: Option<Tid>,        // the thread inside reset, which keeps the mutex between steps
    // bookkeeping that no step reads
    leaked: set<u64>,           // live bases whose cudaFree failed
    serial: map<u64, nat>,      // a number for every live allocation, never used twice
    next: nat,
    handed: set<nat>)           // numbers of the allocations passed to cudaFree so far

  const START := World(BLANK, map[], None, {}, map[], 0, {})

  function At(w: World, t: Tid): Pc {
    if t in w.pcs then w.pcs[t] else Idle
  }

  function Todo(w: World): set<u64> {
    if w.holder.Some? && At(w, w.holder.value).Resetting? then At(w, w.holder.value).todo else w.dev.table.Keys
  }

  // ---- the steps ----------------------------------------------------------------------

  datatype Event =
    | CudaMalloc(t: Tid, size: u64, redzone: u64, grant: Option<u64>)
    | ReportRefusal(t: Tid)
    | Track(t: Tid)
    | Lookup(t: Tid, p: u64)
    | CudaFree(t: Tid, willing: bool)
    | MarkPoison(t: Tid, p: u64, size: u64, flag: bool)
    | ResetBegin(t: Tid)
    | ResetFree(t: Tid, k: u64, willing: bool)
    | ResetEnd(t: Tid)

  ghost predicate Enabled(w: World, e: Event) {
    match e
    case CudaMalloc(t, size, redzone, grant) =>
      At(w, t).Idle? && 0 < size && FitsPadded(size, redzone)
      && MayGrant(w.dev.live, RequestBytes(size, redzone), grant)
    case ReportRefusal(t) => At(w, t).Refused? && w.holder.None?
    case Track(t) => At(w, t).Granted? && w.holder.None?
    case Lookup(t, p) => At(w, t).Idle? && p != 0 && w.holder.None?
    case CudaFree(t, _) => At(w, t).Erased?
    case MarkPoison(t, _, _, _) => At(w, t).Idle? && w.holder.None?
    case ResetBegin(t) => At(w, t).Idle? && w.holder.None?
    case ResetFree(t, k, _) =>
      w.holder == Some(t) && At(w, t).Resetting? && k in At(w, t).todo && k in w.dev.table
    case ResetEnd(t) => w.holder == Some(t) && At(w, t) == Resetting({})
  }

  function Goto(w: World, t: Tid, pc: Pc): World {
    w.(pcs := w.pcs[t := pc])
  }

  /** cudaFree of `base` with its bookkeeping. */
  function Hand(w: World, base: u64, willing: bool): World {
    var num := if base in w.serial then {w.serial[base]} else {};
    if willing then
      w.(dev := w.dev.(live := DriverFree(w.dev.live, base, true)),
         serial := w.serial - {base}, handed := w.handed + num)
    else
      w.(leaked := w.leaked + {base}, handed := w.handed + num)
  }

  function Apply(w: World, e: Event): World {
    match e
    case CudaMalloc(t, size, redzone, None) => Goto(w, t, Refused(size))
    case CudaMalloc(t, size, redzone, Some(base)) =>
      Goto(w.(dev := DriverAlloc(w.dev, base, RequestBytes(size, redzone)),
              serial := w.serial[base := w.next], next := w.next + 1),
           t, Granted(base, size, redzone))
    case ReportRefusal(t) =>
      if At(w, t).Refused? then Goto(w.(dev := LogRefusal(w.dev, At(w, t).size)), t, Idle) else w
    case Track(t) =>
      if At(w, t).Granted? then
        Goto(w.(dev := Register(w.dev, At(w, t).base, At(w, t).size, At(w, t).redzone)), t, Idle)
      else w
    case Lookup(t, p) =>
      if p in w.dev.table then
        Goto(w.(dev := Erase(w.dev, p)), t, Erased(w.dev.table[p].RawBase(), w.dev.table[p].Span()))
      else w.(dev := LogBadFree(w.dev, p))
    case CudaFree(t, willing) =>
      if At(w, t).Erased? then Goto(Hand(w, At(w, t).base, willing), t, Idle) else w
    case MarkPoison(t, p, size, flag) => w.(dev := SetPoison(w.dev, p, size, flag).device)
    case ResetBegin(t) => Goto(w.(holder := Some(t)), t, Resetting(w.dev.table.Keys))
    case ResetFree(t, k, willing) =>
      if At(w, t).Resetting? && k in w.dev.table then
        Goto(Hand(w, w.dev.table[k].RawBase(), willing), t, Resetting(At(w, t).todo - {k}))
      else w
    case ResetEnd(t) => Goto(w.(dev := Device(w.dev.live, map[], 0, None), holder := None), t, Idle)
  }

  ghost predicate Run(w: World, es: seq<Event>)
    decreases |es|
  {
    es == [] || (Enabled(w, es[0]) && Run(Apply(w, es[0]), es[1..]))
  }

  function Exec(w: World, es: seq<Event>): World
    decreases |es|
  {
    if es == [] then w else Exec(Apply(w, es[0]), es[1..])
  }

  // ---- who is responsible for a live allocation ---------------------------------------

  datatype Owner =
    | Tracked(k: u64)     // a table entry that reset has not freed yet
    | Pending(t: Tid)     // allocated, not yet registered
    | Dying(t: Tid)       // erased, not yet freed
    | Leaked(b: u64)      // cudaFree failed

  datatype Claim = NoClaim | Claim(base: u64, span: int)

  ghost function Held(w: World, o: Owner): Claim {
    match o
    case Tracked(k) =>
      if k in w.dev.table && k in Todo(w) then Claim(w.dev.table[k].RawBase(), w.dev.table[k].Span()) else NoClaim
    case Pending(t) =>
      if At(w, t).Granted? then Claim(At(w, t).base, At(w, t).size + 2 * At(w, t).redzone) else NoClaim
    case Dying(t) =>
      if At(w, t).Erased? then Claim(At(w, t).base, At(w, t).span) else NoClaim
    case Leaked(b) =>
      if b in w.leaked && b in w.dev.live then Claim(b, w.dev.live[b]) else NoClaim
  }

  /** The live driver allocations are exactly the disjoint union of what the owners hold. */
  ghost predicate Partition(w: World) {
    && (forall o :: Held(w, o).Claim? ==>
         Held(w, o).base in w.dev.live && w.dev.live[Held(w, o).base] == Held(w, o).span)
    && (forall o, u :: SameBase(w, o, u) ==> o == u)
    && (forall b :: b in w.dev.live ==> HasOwner(w, b))
  }

  ghost predicate SameBase(w: World, o: Owner, u: Owner) {
    Held(w, o).Claim? && Held(w, u).Claim? && Held(w, o).base == Held(w, u).base
  }

  ghost predicate HasOwner(w: World, b: u64) {
    exists o :: Held(w, o).Claim? && Held(w, o).base == b
  }

  ghost predicate Shape(w: World) {
    && LiveOk(w.dev.live)
    && (forall k :: k in w.dev.table ==> w.dev.table[k].Fits() && w.dev.table[k].address == k)
    && (forall t: Tid :: At(w, t).Resetting? <==> w.holder == Some(t))
    && Todo(w) <= w.dev.table.Keys
    && (forall t: Tid :: At(w, t).Refused? ==> 0 < At(w, t).size)
    && (forall t: Tid :: At(w, t).Granted? ==> 0 < At(w, t).size && FitsPadded(At(w, t).size, At(w, t).redzone))
    && (w.holder.None? ==> w.dev.total == SumSizes(w.dev.table))
  }

  ghost predicate Numbered(w: World) {
    && w.serial.Keys == w.dev.live.Keys
    && (forall b :: b in w.serial ==> w.serial[b] < w.next)
    && (forall a, b :: a in w.serial && b in w.serial && w.serial[a] == w.serial[b] ==> a == b)
    && (forall i :: i in w.handed ==> i < w.next)
    && w.leaked <= w.dev.live.Keys
    && (forall b :: b in w.serial ==> (w.serial[b] in w.handed <==> b in w.leaked))
  }

  ghost predicate WorldInv(w: World) {
    Shape(w) && Partition(w) && Numbered(w)
  }

  // ---- partitions under the four ways a step changes claims ---------------------------

  lemma ClaimsKept(w: World, v: World)
    requires Partition(w) && v.dev.live == w.dev.live
    requires forall o :: Held(v, o) == Held(w, o)
    ensures Partition(v)
  {
    forall o, u | SameBase(v, o, u) ensures o == u {
      assert SameBase(w, o, u);
    }
    forall b | b in v.dev.live ensures HasOwner(v, b) {
      var o :| Held(w, o).Claim? && Held(w, o).base == b;
      assert Held(v, o) == Held(w, o);
    }
  }

  lemma ClaimMoves(w: World, v: World, from: Owner, to: Owner)
    requires Partition(w) && v.dev.live == w.dev.live && from != to
    requires Held(w, from).Claim? && Held(w, to).NoClaim?
    requires forall o :: Held(v, o) == if o == to then Held(w, from) else if o == from then NoClaim else Held(w, o)
    ensures Partition(v)
  {
    forall o, u | SameBase(v, o, u) ensures o == u {
      assert SameBase(w, if o == to then from else o, if u == to then from else u);
    }
    forall b | b in v.dev.live ensures HasOwner(v, b) {
      var o :| Held(w, o).Claim? && Held(w, o).base == b;
      assert Held(v, if o == from then to else o) == Held(w, o);
    }
  }

  lemma ClaimAdded(w: World, v: World, owner: Owner, base: u64, span: u64)
    requires Partition(w) && base !in w.dev.live && v.dev.live == w.dev.live[base := span]
    requires Held(w, owner).NoClaim?
    requires forall o :: Held(v, o) == if o == owner then Claim(base, span) else Held(w, o)
    ensures Partition(v)
  {
    forall o, u | SameBase(v, o, u) ensures o == u {
      assert o != owner && u != owner ==> SameBase(w, o, u);
    }
    forall b | b in v.dev.live ensures HasOwner(v, b) {
      if b == base {
        assert Held(v, owner) == Claim(base, span);
      } else {
        var o :| Held(w, o).Claim? && Held(w, o).base == b;
        assert Held(v, o) == Held(w, o);
      }
    }
  }

  lemma ClaimDropped(w: World, v: World, owner: Owner)
    requires Partition(w) && Held(w, owner).Claim?
    requires v.dev.live == w.dev.live - {Held(w, owner).base}
    requires forall o :: Held(v, o) == if o == owner then NoClaim else Held(w, o)
    ensures Partition(v)
  {
    forall o | Held(v, o).Claim?
      ensures Held(v, o).base in v.dev.live && v.dev.live[Held(v, o).base] == Held(v, o).span
    {
      assert !SameBase(w, o, owner);
    }
    forall o, u | SameBase(v, o, u) ensures o == u {
      assert SameBase(w, o, u);
    }
    forall b | b in v.dev.live ensures HasOwner(v, b) {
      var o :| Held(w, o).Claim? && Held(w, o).base == b;
      assert Held(v, o) == Held(w, o);
    }
  }

  lemma NumberedAlloc(w: World, v: World, base: u64, bytes: u64)
    requires Numbered(w) && base !in w.dev.live
    requires v.dev.live == w.dev.live[base := bytes] && v.leaked == w.leaked && v.handed == w.handed
    requires v.serial == w.serial[base := w.next] && v.next == w.next + 1
    ensures Numbered(v)
  {
  }

  lemma NumberedHand(w: World, v: World, base: u64, willing: bool)
    requires Numbered(w) && base in w.dev.live && base !in w.leaked
    requires v.dev.live == Hand(w, base, willing).dev.live && v.serial == Hand(w, base, willing).serial
    requires v.leaked == Hand(w, base, willing).leaked && v.handed == Hand(w, base, willing).handed && v.next == w.next
    ensures Numbered(v)
  {
  }

  lemma NotLeaked(w: World, o: Owner)
    requires WorldInv(w) && Held(w, o).Claim? && !o.Leaked?
    ensures Held(w, o).base in w.dev.live && Held(w, o).base !in w.leaked
    ensures w.dev.live[Held(w, o).base] == Held(w, o).span
    ensures w.serial[Held(w, o).base] !in w.handed
  {
    var b := Held(w, o).base;
    assert !SameBase(w, o, Leaked(b));
  }

  // ---- the table when the mutex is free -----------------------------------------------

  /** Whenever the mutex is free, the sanitizer satisfies the sequential invariant. */
  lemma FreeMutexInv(w: World)
    requires WorldInv(w) && w.holder.None?
    ensures Inv(w.dev)
  {
    var t := w.dev.table;
    forall k | k in t ensures t[k].RawBase() in w.dev.live && w.dev.live[t[k].RawBase()] == t[k].Span() {
      assert Held(w, Tracked(k)).Claim?;
    }
    forall j, k | j in t && k in t && j != k ensures t[j].ApartFrom(t[k]) {
      var a, b := Held(w, Tracked(j)), Held(w, Tracked(k));
      assert a.Claim? && b.Claim? && !SameBase(w, Tracked(j), Tracked(k));
      assert t[j].Fits() && t[k].Fits();
      assert Apart(a.base, w.dev.live[a.base], b.base, w.dev.live[b.base]);
    }
  }

  // ---- every step keeps the invariant -------------------------------------------------

  lemma ShapeCudaMalloc(w: World, t: Tid, size: u64, redzone: u64, grant: Option<u64>)
    requires WorldInv(w) && Enabled(w, CudaMalloc(t, size, redzone, grant))
    ensures Shape(Apply(w, CudaMalloc(t, size, redzone, grant)))
  {
    var v := Apply(w, CudaMalloc(t, size, redzone, grant));
    assert forall u: Tid :: At(v, u) == if u == t then v.pcs[t] else At(w, u);
    if grant.Some? {
      LiveGrows(w.dev.live, grant.value, RequestBytes(size, redzone));
    }
  }

  lemma ClaimsCudaMalloc(w: World, t: Tid, size: u64, redzone: u64, grant: Option<u64>)
    requires WorldInv(w) && Enabled(w, CudaMalloc(t, size, redzone, grant))
    ensures Partition(Apply(w, CudaMalloc(t, size, redzone, grant)))
  {
    hide LiveOk, SumSizes, MayGrant;
    var v := Apply(w, CudaMalloc(t, size, redzone, grant));
    assert forall u: Tid :: At(v, u) == if u == t then v.pcs[t] else At(w, u);
    assert Todo(v) == Todo(w);
    if grant.None? {
      forall o ensures Held(v, o) == Held(w, o) {
      }
      ClaimsKept(w, v);
    } else {
      PaddedRequest(size, redzone);
      LiveGrows(w.dev.live, grant.value, size + 2 * redzone);
      forall o ensures Held(v, o) == if o == Pending(t) then Claim(grant.value, size + 2 * redzone) else Held(w, o) {
      }
      ClaimAdded(w, v, Pending(t), grant.value, size + 2 * redzone);
    }
  }

  lemma StepCudaMalloc(w: World, t: Tid, size: u64, redzone: u64, grant: Option<u64>)
    requires WorldInv(w) && Enabled(w, CudaMalloc(t, size, redzone, grant))
    ensures WorldInv(Apply(w, CudaMalloc(t, size, redzone, grant)))
  {
    ShapeCudaMalloc(w, t, size, redzone, grant);
    ClaimsCudaMalloc(w, t, size, redzone, grant);
    if grant.Some? {
      LiveGrows(w.dev.live, grant.value, RequestBytes(size, redzone));
      NumberedAlloc(w, Apply(w, CudaMalloc(t, size, redzone, grant)), grant.value, RequestBytes(size, redzone));
    }
  }

  lemma StepReportRefusal(w: World, t: Tid)
    requires WorldInv(w) && Enabled(w, ReportRefusal(t))
    ensures WorldInv(Apply(w, ReportRefusal(t)))
  {
    var v := Apply(w, ReportRefusal(t));
    assert forall u: Tid :: At(v, u) == if u == t then Idle else At(w, u);
    forall o ensures Held(v, o) == Held(w, o) {
    }
    ClaimsKept(w, v);
  }

  /** The key of a granted interval is never in the table, so insert_or_assign never overwrites
      an entry and the addition to m_total_bytes does not wrap. */
  lemma TrackIsFresh(w: World, t: Tid)
    requires WorldInv(w) && Enabled(w, Track(t))
    ensures var g := At(w, t);
      && g.base + g.redzone < WORD
      && g.base + g.redzone !in w.dev.table
      && w.dev.total + g.size < WORD
      && Region(g.base + g.redzone, g.size, g.redzone, false).Fits()
  {
    var g := At(w, t);
    FreeMutexInv(w);
    assert Held(w, Pending(t)) == Claim(g.base, g.size + 2 * g.redzone);
    var r := Region(g.base + g.redzone, g.size, g.redzone, false);
    forall k | k in w.dev.table ensures k != r.address && w.dev.table[k].ApartFrom(r) && r.ApartFrom(w.dev.table[k]) {
      var c := Held(w, Tracked(k));
      assert !SameBase(w, Tracked(k), Pending(t)) && w.dev.table[k].Fits();
      assert Apart(g.base, w.dev.live[g.base], c.base, w.dev.live[c.base]);
    }
    TableGrows(w.dev.table, r);
    SumInsert(w.dev.table, r.address, r);
    SumBelow(w.dev.table[r.address := r], MAX64);
  }

  lemma ShapeTrack(w: World, t: Tid)
    requires WorldInv(w) && Enabled(w, Track(t))
    ensures Shape(Apply(w, Track(t)))
  {
    TrackIsFresh(w, t);
    var g := At(w, t);
    var p := g.base + g.redzone;
    SumInsert(w.dev.table, p, Region(p, g.size, g.redzone, false));
    assert forall u: Tid :: At(Apply(w, Track(t)), u) == if u == t then Idle else At(w, u);
  }

  lemma ClaimsTrack(w: World, t: Tid)
    requires WorldInv(w) && Enabled(w, Track(t))
    ensures Partition(Apply(w, Track(t)))
  {
    hide LiveOk, SumSizes;
    var v := Apply(w, Track(t));
    TrackIsFresh(w, t);
    var g := At(w, t);
    var p := g.base + g.redzone;
    assert forall u: Tid :: At(v, u) == if u == t then Idle else At(w, u);
    assert v.dev.table == w.dev.table[p := Region(p, g.size, g.redzone, false)];
    forall o ensures Held(v, o) ==
      if o == Tracked(p) then Held(w, Pending(t)) else if o == Pending(t) then NoClaim else Held(w, o)
    {
    }
    ClaimMoves(w, v, Pending(t), Tracked(p));
  }

  lemma StepTrack(w: World, t: Tid)
    requires WorldInv(w) && Enabled(w, Track(t))
    ensures WorldInv(Apply(w, Track(t)))
  {
    ShapeTrack(w, t);
    ClaimsTrack(w, t);
  }

  /** The subtraction from m_total_bytes never underflows. */
  lemma LookupIsCovered(w: World, t: Tid, p: u64)
    requires WorldInv(w) && Enabled(w, Lookup(t, p)) && p in w.dev.table
    ensures w.dev.table[p].size <= w.dev.total
  {
    SumRemove(w.dev.table, p);
  }

  lemma ShapeLookup(w: World, t: Tid, p: u64)
    requires WorldInv(w) && Enabled(w, Lookup(t, p))
    ensures Shape(Apply(w, Lookup(t, p)))
  {
    var v := Apply(w, Lookup(t, p));
    assert p in w.dev.table ==> forall u: Tid :: At(v, u) == if u == t then v.pcs[t] else At(w, u);
    if p in w.dev.table {
      SumRemove(w.dev.table, p);
    }
  }

  lemma ClaimsLookup(w: World, t: Tid, p: u64)
    requires WorldInv(w) && Enabled(w, Lookup(t, p))
    ensures Partition(Apply(w, Lookup(t, p)))
  {
    hide LiveOk, SumSizes, MayGrant;
    var v := Apply(w, Lookup(t, p));
    assert p in w.dev.table ==> forall u: Tid :: At(v, u) == if u == t then v.pcs[t] else At(w, u);
    if p in w.dev.table {
      forall o ensures Held(v, o) ==
        if o == Dying(t) then Held(w, Tracked(p)) else if o == Tracked(p) then NoClaim else Held(w, o)
      {
      }
      ClaimMoves(w, v, Tracked(p), Dying(t));
    } else {
      forall o ensures Held(v, o) == Held(w, o) {
      }
      ClaimsKept(w, v);
    }
  }

  lemma StepLookup(w: World, t: Tid, p: u64)
    requires WorldInv(w) && Enabled(w, Lookup(t, p))
    ensures WorldInv(Apply(w, Lookup(t, p)))
  {
    ShapeLookup(w, t, p);
    ClaimsLookup(w, t, p);
  }

  lemma ShapeCudaFree(w: World, t: Tid, willing: bool)
    requires WorldInv(w) && Enabled(w, CudaFree(t, willing))
    ensures Shape(Apply(w, CudaFree(t, willing)))
  {
    var v := Apply(w, CudaFree(t, willing));
    assert forall u: Tid :: At(v, u) == if u == t then v.pcs[t] else At(w, u);
    assert Held(w, Dying(t)).Claim?;
    assert Todo(v) == Todo(w);
    LiveShrinks(w.dev.live, {At(w, t).base});
  }

  lemma ClaimsCudaFree(w: World, t: Tid, willing: bool)
    requires WorldInv(w) && Enabled(w, CudaFree(t, willing))
    ensures Partition(Apply(w, CudaFree(t, willing)))
  {
    hide LiveOk, SumSizes, MayGrant;
    var v := Apply(w, CudaFree(t, willing));
    assert forall u: Tid :: At(v, u) == if u == t then v.pcs[t] else At(w, u);
    var base := At(w, t).base;
    assert Held(w, Dying(t)).Claim?;
    NotLeaked(w, Dying(t));
    assert Todo(v) == Todo(w);
    if willing {
      forall o ensures Held(v, o) == if o == Dying(t) then NoClaim else Held(w, o) {
      }
      ClaimDropped(w, v, Dying(t));
    } else {
      forall o ensures Held(v, o) ==
        if o == Leaked(base) then Held(w, Dying(t)) else if o == Dying(t) then NoClaim else Held(w, o)
      {
      }
      ClaimMoves(w, v, Dying(t), Leaked(base));
    }
  }

  lemma StepCudaFree(w: World, t: Tid, willing: bool)
    requires WorldInv(w) && Enabled(w, CudaFree(t, willing))
    ensures WorldInv(Apply(w, CudaFree(t, willing)))
  {
    ShapeCudaFree(w, t, willing);
    ClaimsCudaFree(w, t, willing);
    assert Held(w, Dying(t)).Claim?;
    NotLeaked(w, Dying(t));
    NumberedHand(w, Apply(w, CudaFree(t, willing)), At(w, t).base, willing);
  }

  lemma ShapeMarkPoison(w: World, t: Tid, p: u64, size: u64, flag: bool)
    requires WorldInv(w) && Enabled(w, MarkPoison(t, p, size, flag))
    ensures Shape(Apply(w, MarkPoison(t, p, size, flag)))
  {
    if p in w.dev.table {
      SumReplace(w.dev.table, p, w.dev.table[p].(poisoned := flag));
    }
  }

  lemma ClaimsMarkPoison(w: World, t: Tid, p: u64, size: u64, flag: bool)
    requires WorldInv(w) && Enabled(w, MarkPoison(t, p, size, flag))
    ensures Partition(Apply(w, MarkPoison(t, p, size, flag)))
  {
    hide LiveOk, SumSizes;
    var v := Apply(w, MarkPoison(t, p, size, flag));
    forall o ensures Held(v, o) == Held(w, o) {
    }
    ClaimsKept(w, v);
  }

  lemma StepMarkPoison(w: World, t: Tid, p: u64, size: u64, flag: bool)
    requires WorldInv(w) && Enabled(w, MarkPoison(t, p, size, flag))
    ensures WorldInv(Apply(w, MarkPoison(t, p, size, flag)))
  {
    ShapeMarkPoison(w, t, p, size, flag);
    ClaimsMarkPoison(w, t, p, size, flag);
  }

  lemma StepResetBegin(w: World, t: Tid)
    requires WorldInv(w) && Enabled(w, ResetBegin(t))
    ensures WorldInv(Apply(w, ResetBegin(t)))
  {
    var v := Apply(w, ResetBegin(t));
    assert forall u: Tid :: At(v, u) == if u == t then v.pcs[t] else At(w, u);
    forall o ensures Held(v, o) == Held(w, o) {
    }
    ClaimsKept(w, v);
  }

  lemma ShapeResetFree(w: World, t: Tid, k: u64, willing: bool)
    requires WorldInv(w) && Enabled(w, ResetFree(t, k, willing))
    ensures Shape(Apply(w, ResetFree(t, k, willing)))
  {
    var v := Apply(w, ResetFree(t, k, willing));
    assert forall u: Tid :: At(v, u) == if u == t then v.pcs[t] else At(w, u);
    assert Held(w, Tracked(k)).Claim?;
    assert Todo(v) == Todo(w) - {k};
    LiveShrinks(w.dev.live, {w.dev.table[k].RawBase()});
  }

  /** Freeing k drops the claim of its entry, or moves it to the leaked base. */
  lemma HeldResetFree(w: World, t: Tid, k: u64, willing: bool)
    requires WorldInv(w) && Enabled(w, ResetFree(t, k, willing))
    ensures var v := Apply(w, ResetFree(t, k, willing));
      forall o :: Held(v, o) ==
        if !willing && o == Leaked(w.dev.table[k].RawBase()) then Held(w, Tracked(k))
        else if o == Tracked(k) then NoClaim else Held(w, o)
  {
    hide LiveOk, SumSizes, MayGrant, Partition, Numbered;
    var v := Apply(w, ResetFree(t, k, willing));
    assert forall u: Tid :: At(v, u) == if u == t then v.pcs[t] else At(w, u);
    assert Held(w, Tracked(k)).Claim?;
    NotLeaked(w, Tracked(k));
    assert Todo(v) == Todo(w) - {k};
  }

  lemma ClaimsResetFree(w: World, t: Tid, k: u64, willing: bool)
    requires WorldInv(w) && Enabled(w, ResetFree(t, k, willing))
    ensures Partition(Apply(w, ResetFree(t, k, willing)))
  {
    hide Partition;
    var v := Apply(w, ResetFree(t, k, willing));
    assert Held(w, Tracked(k)).Claim?;
    HeldResetFree(w, t, k, willing);
    if willing {
      ClaimDropped(w, v, Tracked(k));
    } else {
      NotLeaked(w, Tracked(k));
      ClaimMoves(w, v, Tracked(k), Leaked(w.dev.table[k].RawBase()));
    }
  }

  lemma StepResetFree(w: World, t: Tid, k: u64, willing: bool)
    requires WorldInv(w) && Enabled(w, ResetFree(t, k, willing))
    ensures WorldInv(Apply(w, ResetFree(t, k, willing)))
  {
    ShapeResetFree(w, t, k, willing);
    ClaimsResetFree(w, t, k, willing);
    assert Held(w, Tracked(k)).Claim?;
    NotLeaked(w, Tracked(k));
    NumberedHand(w, Apply(w, ResetFree(t, k, willing)), w.dev.table[k].RawBase(), willing);
  }

  lemma StepResetEnd(w: World, t: Tid)
    requires WorldInv(w) && Enabled(w, ResetEnd(t))
    ensures WorldInv(Apply(w, ResetEnd(t)))
  {
    var v := Apply(w, ResetEnd(t));
    assert forall u: Tid :: At(v, u) == if u == t then Idle else At(w, u);
    forall o ensures Held(v, o) == Held(w, o) {
    }
    ClaimsKept(w, v);
  }

  lemma Step(w: World, e: Event)
    requires WorldInv(w) && Enabled(w, e)
    ensures WorldInv(Apply(w, e))
  {
    match e
    case CudaMalloc(t, size, redzone, grant) => StepCudaMalloc(w, t, size, redzone, grant);
    case ReportRefusal(t) => StepReportRefusal(w, t);
    case Track(t) => StepTrack(w, t);
    case Lookup(t, p) => StepLookup(w, t, p);
    case CudaFree(t, willing) => StepCudaFree(w, t, willing);
    case MarkPoison(t, p, size, flag) => StepMarkPoison(w, t, p, size, flag);
    case ResetBegin(t) => StepResetBegin(w, t);
    case ResetFree(t, k, willing) => StepResetFree(w, t, k, willing);
    case ResetEnd(t) => StepResetEnd(w, t);
  }

  // ---- whole runs ---------------------------------------------------------------------

  lemma StartInv()
    ensures WorldInv(START)
  {
    forall o ensures Held(START, o) == NoClaim {
    }
  }

  lemma {:induction false} RunKeepsInv(w: World, es: seq<Event>)
    requires WorldInv(w) && Run(w, es)
    ensures WorldInv(Exec(w, es))
    decreases |es|
  {
    hide Apply, Enabled, Shape, Partition, Numbered;
    if es != [] {
      Step(w, es[0]);
      RunKeepsInv(Apply(w, es[0]), es[1..]);
    }
  }

  /** In every state any interleaving reaches, the live driver allocations are exactly the
      disjoint union of tracked, pending, dying and leaked ones; and whenever the mutex is
      free the tracked raw intervals are disjoint, keyed by their address, backed by the
      driver, and m_total_bytes is the sum of their sizes. */
  lemma Reachable(es: seq<Event>)
    requires Run(START, es)
    ensures var w := Exec(START, es);
      && Partition(w)
      && (w.holder.None? ==> Inv(w.dev))
  {
    StartInv();
    RunKeepsInv(START, es);
    if Exec(START, es).holder.None? {
      FreeMutexInv(Exec(START, es));
    }
  }

  // ---- cudaFree -----------------------------------------------------------------------

  /** The base a step passes to cudaFree, if it calls cudaFree. */
  ghost function FreedBase(w: World, e: Event): Option<u64> {
    match e
    case CudaFree(t, _) => if At(w, t).Erased? then Some(At(w, t).base) else None
    case ResetFree(_, k, _) => if k in w.dev.table then Some(w.dev.table[k].RawBase()) else None
    case _ => None
  }

  /** Every cudaFree names the base of a live allocation that was never freed before. */
  lemma FreeIsSafe(w: World, e: Event)
    requires WorldInv(w) && Enabled(w, e) && FreedBase(w, e).Some?
    ensures var b := FreedBase(w, e).value;
      && b in w.dev.live && b in w.serial
      && w.serial[b] !in w.handed
      && Apply(w, e).handed == w.handed + {w.serial[b]}
  {
    var o := match e case CudaFree(t, _) => Dying(t) case ResetFree(_, k, _) => Tracked(k);
    assert Held(w, o).Claim?;
    NotLeaked(w, o);
  }

  /** The state before step i, and the number of the allocation step i passes to cudaFree. */
  function Before(w: World, es: seq<Event>, i: nat): World
    requires i <= |es|
  {
    Exec(w, es[..i])
  }

  ghost predicate Frees(w: World, es: seq<Event>, i: nat, num: nat) {
    && i < |es|
    && FreedBase(Before(w, es, i), es[i]).Some?
    && FreedBase(Before(w, es, i), es[i]).value in Before(w, es, i).serial
    && Before(w, es, i).serial[FreedBase(Before(w, es, i), es[i]).value] == num
  }

  lemma {:induction false} ExecSplit(w: World, es: seq<Event>, i: nat)
    requires i <= |es| && Run(w, es)
    ensures Run(w, es[..i]) && Run(Exec(w, es[..i]), es[i..])
    decreases |es|
  {
    hide Apply, Enabled;
    if i == 0 {
      assert es[..0] == [] && es[0..] == es;
    } else {
      ExecSplit(Apply(w, es[0]), es[1..], i - 1);
      assert es[..i][0] == es[0] && es[..i][1..] == es[1..][..i - 1];
      assert es[i..] == es[1..][i - 1..];
    }
  }

  lemma {:induction false} ExecAppend(w: World, es: seq<Event>, e: Event)
    ensures Exec(w, es + [e]) == Apply(Exec(w, es), e)
    decreases |es|
  {
    hide Apply, Enabled;
    if es == [] {
      assert [e][1..] == [] && es + [e] == [e];
    } else {
      ExecAppend(Apply(w, es[0]), es[1..], e);
      assert (es + [e])[1..] == es[1..] + [e];
    }
  }

  lemma BeforeNext(w: World, es: seq<Event>, i: nat)
    requires i < |es| && Run(w, es) && WorldInv(w)
    ensures Before(w, es, i + 1) == Apply(Before(w, es, i), es[i])
    ensures WorldInv(Before(w, es, i)) && Enabled(Before(w, es, i), es[i])
  {
    hide Apply, Enabled, WorldInv, Exec;
    ExecSplit(w, es, i);
    assert es[..i + 1] == es[..i] + [es[i]];
    ExecAppend(w, es[..i], es[i]);
    RunKeepsInv(w, es[..i]);
    assert es[i..][0] == es[i];
  }

  lemma HandedGrows(w: World, e: Event)
    ensures w.handed <= Apply(w, e).handed
  {
  }

  lemma {:induction false} HandedStays(w: World, es: seq<Event>, i: nat, j: nat)
    requires Run(w, es) && WorldInv(w) && i <= j <= |es|
    ensures Before(w, es, i).handed <= Before(w, es, j).handed
    decreases j - i
  {
    hide Apply, Enabled;
    if i < j {
      BeforeNext(w, es, i);
      HandedGrows(Before(w, es, i), es[i]);
      HandedStays(w, es, i + 1, j);
    }
  }

  /** In every run each cudaFree names a live allocation, and no allocation is passed to
      cudaFree twice. */
  lemma NoDoubleFree(es: seq<Event>, i: nat, j: nat, num: nat)
    requires Run(START, es) && Frees(START, es, i, num) && Frees(START, es, j, num)
    ensures i == j
    ensures FreedBase(Before(START, es, i), es[i]).value in Before(START, es, i).dev.live
  {
    StartInv();
    BeforeNext(START, es, i);
    BeforeNext(START, es, j);
    FreeIsSafe(Before(START, es, i), es[i]);
    FreeIsSafe(Before(START, es, j), es[j]);
    if i < j {
      HandedStays(START, es, i + 1, j);
    } else if j < i {
      HandedStays(START, es, j + 1, i);
    }
  }

  // ---- racing frees -------------------------------------------------------------------

  /** What each audit_free of p in the run found under the mutex, in order. */
  ghost function Attempts(w: World, es: seq<Event>, p: u64): seq<bool>
    decreases |es|
  {
    if es == [] then []
    else
      (match es[0] case Lookup(_, q) => (if q == p then [p in w.dev.table] else []) case _ => [])
      + Attempts(Apply(w, es[0]), es[1..], p)
  }

  /** The run neither registers p again nor completes a reset. */
  ghost predicate Undisturbed(w: World, es: seq<Event>, p: u64)
    decreases |es|
  {
    es != [] ==>
      && (es[0].Track? ==> At(w, es[0].t).Granted? && Add64(At(w, es[0].t).base, At(w, es[0].t).redzone) != p)
      && !es[0].ResetEnd?
      && Undisturbed(Apply(w, es[0]), es[1..], p)
  }

  /** Of any number of racing audit_free calls on one registered pointer exactly the first to
      take the mutex finds the entry; all others are refused. */
  lemma {:induction false} OneFreeWins(w: World, es: seq<Event>, p: u64)
    requires Run(w, es) && Undisturbed(w, es, p)
    ensures forall i :: 0 <= i < |Attempts(w, es, p)| ==> (Attempts(w, es, p)[i] <==> p in w.dev.table && i == 0)
    decreases |es|
  {
    if es != [] {
      OneFreeWins(Apply(w, es[0]), es[1..], p);
      var rest := Attempts(Apply(w, es[0]), es[1..], p);
      if es[0].Lookup? && es[0].p == p {
        assert p !in Apply(w, es[0]).dev.table;
        assert Attempts(w, es, p) == [p in w.dev.table] + rest;
      } else {
        assert Attempts(w, es, p) == rest;
        assert p in Apply(w, es[0]).dev.table <==> p in w.dev.table;
      }
    }
  }

  /** A refused audit_free leaves the device as the sequential call does: only the report. */
  lemma LoserIsReported(w: World, t: Tid, p: u64)
    requires WorldInv(w) && Enabled(w, Lookup(t, p)) && p !in w.dev.table
    ensures Free(w.dev, p, true) == Freed(Apply(w, Lookup(t, p)).dev, ErrCUDABoundaryViolation)
    ensures At(Apply(w, Lookup(t, p)), t).Idle?
  {
  }

  // ---- what the calls return ----------------------------------------------------------

  datatype Reply = Allocation(written: Option<u64>, status: Status) | Answer(status: Status)

  /** What a call returns to its thread at step e, if it returns there. */
  ghost function ReplyOf(w: World, e: Event): Option<Reply> {
    match e
    case ReportRefusal(_) => Some(Allocation(None, ErrCUDAAllocation))
    case Track(t) =>
      if At(w, t).Granted? then Some(Allocation(Some(Add64(At(w, t).base, At(w, t).redzone)), Success)) else None
    case Lookup(_, p) => if p in w.dev.table then None else Some(Answer(ErrCUDABoundaryViolation))
    case CudaFree(t, willing) =>
      if At(w, t).Erased? then
        Some(Answer(if willing && At(w, t).base in w.dev.live then Success else ErrCUDAAllocation))
      else None
    case MarkPoison(_, p, size, flag) => Some(Answer(SetPoison(w.dev, p, size, flag).status))
    case _ => None
  }

  /** Under any interleaving audit_free of a tracked pointer answers what the sequential call
      would at its lookup: the base it erased is still live when its cudaFree comes. */
  lemma FreeAnswer(w: World, t: Tid, p: u64, v: World, willing: bool)
    requires WorldInv(w) && Enabled(w, Lookup(t, p)) && p in w.dev.table
    requires WorldInv(v) && Enabled(v, CudaFree(t, willing))
    ensures ReplyOf(v, CudaFree(t, willing)) == Some(Answer(Free(w.dev, p, willing).status))
  {
    assert Held(v, Dying(t)).Claim?;
    assert Held(w, Tracked(p)).Claim?;
  }

  // ---- the order of the locked sections -----------------------------------------------

  /** The sequential operations behind the locked sections. */
  datatype Op =
    | Allocate(size: u64, redzone: u64, grant: Option<u64>)
    | Release(p: u64)
    | Mark(p: u64, size: u64, flag: bool)
    | Clear

  /** The operation whose locked section step e is, or completes. */
  ghost function LockedOp(w: World, e: Event): Option<Op> {
    match e
    case ReportRefusal(t) => if At(w, t).Refused? then Some(Allocate(At(w, t).size, 0, None)) else None
    case Track(t) =>
      if At(w, t).Granted? then Some(Allocate(At(w, t).size, At(w, t).redzone, Some(At(w, t).base))) else None
    case Lookup(_, p) => Some(Release(p))
    case MarkPoison(_, p, size, flag) => Some(Mark(p, size, flag))
    case ResetEnd(_) => Some(Clear)
    case _ => None
  }

  ghost function Perform(d: Device, op: Op): (Device, Reply) {
    match op
    case Allocate(size, redzone, grant) =>
      var m := Malloc(d, true, size, redzone, grant);
      (m.device, Allocation(m.written, m.status))
    case Release(p) =>
      var f := Free(d, p, true);
      (f.device, Answer(f.status))
    case Mark(p, size, flag) =>
      var f := SetPoison(d, p, size, flag);
      (f.device, Answer(f.status))
    case Clear => (Reset(d, {}), Answer(Success))
  }

  /** The sanitizer's own fields agree: table, total and report. */
  ghost predicate SameFields(d: Device, e: Device) {
    d.table == e.table && d.total == e.total && d.violation == e.violation
  }

  /** Performing the operations sequentially, in the order of the locked sections of the run. */
  ghost function InLockOrder(w: World, es: seq<Event>, d: Device): Device
    decreases |es|
  {
    if es == [] then d
    else
      var op := LockedOp(w, es[0]);
      InLockOrder(Apply(w, es[0]), es[1..], if op.Some? then Perform(d, op.value).0 else d)
  }

  /** Every call that returns from its locked section returns what the sequential operation does. */
  ghost predicate RepliesInLockOrder(w: World, es: seq<Event>, d: Device)
    decreases |es|
  {
    es != [] ==>
      var op := LockedOp(w, es[0]);
      && (op.Some? && ReplyOf(w, es[0]).Some? ==> ReplyOf(w, es[0]).value == Perform(d, op.value).1)
      && RepliesInLockOrder(Apply(w, es[0]), es[1..], if op.Some? then Perform(d, op.value).0 else d)
  }

  lemma StepInLockOrder(w: World, e: Event, d: Device)
    requires Shape(w) && Enabled(w, e) && SameFields(w.dev, d)
    ensures var op := LockedOp(w, e);
      && SameFields(Apply(w, e).dev, if op.Some? then Perform(d, op.value).0 else d)
      && (op.Some? && ReplyOf(w, e).Some? ==> ReplyOf(w, e).value == Perform(d, op.value).1)
  {
    hide LiveOk, SumSizes, MayGrant;
  }

  /** Any interleaving leaves the table, the total and the report as the sequential operations
      do when they are called one after the other in the order of their locked sections. */
  lemma {:induction false} Linearised(w: World, es: seq<Event>, d: Device)
    requires WorldInv(w) && Run(w, es) && SameFields(w.dev, d)
    ensures SameFields(Exec(w, es).dev, InLockOrder(w, es, d))
    ensures RepliesInLockOrder(w, es, d)
    decreases |es|
  {
    hide Apply, Enabled, Shape, Partition, Numbered, SameFields, ReplyOf, LockedOp, Perform;
    if es != [] {
      Step(w, es[0]);
      StepInLockOrder(w, es[0], d);
      var op := LockedOp(w, es[0]);
      Linearised(Apply(w, es[0]), es[1..], if op.Some? then Perform(d, op.value).0 else d);
    }
  }

  // ---- one thread alone is the sequential object --------------------------------------

  lemma AloneMalloc(w: World, t: Tid, size: u64, redzone: u64, grant: Option<u64>)
    requires WorldInv(w) && w.holder.None? && Enabled(w, CudaMalloc(t, size, redzone, grant))
    ensures var es := [CudaMalloc(t, size, redzone, grant), if grant.Some? then Track(t) else ReportRefusal(t)];
      var m := Malloc(w.dev, true, size, redzone, grant);
      && Run(w, es) && Exec(w, es).dev == m.device
      && ReplyOf(Exec(w, es[..1]), es[1]) == Some(Allocation(m.written, m.status))
  {
    var es := [CudaMalloc(t, size, redzone, grant), if grant.Some? then Track(t) else ReportRefusal(t)];
    var v := Apply(w, es[0]);
    assert es[1..] == [es[1]] && es[1..][1..] == [];
    assert es[..1] == [es[0]] && es[..1][1..] == [];
    assert Exec(w, es) == Exec(v, [es[1]]) == Apply(v, es[1]);
    assert Run(v, [es[1]]);
  }

  lemma AloneFree(w: World, t: Tid, p: u64, willing: bool)
    requires WorldInv(w) && Enabled(w, Lookup(t, p))
    ensures var es := if p in w.dev.table then [Lookup(t, p), CudaFree(t, willing)] else [Lookup(t, p)];
      var f := Free(w.dev, p, willing);
      && Run(w, es) && Exec(w, es).dev == f.device
      && ReplyOf(Exec(w, es[..|es| - 1]), es[|es| - 1]) == Some(Answer(f.status))
  {
    var es := if p in w.dev.table then [Lookup(t, p), CudaFree(t, willing)] else [Lookup(t, p)];
    var v := Apply(w, es[0]);
    if p in w.dev.table {
      assert es[1..] == [es[1]] && es[1..][1..] == [];
      assert es[..1] == [es[0]] && es[..1][1..] == [];
      assert Held(w, Tracked(p)).Claim?;
      assert Exec(w, es) == Exec(v, [es[1]]) == Apply(v, es[1]);
      assert Run(v, [es[1]]);
    } else {
      assert es[1..] == [];
    }
  }

  ghost function ResetSteps(w: World, t: Tid, ks: seq<u64>, refused: set<u64>): seq<Event>
    requires forall k :: k in ks ==> k in w.dev.table
  {
    if ks == [] then [ResetEnd(t)]
    else [ResetFree(t, ks[0], w.dev.table[ks[0]].RawBase() !in refused)] + ResetSteps(w, t, ks[1..], refused)
  }

  ghost function BasesOf(table: map<u64, Region>, ks: seq<u64>): set<u64>
    requires forall k :: k in ks ==> k in table
  {
    if ks == [] then {} else {table[ks[0]].RawBase()} + BasesOf(table, ks[1..])
  }

  lemma ResetFreeEffect(v: World, t: Tid, k: u64, willing: bool)
    requires v.holder == Some(t) && At(v, t).Resetting? && k in At(v, t).todo && k in v.dev.table
    ensures Enabled(v, ResetFree(t, k, willing))
    ensures var u := Apply(v, ResetFree(t, k, willing));
      && u.holder == v.holder && At(u, t) == Resetting(At(v, t).todo - {k})
      && u.dev == v.dev.(live := DriverFree(v.dev.live, v.dev.table[k].RawBase(), willing))
  {
  }

  lemma ResetEndEffect(v: World, t: Tid)
    requires v.holder == Some(t) && At(v, t) == Resetting({})
    ensures Run(v, [ResetEnd(t)])
    ensures Exec(v, [ResetEnd(t)]).dev == Device(v.dev.live, map[], 0, None)
  {
    assert [ResetEnd(t)][1..] == [];
  }

  /** Freeing the head of the list and then the bases of its tail frees the bases of the list. */
  lemma FreedInTurn(live: map<u64, u64>, table: map<u64, Region>, ks: seq<u64>, refused: set<u64>)
    requires ks != [] && forall k :: k in ks ==> k in table
    ensures var base := table[ks[0]].RawBase();
      DriverFree(live, base, base !in refused) - (BasesOf(table, ks[1..]) - refused)
      == live - (BasesOf(table, ks) - refused)
  {
  }

  lemma {:induction false} ResetLoop(w: World, v: World, t: Tid, ks: seq<u64>, refused: set<u64>)
    requires forall k :: k in ks ==> k in w.dev.table
    requires forall i, j :: 0 <= i < j < |ks| ==> ks[i] != ks[j]
    requires v.holder == Some(t) && At(v, t) == Resetting(set k | k in ks) && v.dev.table == w.dev.table
    ensures Run(v, ResetSteps(w, t, ks, refused))
    ensures Exec(v, ResetSteps(w, t, ks, refused)).dev
         == Device(v.dev.live - (BasesOf(w.dev.table, ks) - refused), map[], 0, None)
    decreases |ks|
  {
    hide Apply, Enabled, At, DriverFree;
    var es := ResetSteps(w, t, ks, refused);
    if ks == [] {
      assert (set k | k in ks) == {};
      ResetEndEffect(v, t);
    } else {
      var base := w.dev.table[ks[0]].RawBase();
      assert ks[0] in (set k | k in ks);
      ResetFreeEffect(v, t, ks[0], base !in refused);
      assert (set k | k in ks) - {ks[0]} == (set k | k in ks[1..]);
      assert es[1..] == ResetSteps(w, t, ks[1..], refused);
      ResetLoop(w, Apply(v, es[0]), t, ks[1..], refused);
      FreedInTurn(v.dev.live, w.dev.table, ks, refused);
    }
  }

  lemma {:induction false} BasesListed(table: map<u64, Region>, ks: seq<u64>)
    requires forall k :: k in ks ==> k in table
    ensures forall b :: b in BasesOf(table, ks) <==> exists k :: k in ks && table[k].RawBase() == b
  {
    if ks != [] {
      BasesListed(table, ks[1..]);
      forall b ensures b in BasesOf(table, ks) <==> exists k :: k in ks && table[k].RawBase() == b {
        if k :| k in ks && table[k].RawBase() == b {
          assert k == ks[0] || k in ks[1..];
        }
      }
    }
  }

  /** A reset that no other thread interrupts is the sequential one, whatever the order of the
      hash map. */
  lemma AloneReset(w: World, t: Tid, ks: seq<u64>, refused: set<u64>)
    requires Enabled(w, ResetBegin(t))
    requires forall k :: k in ks <==> k in w.dev.table
    requires forall i, j :: 0 <= i < j < |ks| ==> ks[i] != ks[j]
    ensures var es := [ResetBegin(t)] + ResetSteps(w, t, ks, refused);
      Run(w, es) && Exec(w, es).dev == Reset(w.dev, refused)
  {
    var es := [ResetBegin(t)] + ResetSteps(w, t, ks, refused);
    var v := Apply(w, es[0]);
    assert w.dev.table.Keys == (set k | k in ks);
    assert es[1..] == ResetSteps(w, t, ks, refused);
    ResetLoop(w, v, t, ks, refused);
    BasesListed(w.dev.table, ks);
    assert BasesOf(w.dev.table, ks) == Bases(w.dev.table);
  }

  // ---- who has to wait, and an address granted again inside a reset --------------------

  /** cudaMalloc and cudaFree run whoever holds the mutex; every locked section waits for it, and
      for nothing else. */
  lemma WaitsExactly(w: World, t: Tid, p: u64, size: u64, redzone: u64, grant: Option<u64>, willing: bool, flag: bool)
    ensures Enabled(w, CudaMalloc(t, size, redzone, grant)) <==>
      && At(w, t) == Idle && 0 < size && size + 2 * redzone < WORD
      && MayGrant(w.dev.live, size + 2 * redzone, grant)
    ensures Enabled(w, CudaFree(t, willing)) <==> At(w, t).Erased?
    ensures Enabled(w, Track(t)) <==> At(w, t).Granted? && w.holder == None
    ensures Enabled(w, ReportRefusal(t)) <==> At(w, t).Refused? && w.holder == None
    ensures Enabled(w, Lookup(t, p)) <==> At(w, t) == Idle && p != 0 && w.holder == None
    ensures Enabled(w, MarkPoison(t, p, size, flag)) <==> At(w, t) == Idle && w.holder == None
    ensures Enabled(w, ResetBegin(t)) <==> At(w, t) == Idle && w.holder == None
  {
    if size + 2 * redzone < WORD {
      PaddedRequest(size, redzone);
    }
  }

  /** A thread inside reset is never stuck: it has an entry left to free, or it can finish. */
  lemma ResetProceeds(w: World, t: Tid)
    requires WorldInv(w) && w.holder == Some(t)
    ensures Enabled(w, ResetEnd(t))
      || exists k :: k in w.dev.table && forall willing :: Enabled(w, ResetFree(t, k, willing))
  {
    hide Partition, Numbered;
    var todo := At(w, t).todo;
    if todo != {} {
      var k :| k in todo;
      assert k in w.dev.table;
    }
  }

  lemma RunSnoc(w: World, es: seq<Event>, e: Event)
    requires Run(w, es) && Enabled(Exec(w, es), e)
    ensures Run(w, es + [e]) && Exec(w, es + [e]) == Apply(Exec(w, es), e)
  {
    hide Apply, Enabled;
    ExecAppend(w, es, e);
    RunAppend(w, es, e);
  }

  lemma {:induction false} RunAppend(w: World, es: seq<Event>, e: Event)
    requires Run(w, es) && Enabled(Exec(w, es), e)
    ensures Run(w, es + [e])
    decreases |es|
  {
    hide Apply, Enabled;
    if es == [] {
      assert [e][1..] == [] && es + [e] == [e];
    } else {
      RunAppend(Apply(w, es[0]), es[1..], e);
      assert (es + [e])[1..] == es[1..] + [e];
    }
  }

  const REGION_AGAIN := Region(4112, 64, 16, false)

  /** While thread 0 is inside reset, thread 1 is granted the base that reset has just freed, with
      its stale entry still in the table. */
  lemma GrantedAgainInsideReset() returns (es: seq<Event>)
    ensures Run(START, es)
    ensures var w := Exec(START, es);
      && w.holder == Some(0) && At(w, 0) == Resetting({}) && At(w, 1) == Granted(4096, 64, 16)
      && w.dev == Device(map[4096 := 96], map[4112 := REGION_AGAIN], 64, None)
  {
    hide Run, Exec;
    StartRun();
    var a, b := CudaMalloc(0, 64, 16, Some(4096)), CudaMalloc(1, 64, 16, Some(4096));
    RunSnoc(START, [], a);
    RunSnoc(START, [] + [a], Track(0));
    RunSnoc(START, [] + [a] + [Track(0)], ResetBegin(0));
    RunSnoc(START, [] + [a] + [Track(0)] + [ResetBegin(0)], ResetFree(0, 4112, true));
    RunSnoc(START, [] + [a] + [Track(0)] + [ResetBegin(0)] + [ResetFree(0, 4112, true)], b);
    es := [] + [a] + [Track(0)] + [ResetBegin(0)] + [ResetFree(0, 4112, true)] + [b];
  }

  lemma StartRun()
    ensures Run(START, []) && Exec(START, []) == START
  {
  }

  /** When reset ends and thread 1 registers, exactly its region is tracked. */
  lemma TrackedAfterReset(es: seq<Event>)
    requires Run(START, es)
    requires var w := Exec(START, es);
      && w.holder == Some(0) && At(w, 0) == Resetting({}) && At(w, 1) == Granted(4096, 64, 16)
      && w.dev == Device(map[4096 := 96], map[4112 := REGION_AGAIN], 64, None)
    ensures var run := es + [ResetEnd(0)] + [Track(1)];
      && Run(START, run)
      && Exec(START, run).dev == Device(map[4096 := 96], map[4112 := REGION_AGAIN], 64, None)
  {
    hide Run, Exec;
    RunSnoc(START, es, ResetEnd(0));
    RunSnoc(START, es + [ResetEnd(0)], Track(1));
  }
}
