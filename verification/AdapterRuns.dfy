/**
 What an adapter does with the shared sanitizer, as steps on a device and a table of holdings,
 and what every sequence of calls on any number of adapters keeps. The adapter classes are
 proved to take exactly these steps.
 */
module AdapterRuns {
  import opened Machine
  import opened AllocationTable

  /** The redzone audit_malloc uses when its caller names none. */
  const REDZONE: u64 := 256

  /** A device pointer an adapter recorded, with the size it recorded for it. */
  datatype Holding = Holding(ptr: u64, bytes: u64)

  // ---- steps --------------------------------------------------------------------------

  datatype Taken<!K> = Taken(device: Device, held: map<K, Holding>, status: Status)

  /** Allocate through the sanitizer and record the pointer on success. */
  function Acquire<K>(d: Device, held: map<K, Holding>, key: K, bytes: u64, grant: Option<u64>): Taken<K> {
    var m := Malloc(d, true, bytes, REDZONE, grant);
    if m.status == Success && m.written.Some? then
      Taken(m.device, held[key := Holding(m.written.value, bytes)], Success)
    else Taken(m.device, held, m.status)
  }

  /** Free through the sanitizer and forget the record, whatever the outcome. */
  function Release<K>(d: Device, held: map<K, Holding>, key: K, willing: bool): Taken<K> {
    if key !in held then Taken(d, held, ErrCUDABoundaryViolation)
    else
      var f := Free(d, held[key].ptr, willing);
      Taken(f.device, held - {key}, f.status)
  }

  /** Whether a driver that refuses the bases in `refused` frees the allocation behind p. */
  function Willing(d: Device, p: u64, refused: set<u64>): bool {
    p in d.table ==> d.table[p].RawBase() !in refused
  }

  /** reset of an adapter whose hash map yields its keys in the order `keys`. */
  function ReleaseMany<K>(d: Device, held: map<K, Holding>, keys: seq<K>, refused: set<u64>): (Device, map<K, Holding>)
    requires forall k :: k in keys ==> k in held
    decreases |keys|
  {
    if keys == [] then (d, held)
    else
      var last := |keys| - 1;
      var (e, h) := ReleaseMany(d, held, keys[..last], refused);
      var p := held[keys[last]].ptr;
      (Free(e, p, Willing(e, p, refused)).device, h - {keys[last]})
  }

  /** keys lists the set without repetition. */
  ghost predicate Lists<K(!new)>(keys: seq<K>, s: set<K>) {
    && (forall k :: k in keys <==> k in s)
    && (forall i, j :: 0 <= i < j < |keys| ==> keys[i] != keys[j])
  }

  // ---- the coupling -------------------------------------------------------------------

  /** Every non-null pointer held is tracked with exactly the recorded size, and held once. */
  ghost predicate Coupled<K(!new)>(d: Device, held: map<K, Holding>) {
    && Inv(d)
    && (forall k :: k in held && held[k].ptr != 0 ==>
         held[k].ptr in d.table && d.table[held[k].ptr].size == held[k].bytes)
    && (forall k :: k in held && held[k].ptr == 0 ==> held[k].bytes == 0)
    && (forall j, k :: SharePointer(held, j, k) ==> j == k)
  }

  ghost predicate SharePointer<K>(held: map<K, Holding>, j: K, k: K) {
    j in held && k in held && held[j].ptr == held[k].ptr != 0
  }

  lemma NotShared<K(!new)>(d: Device, held: map<K, Holding>, j: K, k: K)
    requires Coupled(d, held) && j in held && k in held && j != k && held[k].ptr != 0
    ensures held[j].ptr != held[k].ptr
  {
    hide Inv;
    assert SharePointer(held, j, k) ==> j == k;
  }

  lemma AcquireKeepsCoupling<K(!new)>(d: Device, held: map<K, Holding>, key: K, bytes: u64, grant: Option<u64>)
    requires Coupled(d, held) && key !in held && FitsPadded(bytes, REDZONE)
    requires 0 < bytes ==> MayGrant(d.live, RequestBytes(bytes, REDZONE), grant)
    ensures var t := Acquire(d, held, key, bytes, grant);
      && Coupled(t.device, t.held)
      && (t.status == Success ==>
           && key in t.held && t.held == held[key := t.held[key]] && t.held[key].bytes == bytes
           && (bytes == 0 <==> t.held[key].ptr == 0)
           && t.held[key].ptr !in d.table
           && t.device.total == d.total + bytes)
      && (t.status != Success ==> t.held == held && t.device.table == d.table && t.device.total == d.total)
  {
    NullIsNotTracked(d);
    if 0 < bytes && grant.Some? {
      MallocKeepsInv(d, bytes, REDZONE, grant.value);
      var t := Acquire(d, held, key, bytes, grant);
      AcquiredCoupled(d, held, key, t.device, bytes, grant.value + REDZONE);
    } else if bytes == 0 {
      var t := Acquire(d, held, key, bytes, grant);
      forall j, k | SharePointer(t.held, j, k) ensures j == k {
        assert SharePointer(held, j, k);
      }
    }
  }

  /** A granted acquisition keeps the invariant exactly when its two redzones still fit: the
      adapters' own overflow guards stop at 2^64 - 1 and do not leave room for them. */
  lemma AcquireKeepsInvExactly<K>(d: Device, held: map<K, Holding>, key: K, bytes: u64, base: u64)
    requires Inv(d) && 0 < bytes && MayGrant(d.live, RequestBytes(bytes, REDZONE), Some(base))
    ensures Inv(Acquire(d, held, key, bytes, Some(base)).device) <==> bytes <= MAX64 - 512
  {
    MallocKeepsInvExactly(d, bytes, REDZONE, base);
  }

  lemma AcquiredCoupled<K(!new)>(d: Device, held: map<K, Holding>, key: K, e: Device, bytes: u64, p: u64)
    requires Coupled(d, held) && key !in held && Inv(e)
    requires p !in d.table && p != 0 && p in e.table && e.table == d.table[p := e.table[p]] && e.table[p].size == bytes
    ensures Coupled(e, held[key := Holding(p, bytes)])
  {
    hide Inv;
    var h := held[key := Holding(p, bytes)];
    forall j, k | SharePointer(h, j, k) ensures j == k {
      if j != key && k != key {
        assert SharePointer(held, j, k);
      }
    }
  }

  /** A held pointer is never reported as a bad free, and freeing it takes exactly its bytes. */
  lemma FreeHeld<K(!new)>(d: Device, held: map<K, Holding>, key: K, willing: bool)
    requires Coupled(d, held) && key in held
    ensures var f := Free(d, held[key].ptr, willing);
      && f.status != ErrCUDABoundaryViolation
      && f.device.table == d.table - {held[key].ptr}
      && f.device.total == d.total - held[key].bytes
      && f.device.violation == d.violation
      && Coupled(f.device, held - {key})
  {
    NullIsNotTracked(d);
    var p := held[key].ptr;
    if p != 0 {
      FreeKeepsInv(d, p, willing);
      FreedCoupled(d, held, key, Free(d, p, willing).device);
    } else {
      assert d.table - {0} == d.table;
      forall j, k | SharePointer(held - {key}, j, k) ensures j == k {
        assert SharePointer(held, j, k);
      }
    }
  }

  lemma FreedCoupled<K(!new)>(d: Device, held: map<K, Holding>, key: K, e: Device)
    requires Coupled(d, held) && key in held && held[key].ptr != 0
    requires Inv(e) && e.table == d.table - {held[key].ptr}
    ensures Coupled(e, held - {key})
  {
    hide Inv;
    var h := held - {key};
    forall j, k | SharePointer(h, j, k) ensures j == k {
      assert SharePointer(held, j, k);
    }
    forall k | k in h && h[k].ptr != 0 ensures h[k].ptr in e.table {
      assert !SharePointer(held, k, key);
    }
  }

  ghost function SumBytes<K>(held: map<K, Holding>, keys: seq<K>): nat
    requires forall k :: k in keys ==> k in held
  {
    if keys == [] then 0 else SumBytes(held, keys[..|keys| - 1]) + held[keys[|keys| - 1]].bytes
  }

  ghost function Pointers<K>(held: map<K, Holding>, keys: seq<K>): set<u64>
    requires forall k :: k in keys ==> k in held
  {
    set i | 0 <= i < |keys| :: held[keys[i]].ptr
  }

  /** Exactly the pointers of `keys` left the table and exactly their bytes left the total;
      nothing was reported. */
  ghost predicate Drained<K(!new)>(d: Device, held: map<K, Holding>, keys: seq<K>, e: Device, h: map<K, Holding>)
    requires forall k :: k in keys ==> k in held
  {
    && Coupled(e, h)
    && h == held - (set k | k in keys)
    && e.table == d.table - Pointers(held, keys)
    && e.total == d.total - SumBytes(held, keys)
    && e.violation == d.violation
  }

  lemma DrainSnoc<K(!new)>(
    d: Device, held: map<K, Holding>, keys: seq<K>, key: K, e: Device, h: map<K, Holding>, willing: bool)
    requires forall k :: k in keys ==> k in held
    requires Drained(d, held, keys, e, h) && key in held && key !in keys
    ensures forall k :: k in keys + [key] ==> k in held
    ensures Drained(d, held, keys + [key], Free(e, held[key].ptr, willing).device, h - {key})
  {
    hide Coupled, Free, Pointers;
    FreeHeld(e, h, key, willing);
    assert (set k | k in keys + [key]) == (set k | k in keys) + {key};
    PointersSnoc(held, keys, key);
    assert (keys + [key])[..|keys|] == keys;
  }

  /** In whatever order an adapter frees its records, the outcome is the same. */
  lemma {:induction false} ReleaseManyDrains<K(!new)>(d: Device, held: map<K, Holding>, keys: seq<K>, refused: set<u64>)
    requires Coupled(d, held)
    requires forall k :: k in keys ==> k in held
    requires forall i, j :: 0 <= i < j < |keys| ==> keys[i] != keys[j]
    ensures var (e, h) := ReleaseMany(d, held, keys, refused);
      Drained(d, held, keys, e, h)
    decreases |keys|
  {
    if keys == [] {
      hide Coupled, Pointers;
      NoPointers(held);
      assert held - (set k | k in keys) == held;
      assert d.table - {} == d.table;
    } else {
      hide Drained, Coupled, Free, Willing;
      var init, key := keys[..|keys| - 1], keys[|keys| - 1];
      assert keys == init + [key];
      ReleaseManyDrains(d, held, init, refused);
      var (e, h) := ReleaseMany(d, held, init, refused);
      DrainSnoc(d, held, init, key, e, h, Willing(e, held[key].ptr, refused));
    }
  }

  /** None of the frees inside such a reset is refused as a bad free. */
  ghost predicate NoneReported<K(!new)>(d: Device, held: map<K, Holding>, keys: seq<K>, refused: set<u64>)
    requires forall k :: k in keys ==> k in held
    decreases |keys|
  {
    keys != [] ==>
      var last := |keys| - 1;
      var e := ReleaseMany(d, held, keys[..last], refused).0;
      var p := held[keys[last]].ptr;
      && NoneReported(d, held, keys[..last], refused)
      && Free(e, p, Willing(e, p, refused)).status != ErrCUDABoundaryViolation
  }

  lemma {:induction false} ReleaseManyIsClean<K(!new)>(
    d: Device, held: map<K, Holding>, keys: seq<K>, refused: set<u64>)
    requires Coupled(d, held)
    requires forall k :: k in keys ==> k in held
    requires forall i, j :: 0 <= i < j < |keys| ==> keys[i] != keys[j]
    ensures NoneReported(d, held, keys, refused)
    decreases |keys|
  {
    hide Coupled, Free, Willing, Pointers, SumBytes;
    if keys != [] {
      var init, key := keys[..|keys| - 1], keys[|keys| - 1];
      ReleaseManyIsClean(d, held, init, refused);
      ReleaseManyDrains(d, held, init, refused);
      var (e, h) := ReleaseMany(d, held, init, refused);
      FreeHeld(e, h, key, Willing(e, held[key].ptr, refused));
    }
  }

  lemma NoPointers<K(!new)>(held: map<K, Holding>)
    ensures Pointers(held, []) == {}
  {
  }

  lemma PointersSnoc<K(!new)>(held: map<K, Holding>, keys: seq<K>, key: K)
    requires key in held && forall k :: k in keys ==> k in held
    ensures forall k :: k in keys + [key] ==> k in held
    ensures Pointers(held, keys + [key]) == Pointers(held, keys) + {held[key].ptr}
  {
    var all := keys + [key];
    forall k | k in all ensures k in held {
    }
    assert held[all[|keys|]].ptr in Pointers(held, all);
    forall p | p in Pointers(held, keys) ensures p in Pointers(held, all) {
      var i :| 0 <= i < |keys| && held[keys[i]].ptr == p;
      assert all[i] == keys[i];
    }
  }

  lemma PointersExactly<K(!new)>(held: map<K, Holding>, keys: seq<K>)
    requires forall k :: k in keys ==> k in held
    ensures forall k :: k in keys ==> held[k].ptr in Pointers(held, keys)
    ensures forall p :: p in Pointers(held, keys) ==> exists k :: k in held && held[k].ptr == p
  {
    forall k | k in keys ensures held[k].ptr in Pointers(held, keys) {
      var i :| 0 <= i < |keys| && keys[i] == k;
      assert held[keys[i]].ptr in Pointers(held, keys);
    }
    forall p | p in Pointers(held, keys) ensures exists k :: k in held && held[k].ptr == p {
      var i :| 0 <= i < |keys| && held[keys[i]].ptr == p;
      assert keys[i] in keys;
    }
  }

  // ---- what the steps answer ----------------------------------------------------------

  /** An allocation through the sanitizer succeeds exactly when it asks for nothing or the driver
      grants it; then exactly one record is added, 256 bytes behind the granted base. */
  lemma AcquireAnswers<K(!new)>(d: Device, held: map<K, Holding>, key: K, bytes: u64, grant: Option<u64>)
    ensures var t := Acquire(d, held, key, bytes, grant);
      && (t.status == Success <==> bytes == 0 || grant.Some?)
      && (t.status != Success ==>
           && t.status == ErrCUDAAllocation && t.held == held
           && t.device.live == d.live && t.device.table == d.table && t.device.total == d.total)
      && (t.status == Success ==>
           key in t.held && t.held == held[key := t.held[key]] && t.held[key].bytes == bytes)
      && (bytes == 0 ==> t.device == d && t.held[key].ptr == 0)
      && (0 < bytes && grant.Some? ==>
           var p := (grant.value + 256) % WORD;
           && t.held[key].ptr == p
           && t.device.live == d.live[grant.value := (bytes + 512) % WORD]
           && p in t.device.table && t.device.table == d.table[p := t.device.table[p]]
           && t.device.table[p].size == bytes && !t.device.table[p].poisoned
           && t.device.total == (d.total + bytes) % WORD)
  {
    hide Malloc;
    MallocAnswers(d, true, bytes, REDZONE, grant);
  }

  /** Releasing an unknown key is refused and changes nothing; a known one is forgotten and its
      pointer freed, whatever audit_free answers. */
  lemma ReleaseAnswers<K(!new)>(d: Device, held: map<K, Holding>, key: K, willing: bool)
    ensures var t := Release(d, held, key, willing);
      && (key !in held ==> t.status == ErrCUDABoundaryViolation && t.device == d && t.held == held)
      && (key in held ==>
           && t.held == held - {key}
           && Freed(t.device, t.status) == Free(d, held[key].ptr, willing))
  {
  }

  /** The raw bases behind the records of `keys`. */
  ghost function RawBases<K(!new)>(d: Device, held: map<K, Holding>, keys: seq<K>): set<u64>
    requires Coupled(d, held) && forall k :: k in keys ==> k in held
  {
    set i | 0 <= i < |keys| && held[keys[i]].ptr != 0 :: (held[keys[i]].ptr - d.table[held[keys[i]].ptr].redzone) % WORD
  }

  /** An adapter's reset hands exactly the raw bases of its records to the driver: those it does
      not refuse are live no more, and all others stay. */
  lemma {:induction false} ReleaseManyFrees<K(!new)>(d: Device, held: map<K, Holding>, keys: seq<K>, refused: set<u64>)
    requires Coupled(d, held)
    requires forall k :: k in keys ==> k in held
    requires forall i, j :: 0 <= i < j < |keys| ==> keys[i] != keys[j]
    ensures ReleaseMany(d, held, keys, refused).0.live == d.live - (RawBases(d, held, keys) - refused)
    decreases |keys|
  {
    if keys == [] {
      assert RawBases(d, held, keys) == {};
    } else {
      hide Coupled, Free, Willing, Drained, RawBases;
      var init, key := keys[..|keys| - 1], keys[|keys| - 1];
      assert keys == init + [key];
      ReleaseManyFrees(d, held, init, refused);
      ReleaseManyDrains(d, held, init, refused);
      var (e, h) := ReleaseMany(d, held, init, refused);
      RawBasesSnoc(d, held, init, key);
      StillTracked(d, held, init, key, e, h);
      FreedLive(e, held[key].ptr, refused);
      var b := if held[key].ptr == 0 then {} else {e.table[held[key].ptr].RawBase()};
      MinusTwice(d.live, RawBases(d, held, init), b, refused);
      assert RawBases(d, held, keys) == RawBases(d, held, init) + b;
    }
  }

  lemma MinusTwice(live: map<u64, u64>, a: set<u64>, b: set<u64>, refused: set<u64>)
    ensures live - (a - refused) - (b - refused) == live - ((a + b) - refused)
  {
  }

  lemma FreedLive(e: Device, p: u64, refused: set<u64>)
    requires p != 0 ==> p in e.table
    ensures Free(e, p, Willing(e, p, refused)).device.live
         == e.live - ((if p == 0 then {} else {e.table[p].RawBase()}) - refused)
  {
  }

  lemma RawBasesSnoc<K(!new)>(d: Device, held: map<K, Holding>, keys: seq<K>, key: K)
    requires Coupled(d, held) && key in held && forall k :: k in keys ==> k in held
    ensures forall k :: k in keys + [key] ==> k in held
    ensures RawBases(d, held, keys + [key]) == RawBases(d, held, keys)
      + if held[key].ptr == 0 then {} else {(held[key].ptr - d.table[held[key].ptr].redzone) % WORD}
  {
    hide Inv;
    var all := keys + [key];
    forall k | k in all ensures k in held {
    }
    assert all[|keys|] == key && forall i :: 0 <= i < |keys| ==> all[i] == keys[i];
    var more := if held[key].ptr == 0 then {} else {(held[key].ptr - d.table[held[key].ptr].redzone) % WORD};
    forall b ensures b in RawBases(d, held, all) <==> b in RawBases(d, held, keys) + more {
      if b in RawBases(d, held, keys) {
        var i :| 0 <= i < |keys| && held[keys[i]].ptr != 0
          && (held[keys[i]].ptr - d.table[held[keys[i]].ptr].redzone) % WORD == b;
        assert held[all[i]].ptr == held[keys[i]].ptr;
      } else if b in more {
        assert held[all[|keys|]].ptr == held[key].ptr;
      }
    }
  }

  lemma StillTracked<K(!new)>(
    d: Device, held: map<K, Holding>, keys: seq<K>, key: K, e: Device, h: map<K, Holding>)
    requires Coupled(d, held) && key in held && key !in keys && forall k :: k in keys ==> k in held
    requires Drained(d, held, keys, e, h)
    ensures held[key].ptr != 0 ==>
      && held[key].ptr in e.table && e.table[held[key].ptr] == d.table[held[key].ptr]
      && e.table[held[key].ptr].address == held[key].ptr
      && e.table[held[key].ptr].RawBase() == (held[key].ptr - d.table[held[key].ptr].redzone) % WORD
  {
    if held[key].ptr != 0 {
      assert d.table[held[key].ptr].Fits();
      assert h[key] == held[key];
    }
  }

  // ---- many adapters on one sanitizer -------------------------------------------------

  datatype Slot = Slot(adapter: nat, key: u64)

  /** `direct` are the pointers callers got from audit_malloc without an adapter. */
  datatype System = System(device: Device, held: map<Slot, Holding>, direct: set<u64>)

  datatype Call =
    | Take(slot: Slot, bytes: u64, grant: Option<u64>)
    | Give(slot: Slot, willing: bool)
    | GiveAll(slots: seq<Slot>, refused: set<u64>)
    | Direct(size: u64, redzone: u64, grant: Option<u64>)
    | Mark(p: u64, size: u64, flag: bool)

  /** Calls as the adapters make them: a slot is taken only when it is free, and the padded
      request does not wrap. */
  ghost predicate Legal(s: System, c: Call) {
    match c
    case Take(slot, bytes, grant) =>
      && slot !in s.held && FitsPadded(bytes, REDZONE)
      && (0 < bytes ==> MayGrant(s.device.live, RequestBytes(bytes, REDZONE), grant))
    case Give(slot, _) => true
    case GiveAll(slots, _) =>
      && (forall k :: k in slots ==> k in s.held)
      && (forall i, j :: 0 <= i < j < |slots| ==> slots[i] != slots[j])
    case Direct(size, redzone, grant) =>
      0 < size && FitsPadded(size, redzone) && MayGrant(s.device.live, RequestBytes(size, redzone), grant)
    case Mark(_, _, _) => true
  }

  ghost function Next(s: System, c: Call): (System, Status) {
    match c
    case Take(slot, bytes, grant) =>
      var t := Acquire(s.device, s.held, slot, bytes, grant);
      (System(t.device, t.held, s.direct), t.status)
    case Give(slot, willing) =>
      var t := Release(s.device, s.held, slot, willing);
      (System(t.device, t.held, s.direct), t.status)
    case GiveAll(slots, refused) =>
      if forall k :: k in slots ==> k in s.held then
        var (d, h) := ReleaseMany(s.device, s.held, slots, refused);
        (System(d, h, s.direct), Success)
      else (s, Success)
    case Direct(size, redzone, grant) =>
      var m := Malloc(s.device, true, size, redzone, grant);
      (System(m.device, s.held, if m.written.Some? then s.direct + {m.written.value} else s.direct), m.status)
    case Mark(p, size, flag) =>
      var f := SetPoison(s.device, p, size, flag);
      (System(f.device, s.held, s.direct), f.status)
  }

  /** The coupling, and no tracked region without an owner: each belongs to one slot or to a
      direct caller. */
  ghost predicate SystemInv(s: System) {
    && Coupled(s.device, s.held)
    && s.direct <= s.device.table.Keys
    && (forall k :: k in s.held ==> s.held[k].ptr !in s.direct)
    && (forall p :: p in s.device.table && p !in s.direct ==> Owned(s.held, p))
  }

  ghost predicate Owned(held: map<Slot, Holding>, p: u64) {
    exists k :: k in held && held[k].ptr == p
  }

  /** What a call owes besides the invariant. An allocation that succeeds adds its record and its
      bytes and touches no other record; a release forgets its record and takes its bytes; no free
      of a held record is refused as a bad free, neither a single one nor one inside an adapter's
      reset, and such a reset takes exactly the bytes it records and leaves the last report alone. */
  ghost predicate CleanCall(s: System, c: Call) {
    var (t, st) := Next(s, c);
    match c
    case Take(slot, bytes, grant) =>
      && (st == Success <==> bytes == 0 || grant.Some?)
      && t.direct == s.direct
      && (st == Success ==>
           && slot in t.held && t.held == s.held[slot := t.held[slot]] && t.held[slot].bytes == bytes
           && t.device.total == s.device.total + bytes)
      && (st != Success ==> t.held == s.held && t.device.table == s.device.table)
    case Give(slot, _) =>
      && t.held == s.held - {slot} && t.direct == s.direct
      && (slot !in s.held ==> st == ErrCUDABoundaryViolation && t.device == s.device)
      && (slot in s.held ==>
           && st != ErrCUDABoundaryViolation
           && t.device.table == s.device.table - {s.held[slot].ptr}
           && t.device.total == s.device.total - s.held[slot].bytes
           && t.device.violation == s.device.violation)
    case GiveAll(slots, refused) =>
      (forall k :: k in slots ==> k in s.held) ==>
        && NoneReported(s.device, s.held, slots, refused)
        && t.held == s.held - (set k | k in slots) && t.direct == s.direct
        && t.device.total == s.device.total - SumBytes(s.held, slots)
        && t.device.violation == s.device.violation
    case Direct(size, redzone, grant) =>
      && t.held == s.held && (st == Success <==> grant.Some?)
      && (st == Success ==>
           && t.direct == s.direct + {grant.value + redzone} && grant.value + redzone in t.device.table
           && t.device.total == s.device.total + size)
      && (st != Success ==> t.direct == s.direct && t.device.table == s.device.table)
    case Mark(p, size, flag) =>
      && t.held == s.held && t.direct == s.direct
      && (st == Success <==> p == 0 || size == 0 || p in s.device.table)
      && (p in s.device.table && size != 0 ==> t.device.table[p].poisoned == flag)
  }

  lemma StepTake(s: System, slot: Slot, bytes: u64, grant: Option<u64>)
    requires SystemInv(s) && Legal(s, Take(slot, bytes, grant))
    ensures SystemInv(Next(s, Take(slot, bytes, grant)).0)
    ensures CleanCall(s, Take(slot, bytes, grant))
  {
    hide Inv, Malloc, MayGrant;
    AcquireAnswers(s.device, s.held, slot, bytes, grant);
    AcquireKeepsCoupling(s.device, s.held, slot, bytes, grant);
    NullIsNotTracked(s.device);
    var t := Acquire(s.device, s.held, slot, bytes, grant);
    if t.status == Success {
      TakenTable(s.device, s.held, slot, bytes, grant);
      forall p | p in t.device.table && p !in s.direct ensures Owned(t.held, p) {
        if p in s.device.table {
          var k :| k in s.held && s.held[k].ptr == p;
          assert t.held[k].ptr == p;
        } else {
          assert t.held[slot].ptr == p;
        }
      }
    }
  }

  /** A successful acquisition adds its own pointer to the table and no other. */
  lemma TakenTable<K>(d: Device, held: map<K, Holding>, key: K, bytes: u64, grant: Option<u64>)
    requires Acquire(d, held, key, bytes, grant).status == Success
    ensures var t := Acquire(d, held, key, bytes, grant);
      key in t.held && t.device.table.Keys == d.table.Keys + (if 0 < bytes then {t.held[key].ptr} else {})
  {
  }

  lemma StepGive(s: System, slot: Slot, willing: bool)
    requires SystemInv(s)
    ensures SystemInv(Next(s, Give(slot, willing)).0)
    ensures CleanCall(s, Give(slot, willing))
  {
    if slot in s.held {
      hide Inv;
      FreeHeld(s.device, s.held, slot, willing);
      var p := s.held[slot].ptr;
      var h := s.held - {slot};
      forall q | q in s.device.table - {p} && q !in s.direct ensures Owned(h, q) {
        var k :| k in s.held && s.held[k].ptr == q;
        assert k in h;
      }
    }
  }

  lemma StepGiveAll(s: System, slots: seq<Slot>, refused: set<u64>)
    requires SystemInv(s) && Legal(s, GiveAll(slots, refused))
    ensures SystemInv(Next(s, GiveAll(slots, refused)).0)
    ensures CleanCall(s, GiveAll(slots, refused))
  {
    hide Inv, ReleaseMany, Pointers, NoneReported;
    ReleaseManyIsClean(s.device, s.held, slots, refused);
    ReleaseManyDrains(s.device, s.held, slots, refused);
    PointersExactly(s.held, slots);
    var t := Next(s, GiveAll(slots, refused)).0;
    forall q | q in t.device.table && q !in s.direct ensures Owned(t.held, q) {
      var k :| k in s.held && s.held[k].ptr == q;
      assert k in t.held;
    }
  }

  lemma StepDirect(s: System, size: u64, redzone: u64, grant: Option<u64>)
    requires SystemInv(s) && Legal(s, Direct(size, redzone, grant))
    ensures SystemInv(Next(s, Direct(size, redzone, grant)).0)
    ensures CleanCall(s, Direct(size, redzone, grant))
  {
    hide Inv, MayGrant;
    NullIsNotTracked(s.device);
    if grant.Some? {
      MallocKeepsInv(s.device, size, redzone, grant.value);
      var p := grant.value + redzone;
      hide Malloc;
      var t := Next(s, Direct(size, redzone, grant)).0;
      assert t.device.table.Keys == s.device.table.Keys + {p};
      NullIsNotTracked(t.device);
    } else {
      RefusedKeepsInv(s.device, size);
    }
  }

  lemma RefusedKeepsInv(d: Device, size: u64)
    requires Inv(d)
    ensures Inv(LogRefusal(d, size))
  {
  }

  lemma MarkedTable(d: Device, p: u64, size: u64, flag: bool)
    ensures var e := SetPoison(d, p, size, flag).device;
      && e.table.Keys == d.table.Keys
      && (forall k :: k in d.table ==> e.table[k].size == d.table[k].size)
  {
  }

  lemma StepMark(s: System, p: u64, size: u64, flag: bool)
    requires SystemInv(s)
    ensures SystemInv(Next(s, Mark(p, size, flag)).0)
    ensures CleanCall(s, Mark(p, size, flag))
  {
    hide Inv, SetPoison;
    NullIsNotTracked(s.device);
    SetPoisonAnswers(s.device, p, size, flag);
    SetPoisonKeepsInv(s.device, p, size, flag);
    MarkedTable(s.device, p, size, flag);
    assert forall q :: q in SetPoison(s.device, p, size, flag).device.table <==> q in s.device.table;
  }

  lemma Step(s: System, c: Call)
    requires SystemInv(s) && Legal(s, c)
    ensures SystemInv(Next(s, c).0)
    ensures CleanCall(s, c)
  {
    hide SystemInv, Legal, Next, NoneReported, SumBytes;
    match c
    case Take(slot, bytes, grant) => StepTake(s, slot, bytes, grant);
    case Give(slot, willing) => StepGive(s, slot, willing);
    case GiveAll(slots, refused) => StepGiveAll(s, slots, refused);
    case Direct(size, redzone, grant) => StepDirect(s, size, redzone, grant);
    case Mark(p, size, flag) => StepMark(s, p, size, flag);
  }

  ghost function Exec(s: System, cs: seq<Call>): System
    decreases |cs|
  {
    if cs == [] then s else Exec(Next(s, cs[0]).0, cs[1..])
  }

  ghost predicate LegalRun(s: System, cs: seq<Call>)
    decreases |cs|
  {
    cs != [] ==> Legal(s, cs[0]) && LegalRun(Next(s, cs[0]).0, cs[1..])
  }

  /** No free of a held record anywhere in the run reports a boundary violation, and every
      adapter's reset takes exactly its own bytes. */
  ghost predicate NoBadFree(s: System, cs: seq<Call>)
    decreases |cs|
  {
    cs != [] ==>
      && CleanCall(s, cs[0])
      && NoBadFree(Next(s, cs[0]).0, cs[1..])
  }

  const BEGIN := System(BLANK, map[], {})

  lemma {:induction false} RunKeepsInv(s: System, cs: seq<Call>)
    requires SystemInv(s) && LegalRun(s, cs)
    ensures SystemInv(Exec(s, cs)) && NoBadFree(s, cs)
    decreases |cs|
  {
    hide SystemInv, Legal, Next, CleanCall;
    if cs != [] {
      Step(s, cs[0]);
      RunKeepsInv(Next(s, cs[0]).0, cs[1..]);
    }
  }

  /** For every sequence of adapter calls on one sanitizer: every held non-null pointer is
      tracked with the recorded size and held once, every tracked region has an owner, the byte
      total is the sum of the tracked sizes, no adapter free is reported, single or inside a
      reset, and every reset of an adapter takes exactly its own bytes. */
  lemma AdapterRun(cs: seq<Call>)
    requires LegalRun(BEGIN, cs)
    ensures SystemInv(Exec(BEGIN, cs)) && NoBadFree(BEGIN, cs)
  {
    RunKeepsInv(BEGIN, cs);
  }

  // ---- one adapter's view -------------------------------------------------------------

  /** The holdings of one adapter, as its own hash map has them. */
  ghost function View(held: map<Slot, Holding>, a: nat): map<u64, Holding> {
    map k: u64 | Slot(a, k) in held :: held[Slot(a, k)]
  }

  lemma AcquireProjects(
    d: Device, held: map<Slot, Holding>, a: nat, key: u64, bytes: u64, grant: Option<u64>)
    ensures var t, u := Acquire(d, held, Slot(a, key), bytes, grant), Acquire(d, View(held, a), key, bytes, grant);
      && t.device == u.device && t.status == u.status && View(t.held, a) == u.held
      && forall b :: b != a ==> View(t.held, b) == View(held, b)
  {
    hide Malloc, View;
    var m := Malloc(d, true, bytes, REDZONE, grant);
    if m.status == Success && m.written.Some? {
      var x := Holding(m.written.value, bytes);
      ViewInsert(held, a, key, x);
      forall b | b != a ensures View(held[Slot(a, key) := x], b) == View(held, b) {
        ViewElsewhere(held, a, key, x, b);
      }
    }
  }

  lemma ViewInsert(held: map<Slot, Holding>, a: nat, key: u64, x: Holding)
    ensures View(held[Slot(a, key) := x], a) == View(held, a)[key := x]
  {
  }

  lemma ViewElsewhere(held: map<Slot, Holding>, a: nat, key: u64, x: Holding, b: nat)
    requires b != a
    ensures View(held[Slot(a, key) := x], b) == View(held, b)
  {
  }

  lemma ReleaseProjects(d: Device, held: map<Slot, Holding>, a: nat, key: u64, willing: bool)
    ensures var t, u := Release(d, held, Slot(a, key), willing), Release(d, View(held, a), key, willing);
      && t.device == u.device && t.status == u.status && View(t.held, a) == u.held
      && forall b :: b != a ==> View(t.held, b) == View(held, b)
  {
    hide Free;
  }

  /** A step on a slot is the adapter's own step on its view, and no other adapter's view changes. */
  lemma StepsProject(
    d: Device, held: map<Slot, Holding>, a: nat, key: u64, bytes: u64, grant: Option<u64>, willing: bool)
    ensures var t, u := Acquire(d, held, Slot(a, key), bytes, grant), Acquire(d, View(held, a), key, bytes, grant);
      && t.device == u.device && t.status == u.status && View(t.held, a) == u.held
      && forall b :: b != a ==> View(t.held, b) == View(held, b)
    ensures var t, u := Release(d, held, Slot(a, key), willing), Release(d, View(held, a), key, willing);
      && t.device == u.device && t.status == u.status && View(t.held, a) == u.held
      && forall b :: b != a ==> View(t.held, b) == View(held, b)
  {
    hide Acquire, Release, View;
    AcquireProjects(d, held, a, key, bytes, grant);
    ReleaseProjects(d, held, a, key, willing);
  }

  ghost function SlotsOf(a: nat, keys: seq<u64>): seq<Slot> {
    seq(|keys|, i requires 0 <= i < |keys| => Slot(a, keys[i]))
  }

  /** An adapter's reset on its own map is the release of its slots, in the same order. */
  lemma {:induction false} ResetProjects(d: Device, held: map<Slot, Holding>, a: nat, keys: seq<u64>, refused: set<u64>)
    requires forall k :: k in keys ==> Slot(a, k) in held
    requires forall i, j :: 0 <= i < j < |keys| ==> keys[i] != keys[j]
    ensures forall k :: k in SlotsOf(a, keys) ==> k in held
    ensures ReleaseMany(d, held, SlotsOf(a, keys), refused).0 == ReleaseMany(d, View(held, a), keys, refused).0
    ensures View(ReleaseMany(d, held, SlotsOf(a, keys), refused).1, a) == ReleaseMany(d, View(held, a), keys, refused).1
    decreases |keys|
  {
    hide Free, Willing;
    if keys != [] {
      var init, key := keys[..|keys| - 1], keys[|keys| - 1];
      ResetProjects(d, held, a, init, refused);
      assert SlotsOf(a, keys)[..|init|] == SlotsOf(a, init);
    }
  }
}
