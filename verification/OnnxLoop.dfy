/**
 The record loop of the ONNX auditor as the machine runs it: one step per iteration, with the
 length guards on the 64-bit sum cursor + len as the source has them. A sum that wraps passes
 the guard and moves the cursor back. The laws below say exactly when the loop ends, exactly
 when it reads a buffer as its records, and where it leaves them otherwise.
 */
module OnnxLoop {
  import opened Machine
  import opened Varint
  import opened OnnxRecords

  /** Between two iterations, or behind parse's return. */
  datatype State =
    | Running(cursor: nat, header: Header)
    | Stopped(status: Status, cursor: nat, header: Header)

  // ---- one iteration ------------------------------------------------------------------

  /** A length-delimited payload behind its tag; the bytes of a wrapped one have no use. */
  function Payload(buffer: seq<byte>, tag: u64, at: nat, h: Header): (r: State)
    requires Addressable(buffer) && at <= |buffer|
    ensures r.cursor <= |buffer|
  {
    match ReadVarint(buffer[at..])
    case Unreadable(rest) => Stopped(ErrOutOfBoundsRead, |buffer| - |rest|, h)
    case Varint(len, rest) =>
      var behind := |buffer| - |rest|;
      var end := Add64(behind, VarValue(len));
      if (Capped(tag) && MAX_STRING < VarValue(len)) || |buffer| < end then Stopped(ErrOutOfBoundsRead, behind, h)
      else Running(end, Absorb(h, tag, Delimited(len, if behind <= end then buffer[behind..end] else [])))
  }

  /** The dispatch on the tag, with the cursor behind it. */
  function Dispatch(buffer: seq<byte>, tag: u64, at: nat, h: Header): (r: State)
    requires Addressable(buffer) && at <= |buffer|
    ensures r.cursor <= |buffer|
  {
    if Wire(tag) == 0 then
      match ReadVarint(buffer[at..])
      case Unreadable(rest) => Stopped(ErrOutOfBoundsRead, |buffer| - |rest|, h)
      case Varint(bytes, rest) => Running(|buffer| - |rest|, Absorb(h, tag, Number(bytes)))
    else if Wire(tag) == 1 then
      if |buffer| < at + 8 then Stopped(ErrOutOfBoundsRead, at, h) else Running(at + 8, h)
    else if Wire(tag) == 2 then Payload(buffer, tag, at, h)
    else if Wire(tag) == 5 then
      if |buffer| < at + 4 then Stopped(ErrOutOfBoundsRead, at, h) else Running(at + 4, h)
    else Stopped(ErrMalformedHeader, at, h)
  }

  /** The loop test and one iteration; a stopped loop stays as it is. */
  function Step(buffer: seq<byte>, m: State): (r: State)
    requires Addressable(buffer) && m.cursor <= |buffer|
    ensures r.cursor <= |buffer|
  {
    if m.Stopped? then m
    else if m.cursor == |buffer| then Stopped(Validated(m.header), m.cursor, m.header)
    else
      match ReadVarint(buffer[m.cursor..])
      case Unreadable(rest) => Stopped(Validated(m.header), |buffer| - |rest|, m.header)
      case Varint(tag, rest) => Dispatch(buffer, VarValue(tag), |buffer| - |rest|, m.header)
  }

  /** parse on the buffer after n iterations. */
  function After(buffer: seq<byte>, n: nat): (r: State)
    requires Addressable(buffer)
    ensures r.cursor <= |buffer|
  {
    if n == 0 then if buffer == [] then Stopped(ErrMalformedHeader, 0, NO_HEADER) else Running(0, NO_HEADER)
    else Step(buffer, After(buffer, n - 1))
  }

  // ---- when the loop ends -------------------------------------------------------------

  /** The loop has ended after as many iterations as the buffer has bytes, and one. */
  predicate Terminates(buffer: seq<byte>)
    requires Addressable(buffer)
  {
    After(buffer, |buffer| + 1).Stopped?
  }

  /** What parse returns and leaves in its fields, if it returns. */
  function Result(buffer: seq<byte>): State
    requires Addressable(buffer)
  {
    After(buffer, |buffer| + 1)
  }

  /** Two iterations start at the same byte. */
  ghost predicate Revisits(buffer: seq<byte>, i: nat, j: nat)
    requires Addressable(buffer)
  {
    && i < j && After(buffer, i).Running? && After(buffer, j).Running?
    && After(buffer, i).cursor == After(buffer, j).cursor
  }

  ghost predicate Alike(m: State, n: State) {
    m.cursor == n.cursor && (m.Running? <==> n.Running?)
  }

  lemma {:induction false} StaysStopped(buffer: seq<byte>, i: nat, j: nat)
    requires Addressable(buffer) && i <= j && After(buffer, i).Stopped?
    ensures After(buffer, j) == After(buffer, i)
    decreases j
  {
    hide Dispatch, ReadVarint;
    if i < j {
      StaysStopped(buffer, i, j - 1);
    }
  }

  /** The way of the cursor does not depend on the header. */
  lemma CursorAlone(buffer: seq<byte>, m: State, n: State)
    requires Addressable(buffer) && m.cursor <= |buffer| && Alike(m, n)
    ensures Alike(Step(buffer, m), Step(buffer, n))
  {
    hide Absorb, VarValue, ReadVarint;
  }

  lemma {:induction false} Periodic(buffer: seq<byte>, i: nat, j: nat, k: nat)
    requires Addressable(buffer) && Revisits(buffer, i, j)
    ensures Alike(After(buffer, i + k), After(buffer, j + k))
    decreases k
  {
    hide Step;
    if 0 < k {
      Periodic(buffer, i, j, k - 1);
      CursorAlone(buffer, After(buffer, i + k - 1), After(buffer, j + k - 1));
    }
  }

  lemma {:induction false} NeverStops(buffer: seq<byte>, i: nat, j: nat, n: nat)
    requires Addressable(buffer) && Revisits(buffer, i, j)
    ensures After(buffer, n).Running?
    decreases n
  {
    hide Step;
    if n < j {
      if After(buffer, n).Stopped? {
        StaysStopped(buffer, n, j);
      }
    } else {
      Periodic(buffer, i, j, n - j);
      NeverStops(buffer, i, j, n - (j - i));
    }
  }

  /** More positions than bytes: one comes twice. */
  lemma {:induction false} Pigeonhole(cs: seq<nat>, n: nat) returns (i: nat, j: nat)
    requires n < |cs| && forall k :: 0 <= k < |cs| ==> cs[k] < n
    ensures i < j < |cs| && cs[i] == cs[j]
    decreases n
  {
    var last := |cs| - 1;
    var init := cs[..last];
    if k :| 0 <= k < last && cs[k] == cs[last] {
      return k, last;
    }
    var moved := seq(last, k requires 0 <= k < last => if init[k] == n - 1 then cs[last] else init[k]);
    i, j := Pigeonhole(moved, n - 1);
    assert cs[i] == init[i] && cs[j] == init[j];
  }

  lemma SomeByteTwice(buffer: seq<byte>) returns (i: nat, j: nat)
    requires Addressable(buffer) && !Terminates(buffer)
    ensures Revisits(buffer, i, j)
  {
    hide Dispatch, ReadVarint;
    var n := |buffer| + 1;
    forall k: nat | k < n ensures After(buffer, k).Running? && After(buffer, k).cursor < |buffer| {
      if After(buffer, k + 1).Stopped? {
        StaysStopped(buffer, k + 1, n);
      }
    }
    var cs: seq<nat> := seq(n, k requires 0 <= k < n => After(buffer, k).cursor);
    i, j := Pigeonhole(cs, |buffer|);
    assert cs[i] == cs[j];
  }

  /** parse returns exactly when no two iterations start at the same byte, and then within as
      many iterations as the buffer has bytes, and one. */
  lemma TerminatesExactly(buffer: seq<byte>)
    requires Addressable(buffer)
    ensures Terminates(buffer) <==> exists n: nat :: After(buffer, n).Stopped?
    ensures Terminates(buffer) <==> !exists i: nat, j: nat :: Revisits(buffer, i, j)
  {
    hide After, Revisits;
    if Terminates(buffer) {
      var n := |buffer| + 1;
      assert After(buffer, n).Stopped?;
      forall i: nat, j: nat | Revisits(buffer, i, j) ensures false {
        NeverStops(buffer, i, j, |buffer| + 1);
      }
    } else {
      var i, j := SomeByteTwice(buffer);
      forall n: nat ensures !After(buffer, n).Stopped? {
        NeverStops(buffer, i, j, n);
      }
    }
  }

  /** The unbounded graph count of the model is the 64-bit one of the source. */
  lemma {:induction false} CountFits(buffer: seq<byte>, n: nat)
    requires Addressable(buffer)
    ensures After(buffer, n).header.nodeCount <= n
  {
    hide VarValue, ReadVarint;
    if 0 < n {
      CountFits(buffer, n - 1);
    }
  }

  // ---- the length guards in 64-bit arithmetic -----------------------------------------

  /** The source compares the wrapped sum cursor + len with the size. That is the meaning
      len <= size - cursor exactly when the sum does not wrap; a wrapped sum is always let
      through, and moves the cursor backwards. */
  lemma GuardAgreesExactly(cursor: u64, len: u64, size: u64)
    requires cursor <= size < 0x8000_0000_0000_0000
    ensures (Add64(cursor, len) > size <==> len > size - cursor) <==> cursor + len < WORD
    ensures WORD <= cursor + len ==> Add64(cursor, len) < cursor <= size
  {
  }

  /** The uncapped length, if there is one behind this tag, does not wrap with the cursor; `size`
      is that of the whole buffer and s what is left of it behind the tag. */
  predicate LengthFits(size: nat, tag: u64, s: seq<byte>) {
    Wire(tag) == 2 && !Capped(tag) && ReadVarint(s).Varint? ==>
      size - |ReadVarint(s).rest| + VarValue(ReadVarint(s).bytes) < WORD
  }

  /** No length met along the records of s wraps. */
  predicate NoWrapFrom(size: nat, s: seq<byte>)
    decreases |s|
  {
    match ReadVarint(s)
    case Unreadable(_) => true
    case Varint(tag, r) =>
      && LengthFits(size, VarValue(tag), r)
      && match ReadBody(VarValue(tag), r)
         case Bad(_) => true
         case Got(_, r2) => NoWrapFrom(size, r2)
  }

  predicate NoWrap(buffer: seq<byte>) {
    NoWrapFrom(|buffer|, buffer)
  }

  /** The record at `from` is length-delimited with a length that wraps and leads to `to`, before
      the payload. */
  ghost predicate Rewinds(buffer: seq<byte>, from: nat, to: nat)
    requires from <= |buffer|
  {
    var tag := ReadVarint(buffer[from..]);
    && tag.Varint? && Wire(VarValue(tag.bytes)) == 2
    && var len := ReadVarint(tag.rest);
       && len.Varint?
       && |buffer| - |len.rest| + VarValue(len.bytes) == WORD + to
       && to < |buffer| - |len.rest|
  }

  // ---- the loop against the split -----------------------------------------------------

  lemma VarintRest(buffer: seq<byte>, at: nat)
    requires at <= |buffer|
    ensures var rest := ReadVarint(buffer[at..]).rest;
      |rest| <= |buffer| - at && buffer[|buffer| - |rest|..] == rest
  {
    hide VarValue;
    var s := buffer[at..];
    var n := |s| - |ReadVarint(s).rest|;
    assert s[n..] == buffer[at + n..];
  }

  lemma PayloadFollows(buffer: seq<byte>, tag: u64, at: nat, h: Header)
    requires Addressable(buffer) && at <= |buffer| && Wire(tag) == 2
    ensures var m := Payload(buffer, tag, at, h);
      match ReadBody(tag, buffer[at..])
      case Got(body, rest) =>
        && m == Running(|buffer| - |rest|, Absorb(h, tag, body))
        && buffer[|buffer| - |rest|..] == rest
        && LengthFits(|buffer|, tag, buffer[at..])
      case Bad(st) =>
        if LengthFits(|buffer|, tag, buffer[at..]) then m.Stopped? && m.status == st && m.header == h
        else
          var len := ReadVarint(buffer[at..]);
          && len.Varint?
          && st == ErrOutOfBoundsRead && m.Running? && m.cursor < |buffer| - |len.rest|
          && |buffer| - |len.rest| + VarValue(len.bytes) == WORD + m.cursor
  {
    hide VarValue, ReadVarint, Absorb, Wire, Field;
    VarintRest(buffer, at);
    var v := ReadVarint(buffer[at..]);
    if v.Varint? {
      var behind, n := |buffer| - |v.rest|, VarValue(v.bytes);
      if n <= |v.rest| {
        assert v.rest[..n] == buffer[behind..behind + n];
        assert v.rest[n..] == buffer[behind + n..];
      }
    }
  }

  /** A record body that the split accepts is what the loop reads; one that it refuses makes the
      loop stop with the same status, unless its length wraps. */
  lemma BodyFollows(buffer: seq<byte>, tag: u64, at: nat, h: Header)
    requires Addressable(buffer) && at <= |buffer|
    ensures var m := Dispatch(buffer, tag, at, h);
      match ReadBody(tag, buffer[at..])
      case Got(body, rest) =>
        && m == Running(|buffer| - |rest|, Absorb(h, tag, body))
        && buffer[|buffer| - |rest|..] == rest
        && LengthFits(|buffer|, tag, buffer[at..])
      case Bad(st) =>
        if LengthFits(|buffer|, tag, buffer[at..]) then m.Stopped? && m.status == st && m.header == h
        else
          var len := ReadVarint(buffer[at..]);
          && Wire(tag) == 2 && len.Varint?
          && st == ErrOutOfBoundsRead && m.Running? && m.cursor < |buffer| - |len.rest|
          && |buffer| - |len.rest| + VarValue(len.bytes) == WORD + m.cursor
  {
    hide VarValue, ReadVarint, Payload, Absorb;
    VarintRest(buffer, at);
    var s := buffer[at..];
    if Wire(tag) == 2 {
      PayloadFollows(buffer, tag, at, h);
    } else if Wire(tag) == 1 || Wire(tag) == 5 {
      var width := if Wire(tag) == 1 then 8 else 4;
      if at + width <= |buffer| {
        assert s[width..] == buffer[at + width..];
        NothingAbsorbed(h, tag, ReadBody(tag, s).body);
      }
    }
  }

  lemma NothingAbsorbed(h: Header, tag: u64, b: Body)
    requires b.Eight? || b.Four?
    requires Wire(tag) == 1 || Wire(tag) == 5
    ensures Absorb(h, tag, b) == h
  {
  }


  /** What the loop has to show one iteration behind the records of the split. */
  ghost predicate EndsAs(buffer: seq<byte>, p: Split, h: Header, last: State) {
    && last.Stopped? && last.header == h
    && match p
       case Broken(_, st) => last.status == st
       case Done(_, _, rest) => last.status == Validated(h) && last.cursor == |buffer| - |rest|
  }

  lemma {:induction false} FollowFrom(buffer: seq<byte>, n: nat, c: nat, h: Header)
    requires Addressable(buffer) && c <= |buffer| && After(buffer, n) == Running(c, h)
    ensures var s := buffer[c..];
      var p := SplitRecords(s);
      var m, last := After(buffer, n + |p.records|), After(buffer, n + |p.records| + 1);
      && m.Running? && m.header == Fold(h, p.records)
      && (NoWrapFrom(|buffer|, s) ==> EndsAs(buffer, p, m.header, last))
      && (!NoWrapFrom(|buffer|, s) ==>
           p.Broken? && p.status == ErrOutOfBoundsRead && last.Running? && Rewinds(buffer, m.cursor, last.cursor))
    decreases |buffer| - c
  {
    hide VarValue, ReadVarint, ReadBody, Dispatch, LengthFits, Absorb, Wire, Validated, IsVarint;
    var s := buffer[c..];
    VarintRest(buffer, c);
    ReadSound(s);
    match ReadVarint(s)
    case Unreadable(_) =>
    case Varint(tag, r) =>
      var at := |buffer| - |r|;
      BodyFollows(buffer, VarValue(tag), at, h);
      match ReadBody(VarValue(tag), r) {
        case Bad(_) =>
        case Got(body, r2) =>
          var g := Absorb(h, VarValue(tag), body);
          FollowFrom(buffer, n + 1, |buffer| - |r2|, g);
          var p, q := SplitRecords(s), SplitRecords(r2);
          assert p.records[1..] == q.records;
      }
  }

  /** The loop takes the records of the split one by one. In the iteration behind them it stops
      with the split's verdict exactly when no length along them wraps; otherwise the split is
      broken by that length, and the loop goes on from a byte before its payload. */
  lemma FollowsSplitExactly(buffer: seq<byte>)
    requires Addressable(buffer) && buffer != []
    ensures var p := SplitRecords(buffer);
      var m, last := After(buffer, |p.records|), After(buffer, |p.records| + 1);
      && m.Running? && m.header == Fold(NO_HEADER, p.records)
      && (NoWrap(buffer) <==> last.Stopped?)
      && (NoWrap(buffer) ==> EndsAs(buffer, p, m.header, last) && last.status == Verdict(buffer))
      && (!NoWrap(buffer) ==> Verdict(buffer) == ErrOutOfBoundsRead && Rewinds(buffer, m.cursor, last.cursor))
  {
    hide SplitRecords, Step, NoWrapFrom, Rewinds, Fold;
    assert buffer[0..] == buffer;
    FollowFrom(buffer, 0, 0, NO_HEADER);
  }

  lemma {:induction false} RecordsBelow(s: seq<byte>)
    ensures |SplitRecords(s).records| <= |s|
    decreases |s|
  {
    hide ReadVarint, VarValue, ReadBody;
    if s != [] {
      ReadSound(s);
      match ReadVarint(s)
      case Unreadable(_) =>
      case Varint(tag, r) =>
        if ReadBody(VarValue(tag), r).Got? {
          RecordsBelow(ReadBody(VarValue(tag), r).rest);
        }
    }
  }

  lemma ReadsToTheEnd(buffer: seq<byte>)
    requires Addressable(buffer) && NoWrap(buffer) && buffer != []
    ensures var p := SplitRecords(buffer);
      EndsAs(buffer, p, Fold(NO_HEADER, p.records), Result(buffer)) && Result(buffer).status == Verdict(buffer)
  {
    hide SplitRecords, Step, NoWrap, Verdict, Fold, Rewinds;
    FollowsSplitExactly(buffer);
    RecordsBelow(buffer);
    StaysStopped(buffer, |SplitRecords(buffer).records| + 1, |buffer| + 1);
  }

  /** Without wrapping lengths parse returns, with the verdict and the fold of the split; and
      unless a record is broken the bytes before the tail are the encoding of the records. */
  lemma ReadsAsRecords(buffer: seq<byte>)
    requires Addressable(buffer) && NoWrap(buffer)
    ensures Terminates(buffer)
    ensures Result(buffer).status == Verdict(buffer)
    ensures Result(buffer).header == Fold(NO_HEADER, SplitRecords(buffer).records)
    ensures var p := SplitRecords(buffer);
      p.Done? ==> Result(buffer).cursor == |buffer| - |p.rest| && SplitsAs(buffer, p.records, p.tail)
  {
    hide Step, NoWrap, AllOk, NoTag, Absorb;
    SplitSound(buffer);
    if buffer == [] {
      StaysStopped(buffer, 0, 1);
    } else {
      hide SplitRecords, Verdict, After, Fold;
      ReadsToTheEnd(buffer);
    }
  }

  /** Success of parse, without mentioning the reader: the buffer is non-empty and is complete
      records followed by nothing or by a tag that cannot be read, with at most 500000 graphs. */
  lemma SucceedsExactly(buffer: seq<byte>)
    requires Addressable(buffer) && NoWrap(buffer)
    ensures Terminates(buffer)
    ensures Result(buffer).status == Success <==>
      buffer != [] && exists rs, tail :: SplitsAs(buffer, rs, tail) && Graphs(rs) <= MAX_GRAPHS
  {
    hide NoWrap, Verdict, Result, Terminates;
    ReadsAsRecords(buffer);
    AcceptedExactly(buffer);
  }

  // ---- concatenation and insertion ----------------------------------------------------

  /** Nearer to the front a length wraps less easily. */
  lemma {:induction false} NoWrapShorter(size: nat, more: nat, s: seq<byte>)
    requires size <= more && NoWrapFrom(more, s)
    ensures NoWrapFrom(size, s)
    decreases |s|
  {
    hide ReadBody, VarValue, Wire, Capped;
    match ReadVarint(s)
    case Unreadable(_) =>
    case Varint(tag, r) =>
      if ReadBody(VarValue(tag), r).Got? {
        NoWrapShorter(size, more, ReadBody(VarValue(tag), r).rest);
      }
  }

  lemma BodyLengthFits(size: nat, tag: u64, b: Body, rest: seq<byte>)
    requires BodyOk(tag, b) && |EncodeBody(b) + rest| <= size < 0x8000_0000_0000_0000
    ensures LengthFits(size, tag, EncodeBody(b) + rest)
  {
    hide VarValue, IsVarint, ReadVarint;
    if b.Delimited? {
      Assoc(b.len, b.data, rest);
      ReadExact(b.len, b.data + rest);
    }
  }

  lemma {:induction false} CompleteNoWrap(size: nat, rs: seq<Record>, rest: seq<byte>)
    requires AllOk(rs) && |EncodeRecords(rs) + rest| <= size < 0x8000_0000_0000_0000
    ensures NoWrapFrom(size, EncodeRecords(rs) + rest) <==> NoWrapFrom(size, rest)
    decreases |rs|
  {
    hide BodyOk, VarValue, IsVarint, ReadVarint, ReadBody, LengthFits, EncodeBody;
    if rs == [] {
      assert EncodeRecords(rs) + rest == rest;
    } else {
      var r, more := rs[0], EncodeRecords(rs[1..]) + rest;
      assert RecordOk(r);
      Assoc(EncodeRecord(r), EncodeRecords(rs[1..]), rest);
      Assoc(r.tag, EncodeBody(r.body), more);
      ReadExact(r.tag, EncodeBody(r.body) + more);
      BodyExact(VarValue(r.tag), r.body, more);
      BodyLengthFits(size, VarValue(r.tag), r.body, more);
      CompleteNoWrap(size, rs[1..], rest);
    }
  }

  lemma CompleteReads(rs: seq<Record>)
    requires AllOk(rs) && Addressable(EncodeRecords(rs))
    ensures NoWrap(EncodeRecords(rs)) && Terminates(EncodeRecords(rs))
    ensures Result(EncodeRecords(rs)).header == Fold(NO_HEADER, rs)
    ensures Result(EncodeRecords(rs)).cursor == |EncodeRecords(rs)|
  {
    hide Fold, SplitRecords, Terminates, Result, AllOk;
    var s := EncodeRecords(rs);
    assert s + [] == s;
    CompleteNoWrap(|s|, rs, []);
    SplitAll(rs, []);
    EmptySplit();
    assert rs + [] == rs;
    ReadsAsRecords(s);
  }

  lemma EmptySplit()
    ensures SplitRecords([]) == Done([], [], [])
  {
  }

  lemma {:induction false} EncodeAppend(a: seq<Record>, b: seq<Record>)
    ensures EncodeRecords(a + b) == EncodeRecords(a) + EncodeRecords(b)
    decreases |a|
  {
    if a == [] {
      assert a + b == b;
    } else {
      assert (a + b)[1..] == a[1..] + b;
      EncodeAppend(a[1..], b);
    }
  }

  /** parse on two concatenated complete messages leaves the header it leaves on the first,
      overridden by what the second mentions, with the node counts added. */
  lemma MergedHeaders(a: seq<Record>, b: seq<Record>)
    requires AllOk(a) && AllOk(b) && Addressable(EncodeRecords(a) + EncodeRecords(b))
    ensures var s := EncodeRecords(a) + EncodeRecords(b);
      && Terminates(s)
      && Result(s).header == Override(Result(EncodeRecords(a)).header, Result(EncodeRecords(b)).header, b)
  {
    hide Fold, EncodeRecords, Terminates, Result, Override;
    EncodeAppend(a, b);
    CompleteReads(a);
    CompleteReads(b);
    CompleteReads(a + b);
    Merge(a, b);
  }

  /** A well-formed record of no recognised meaning, put at any record boundary of a buffer whose
      lengths do not wrap with it, changes neither the header parse leaves nor, in a buffer that
      is not empty without it, the status. */
  lemma UnknownChangesNothing(a: seq<Record>, u: Record, rest: seq<byte>)
    requires AllOk(a) && RecordOk(u) && MeaningOf(VarValue(u.tag)) == Unknown
    requires var t := EncodeRecords(a) + (EncodeRecord(u) + rest);
      Addressable(t) && NoWrap(t)
    ensures var s := EncodeRecords(a) + rest;
      var t := EncodeRecords(a) + (EncodeRecord(u) + rest);
      && Terminates(s) && Terminates(t)
      && Result(t).header == Result(s).header
      && (s != [] ==> Result(t).status == Result(s).status)
  {
    hide Fold, SplitRecords, Terminates, Result, Verdict, RecordOk, VarValue, MeaningOf, EncodeRecord;
    var s := EncodeRecords(a) + rest;
    var t := EncodeRecords(a) + (EncodeRecord(u) + rest);
    OneNoWrap(|t|, u, rest);
    CompleteNoWrap(|t|, a, EncodeRecord(u) + rest);
    NoWrapShorter(|s|, |t|, rest);
    CompleteNoWrap(|s|, a, rest);
    ReadsAsRecords(s);
    ReadsAsRecords(t);
    UnknownIsSkipped(a, u, rest);
  }

  lemma OneNoWrap(size: nat, u: Record, rest: seq<byte>)
    requires RecordOk(u) && |EncodeRecord(u) + rest| <= size < 0x8000_0000_0000_0000
    ensures NoWrapFrom(size, EncodeRecord(u) + rest) <==> NoWrapFrom(size, rest)
  {
    hide NoWrapFrom, RecordOk, EncodeRecord;
    assert EncodeRecords([u]) == EncodeRecord(u) by {
      assert [u][1..] == [];
      assert EncodeRecord(u) + [] == EncodeRecord(u);
    }
    CompleteNoWrap(size, [u], rest);
  }

  // ---- buffers on which the loop and the split part -----------------------------------

  lemma Peel(bs: seq<byte>, i: nat)
    requires i < |bs|
    ensures VarSum(bs[i..]) == bs[i] % 128 + 128 * VarSum(bs[i + 1..])
  {
    assert bs[i..][1..] == bs[i + 1..];
  }

  lemma SumOfTen(bs: seq<byte>)
    requires |bs| == 10
    ensures VarSum(bs[5..]) == (bs[5] as int) % 128 + 128 * ((bs[6] as int) % 128 + 128 * ((bs[7] as int) % 128
      + 128 * ((bs[8] as int) % 128 + 128 * ((bs[9] as int) % 128))))
    ensures VarSum(bs) == (bs[0] as int) % 128 + 128 * ((bs[1] as int) % 128 + 128 * ((bs[2] as int) % 128
      + 128 * ((bs[3] as int) % 128 + 128 * ((bs[4] as int) % 128 + 128 * VarSum(bs[5..])))))
  {
    hide VarSum;
    assert bs[10..] == [] && bs[0..] == bs;
    EmptySum();
    Peel(bs, 9);
    Peel(bs, 8);
    Peel(bs, 7);
    Peel(bs, 6);
    Peel(bs, 5);
    Peel(bs, 4);
    Peel(bs, 3);
    Peel(bs, 2);
    Peel(bs, 1);
    Peel(bs, 0);
  }

  lemma EmptySum()
    ensures VarSum([]) == 0
  {
  }

  const GRAPH_TAG: seq<byte> := [0x3A]
  const REWIND_LENGTH: seq<byte> := [0xF5, 0xFF, 0xFF, 0xFF, 0xFF, 0xFF, 0xFF, 0xFF, 0xFF, 0x01]
  const BACK_ONE_LENGTH: seq<byte> := [0xFF, 0xFF, 0xFF, 0xFF, 0xFF, 0xFF, 0xFF, 0xFF, 0xFF, 0x01]
  const EIGHT_ZEROS: seq<byte> := [0, 0, 0, 0, 0, 0, 0, 0]

  lemma GraphTag()
    ensures IsVarint(GRAPH_TAG) && VarValue(GRAPH_TAG) == 0x3A
  {
    assert GRAPH_TAG[1..] == [];
  }

  lemma LongLengths()
    ensures IsVarint(REWIND_LENGTH) && VarValue(REWIND_LENGTH) == WORD - 11
    ensures IsVarint(BACK_ONE_LENGTH) && VarValue(BACK_ONE_LENGTH) == WORD - 1
  {
    hide VarSum;
    SumOfTen(REWIND_LENGTH);
    SumOfTen(BACK_ONE_LENGTH);
  }

  /** A graph record whose ten-byte length makes cursor + len wrap to `to`. */
  lemma GraphStep(len: seq<byte>, tail: seq<byte>, to: nat, h: Header)
    requires IsVarint(len) && |len| == 10 && VarValue(len) == WORD + to - 11 && to < 11
    requires Addressable(GRAPH_TAG + (len + tail))
    ensures var buffer := GRAPH_TAG + (len + tail);
      && Step(buffer, Running(0, h)) == Running(to, h.(nodeCount := h.nodeCount + 1))
      && SplitRecords(buffer) == Broken([], ErrOutOfBoundsRead)
  {
    hide VarValue, IsVarint, ReadVarint;
    var buffer := GRAPH_TAG + (len + tail);
    GraphTag();
    ReadExact(GRAPH_TAG, len + tail);
    ReadExact(len, tail);
    assert buffer[0..] == buffer;
    assert buffer[1..] == len + tail;
  }

  /** This eleven-byte graph record announces 2^64 - 11 bytes and leads back to its own first
      byte: parse never returns, where the split is broken out of bounds. */
  lemma RewindingRecord(n: nat)
    ensures var buffer := GRAPH_TAG + (REWIND_LENGTH + []);
      && After(buffer, n).Running? && After(buffer, n).cursor == 0
      && !Terminates(buffer)
      && Verdict(buffer) == ErrOutOfBoundsRead
  {
    hide Step, SplitRecords, VarValue, IsVarint;
    var buffer := GRAPH_TAG + (REWIND_LENGTH + []);
    LongLengths();
    GraphStep(REWIND_LENGTH, [], 0, NO_HEADER);
    RewindForever(n);
    RewindForever(|buffer| + 1);
  }

  lemma {:induction false} RewindForever(n: nat)
    ensures var buffer := GRAPH_TAG + (REWIND_LENGTH + []);
      After(buffer, n).Running? && After(buffer, n).cursor == 0
  {
    hide Step, VarValue, IsVarint;
    if 0 < n {
      var buffer := GRAPH_TAG + (REWIND_LENGTH + []);
      RewindForever(n - 1);
      LongLengths();
      GraphStep(REWIND_LENGTH, [], 0, After(buffer, n - 1).header);
    }
  }

  lemma TwoRecords(buffer: seq<byte>, h: Header)
    requires |buffer| == 19 && h.nodeCount == 1
    requires Step(buffer, Running(0, NO_HEADER)) == Running(10, h) && Step(buffer, Running(10, h)) == Running(19, h)
    ensures After(buffer, 1) == Running(10, h) && Result(buffer) == Stopped(Success, 19, h)
  {
    hide Dispatch, ReadVarint;
    assert After(buffer, 0) == Running(0, NO_HEADER);
    assert After(buffer, 2) == Running(19, h);
    assert After(buffer, 3) == Stopped(Success, 19, h);
    StaysStopped(buffer, 3, 20);
  }

  /** And this one, announcing 2^64 - 1 bytes, leads back by one byte: the last byte of its
      length is read as a tag, the eight zeros as its payload, and parse succeeds. */
  lemma WrappedIsAccepted()
    ensures var buffer := GRAPH_TAG + (BACK_ONE_LENGTH + EIGHT_ZEROS);
      && |buffer| == 19 && !NoWrap(buffer)
      && Terminates(buffer) && Result(buffer) == Stopped(Success, 19, NO_HEADER.(nodeCount := 1))
      && Verdict(buffer) == ErrOutOfBoundsRead
  {
    hide Step, After, VarValue, IsVarint, SplitRecords, NoWrap, Rewinds, Fold, Verdict;
    var buffer := GRAPH_TAG + (BACK_ONE_LENGTH + EIGHT_ZEROS);
    var h := NO_HEADER.(nodeCount := 1);
    LongLengths();
    GraphStep(BACK_ONE_LENGTH, EIGHT_ZEROS, 10, NO_HEADER);
    var front := GRAPH_TAG + BACK_ONE_LENGTH[..9];
    assert buffer == front + ([1] + EIGHT_ZEROS);
    EightByteStep(front, EIGHT_ZEROS, h);
    TwoRecords(buffer, h);
    FollowsSplitExactly(buffer);
  }

  /** A byte 1 in front of eight more bytes is a record of field 0, which nothing reads. */
  lemma EightByteStep(front: seq<byte>, data: seq<byte>, h: Header)
    requires |data| == 8 && Addressable(front + ([1] + data))
    ensures Step(front + ([1] + data), Running(|front|, h)) == Running(|front| + 9, h)
  {
    hide VarValue, IsVarint, ReadVarint;
    var buffer := front + ([1] + data);
    assert buffer[|front|..] == [1] + data;
    OneTag();
    ReadExact([1], data);
  }

  lemma OneTag()
    ensures IsVarint([1]) && VarValue([1]) == 1
  {
    assert [1 as byte][1..] == [];
  }
}
