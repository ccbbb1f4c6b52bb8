/**
 Protobuf records as the ONNX auditor reads them (Protocol Buffers Encoding, sections
 "Message Structure" and "Last One Wins"): the wire form of a record, the split of a buffer
 into records, and the header as a left fold over them.
 */
module OnnxRecords {
  import opened Machine
  import opened Varint

  const MAX_STRING := 10485760
  const MAX_GRAPHS := 500000

  datatype Body =
    | Number(bytes: seq<byte>)                       // wire type 0
    | Eight(bytes: seq<byte>)                        // wire type 1
    | Delimited(len: seq<byte>, data: seq<byte>)     // wire type 2
    | Four(bytes: seq<byte>)                         // wire type 5

  datatype Record = Record(tag: seq<byte>, body: Body)

  /** The field number is cut to 32 bits, the wire type is the low three bits. */
  function Field(tag: u64): nat { (tag / 8) % 0x1_0000_0000 }

  function Wire(tag: u64): nat { tag % 8 }

  predicate Capped(tag: u64) {
    Wire(tag) == 2 && (Field(tag) == 2 || Field(tag) == 3)
  }

  predicate BodyOk(tag: u64, b: Body) {
    match b
    case Number(bytes) => Wire(tag) == 0 && IsVarint(bytes)
    case Eight(bytes) => Wire(tag) == 1 && |bytes| == 8
    case Delimited(len, data) =>
      Wire(tag) == 2 && IsVarint(len) && VarValue(len) == |data| && (Capped(tag) ==> |data| <= MAX_STRING)
    case Four(bytes) => Wire(tag) == 5 && |bytes| == 4
  }

  predicate RecordOk(r: Record) {
    IsVarint(r.tag) && BodyOk(VarValue(r.tag), r.body)
  }

  function EncodeBody(b: Body): seq<byte> {
    match b
    case Number(bytes) => bytes
    case Eight(bytes) => bytes
    case Delimited(len, data) => len + data
    case Four(bytes) => bytes
  }

  function EncodeRecord(r: Record): seq<byte> {
    r.tag + EncodeBody(r.body)
  }

  function EncodeRecords(rs: seq<Record>): seq<byte> {
    if rs == [] then [] else EncodeRecord(rs[0]) + EncodeRecords(rs[1..])
  }

  // ---- the header ---------------------------------------------------------------------

  datatype Header = Header(
    irVersion: int, producerName: seq<byte>, producerVersion: seq<byte>, domain: seq<byte>,
    modelVersion: int, nodeCount: nat, initializerCount: nat)

  const NO_HEADER := Header(0, [], [], [], 0, 0, 0)

  /** static_cast<int64_t> of a 64-bit word. */
  function Signed64(x: u64): int {
    if x < 0x8000_0000_0000_0000 then x else x - WORD
  }

  datatype Meaning = IrVersion | ProducerName | ProducerVersion | Graph | Unknown

  /** Which of the four recognised records a tag announces. */
  function MeaningOf(tag: u64): Meaning {
    if Field(tag) == 1 && Wire(tag) == 0 then IrVersion
    else if Field(tag) == 2 && Wire(tag) == 2 then ProducerName
    else if Field(tag) == 3 && Wire(tag) == 2 then ProducerVersion
    else if Field(tag) == 7 && Wire(tag) == 2 then Graph
    else Unknown
  }

  function Absorb(h: Header, tag: u64, b: Body): Header {
    match (MeaningOf(tag), b)
    case (IrVersion, Number(bytes)) => h.(irVersion := Signed64(VarValue(bytes)))
    case (ProducerName, Delimited(_, data)) => h.(producerName := data)
    case (ProducerVersion, Delimited(_, data)) => h.(producerVersion := data)
    case (Graph, _) => h.(nodeCount := h.nodeCount + 1)
    case _ => h
  }

  function Fold(h: Header, rs: seq<Record>): Header
    decreases |rs|
  {
    if rs == [] then h else Fold(Absorb(h, VarValue(rs[0].tag), rs[0].body), rs[1..])
  }

  // ---- splitting a buffer -------------------------------------------------------------

  datatype BodyRead = Got(body: Body, rest: seq<byte>) | Bad(status: Status)

  /** The bytes after a readable tag, with the length guards read as len <= remaining. */
  function ReadBody(tag: u64, s: seq<byte>): (r: BodyRead)
    ensures r.Got? ==> |r.rest| <= |s|
  {
    if Wire(tag) == 0 then
      match ReadVarint(s)
      case Unreadable(_) => Bad(ErrOutOfBoundsRead)
      case Varint(bytes, r) => Got(Number(bytes), r)
    else if Wire(tag) == 1 then
      if |s| < 8 then Bad(ErrOutOfBoundsRead) else Got(Eight(s[..8]), s[8..])
    else if Wire(tag) == 2 then
      match ReadVarint(s)
      case Unreadable(_) => Bad(ErrOutOfBoundsRead)
      case Varint(len, r) =>
        if (Capped(tag) && MAX_STRING < VarValue(len)) || |r| < VarValue(len) then Bad(ErrOutOfBoundsRead)
        else Got(Delimited(len, r[..VarValue(len)]), r[VarValue(len)..])
    else if Wire(tag) == 5 then
      if |s| < 4 then Bad(ErrOutOfBoundsRead) else Got(Four(s[..4]), s[4..])
    else Bad(ErrMalformedHeader)
  }

  /** Done: the records before the end or before a tag that cannot be read; `tail` starts at
      that tag and `rest` is what is left after the failed read. Broken: the loop returned. */
  datatype Split =
    | Done(records: seq<Record>, tail: seq<byte>, rest: seq<byte>)
    | Broken(records: seq<Record>, status: Status)

  function Prepend(r: Record, p: Split): Split {
    match p
    case Done(rs, tail, rest) => Done([r] + rs, tail, rest)
    case Broken(rs, st) => Broken([r] + rs, st)
  }

  /** Every record takes at least one byte of tag, so the bytes left are a termination measure. */
  function SplitRecords(s: seq<byte>): Split
    decreases |s|
  {
    if s == [] then Done([], [], [])
    else
      match ReadVarint(s)
      case Unreadable(rest) => Done([], s, rest)
      case Varint(tag, r) =>
        match ReadBody(VarValue(tag), r)
        case Bad(st) => Broken([], st)
        case Got(body, r2) => Prepend(Record(tag, body), SplitRecords(r2))
  }

  /** validate_graph_metadata. */
  function Validated(h: Header): Status {
    if MAX_GRAPHS < h.nodeCount then ErrMalformedHeader else Success
  }

  /** The status of a buffer read as its records. OnnxLoop.dfy says when it is that of parse. */
  function Verdict(s: seq<byte>): Status {
    if s == [] then ErrMalformedHeader
    else
      match SplitRecords(s)
      case Broken(_, st) => st
      case Done(rs, _, _) => Validated(Fold(NO_HEADER, rs))
  }

  // ---- records round trip -------------------------------------------------------------

  lemma BodyExact(tag: u64, b: Body, rest: seq<byte>)
    requires BodyOk(tag, b)
    ensures ReadBody(tag, EncodeBody(b) + rest) == Got(b, rest)
  {
    hide ReadVarint, VarValue, IsVarint;
    match b
    case Number(bytes) => ReadExact(bytes, rest);
    case Eight(bytes) =>
      assert (bytes + rest)[..8] == bytes && (bytes + rest)[8..] == rest;
    case Four(bytes) =>
      assert (bytes + rest)[..4] == bytes && (bytes + rest)[4..] == rest;
    case Delimited(len, data) =>
      Assoc(len, data, rest);
      ReadExact(len, data + rest);
      assert (data + rest)[..|data|] == data && (data + rest)[|data|..] == rest;
  }

  lemma BodySound(tag: u64, s: seq<byte>)
    ensures var r := ReadBody(tag, s);
      r.Got? ==> BodyOk(tag, r.body) && s == EncodeBody(r.body) + r.rest
  {
    hide ReadVarint, VarValue, IsVarint;
    ReadSound(s);
    var r := ReadBody(tag, s);
    if r.Got? && r.body.Delimited? {
      Assoc(r.body.len, r.body.data, r.rest);
      assert ReadVarint(s).rest == r.body.data + r.rest;
    }
  }

  lemma SplitOne(r: Record, rest: seq<byte>)
    requires RecordOk(r)
    ensures SplitRecords(EncodeRecord(r) + rest) == Prepend(r, SplitRecords(rest))
  {
    hide IsVarint, VarValue, BodyOk, ReadVarint, ReadBody;
    Assoc(r.tag, EncodeBody(r.body), rest);
    ReadExact(r.tag, EncodeBody(r.body) + rest);
    BodyExact(VarValue(r.tag), r.body, rest);
    assert EncodeRecord(r) + rest != [] by {
      NonEmpty(r);
    }
  }

  lemma NonEmpty(r: Record)
    requires RecordOk(r)
    ensures EncodeRecord(r) != []
  {
  }

  ghost predicate AllOk(rs: seq<Record>) {
    forall r :: r in rs ==> RecordOk(r)
  }

  ghost function PrependAll(rs: seq<Record>, p: Split): Split {
    match p
    case Done(more, tail, rest) => Done(rs + more, tail, rest)
    case Broken(more, st) => Broken(rs + more, st)
  }

  /** Complete records at the front of a buffer are split off one by one. */
  lemma {:induction false} SplitAll(rs: seq<Record>, rest: seq<byte>)
    requires AllOk(rs)
    ensures SplitRecords(EncodeRecords(rs) + rest) == PrependAll(rs, SplitRecords(rest))
    decreases |rs|
  {
    hide SplitRecords, RecordOk, EncodeRecord;
    if rs == [] {
      assert EncodeRecords(rs) + rest == rest;
      assert PrependAll([], SplitRecords(rest)) == SplitRecords(rest);
    } else {
      Assoc(EncodeRecord(rs[0]), EncodeRecords(rs[1..]), rest);
      SplitOne(rs[0], EncodeRecords(rs[1..]) + rest);
      SplitAll(rs[1..], rest);
      assert rs == [rs[0]] + rs[1..];
      assert [rs[0]] + (rs[1..] + SplitRecords(rest).records) == rs + SplitRecords(rest).records;
    }
  }

  /** A non-empty tail whose first varint cannot be read. */
  ghost predicate NoTag(tail: seq<byte>) {
    tail != [] && forall n :: 0 <= n <= |tail| ==> !IsVarint(tail[..n])
  }

  lemma {:induction false} SplitSound(s: seq<byte>)
    ensures AllOk(SplitRecords(s).records)
    ensures var p := SplitRecords(s);
      p.Done? ==> s == EncodeRecords(p.records) + p.tail && (p.tail == [] || NoTag(p.tail))
    decreases |s|
  {
    hide IsVarint, VarValue, BodyOk, ReadVarint, ReadBody;
    if s != [] {
      ReadSound(s);
      match ReadVarint(s) {
        case Unreadable(_) =>
          assert EncodeRecords([]) + s == s;
        case Varint(tag, r) =>
          BodySound(VarValue(tag), r);
          match ReadBody(VarValue(tag), r) {
            case Bad(_) =>
            case Got(body, r2) =>
              var head := Record(tag, body);
              SplitSound(r2);
              var p := SplitRecords(r2);
              assert ([head] + p.records)[1..] == p.records;
              if p.Done? {
                Assoc(tag, EncodeBody(body), r2);
                Assoc(EncodeRecord(head), EncodeRecords(p.records), p.tail);
              }
          }
      }
    }
  }

  // ---- acceptance ---------------------------------------------------------------------

  function Graphs(rs: seq<Record>): nat {
    if rs == [] then 0
    else (if MeaningOf(VarValue(rs[0].tag)) == Graph then 1 else 0) + Graphs(rs[1..])
  }

  lemma {:induction false} GraphsCounted(h: Header, rs: seq<Record>)
    ensures Fold(h, rs).nodeCount == h.nodeCount + Graphs(rs)
    decreases |rs|
  {
    if rs != [] {
      GraphsCounted(Absorb(h, VarValue(rs[0].tag), rs[0].body), rs[1..]);
    }
  }

  ghost predicate SplitsAs(s: seq<byte>, rs: seq<Record>, tail: seq<byte>) {
    s == EncodeRecords(rs) + tail && AllOk(rs) && (tail == [] || NoTag(tail))
  }

  lemma TailStays(tail: seq<byte>)
    requires tail == [] || NoTag(tail)
    ensures SplitRecords(tail).Done? && SplitRecords(tail).records == [] && SplitRecords(tail).tail == tail
  {
    if tail != [] {
      ReadSound(tail);
    }
  }

  /** A buffer splits in at most one way. */
  lemma SplitsOneWay(s: seq<byte>, rs: seq<Record>, tail: seq<byte>)
    requires SplitsAs(s, rs, tail)
    ensures SplitRecords(s).Done? && SplitRecords(s).records == rs && SplitRecords(s).tail == tail
  {
    TailStays(tail);
    SplitAll(rs, tail);
    assert rs + [] == rs;
  }

  /** A successful verdict, without mentioning the reader: the buffer is non-empty and complete records
      followed by nothing or by a tag that cannot be read, with at most 500000 graph records. */
  lemma AcceptedExactly(s: seq<byte>)
    ensures Verdict(s) == Success <==>
      s != [] && exists rs, tail :: SplitsAs(s, rs, tail) && Graphs(rs) <= MAX_GRAPHS
  {
    hide SplitRecords, Absorb, AllOk, NoTag;
    var p := SplitRecords(s);
    if s != [] && p.Done? {
      SplitSound(s);
      GraphsCounted(NO_HEADER, p.records);
      assert SplitsAs(s, p.records, p.tail);
    }
    if s != [] {
      forall rs, tail | SplitsAs(s, rs, tail) && Graphs(rs) <= MAX_GRAPHS ensures Verdict(s) == Success {
        SplitsOneWay(s, rs, tail);
        GraphsCounted(NO_HEADER, rs);
      }
    }
    if Verdict(s) == Success {
      BrokenIsNoSuccess(s);
      assert SplitsAs(s, p.records, p.tail) && Graphs(p.records) <= MAX_GRAPHS;
    }
  }

  lemma {:induction false} BrokenIsNoSuccess(s: seq<byte>)
    ensures SplitRecords(s).Broken? ==> SplitRecords(s).status != Success
    decreases |s|
  {
    if s != [] {
      match ReadVarint(s)
      case Unreadable(_) =>
      case Varint(tag, r) =>
        if ReadBody(VarValue(tag), r).Got? {
          BrokenIsNoSuccess(ReadBody(VarValue(tag), r).rest);
        }
    }
  }

  // ---- merging ------------------------------------------------------------------------

  ghost predicate Mentions(rs: seq<Record>, m: Meaning) {
    exists r :: r in rs && MeaningOf(VarValue(r.tag)) == m
  }

  /** h overridden by the fields present in rs, whose own header is g; node counts add. */
  ghost function Override(h: Header, g: Header, rs: seq<Record>): Header {
    Header(
      if Mentions(rs, IrVersion) then g.irVersion else h.irVersion,
      if Mentions(rs, ProducerName) then g.producerName else h.producerName,
      if Mentions(rs, ProducerVersion) then g.producerVersion else h.producerVersion,
      h.domain, h.modelVersion, h.nodeCount + g.nodeCount, h.initializerCount)
  }

  lemma {:induction false} FoldAppend(h: Header, a: seq<Record>, b: seq<Record>)
    ensures Fold(h, a + b) == Fold(Fold(h, a), b)
    decreases |a|
  {
    if a == [] {
      assert a + b == b;
    } else {
      FoldAppend(Absorb(h, VarValue(a[0].tag), a[0].body), a[1..], b);
      assert (a + b)[1..] == a[1..] + b;
    }
  }

  lemma AbsorbSnoc(h: Header, rs: seq<Record>, r: Record)
    ensures Fold(h, rs + [r]) == Absorb(Fold(h, rs), VarValue(r.tag), r.body)
  {
    FoldAppend(h, rs, [r]);
    assert [r][1..] == [];
  }

  lemma MentionsSnoc(rs: seq<Record>, r: Record, m: Meaning)
    ensures Mentions(rs + [r], m) <==> Mentions(rs, m) || MeaningOf(VarValue(r.tag)) == m
  {
    if Mentions(rs, m) {
      var x :| x in rs && MeaningOf(VarValue(x.tag)) == m;
      assert x in rs + [r];
    }
    assert r in rs + [r];
  }

  lemma OverrideStep(h: Header, g: Header, rs: seq<Record>, r: Record)
    requires RecordOk(r)
    ensures Absorb(Override(h, g, rs), VarValue(r.tag), r.body)
         == Override(h, Absorb(g, VarValue(r.tag), r.body), rs + [r])
  {
    hide Mentions, IsVarint, VarValue;
    MentionsSnoc(rs, r, IrVersion);
    MentionsSnoc(rs, r, ProducerName);
    MentionsSnoc(rs, r, ProducerVersion);
  }

  /** Last one wins: folding records over a header overrides exactly the fields they mention. */
  lemma {:induction false} FoldOverrides(h: Header, rs: seq<Record>)
    requires AllOk(rs)
    ensures Fold(h, rs) == Override(h, Fold(NO_HEADER, rs), rs)
    decreases |rs|
  {
    if rs == [] {
    } else {
      var init, r := rs[..|rs| - 1], rs[|rs| - 1];
      assert rs == init + [r];
      FoldOverrides(h, init);
      AbsorbSnoc(h, init, r);
      AbsorbSnoc(NO_HEADER, init, r);
      OverrideStep(h, Fold(NO_HEADER, init), init, r);
    }
  }

  /** The header of two concatenated complete messages is the first one's header overridden by
      what the second mentions. */
  lemma Merge(a: seq<Record>, b: seq<Record>)
    requires AllOk(a) && AllOk(b)
    ensures var s := EncodeRecords(a) + EncodeRecords(b);
      && SplitRecords(s) == Done(a + b, [], [])
      && Fold(NO_HEADER, a + b) == Override(Fold(NO_HEADER, a), Fold(NO_HEADER, b), b)
  {
    assert EncodeRecords(b) + [] == EncodeRecords(b);
    SplitAll(b, []);
    SplitAll(a, EncodeRecords(b));
    assert b + [] == b;
    FoldAppend(NO_HEADER, a, b);
    FoldOverrides(Fold(NO_HEADER, a), b);
  }

  /** A record of no recognised meaning, put at any record boundary, changes neither the header
      nor, in a buffer that is not empty without it, the status. */
  lemma UnknownIsSkipped(a: seq<Record>, u: Record, rest: seq<byte>)
    requires AllOk(a) && RecordOk(u) && MeaningOf(VarValue(u.tag)) == Unknown
    ensures var s := EncodeRecords(a) + rest;
      var t := EncodeRecords(a) + (EncodeRecord(u) + rest);
      && Fold(NO_HEADER, SplitRecords(t).records) == Fold(NO_HEADER, SplitRecords(s).records)
      && (s != [] ==> Verdict(t) == Verdict(s))
  {
    hide SplitRecords, IsVarint, VarValue, RecordOk;
    var p := SplitRecords(rest);
    SplitAll(a, rest);
    SplitAll(a, EncodeRecord(u) + rest);
    SplitOne(u, rest);
    FoldAppend(NO_HEADER, a, p.records);
    FoldAppend(NO_HEADER, a, [u] + p.records);
    assert ([u] + p.records)[1..] == p.records;
    assert EncodeRecord(u) != [] by {
      NonEmpty(u);
    }
  }
}
