/**
 What the ONNX auditor leaves and answers, in field numbers, wire types and bytes: every header
 field is that of the last record of its number and type, and every status has its cause.
 */
module OnnxFields {
  import opened Machine
  import opened Varint
  import opened OnnxRecords
  import opened OnnxLoop

  // ---- the header by field number and wire type ---------------------------------------

  /** The record's tag carries this field number, cut to 32 bits, and this wire type. */
  predicate IsField(r: Record, field: nat, wire: nat) {
    VarValue(r.tag) / 8 % 0x1_0000_0000 == field && VarValue(r.tag) % 8 == wire
  }

  /** Record i is the last of this field and wire type. */
  ghost predicate IsLast(rs: seq<Record>, i: int, field: nat, wire: nat) {
    && 0 <= i < |rs| && IsField(rs[i], field, wire)
    && forall j :: i < j < |rs| ==> !IsField(rs[j], field, wire)
  }

  ghost predicate Absent(rs: seq<Record>, field: nat, wire: nat) {
    forall r :: r in rs ==> !IsField(r, field, wire)
  }

  /** The string is the data of the last record of its field with wire type 2, or empty. */
  ghost predicate StringOfLast(rs: seq<Record>, field: nat, s: seq<byte>) {
    && (Absent(rs, field, 2) ==> s == [])
    && (forall i :: IsLast(rs, i, field, 2) ==> rs[i].body.Delimited? && s == rs[i].body.data)
  }

  /** The number is the two's complement reading of the last varint of field 1, or 0. */
  ghost predicate NumberOfLast(rs: seq<Record>, x: int) {
    && (Absent(rs, 1, 0) ==> x == 0)
    && (forall i :: IsLast(rs, i, 1, 0) ==>
         && rs[i].body.Number?
         && -0x8000_0000_0000_0000 <= x < 0x8000_0000_0000_0000
         && x % WORD == VarSum(rs[i].body.bytes) % WORD)
  }

  /** The number of records of field 7 with wire type 2. */
  ghost function FieldSevens(rs: seq<Record>): nat {
    if rs == [] then 0 else (if IsField(rs[0], 7, 2) then 1 else 0) + FieldSevens(rs[1..])
  }

  ghost predicate HeaderOf(rs: seq<Record>, h: Header) {
    && NumberOfLast(rs, h.irVersion)
    && StringOfLast(rs, 2, h.producerName)
    && StringOfLast(rs, 3, h.producerVersion)
    && h.nodeCount == FieldSevens(rs)
    && h.domain == [] && h.modelVersion == 0 && h.initializerCount == 0
  }

  lemma LastSnoc(rs: seq<Record>, r: Record, field: nat, wire: nat)
    ensures var all := rs + [r];
      && (Absent(all, field, wire) <==> Absent(rs, field, wire) && !IsField(r, field, wire))
      && (forall i :: IsLast(all, i, field, wire) <==>
           if IsField(r, field, wire) then i == |rs| else IsLast(rs, i, field, wire))
  {
    hide IsField;
    var all := rs + [r];
    assert r in all && forall x :: x in rs ==> x in all;
    assert all[|rs|] == r && forall i :: 0 <= i < |rs| ==> all[i] == rs[i];
    forall i
      ensures IsLast(all, i, field, wire) <==> if IsField(r, field, wire) then i == |rs| else IsLast(rs, i, field, wire)
    {
      if IsLast(rs, i, field, wire) && !IsField(r, field, wire) {
        assert forall j :: i < j < |all| ==> j == |rs| || all[j] == rs[j];
      }
    }
  }

  lemma StringSnoc(rs: seq<Record>, r: Record, field: nat, s: seq<byte>, t: seq<byte>)
    requires StringOfLast(rs, field, s)
    requires if IsField(r, field, 2) then r.body.Delimited? && t == r.body.data else t == s
    ensures StringOfLast(rs + [r], field, t)
  {
    hide IsField;
    LastSnoc(rs, r, field, 2);
    assert forall i :: 0 <= i < |rs| ==> (rs + [r])[i] == rs[i];
  }

  lemma NumberSnoc(rs: seq<Record>, r: Record, x: int, y: int)
    requires NumberOfLast(rs, x)
    requires if IsField(r, 1, 0) then
        && r.body.Number? && -0x8000_0000_0000_0000 <= y < 0x8000_0000_0000_0000
        && y % WORD == VarSum(r.body.bytes) % WORD
      else y == x
    ensures NumberOfLast(rs + [r], y)
  {
    hide IsField;
    LastSnoc(rs, r, 1, 0);
    assert forall i :: 0 <= i < |rs| ==> (rs + [r])[i] == rs[i];
  }

  lemma {:induction false} SevensSnoc(rs: seq<Record>, r: Record)
    ensures FieldSevens(rs + [r]) == FieldSevens(rs) + if IsField(r, 7, 2) then 1 else 0
  {
    hide IsField;
    if rs == [] {
      assert [r][1..] == [] && rs + [r] == [r];
    } else {
      SevensSnoc(rs[1..], r);
      assert (rs + [r])[1..] == rs[1..] + [r];
    }
  }

  /** One record sets the one field its number and wire type stand for. */
  lemma AbsorbedField(h: Header, r: Record)
    requires RecordOk(r)
    ensures var g := Absorb(h, VarValue(r.tag), r.body);
      && (IsField(r, 1, 0) ==>
           && r.body.Number? && -0x8000_0000_0000_0000 <= g.irVersion < 0x8000_0000_0000_0000
           && g.irVersion % WORD == VarSum(r.body.bytes) % WORD)
      && (!IsField(r, 1, 0) ==> g.irVersion == h.irVersion)
      && (if IsField(r, 2, 2) then r.body.Delimited? && g.producerName == r.body.data
          else g.producerName == h.producerName)
      && (if IsField(r, 3, 2) then r.body.Delimited? && g.producerVersion == r.body.data
          else g.producerVersion == h.producerVersion)
      && g.nodeCount == h.nodeCount + (if IsField(r, 7, 2) then 1 else 0)
      && g.domain == h.domain && g.modelVersion == h.modelVersion && g.initializerCount == h.initializerCount
  {
    if r.body.Number? {
      SignedModulo(VarSum(r.body.bytes));
      assert VarValue(r.body.bytes) == VarSum(r.body.bytes) % WORD;
    }
    hide IsVarint, VarSum, VarValue;
  }

  lemma SignedModulo(x: nat)
    ensures -0x8000_0000_0000_0000 <= Signed64(x % WORD) < 0x8000_0000_0000_0000
    ensures Signed64(x % WORD) % WORD == x % WORD
  {
  }

  /** The fold of any records has, field by field, what the last record of the field says. */
  lemma {:induction false} FoldedHeader(rs: seq<Record>)
    requires AllOk(rs)
    ensures HeaderOf(rs, Fold(NO_HEADER, rs))
    decreases |rs|
  {
    if rs != [] {
      var init, r := rs[..|rs| - 1], rs[|rs| - 1];
      assert rs == init + [r];
      FoldedHeader(init);
      AbsorbSnoc(NO_HEADER, init, r);
      var h := Fold(NO_HEADER, init);
      var g := Fold(NO_HEADER, rs);
      AbsorbedField(h, r);
      hide IsField, StringOfLast, NumberOfLast, FieldSevens, Fold, Absorb, VarValue, RecordOk;
      StringSnoc(init, r, 2, h.producerName, g.producerName);
      StringSnoc(init, r, 3, h.producerVersion, g.producerVersion);
      NumberSnoc(init, r, h.irVersion, g.irVersion);
      SevensSnoc(init, r);
    }
  }

  /** The header parse leaves on any buffer whose lengths do not wrap. */
  lemma HeaderByFields(buffer: seq<byte>)
    requires Addressable(buffer) && NoWrap(buffer)
    ensures Terminates(buffer)
    ensures HeaderOf(SplitRecords(buffer).records, Result(buffer).header)
  {
    hide SplitRecords, Fold, HeaderOf, NoWrap, Terminates, Result;
    SplitSound(buffer);
    ReadsAsRecords(buffer);
    FoldedHeader(SplitRecords(buffer).records);
  }

  /** On a complete message it is that of the message's own records. */
  lemma MessageHeader(rs: seq<Record>)
    requires AllOk(rs) && Addressable(EncodeRecords(rs))
    ensures Terminates(EncodeRecords(rs))
    ensures HeaderOf(rs, Result(EncodeRecords(rs)).header)
  {
    hide Fold, HeaderOf, Terminates, Result, AllOk;
    CompleteReads(rs);
    FoldedHeader(rs);
  }

  // ---- every status and its cause -----------------------------------------------------

  lemma {:induction false} GraphsAreSevens(rs: seq<Record>)
    ensures Graphs(rs) == FieldSevens(rs)
    decreases |rs|
  {
    if rs != [] {
      GraphsAreSevens(rs[1..]);
    }
  }

  /** A record within its cap, in numbers: the four wire types, and strings of fields 2 and 3 of
      at most 10485760 bytes. */
  lemma RecordOkExactly(r: Record)
    ensures RecordOk(r) <==>
      && IsVarint(r.tag)
      && var field, wire := VarValue(r.tag) / 8 % 0x1_0000_0000, VarValue(r.tag) % 8;
         match r.body
         case Number(bytes) => wire == 0 && IsVarint(bytes)
         case Eight(bytes) => wire == 1 && |bytes| == 8
         case Delimited(len, data) =>
           wire == 2 && IsVarint(len) && VarSum(len) % WORD == |data| && (field in {2, 3} ==> |data| <= 10485760)
         case Four(bytes) => wire == 5 && |bytes| == 4
  {
    hide IsVarint, VarSum;
  }

  /** Complete records up to the end or an unreadable tag: the status is decided by the number of
      graph records alone. */
  lemma CompleteStatus(buffer: seq<byte>, rs: seq<Record>, tail: seq<byte>)
    requires Addressable(buffer) && NoWrap(buffer) && SplitsAs(buffer, rs, tail) && buffer != []
    ensures Terminates(buffer)
    ensures Result(buffer).status == if FieldSevens(rs) <= 500000 then Success else ErrMalformedHeader
  {
    hide SplitRecords, NoWrap, Result, SplitsAs, FieldSevens, Terminates, Fold, Verdict;
    ReadsAsRecords(buffer);
    CompleteVerdict(buffer, rs, tail);
  }

  lemma CompleteVerdict(s: seq<byte>, rs: seq<Record>, tail: seq<byte>)
    requires SplitsAs(s, rs, tail) && s != []
    ensures Verdict(s) == if FieldSevens(rs) <= 500000 then Success else ErrMalformedHeader
  {
    SplitsOneWay(s, rs, tail);
    hide SplitRecords, SplitsAs, FieldSevens, Fold, Graphs;
    GraphsCounted(NO_HEADER, rs);
    GraphsAreSevens(rs);
  }

  /** No complete body of this tag is in front of s. */
  ghost predicate NoBody(tag: u64, s: seq<byte>) {
    forall b, rest :: BodyOk(tag, b) ==> s != EncodeBody(b) + rest
  }

  lemma BrokenBody(tag: u64, s: seq<byte>)
    requires NoBody(tag, s)
    ensures ReadBody(tag, s) == Bad(if tag % 8 in {0, 1, 2, 5} then ErrOutOfBoundsRead else ErrMalformedHeader)
  {
    hide VarValue, ReadVarint, BodyOk;
    BodySound(tag, s);
  }

  /** Complete records and then a readable tag without a complete body: wire types 3, 4, 6 and 7
      are malformed, anything else is out of bounds. */
  lemma BrokenStatus(rs: seq<Record>, tag: seq<byte>, s: seq<byte>)
    requires AllOk(rs) && IsVarint(tag) && NoBody(VarValue(tag), s)
    requires var buffer := EncodeRecords(rs) + (tag + s);
      Addressable(buffer) && NoWrap(buffer)
    ensures var buffer := EncodeRecords(rs) + (tag + s);
      && Terminates(buffer)
      && Result(buffer).status
           == if VarValue(tag) % 8 in {0, 1, 2, 5} then ErrOutOfBoundsRead else ErrMalformedHeader
  {
    var buffer := EncodeRecords(rs) + (tag + s);
    BrokenSplit(tag, s);
    hide SplitRecords, NoWrap, Result, AllOk, Terminates, NoBody, VarValue, IsVarint;
    SplitAll(rs, tag + s);
    ReadsAsRecords(buffer);
    assert buffer != [] by {
      assert buffer == [] ==> tag == [];
      TagNotEmpty(tag);
    }
  }

  lemma TagNotEmpty(tag: seq<byte>)
    requires IsVarint(tag)
    ensures tag != []
  {
  }

  lemma BrokenSplit(tag: seq<byte>, s: seq<byte>)
    requires IsVarint(tag) && NoBody(VarValue(tag), s)
    ensures SplitRecords(tag + s)
         == Broken([], if VarValue(tag) % 8 in {0, 1, 2, 5} then ErrOutOfBoundsRead else ErrMalformedHeader)
  {
    TagNotEmpty(tag);
    hide VarValue, IsVarint, ReadVarint, NoBody;
    ReadExact(tag, s);
    BrokenBody(VarValue(tag), s);
  }

  lemma EmptyStatus()
    ensures Terminates([]) && Result([]).status == ErrMalformedHeader
  {
    StaysStopped([], 0, 1);
  }

  /** A non-empty complete message: what parse returns and leaves. */
  lemma CompleteResult(rs: seq<Record>)
    requires AllOk(rs) && Addressable(EncodeRecords(rs)) && EncodeRecords(rs) != []
    ensures var s := EncodeRecords(rs);
      && Terminates(s)
      && Result(s) == Stopped(
           if FieldSevens(rs) <= 500000 then Success else ErrMalformedHeader, |s|, Fold(NO_HEADER, rs))
  {
    var s := EncodeRecords(rs);
    assert SplitsAs(s, rs, []) by {
      assert s + [] == s;
    }
    hide NoWrap, Fold, SplitsAs, AllOk, FieldSevens, After;
    CompleteReads(rs);
    CompleteStatus(s, rs, []);
  }

  // ---- a message in bytes -------------------------------------------------------------

  lemma OneByte(b: byte)
    requires b < 128
    ensures IsVarint([b]) && VarValue([b]) == b
  {
    var bs := [b];
    assert bs[1..] == [];
    assert VarSum(bs) == b % 128 + 128 * VarSum([]);
  }

  const VERSION_RECORD := Record([0x08], Number([0x03]))
  const NAME_RECORD := Record([0x12], Delimited([0x02], [0x41, 0x42]))
  const PRODUCER_RECORD := Record([0x1A], Delimited([0x01], [0x43]))
  const GRAPH_RECORD := Record([0x3A], Delimited([0x00], []))

  lemma SampleRecordsOk()
    ensures RecordOk(VERSION_RECORD) && VarValue(VERSION_RECORD.tag) == 0x08 && VarValue([0x03]) == 3
    ensures RecordOk(NAME_RECORD) && VarValue(NAME_RECORD.tag) == 0x12
    ensures RecordOk(PRODUCER_RECORD) && VarValue(PRODUCER_RECORD.tag) == 0x1A
    ensures RecordOk(GRAPH_RECORD) && VarValue(GRAPH_RECORD.tag) == 0x3A
  {
    hide VarValue, IsVarint;
    OneByte(0x08);
    OneByte(0x03);
    OneByte(0x12);
    OneByte(0x02);
    OneByte(0x1A);
    OneByte(0x01);
    OneByte(0x3A);
    OneByte(0x00);
  }

  lemma FoldOne(h: Header, r: Record, rs: seq<Record>)
    ensures Fold(h, [r] + rs) == Fold(Absorb(h, VarValue(r.tag), r.body), rs)
    ensures FieldSevens([r] + rs) == FieldSevens(rs) + if IsField(r, 7, 2) then 1 else 0
    ensures EncodeRecords([r] + rs) == EncodeRecord(r) + EncodeRecords(rs)
  {
    assert ([r] + rs)[1..] == rs;
  }

  /** ir_version 3, producer_name "AB", producer_version "C" and one graph, in eleven bytes. */
  lemma SampleMessage()
    ensures var s := [0x08, 0x03, 0x12, 0x02, 0x41, 0x42, 0x1A, 0x01, 0x43, 0x3A, 0x00];
      && Terminates(s)
      && Result(s) == Stopped(Success, 11, Header(3, [0x41, 0x42], [0x43], [], 0, 1, 0))
  {
    hide VarValue, IsVarint, Terminates, Result, RecordOk, Fold, FieldSevens, EncodeRecords;
    SampleRecordsOk();
    var d: seq<Record> := [];
    var c := [GRAPH_RECORD] + d;
    var b := [PRODUCER_RECORD] + c;
    var a := [NAME_RECORD] + b;
    var rs := [VERSION_RECORD] + a;
    var h3 := NO_HEADER.(irVersion := 3);
    var h2 := h3.(producerName := [0x41, 0x42]);
    var h1 := h2.(producerVersion := [0x43]);
    FoldOne(NO_HEADER, VERSION_RECORD, a);
    FoldOne(h3, NAME_RECORD, b);
    FoldOne(h2, PRODUCER_RECORD, c);
    FoldOne(h1, GRAPH_RECORD, d);
    FoldNothing(h1.(nodeCount := 1));
    assert EncodeRecords(rs) == [0x08, 0x03, 0x12, 0x02, 0x41, 0x42, 0x1A, 0x01, 0x43, 0x3A, 0x00];
    CompleteResult(rs);
  }

  lemma FoldNothing(h: Header)
    ensures Fold(h, []) == h && FieldSevens([]) == 0 && EncodeRecords([]) == []
  {
  }
}
