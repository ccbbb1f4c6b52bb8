/**
 The mutable GGUF parser. Every read advances the cursor; parse fills the header, the
 metadata map and the tensor list in counted loops and closes with the size audit. It is
 proved against the decoder of GgufFormat.dfy, whose laws tie it to the encoder.
 */
module GgufParser {
  import opened Machine
  import opened LittleEndian
  import opened Products
  import opened GgufAudit
  import Format = GgufFormat

  datatype Header = Header(magic: nat, version: nat, tensorCount: nat, kvCount: nat)

  /** parse returns a status or throws a SentinelException carrying one. */
  datatype Outcome = Returned(status: Status) | Threw(status: Status)

  /** A helper that returned v and left the bytes `rest` ahead of it did what r says. */
  ghost predicate Did<T>(v: Option<T>, rest: seq<byte>, r: Format.Read<T>) {
    match r
    case Nothing => v == None
    case Got(x, after) => v == Some(x) && rest == after
  }

  /** Stages: None stands for a thrown exception. */
  ghost predicate Staged<T>(v: Option<T>, error: Status, rest: seq<byte>, r: Format.Stage<T>) {
    match r
    case Thrown(st) => v == None && error == st
    case Parsed(x, after) => v == Some(x) && rest == after
  }

  /** What is left of a counted loop, behind the values already read. */
  ghost function Resume<T>(done: seq<T>, r: Format.Stage<seq<T>>): Format.Stage<seq<T>> {
    match r
    case Thrown(st) => Format.Thrown(st)
    case Parsed(xs, rest) => Format.Parsed(done + xs, rest)
  }

  lemma ResumeStart<T>(r: Format.Stage<seq<T>>)
    ensures Resume([], r) == r
  {
    if r.Parsed? {
      assert [] + r.value == r.value;
    }
  }

  lemma ResumeStep<T>(done: seq<T>, read: seq<byte> -> Format.Stage<T>, s: seq<byte>, n: nat)
    requires 0 < n
    ensures Resume(done, Format.ReadMany(read, s, n)) ==
      match read(s)
      case Thrown(st) => Format.Thrown(st)
      case Parsed(x, r) => Resume(done + [x], Format.ReadMany(read, r, n - 1))
  {
    match read(s)
    case Thrown(_) =>
    case Parsed(x, r) =>
      match Format.ReadMany(read, r, n - 1) {
        case Thrown(_) =>
        case Parsed(xs, _) => assert done + ([x] + xs) == done + [x] + xs;
      }
  }

  lemma ResumeEnd<T>(done: seq<T>, read: seq<byte> -> Format.Stage<T>, s: seq<byte>)
    ensures Resume(done, Format.ReadMany(read, s, 0)) == Format.Parsed(done, s)
  {
    assert done + [] == done;
  }

  lemma FrontStep<T>(read: seq<byte> -> Format.Stage<T>, done: seq<T>, s: seq<byte>, n: nat)
    requires 0 < n
    ensures done + Format.Front(read, s, n) ==
      match read(s)
      case Thrown(_) => done
      case Parsed(x, r) => done + [x] + Format.Front(read, r, n - 1)
  {
    match read(s)
    case Thrown(_) => assert done + [] == done;
    case Parsed(x, r) =>
      var more := Format.Front(read, r, n - 1);
      assert done + ([x] + more) == done + [x] + more;
  }

  lemma FrontEnds<T>(read: seq<byte> -> Format.Stage<T>, done: seq<T>, s: seq<byte>)
    ensures done + Format.Front(read, s, 0) == done
  {
  }

  lemma NoMetadata()
    ensures Format.Metadata([]) == map[]
  {
  }

  lemma MetadataSnoc(kvs: seq<Format.KV>, kv: Format.KV)
    ensures Format.Metadata(kvs + [kv]) == Format.Metadata(kvs)[kv.key := Format.Interpret(kv.raw)]
  {
    assert (kvs + [kv])[..|kvs|] == kvs;
  }

  /** These bytes are a file of the fields: its tensors are exactly those stored, in order and each
      as stored, and its key/values are some list behind the metadata map. */
  ghost predicate IsFileOf(
    file: seq<byte>, header: Header, metadata: map<seq<byte>, Format.Value>, tensors: seq<TensorInfo>)
  {
    && header.tensorCount == |tensors|
    && (forall i :: 0 <= i < |tensors| ==> tensors[i].nDimensions == |tensors[i].dimensions|)
    && exists kvs :: |kvs| == header.kvCount && metadata == Format.Metadata(kvs)
         && file == Format.Encode(Format.Doc(header.version, kvs, Descriptions(tensors)))
  }

  /** The header fields read before the buffer ends, or all four. */
  function HeaderOf(s: seq<byte>): Header {
    Header(if 4 <= |s| then Format.MAGIC else 0,
           if 8 <= |s| then Dec(s[4..8]) else 0,
           if 16 <= |s| then Dec(s[8..16]) else 0,
           if 24 <= |s| then Dec(s[16..24]) else 0)
  }

  /** What a thrown exception leaves in the tables. */
  ghost predicate Leaves(
    s: seq<byte>, tensorCount: nat, kvCount: nat,
    metadata: map<seq<byte>, Format.Value>, tensors: seq<TensorInfo>)
  {
    var stored := Format.StoredTables(s, tensorCount, kvCount);
    && metadata == Format.Metadata(stored.0)
    && Shows(tensors, stored.1)
    && forall i :: 0 <= i < |tensors| ==> tensors[i].calculatedBytes == 0
  }

  class GGUFParser {
    var header: Header
    var metadata: map<seq<byte>, Format.Value>
    var tensors: seq<TensorInfo>
    var cursor: nat

    constructor ()
      ensures header == Header(0, 0, 0, 0) && metadata == map[] && tensors == [] && cursor == 0
    {
      header, metadata, tensors, cursor := Header(0, 0, 0, 0), map[], [], 0;
    }

    method Reset()
      modifies this
      ensures header == Header(0, 0, 0, 0) && metadata == map[] && tensors == [] && cursor == 0
    {
      header, metadata, tensors, cursor := Header(0, 0, 0, 0), map[], [], 0;
    }

    method ReadPod(buffer: seq<byte>, width: nat) returns (v: Option<nat>)
      requires Addressable(buffer) && cursor <= |buffer| && width <= 8
      modifies this`cursor
      ensures old(cursor) <= cursor <= |buffer|
      ensures Did(v, buffer[cursor..], Format.ReadPod(buffer[old(cursor)..], width))
      ensures cursor == old(cursor) + if v == None then 0 else width
      ensures v == if |buffer| < old(cursor) + width then None else Some(Dec(buffer[old(cursor)..old(cursor) + width]))
    {
      if Add64(cursor, width) > |buffer| {
        return None;
      }
      assert buffer[cursor..][..width] == buffer[cursor..cursor + width];
      assert buffer[cursor..][width..] == buffer[cursor + width..];
      v := Some(Dec(buffer[cursor..cursor + width]));
      cursor := cursor + width;
    }

    method ReadString(buffer: seq<byte>) returns (v: Option<seq<byte>>)
      requires Addressable(buffer) && cursor <= |buffer|
      modifies this`cursor
      ensures old(cursor) <= cursor <= |buffer|
      ensures Did(v, buffer[cursor..], Format.ReadString(buffer[old(cursor)..]))
    {
      var len := ReadPod(buffer, 8);
      if len.None? || len.value > Format.MAX_STRING {
        return None;
      }
      if Add64(cursor, len.value) > |buffer| {
        return None;
      }
      assert buffer[cursor..][..len.value] == buffer[cursor..cursor + len.value];
      assert buffer[cursor..][len.value..] == buffer[cursor + len.value..];
      v := Some(buffer[cursor..cursor + len.value]);
      cursor := cursor + len.value;
    }

    method ReadValue(buffer: seq<byte>, tag: nat) returns (v: Option<Format.Value>)
      requires Addressable(buffer) && cursor <= |buffer|
      modifies this`cursor
      ensures old(cursor) <= cursor <= |buffer|
      ensures match Format.ReadBody(buffer[old(cursor)..], tag)
        case Nothing => v == None
        case Got(raw, rest) => v == Some(Format.Interpret(raw)) && buffer[cursor..] == rest
    {
      if tag == 8 {
        var s := ReadString(buffer);
        return if s.Some? then Some(Format.Str(s.value)) else None;
      }
      if 12 < tag || tag == 9 {
        return None;
      }
      var bits := ReadPod(buffer, Format.Width(tag));
      if bits.None? {
        return None;
      }
      match tag {
        case 0 => v := Some(Format.UInt8(bits.value));
        case 1 => v := Some(Format.Int8(Format.Signed(bits.value, 1)));
        case 2 => v := Some(Format.UInt16(bits.value));
        case 3 => v := Some(Format.Int16(Format.Signed(bits.value, 2)));
        case 4 => v := Some(Format.UInt32(bits.value));
        case 5 => v := Some(Format.Int32(Format.Signed(bits.value, 4)));
        case 6 => v := Some(Format.Float32(bits.value));
        case 7 => v := Some(Format.Bool(bits.value != 0));
        case 10 => v := Some(Format.UInt64(bits.value));
        case 11 => v := Some(Format.Int64(Format.Signed(bits.value, 8)));
        case _ => v := Some(Format.Float64(bits.value));
      }
    }

    /** The body of the metadata loop; None is the exception it throws. */
    method ReadKV(buffer: seq<byte>) returns (v: Option<(seq<byte>, Format.Value)>)
      requires Addressable(buffer) && cursor <= |buffer|
      modifies this`cursor
      ensures old(cursor) <= cursor <= |buffer|
      ensures match Format.ReadKV(buffer[old(cursor)..])
        case Thrown(st) => v == None && st == ErrMalformedHeader
        case Parsed(kv, rest) => v == Some((kv.key, Format.Interpret(kv.raw))) && buffer[cursor..] == rest
    {
      var key := ReadString(buffer);
      if key.None? {
        return None;
      }
      var tag := ReadPod(buffer, 4);
      if tag.None? || tag.value > 12 {
        return None;
      }
      var value := ReadValue(buffer, tag.value);
      if value.None? {
        return None;
      }
      return Some((key.value, value.value));
    }

    method ReadMetadata(buffer: seq<byte>, count: nat) returns (ok: bool, ghost kvs: seq<Format.KV>)
      requires Addressable(buffer) && cursor <= |buffer| && metadata == map[]
      modifies this`cursor, this`metadata
      ensures old(cursor) <= cursor <= |buffer|
      ensures match Format.ReadMany(Format.ReadKV, buffer[old(cursor)..], count)
        case Thrown(st) => !ok && st == ErrMalformedHeader
        case Parsed(all, rest) => ok && kvs == all && buffer[cursor..] == rest && metadata == Format.Metadata(all)
      ensures metadata == Format.Metadata(Format.Front(Format.ReadKV, buffer[old(cursor)..], count))
    {
      kvs := [];
      var i := 0;
      hide Format.ReadKV, Format.ReadMany, Format.Front, Format.Metadata, Format.Interpret, Resume;
      NoMetadata();
      ResumeStart(Format.ReadMany(Format.ReadKV, buffer[cursor..], count));
      ghost var front := Format.Front(Format.ReadKV, buffer[cursor..], count);
      assert [] + front == front;
      while i < count
        invariant 0 <= i <= count && old(cursor) <= cursor <= |buffer|
        invariant Format.ReadMany(Format.ReadKV, buffer[old(cursor)..], count)
               == Resume(kvs, Format.ReadMany(Format.ReadKV, buffer[cursor..], count - i))
        invariant front == kvs + Format.Front(Format.ReadKV, buffer[cursor..], count - i)
        invariant metadata == Format.Metadata(kvs)
      {
        ResumeStep(kvs, Format.ReadKV, buffer[cursor..], count - i);
        FrontStep(Format.ReadKV, kvs, buffer[cursor..], count - i);
        ghost var s := buffer[cursor..];
        var kv := ReadKV(buffer);
        if kv.None? {
          return false, kvs;
        }
        ghost var read := Format.ReadKV(s).value;
        metadata := metadata[kv.value.0 := kv.value.1];
        MetadataSnoc(kvs, read);
        kvs := kvs + [read];
        i := i + 1;
      }
      FrontEnds(Format.ReadKV, kvs, buffer[cursor..]);
      ResumeEnd(kvs, Format.ReadKV, buffer[cursor..]);
      return true, kvs;
    }

    /** The dimension loop; None is the exception it throws. */
    method ReadDims(buffer: seq<byte>, count: nat) returns (dims: Option<seq<u64>>)
      requires Addressable(buffer) && cursor <= |buffer|
      modifies this`cursor
      ensures old(cursor) <= cursor <= |buffer|
      ensures Staged(
        dims, ErrOutOfBoundsRead, buffer[cursor..], Format.ReadMany(Format.ReadDim, buffer[old(cursor)..], count))
    {
      hide Dec, Pow256, Format.ReadPod;
      var ds: seq<u64> := [];
      var d := 0;
      ResumeStart(Format.ReadMany(Format.ReadDim, buffer[cursor..], count));
      while d < count
        invariant 0 <= d <= count && old(cursor) <= cursor <= |buffer|
        invariant Format.ReadMany(Format.ReadDim, buffer[old(cursor)..], count)
               == Resume(ds, Format.ReadMany(Format.ReadDim, buffer[cursor..], count - d))
      {
        ResumeStep(ds, Format.ReadDim, buffer[cursor..], count - d);
        ghost var s := buffer[cursor..];
        var dim := ReadPod(buffer, 8);
        if dim.None? {
          return None;
        }
        assert Format.ReadDim(s) == Format.Parsed(dim.value, buffer[cursor..]);
        ds := ds + [dim.value];
        d := d + 1;
      }
      assert ds + [] == ds;
      return Some(ds);
    }

    method ReadShape(buffer: seq<byte>) returns (dims: Option<seq<u64>>, error: Status)
      requires Addressable(buffer) && cursor <= |buffer|
      modifies this`cursor
      ensures old(cursor) <= cursor <= |buffer|
      ensures Staged(dims, error, buffer[cursor..], Format.ReadShape(buffer[old(cursor)..]))
    {
      var nDims := ReadPod(buffer, 4);
      if nDims.None? || nDims.value > Format.MAX_DIMS {
        return None, ErrMalformedHeader;
      }
      dims := ReadDims(buffer, nDims.value);
      return dims, ErrOutOfBoundsRead;
    }

    method ReadTrailer(buffer: seq<byte>) returns (t: Option<(nat, nat)>)
      requires Addressable(buffer) && cursor <= |buffer|
      modifies this`cursor
      ensures old(cursor) <= cursor <= |buffer|
      ensures Staged(t, ErrOutOfBoundsRead, buffer[cursor..], Format.ReadTrailer(buffer[old(cursor)..]))
    {
      var kind := ReadPod(buffer, 4);
      if kind.None? {
        return None;
      }
      var offset := ReadPod(buffer, 8);
      if offset.None? {
        return None;
      }
      return Some((kind.value, offset.value));
    }

    /** The body of the tensor loop; with None the status is that of the exception. */
    method ReadTensor(buffer: seq<byte>) returns (info: Option<TensorInfo>, error: Status)
      requires Addressable(buffer) && cursor <= |buffer|
      modifies this`cursor
      ensures old(cursor) <= cursor <= |buffer|
      ensures match Format.ReadDesc(buffer[old(cursor)..])
        case Thrown(st) => info == None && error == st
        case Parsed(d, rest) =>
          && info == Some(TensorInfo(d.name, |d.dims|, d.dims, d.kind, d.offset, 0)) && buffer[cursor..] == rest
    {
      hide Format.ReadString, Format.ReadShape, Format.ReadTrailer;
      var name := ReadString(buffer);
      if name.None? {
        return None, ErrMalformedHeader;
      }
      var dims, e := ReadShape(buffer);
      if dims.None? {
        return None, e;
      }
      var t := ReadTrailer(buffer);
      if t.None? {
        return None, ErrOutOfBoundsRead;
      }
      return Some(TensorInfo(name.value, |dims.value|, dims.value, t.value.0, t.value.1, 0)), Success;
    }

    method ReadTensors(buffer: seq<byte>, count: nat) returns (ok: bool, error: Status, ghost ds: seq<Format.Desc>)
      requires Addressable(buffer) && cursor <= |buffer| && tensors == []
      modifies this`cursor, this`tensors
      ensures old(cursor) <= cursor <= |buffer|
      ensures match Format.ReadMany(Format.ReadDesc, buffer[old(cursor)..], count)
        case Thrown(st) => !ok && error == st
        case Parsed(all, rest) => ok && ds == all && buffer[cursor..] == rest && tensors == Unauditeds(all)
      ensures tensors == Unauditeds(Format.Front(Format.ReadDesc, buffer[old(cursor)..], count))
    {
      ds := [];
      var i := 0;
      hide Format.ReadDesc, Format.ReadMany, Format.Front, Resume;
      ResumeStart(Format.ReadMany(Format.ReadDesc, buffer[cursor..], count));
      ghost var front := Format.Front(Format.ReadDesc, buffer[cursor..], count);
      assert [] + front == front;
      while i < count
        invariant 0 <= i <= count && old(cursor) <= cursor <= |buffer|
        invariant Format.ReadMany(Format.ReadDesc, buffer[old(cursor)..], count)
               == Resume(ds, Format.ReadMany(Format.ReadDesc, buffer[cursor..], count - i))
        invariant front == ds + Format.Front(Format.ReadDesc, buffer[cursor..], count - i)
        invariant tensors == Unauditeds(ds)
      {
        ResumeStep(ds, Format.ReadDesc, buffer[cursor..], count - i);
        FrontStep(Format.ReadDesc, ds, buffer[cursor..], count - i);
        ghost var s := buffer[cursor..];
        var info, e := ReadTensor(buffer);
        if info.None? {
          return false, e, ds;
        }
        tensors := tensors + [info.value];
        ds := ds + [Format.ReadDesc(s).value];
        i := i + 1;
      }
      FrontEnds(Format.ReadDesc, ds, buffer[cursor..]);
      ResumeEnd(ds, Format.ReadDesc, buffer[cursor..]);
      return true, Success, ds;
    }

    method ValidateTensorMetadata() returns (status: Status)
      modifies this`tensors
      ensures Audits(old(tensors), tensors, status)
    {
      hide PrefixesFit, Product;
      var i := 0;
      while i < |tensors|
        invariant 0 <= i <= |tensors|
        invariant AuditedTo(old(tensors), tensors, i)
      {
        var total, overflow := TotalElements(tensors[i].dimensions);
        if overflow || total > MAX64 / 4 {
          return ErrIntegerOverflow;
        }
        tensors := tensors[i := tensors[i].(calculatedBytes := Mul64(total, 4))];
        i := i + 1;
      }
      return Success;
    }

    /** The dimension loop of the audit. */
    static method TotalElements(dims: seq<u64>) returns (total: u64, overflow: bool)
      ensures overflow <==> !PrefixesFit(dims)
      ensures !overflow ==> total == Product(dims)
    {
      total := 1;
      var j := 0;
      while j < |dims|
        invariant 0 <= j <= |dims|
        invariant total == Product(dims[..j])
        invariant forall i :: 0 <= i <= j ==> Product(dims[..i]) <= MAX64
      {
        var dim := dims[j];
        ProductStep(dims, j);
        if dim > 0 {
          GuardIsExact(total, dim);
          if total > MAX64 / dim {
            return total, true;
          }
        }
        total := Mul64(total, dim);
        j := j + 1;
      }
      assert dims[..j] == dims;
      return total, false;
    }

    /** parse from the end of the header on. */
    method ParseTables(buffer: seq<byte>, version: nat) returns (out: Outcome)
      requires Addressable(buffer) && cursor <= |buffer| && metadata == map[] && tensors == []
      modifies this`cursor, this`metadata, this`tensors
      ensures match Format.ReadTables(buffer[old(cursor)..], version, header.tensorCount, header.kvCount)
        case Refused(_) => false
        case Raised(st) =>
          out == Threw(st) && Leaves(buffer[old(cursor)..], header.tensorCount, header.kvCount, metadata, tensors)
        case Decoded(doc, rest) =>
          && out.Returned? && Audits(Unauditeds(doc.descs), tensors, out.status)
          && Shows(tensors, doc.descs) && (out.status == Success ==> Sized(tensors))
          && |doc.descs| == header.tensorCount && |doc.kvs| == header.kvCount
          && metadata == Format.Metadata(doc.kvs)
          && cursor <= |buffer| && buffer[cursor..] == rest
    {
      if header.kvCount > Format.MAX_KVS || header.tensorCount > Format.MAX_TENSORS {
        return Threw(ErrMalformedHeader);
      }
      Format.Counted(Format.ReadKV, buffer[cursor..], header.kvCount);
      var ok, kvs := ReadMetadata(buffer, header.kvCount);
      if !ok {
        return Threw(ErrMalformedHeader);
      }
      Format.Counted(Format.ReadDesc, buffer[cursor..], header.tensorCount);
      ghost var s := buffer[cursor..];
      var fine, error, ds := ReadTensors(buffer, header.tensorCount);
      UnauditedShows(Format.Front(Format.ReadDesc, s, header.tensorCount));
      if !fine {
        return Threw(error);
      }
      var status := ValidateTensorMetadata();
      AuditShows(ds, tensors, status);
      return Returned(status);
    }

    /** From any prior state: exactly the decoder's verdict on the buffer, and after a decoded
        document the parser holds that document, audited, with the cursor behind it. A refusal
        leaves the fields read before it and empty tables. */
    method Parse(buffer: seq<byte>) returns (out: Outcome)
      requires Addressable(buffer)
      modifies this
      ensures match Format.ReadDoc(buffer)
        case Refused(st) =>
          && out == Returned(st) && metadata == map[] && tensors == []
          && (st == ErrInvalidMagic ==> header == Header(0, 0, 0, 0) && cursor == 4)
          && (st == ErrUnsupportedVersion ==> header == Header(Format.MAGIC, 0, 0, 0) && cursor == 8)
        case Raised(st) =>
          && out == Threw(st) && header == HeaderOf(buffer)
          && (|buffer| < 24 ==> metadata == map[] && tensors == [])
          && (24 <= |buffer| ==> Leaves(buffer[24..], header.tensorCount, header.kvCount, metadata, tensors))
        case Decoded(doc, rest) =>
          && out.Returned? && Audits(Unauditeds(doc.descs), tensors, out.status)
          && Shows(tensors, doc.descs) && (out.status == Success ==> Sized(tensors))
          && header == Header(Format.MAGIC, doc.version, |doc.descs|, |doc.kvs|)
          && metadata == Format.Metadata(doc.kvs)
          && cursor == |buffer| - |rest|
      ensures out.Returned? && out.status in {Success, ErrIntegerOverflow} ==>
        cursor <= |buffer| && IsFileOf(buffer[..cursor], header, metadata, tensors)
    {
      hide Format.ReadTables, Format.ReadPod, Dec, Audits, Shows, Sized, Leaves, IsFileOf;
      Reset();
      assert buffer[0..] == buffer;
      var magic := ReadPod(buffer, 4);
      if magic.None? {
        return Threw(ErrOutOfBoundsRead);
      }
      if magic.value != Format.MAGIC {
        return Returned(ErrInvalidMagic);
      }
      header := header.(magic := magic.value);
      var version := ReadPod(buffer, 4);
      if version.None? {
        return Threw(ErrOutOfBoundsRead);
      }
      if version.value < 1 || version.value > 3 {
        return Returned(ErrUnsupportedVersion);
      }
      header := header.(version := version.value);
      var tensorCount := ReadPod(buffer, 8);
      if tensorCount.None? {
        return Threw(ErrOutOfBoundsRead);
      }
      header := header.(tensorCount := tensorCount.value);
      var kvCount := ReadPod(buffer, 8);
      if kvCount.None? {
        return Threw(ErrOutOfBoundsRead);
      }
      header := header.(kvCount := kvCount.value);
      TablesKeepVersion(buffer[cursor..], header.version, header.tensorCount, header.kvCount);
      out := ParseTables(buffer, header.version);
      if out.Returned? {
        FileRead(buffer, header, metadata, tensors, out.status);
      }
    }
  }

  lemma FileRead(
    s: seq<byte>, header: Header, metadata: map<seq<byte>, Format.Value>, tensors: seq<TensorInfo>, status: Status)
    requires Format.ReadDoc(s).Decoded? && Audits(Unauditeds(Format.ReadDoc(s).doc.descs), tensors, status)
    requires var doc := Format.ReadDoc(s).doc;
      header == Header(Format.MAGIC, doc.version, |doc.descs|, |doc.kvs|) && metadata == Format.Metadata(doc.kvs)
    ensures |Format.ReadDoc(s).rest| <= |s|
    ensures IsFileOf(s[..|s| - |Format.ReadDoc(s).rest|], header, metadata, tensors)
  {
    hide Format.ReadDoc, Format.Encode, Format.DocOk, Audits;
    var p := Format.ReadDoc(s);
    Format.Sound(s);
    AuditShows(p.doc.descs, tensors, status);
    assert s[..|s| - |p.rest|] == Format.Encode(p.doc);
  }

  lemma TablesKeepVersion(s: seq<byte>, version: nat, tensorCount: nat, kvCount: nat)
    ensures var p := Format.ReadTables(s, version, tensorCount, kvCount);
      !p.Refused? && (p.Decoded? ==> p.doc.version == version)
  {
  }
}
