/**
 The GGUF layout the parser reads (GGUF specification, section "File Structure", with 64-bit
 counts and lengths in every version and no array values): an encoder as specification, and
 the decoder that the mutable parser is proved against.
 */
module GgufFormat {
  import opened Machine
  import opened LittleEndian

  const MAGIC := 0x4655_4747
  const MAX_STRING := 65536
  const MAX_KVS := 65536
  const MAX_TENSORS := 1000000
  const MAX_DIMS := 8

  // ---- documents ----------------------------------------------------------------------

  /** A metadata value as stored: a fixed-width bit pattern or a string. */
  datatype Raw = Fixed(tag: nat, bits: nat) | Text(chars: seq<byte>)

  datatype KV = KV(key: seq<byte>, raw: Raw)

  datatype Desc = Desc(name: seq<byte>, dims: seq<u64>, kind: nat, offset: nat)

  datatype Doc = Doc(version: nat, kvs: seq<KV>, descs: seq<Desc>)

  const STRING_TAG := 8

  predicate IsFixed(tag: nat) {
    tag <= 12 && tag != STRING_TAG && tag != 9
  }

  function Width(tag: nat): nat {
    if tag == 0 || tag == 1 || tag == 7 then 1
    else if tag == 2 || tag == 3 then 2
    else if tag == 4 || tag == 5 || tag == 6 then 4
    else 8
  }

  predicate StringOk(s: seq<byte>) {
    |s| <= MAX_STRING
  }

  predicate RawOk(r: Raw) {
    match r
    case Fixed(tag, bits) => IsFixed(tag) && bits < Pow256(Width(tag))
    case Text(chars) => StringOk(chars)
  }

  predicate KVOk(kv: KV) {
    StringOk(kv.key) && RawOk(kv.raw)
  }

  predicate DescOk(d: Desc) {
    StringOk(d.name) && |d.dims| <= MAX_DIMS && d.kind < Pow256(4) && d.offset < Pow256(8)
  }

  predicate DocOk(doc: Doc) {
    && 1 <= doc.version <= 3
    && |doc.kvs| <= MAX_KVS && (forall x :: x in doc.kvs ==> KVOk(x))
    && |doc.descs| <= MAX_TENSORS && (forall x :: x in doc.descs ==> DescOk(x))
  }

  // ---- what a stored value means ------------------------------------------------------

  datatype Value =
    | UInt8(u: nat) | Int8(i: int) | UInt16(u: nat) | Int16(i: int) | UInt32(u: nat) | Int32(i: int)
    | Float32(pattern: nat) | Bool(b: bool) | Str(chars: seq<byte>)
    | UInt64(u: nat) | Int64(i: int) | Float64(pattern: nat)

  function Signed(bits: nat, width: nat): int {
    if 2 * bits < Pow256(width) then bits else bits - Pow256(width)
  }

  function Interpret(r: Raw): Value {
    match r
    case Text(chars) => Str(chars)
    case Fixed(tag, bits) =>
      if tag == 0 then UInt8(bits) else if tag == 1 then Int8(Signed(bits, 1))
      else if tag == 2 then UInt16(bits) else if tag == 3 then Int16(Signed(bits, 2))
      else if tag == 4 then UInt32(bits) else if tag == 5 then Int32(Signed(bits, 4))
      else if tag == 6 then Float32(bits) else if tag == 7 then Bool(bits != 0)
      else if tag == 10 then UInt64(bits) else if tag == 11 then Int64(Signed(bits, 8))
      else Float64(bits)
  }

  predicate ValueOk(v: Value) {
    match v
    case UInt8(u) => u < 0x100
    case Int8(i) => -0x80 <= i < 0x80
    case UInt16(u) => u < 0x1_0000
    case Int16(i) => -0x8000 <= i < 0x8000
    case UInt32(u) => u < 0x1_0000_0000
    case Int32(i) => -0x8000_0000 <= i < 0x8000_0000
    case Float32(p) => p < 0x1_0000_0000
    case Bool(_) => true
    case Str(chars) => StringOk(chars)
    case UInt64(u) => u < 0x1_0000_0000_0000_0000
    case Int64(i) => -0x8000_0000_0000_0000 <= i < 0x8000_0000_0000_0000
    case Float64(p) => p < 0x1_0000_0000_0000_0000
  }

  /** How a writer stores a value: two's complement, true as 1. */
  function Store(v: Value): Raw
    requires ValueOk(v)
  {
    match v
    case UInt8(u) => Fixed(0, u)
    case Int8(i) => Fixed(1, if 0 <= i then i else i + 0x100)
    case UInt16(u) => Fixed(2, u)
    case Int16(i) => Fixed(3, if 0 <= i then i else i + 0x1_0000)
    case UInt32(u) => Fixed(4, u)
    case Int32(i) => Fixed(5, if 0 <= i then i else i + 0x1_0000_0000)
    case Float32(p) => Fixed(6, p)
    case Bool(b) => Fixed(7, if b then 1 else 0)
    case Str(chars) => Text(chars)
    case UInt64(u) => Fixed(10, u)
    case Int64(i) => Fixed(11, if 0 <= i then i else i + 0x1_0000_0000_0000_0000)
    case Float64(p) => Fixed(12, p)
  }

  /** insert_or_assign over the key/values in file order. */
  function Metadata(kvs: seq<KV>): map<seq<byte>, Value> {
    if kvs == [] then map[]
    else
      var last := |kvs| - 1;
      Metadata(kvs[..last])[kvs[last].key := Interpret(kvs[last].raw)]
  }

  // ---- the encoder --------------------------------------------------------------------

  function EncodeMany<T>(enc: T -> seq<byte>, xs: seq<T>): seq<byte> {
    if xs == [] then [] else enc(xs[0]) + EncodeMany(enc, xs[1..])
  }

  function EncodeString(s: seq<byte>): seq<byte> {
    Enc(8, |s|) + s
  }

  function EncodeBody(r: Raw): seq<byte> {
    match r
    case Fixed(tag, bits) => Enc(Width(tag), bits)
    case Text(chars) => EncodeString(chars)
  }

  function Tag(r: Raw): nat {
    match r case Fixed(tag, _) => tag case Text(_) => STRING_TAG
  }

  function EncodeKV(kv: KV): seq<byte> {
    EncodeString(kv.key) + (Enc(4, Tag(kv.raw)) + EncodeBody(kv.raw))
  }

  function EncodeDim(d: u64): seq<byte> {
    Enc(8, d)
  }

  function EncodeShape(dims: seq<u64>): seq<byte> {
    Enc(4, |dims|) + EncodeMany(EncodeDim, dims)
  }

  function EncodeTrailer(kind: nat, offset: nat): seq<byte> {
    Enc(4, kind) + Enc(8, offset)
  }

  function EncodeDesc(d: Desc): seq<byte> {
    EncodeString(d.name) + (EncodeShape(d.dims) + EncodeTrailer(d.kind, d.offset))
  }

  function EncodeTables(doc: Doc): seq<byte> {
    EncodeMany(EncodeKV, doc.kvs) + EncodeMany(EncodeDesc, doc.descs)
  }

  function EncodeCounts(doc: Doc): seq<byte> {
    Enc(8, |doc.descs|) + (Enc(8, |doc.kvs|) + EncodeTables(doc))
  }

  function Encode(doc: Doc): seq<byte> {
    Enc(4, MAGIC) + (Enc(4, doc.version) + EncodeCounts(doc))
  }

  // ---- the decoder --------------------------------------------------------------------

  /** The optional a read helper returns, with the bytes after the cursor. */
  datatype Read<+T> = Got(value: T, rest: seq<byte>) | Nothing

  function ReadPod(s: seq<byte>, w: nat): Read<nat> {
    if |s| < w then Nothing else Got(Dec(s[..w]), s[w..])
  }

  function ReadString(s: seq<byte>): Read<seq<byte>> {
    match ReadPod(s, 8)
    case Nothing => Nothing
    case Got(n, r) => if MAX_STRING < n || |r| < n then Nothing else Got(r[..n], r[n..])
  }

  function ReadBody(s: seq<byte>, tag: nat): Read<Raw> {
    if tag == STRING_TAG then
      match ReadString(s)
      case Nothing => Nothing
      case Got(chars, r) => Got(Text(chars), r)
    else if IsFixed(tag) then
      match ReadPod(s, Width(tag))
      case Nothing => Nothing
      case Got(bits, r) => Got(Fixed(tag, bits), r)
    else Nothing
  }

  /** A stage of parse: it goes on, or throws a SentinelException with a status. */
  datatype Stage<+T> = Parsed(value: T, rest: seq<byte>) | Thrown(status: Status)

  function ReadMany<T>(read: seq<byte> -> Stage<T>, s: seq<byte>, n: nat): Stage<seq<T>>
    decreases n
  {
    if n == 0 then Parsed([], s)
    else
      match read(s)
      case Thrown(st) => Thrown(st)
      case Parsed(x, r) =>
        match ReadMany(read, r, n - 1)
        case Thrown(st) => Thrown(st)
        case Parsed(xs, r2) => Parsed([x] + xs, r2)
  }

  /** The values a counted loop has read when it ends or one of its reads throws. */
  function Front<T>(read: seq<byte> -> Stage<T>, s: seq<byte>, n: nat): seq<T>
    decreases n
  {
    if n == 0 then []
    else
      match read(s)
      case Thrown(_) => []
      case Parsed(x, r) => [x] + Front(read, r, n - 1)
  }

  function ReadKV(s: seq<byte>): Stage<KV> {
    match ReadString(s)
    case Nothing => Thrown(ErrMalformedHeader)
    case Got(key, r) =>
      match ReadPod(r, 4)
      case Nothing => Thrown(ErrMalformedHeader)
      case Got(tag, r2) =>
        if 12 < tag then Thrown(ErrMalformedHeader)
        else
          match ReadBody(r2, tag)
          case Nothing => Thrown(ErrMalformedHeader)
          case Got(raw, r3) => Parsed(KV(key, raw), r3)
  }

  function ReadDim(s: seq<byte>): Stage<u64> {
    Widths();
    match ReadPod(s, 8)
    case Nothing => Thrown(ErrOutOfBoundsRead)
    case Got(d, r) => Parsed(d, r)
  }

  function ReadShape(s: seq<byte>): Stage<seq<u64>> {
    match ReadPod(s, 4)
    case Nothing => Thrown(ErrMalformedHeader)
    case Got(n, r) => if MAX_DIMS < n then Thrown(ErrMalformedHeader) else ReadMany(ReadDim, r, n)
  }

  function ReadTrailer(s: seq<byte>): Stage<(nat, nat)> {
    match ReadPod(s, 4)
    case Nothing => Thrown(ErrOutOfBoundsRead)
    case Got(kind, r) =>
      match ReadPod(r, 8)
      case Nothing => Thrown(ErrOutOfBoundsRead)
      case Got(offset, r2) => Parsed((kind, offset), r2)
  }

  function ReadDesc(s: seq<byte>): Stage<Desc> {
    match ReadString(s)
    case Nothing => Thrown(ErrMalformedHeader)
    case Got(name, r) =>
      match ReadShape(r)
      case Thrown(st) => Thrown(st)
      case Parsed(dims, r2) =>
        match ReadTrailer(r2)
        case Thrown(st) => Thrown(st)
        case Parsed(t, r3) => Parsed(Desc(name, dims, t.0, t.1), r3)
  }

  /** The whole parse up to the size audit: decoded, refused with a status, or thrown. */
  datatype Reading = Decoded(doc: Doc, rest: seq<byte>) | Refused(status: Status) | Raised(status: Status)

  function ReadTables(s: seq<byte>, version: nat, tensorCount: nat, kvCount: nat): Reading {
    if MAX_KVS < kvCount || MAX_TENSORS < tensorCount then Raised(ErrMalformedHeader)
    else
      match ReadMany(ReadKV, s, kvCount)
      case Thrown(st) => Raised(st)
      case Parsed(kvs, r) =>
        match ReadMany(ReadDesc, r, tensorCount)
        case Thrown(st) => Raised(st)
        case Parsed(ds, r2) => Decoded(Doc(version, kvs, ds), r2)
  }

  /** The key/values and tensors that are stored when the tables end or one of them throws. */
  function StoredTables(s: seq<byte>, tensorCount: nat, kvCount: nat): (seq<KV>, seq<Desc>) {
    if MAX_KVS < kvCount || MAX_TENSORS < tensorCount then ([], [])
    else
      match ReadMany(ReadKV, s, kvCount)
      case Thrown(_) => (Front(ReadKV, s, kvCount), [])
      case Parsed(kvs, r) => (kvs, Front(ReadDesc, r, tensorCount))
  }

  function ReadCounts(s: seq<byte>, version: nat): Reading {
    match ReadPod(s, 8)
    case Nothing => Raised(ErrOutOfBoundsRead)
    case Got(tensorCount, r) =>
      match ReadPod(r, 8)
      case Nothing => Raised(ErrOutOfBoundsRead)
      case Got(kvCount, r2) => ReadTables(r2, version, tensorCount, kvCount)
  }

  function ReadDoc(s: seq<byte>): Reading {
    match ReadPod(s, 4)
    case Nothing => Raised(ErrOutOfBoundsRead)
    case Got(magic, r) =>
      if magic != MAGIC then Refused(ErrInvalidMagic)
      else
        match ReadPod(r, 4)
        case Nothing => Raised(ErrOutOfBoundsRead)
        case Got(version, r2) =>
          if version < 1 || 3 < version then Refused(ErrUnsupportedVersion) else ReadCounts(r2, version)
  }

  // ---- decoding what was encoded ------------------------------------------------------

  /** A reader undoes a writer on every value of xs, whatever follows. */
  ghost predicate Undoes<T(!new)>(read: seq<byte> -> Stage<T>, enc: T -> seq<byte>, xs: seq<T>) {
    forall x, rest {:trigger read(enc(x) + rest)} :: x in xs ==> read(enc(x) + rest) == Parsed(x, rest)
  }

  /** Whatever a reader accepts satisfies ok and is the writer's output. */
  ghost predicate Faithful<T(!new)>(read: seq<byte> -> Stage<T>, enc: T -> seq<byte>, ok: T -> bool) {
    forall s :: read(s).Parsed? ==> ok(read(s).value) && s == enc(read(s).value) + read(s).rest
  }

  lemma {:induction false} ManyRoundTrip<T(!new)>(
    read: seq<byte> -> Stage<T>, enc: T -> seq<byte>, xs: seq<T>, rest: seq<byte>)
    requires Undoes(read, enc, xs)
    ensures ReadMany(read, EncodeMany(enc, xs) + rest, |xs|) == Parsed(xs, rest)
    decreases |xs|
  {
    if xs == [] {
      assert EncodeMany(enc, xs) + rest == rest;
    } else {
      Assoc(enc(xs[0]), EncodeMany(enc, xs[1..]), rest);
      assert read(enc(xs[0]) + (EncodeMany(enc, xs[1..]) + rest)).Parsed?;
      ManyRoundTrip(read, enc, xs[1..], rest);
      assert [xs[0]] + xs[1..] == xs;
    }
  }

  lemma {:induction false} ManySound<T(!new)>(
    read: seq<byte> -> Stage<T>, enc: T -> seq<byte>, ok: T -> bool, s: seq<byte>, n: nat)
    requires Faithful(read, enc, ok)
    ensures var p := ReadMany(read, s, n);
      p.Parsed? ==>
        && |p.value| == n
        && (forall x :: x in p.value ==> ok(x))
        && s == EncodeMany(enc, p.value) + p.rest
    decreases n
  {
    var p := ReadMany(read, s, n);
    if n > 0 && p.Parsed? {
      var r := read(s).rest;
      ManySound(read, enc, ok, r, n - 1);
      var q := ReadMany(read, r, n - 1);
      assert p.value[1..] == q.value;
      Assoc(enc(p.value[0]), EncodeMany(enc, q.value), p.rest);
    }
  }

  lemma {:induction false} FrontOfAll<T>(read: seq<byte> -> Stage<T>, s: seq<byte>, n: nat)
    ensures ReadMany(read, s, n).Parsed? ==> Front(read, s, n) == ReadMany(read, s, n).value
    decreases n
  {
    if n > 0 && read(s).Parsed? {
      FrontOfAll(read, read(s).rest, n - 1);
    }
  }

  lemma {:induction false} Counted<T>(read: seq<byte> -> Stage<T>, s: seq<byte>, n: nat)
    ensures ReadMany(read, s, n).Parsed? ==> |ReadMany(read, s, n).value| == n
    decreases n
  {
    if n > 0 && read(s).Parsed? {
      Counted(read, read(s).rest, n - 1);
    }
  }

  lemma PodRoundTrip(w: nat, x: nat, rest: seq<byte>)
    requires x < Pow256(w)
    ensures ReadPod(Enc(w, x) + rest, w) == Got(x, rest)
  {
    DecEnc(w, x);
    assert (Enc(w, x) + rest)[..w] == Enc(w, x);
  }

  lemma PodSound(s: seq<byte>, w: nat)
    ensures ReadPod(s, w).Got? <==> w <= |s|
    ensures var p := ReadPod(s, w);
      p.Got? ==> p.value < Pow256(w) && s == Enc(w, p.value) + p.rest
  {
    hide Enc, Dec, Pow256;
    if w <= |s| {
      EncDec(s[..w]);
      assert s == s[..w] + s[w..];
    }
  }

  lemma StringRoundTrip(s: seq<byte>, rest: seq<byte>)
    requires StringOk(s)
    ensures ReadString(EncodeString(s) + rest) == Got(s, rest)
  {
    Widths();
    Assoc(Enc(8, |s|), s, rest);
    PodRoundTrip(8, |s|, s + rest);
  }

  lemma StringSound(s: seq<byte>)
    ensures var p := ReadString(s);
      p.Got? ==> StringOk(p.value) && s == EncodeString(p.value) + p.rest
  {
    hide Enc, Dec, Pow256;
    PodSound(s, 8);
    var p := ReadString(s);
    if p.Got? {
      Assoc(Enc(8, |p.value|), p.value, p.rest);
      assert ReadPod(s, 8).rest == p.value + p.rest;
    }
  }

  lemma BodyRoundTrip(r: Raw, rest: seq<byte>)
    requires RawOk(r)
    ensures ReadBody(EncodeBody(r) + rest, Tag(r)) == Got(r, rest)
  {
    match r
    case Fixed(tag, bits) => PodRoundTrip(Width(tag), bits, rest);
    case Text(chars) => StringRoundTrip(chars, rest);
  }

  lemma BodySound(s: seq<byte>, tag: nat)
    ensures var p := ReadBody(s, tag);
      p.Got? ==> RawOk(p.value) && Tag(p.value) == tag && s == EncodeBody(p.value) + p.rest
  {
    StringSound(s);
    if IsFixed(tag) {
      PodSound(s, Width(tag));
    }
  }

  lemma KVRoundTrip(kv: KV, rest: seq<byte>)
    requires KVOk(kv)
    ensures ReadKV(EncodeKV(kv) + rest) == Parsed(kv, rest)
  {
    Widths();
    var body := EncodeBody(kv.raw);
    var tag := Enc(4, Tag(kv.raw));
    Assoc(EncodeString(kv.key), tag + body, rest);
    Assoc(tag, body, rest);
    StringRoundTrip(kv.key, tag + body + rest);
    PodRoundTrip(4, Tag(kv.raw), body + rest);
    BodyRoundTrip(kv.raw, rest);
  }

  lemma KVSound(s: seq<byte>)
    ensures var p := ReadKV(s);
      p.Parsed? ==> KVOk(p.value) && s == EncodeKV(p.value) + p.rest
  {
    StringSound(s);
    var p := ReadKV(s);
    if p.Parsed? {
      var r := ReadString(s).rest;
      PodSound(r, 4);
      BodySound(ReadPod(r, 4).rest, ReadPod(r, 4).value);
      var body := EncodeBody(p.value.raw);
      var tag := Enc(4, Tag(p.value.raw));
      Assoc(tag, body, p.rest);
      Assoc(EncodeString(p.value.key), tag + body, p.rest);
    }
  }

  lemma ShapeRoundTrip(dims: seq<u64>, rest: seq<byte>)
    requires |dims| <= MAX_DIMS
    ensures ReadShape(EncodeShape(dims) + rest) == Parsed(dims, rest)
  {
    Widths();
    Assoc(Enc(4, |dims|), EncodeMany(EncodeDim, dims), rest);
    PodRoundTrip(4, |dims|, EncodeMany(EncodeDim, dims) + rest);
    forall x, more | x in dims ensures ReadDim(EncodeDim(x) + more) == Parsed(x, more) {
      PodRoundTrip(8, x, more);
    }
    ManyRoundTrip(ReadDim, EncodeDim, dims, rest);
  }

  lemma ShapeSound(s: seq<byte>)
    ensures var p := ReadShape(s);
      p.Parsed? ==> |p.value| <= MAX_DIMS && s == EncodeShape(p.value) + p.rest
  {
    PodSound(s, 4);
    var p := ReadShape(s);
    if p.Parsed? {
      var n := ReadPod(s, 4).value;
      var ok := (d: u64) => true;
      forall t ensures ReadDim(t).Parsed? ==>
        ok(ReadDim(t).value) && t == EncodeDim(ReadDim(t).value) + ReadDim(t).rest
      {
        PodSound(t, 8);
      }
      ManySound(ReadDim, EncodeDim, ok, ReadPod(s, 4).rest, n);
      Assoc(Enc(4, n), EncodeMany(EncodeDim, p.value), p.rest);
    }
  }

  lemma TrailerRoundTrip(kind: nat, offset: nat, rest: seq<byte>)
    requires kind < Pow256(4) && offset < Pow256(8)
    ensures ReadTrailer(EncodeTrailer(kind, offset) + rest) == Parsed((kind, offset), rest)
  {
    Assoc(Enc(4, kind), Enc(8, offset), rest);
    PodRoundTrip(4, kind, Enc(8, offset) + rest);
    PodRoundTrip(8, offset, rest);
  }

  lemma TrailerSound(s: seq<byte>)
    ensures var p := ReadTrailer(s);
      p.Parsed? ==> p.value.0 < Pow256(4) && p.value.1 < Pow256(8) && s == EncodeTrailer(p.value.0, p.value.1) + p.rest
  {
    PodSound(s, 4);
    var p := ReadTrailer(s);
    if p.Parsed? {
      PodSound(ReadPod(s, 4).rest, 8);
      Assoc(Enc(4, p.value.0), Enc(8, p.value.1), p.rest);
    }
  }

  lemma DescRoundTrip(d: Desc, rest: seq<byte>)
    requires DescOk(d)
    ensures ReadDesc(EncodeDesc(d) + rest) == Parsed(d, rest)
  {
    var shape, trailer := EncodeShape(d.dims), EncodeTrailer(d.kind, d.offset);
    Assoc(EncodeString(d.name), shape + trailer, rest);
    Assoc(shape, trailer, rest);
    StringRoundTrip(d.name, shape + trailer + rest);
    ShapeRoundTrip(d.dims, trailer + rest);
    TrailerRoundTrip(d.kind, d.offset, rest);
  }

  lemma DescSound(s: seq<byte>)
    ensures var p := ReadDesc(s);
      p.Parsed? ==> DescOk(p.value) && s == EncodeDesc(p.value) + p.rest
  {
    StringSound(s);
    var p := ReadDesc(s);
    if p.Parsed? {
      var d := p.value;
      var r := ReadString(s).rest;
      ShapeSound(r);
      TrailerSound(ReadShape(r).rest);
      var shape, trailer := EncodeShape(d.dims), EncodeTrailer(d.kind, d.offset);
      Assoc(shape, trailer, p.rest);
      Assoc(EncodeString(d.name), shape + trailer, p.rest);
    }
  }

  lemma TablesRoundTrip(doc: Doc, rest: seq<byte>)
    requires DocOk(doc)
    ensures ReadTables(EncodeTables(doc) + rest, doc.version, |doc.descs|, |doc.kvs|) == Decoded(doc, rest)
  {
    var kvs, descs := EncodeMany(EncodeKV, doc.kvs), EncodeMany(EncodeDesc, doc.descs);
    Assoc(kvs, descs, rest);
    forall x, more | x in doc.kvs ensures ReadKV(EncodeKV(x) + more) == Parsed(x, more) {
      KVRoundTrip(x, more);
    }
    ManyRoundTrip(ReadKV, EncodeKV, doc.kvs, descs + rest);
    forall x, more | x in doc.descs ensures ReadDesc(EncodeDesc(x) + more) == Parsed(x, more) {
      DescRoundTrip(x, more);
    }
    ManyRoundTrip(ReadDesc, EncodeDesc, doc.descs, rest);
  }

  lemma TablesSound(s: seq<byte>, version: nat, tensorCount: nat, kvCount: nat)
    requires 1 <= version <= 3
    ensures var p := ReadTables(s, version, tensorCount, kvCount);
      p.Decoded? ==>
        && DocOk(p.doc) && p.doc.version == version && |p.doc.descs| == tensorCount && |p.doc.kvs| == kvCount
        && s == EncodeTables(p.doc) + p.rest
  {
    var p := ReadTables(s, version, tensorCount, kvCount);
    if p.Decoded? {
      forall t ensures ReadKV(t).Parsed? ==> KVOk(ReadKV(t).value) && t == EncodeKV(ReadKV(t).value) + ReadKV(t).rest {
        KVSound(t);
      }
      ManySound(ReadKV, EncodeKV, KVOk, s, kvCount);
      var r := ReadMany(ReadKV, s, kvCount).rest;
      forall t ensures ReadDesc(t).Parsed? ==>
        DescOk(ReadDesc(t).value) && t == EncodeDesc(ReadDesc(t).value) + ReadDesc(t).rest
      {
        DescSound(t);
      }
      ManySound(ReadDesc, EncodeDesc, DescOk, r, tensorCount);
      Assoc(EncodeMany(EncodeKV, p.doc.kvs), EncodeMany(EncodeDesc, p.doc.descs), p.rest);
    }
  }

  lemma CountsRoundTrip(doc: Doc, rest: seq<byte>)
    requires DocOk(doc)
    ensures ReadCounts(EncodeCounts(doc) + rest, doc.version) == Decoded(doc, rest)
  {
    Widths();
    var nd, nk, tables := Enc(8, |doc.descs|), Enc(8, |doc.kvs|), EncodeTables(doc);
    Assoc(nd, nk + tables, rest);
    Assoc(nk, tables, rest);
    PodRoundTrip(8, |doc.descs|, nk + tables + rest);
    PodRoundTrip(8, |doc.kvs|, tables + rest);
    TablesRoundTrip(doc, rest);
  }

  lemma CountsSound(s: seq<byte>, version: nat)
    requires 1 <= version <= 3
    ensures var p := ReadCounts(s, version);
      p.Decoded? ==> DocOk(p.doc) && p.doc.version == version && s == EncodeCounts(p.doc) + p.rest
  {
    PodSound(s, 8);
    var p := ReadCounts(s, version);
    if p.Decoded? {
      var r := ReadPod(s, 8).rest;
      PodSound(r, 8);
      TablesSound(ReadPod(r, 8).rest, version, ReadPod(s, 8).value, ReadPod(r, 8).value);
      var nk, tables := Enc(8, |p.doc.kvs|), EncodeTables(p.doc);
      Assoc(nk, tables, p.rest);
      Assoc(Enc(8, |p.doc.descs|), nk + tables, p.rest);
    }
  }

  /** Every well-formed document is read back, whatever bytes follow it. */
  lemma RoundTrip(doc: Doc, rest: seq<byte>)
    requires DocOk(doc)
    ensures ReadDoc(Encode(doc) + rest) == Decoded(doc, rest)
  {
    Widths();
    var magic, version, counts := Enc(4, MAGIC), Enc(4, doc.version), EncodeCounts(doc);
    Assoc(magic, version + counts, rest);
    Assoc(version, counts, rest);
    PodRoundTrip(4, MAGIC, version + counts + rest);
    PodRoundTrip(4, doc.version, counts + rest);
    CountsRoundTrip(doc, rest);
  }

  /** Whatever is decoded is a well-formed document, and the bytes before the cursor are
      exactly its encoding. */
  lemma Sound(s: seq<byte>)
    ensures var p := ReadDoc(s);
      p.Decoded? ==> DocOk(p.doc) && s == Encode(p.doc) + p.rest
  {
    PodSound(s, 4);
    var p := ReadDoc(s);
    if p.Decoded? {
      var r := ReadPod(s, 4).rest;
      PodSound(r, 4);
      CountsSound(ReadPod(r, 4).rest, ReadPod(r, 4).value);
      var version, counts := Enc(4, p.doc.version), EncodeCounts(p.doc);
      Assoc(version, counts, p.rest);
      Assoc(Enc(4, MAGIC), version + counts, p.rest);
    }
  }

  // ---- locality and truncation --------------------------------------------------------

  /** Bytes after the cursor do not matter. */
  lemma Local(s: seq<byte>, other: seq<byte>)
    requires ReadDoc(s).Decoded?
    ensures var c := |s| - |ReadDoc(s).rest|;
      0 <= c && ReadDoc(s[..c] + other) == Decoded(ReadDoc(s).doc, other)
  {
    Sound(s);
    var p := ReadDoc(s);
    assert s[..|s| - |p.rest|] == Encode(p.doc);
    RoundTrip(p.doc, other);
  }

  /** The encoding of one document is never a proper prefix of the encoding of another. */
  lemma PrefixFree(a: Doc, b: Doc, rest: seq<byte>)
    requires DocOk(a) && DocOk(b) && Encode(b) == Encode(a) + rest
    ensures a == b && rest == []
  {
    RoundTrip(a, rest);
    RoundTrip(b, []);
    assert Encode(b) + [] == Encode(b);
  }

  /** Whether parse refuses the magic or the version is decided by the first eight bytes. */
  lemma HeaderOnly(s: seq<byte>, cut: nat)
    requires cut <= |s| && ReadDoc(s[..cut]).Refused?
    ensures ReadDoc(s) == ReadDoc(s[..cut])
  {
    var t := s[..cut];
    assert t[..4] == s[..4];
    if ReadPod(t, 4).value == MAGIC {
      assert t[4..][..4] == s[4..][..4];
    }
  }

  lemma CutIsNotDecoded(s: seq<byte>, cut: nat)
    requires ReadDoc(s).Decoded? && cut < |s| - |ReadDoc(s).rest|
    ensures !ReadDoc(s[..cut]).Decoded?
  {
    hide ReadDoc, Encode, DocOk;
    var t, u := s[..cut], s[cut..];
    var q := ReadDoc(t);
    if q.Decoded? {
      Sound(t);
      Assoc(Encode(q.doc), q.rest, u);
      assert s == t + u;
      RoundTrip(q.doc, q.rest + u);
    }
  }

  /** A buffer cut before the cursor makes parse throw; it never returns a status. */
  lemma Truncated(s: seq<byte>, cut: nat)
    requires ReadDoc(s).Decoded? && cut < |s| - |ReadDoc(s).rest|
    ensures ReadDoc(s[..cut]).Raised?
  {
    CutIsNotDecoded(s, cut);
    if ReadDoc(s[..cut]).Refused? {
      HeaderOnly(s, cut);
    }
  }

  /** Exactly which buffers are refused with a status instead of being decoded or thrown out. */
  lemma RefusedExactly(s: seq<byte>)
    ensures ReadDoc(s) == Refused(ErrInvalidMagic) <==> 4 <= |s| && Dec(s[..4]) != MAGIC
    ensures ReadDoc(s) == Refused(ErrUnsupportedVersion) <==>
      8 <= |s| && Dec(s[..4]) == MAGIC && !(1 <= Dec(s[4..8]) <= 3)
    ensures ReadDoc(s).Refused? ==> ReadDoc(s).status in {ErrInvalidMagic, ErrUnsupportedVersion}
  {
    if 8 <= |s| {
      assert s[4..][..4] == s[4..8];
    }
  }

  /** Acceptance, without mentioning the decoder. */
  lemma AcceptedExactly(s: seq<byte>)
    ensures ReadDoc(s).Decoded? <==> exists doc :: DocOk(doc) && Encode(doc) <= s
  {
    hide ReadDoc, Encode, DocOk;
    if ReadDoc(s).Decoded? {
      Sound(s);
      assert Encode(ReadDoc(s).doc) <= s;
    }
    if doc :| DocOk(doc) && Encode(doc) <= s {
      RoundTrip(doc, s[|Encode(doc)|..]);
      assert s == Encode(doc) + s[|Encode(doc)|..];
    }
  }

  /** Every storable value survives storing and reading. */
  lemma ValueRoundTrip(v: Value)
    requires ValueOk(v)
    ensures RawOk(Store(v)) && Interpret(Store(v)) == v
  {
    Widths();
  }

  /** A stored value is determined by what it is read as, except that any non-zero byte is true. */
  lemma StoredExactly(r: Raw)
    requires RawOk(r)
    ensures ValueOk(Interpret(r))
    ensures Store(Interpret(r)) == r <==> !(r.Fixed? && r.tag == 7 && 1 < r.bits)
    ensures r.Fixed? && r.tag == 7 ==> Interpret(r) == Bool(0 < r.bits)
  {
    Widths();
  }

  /** The metadata map holds for every key the value of its last occurrence, and nothing else. */
  lemma {:induction false} LastWriteWins(kvs: seq<KV>, i: nat)
    requires i < |kvs| && forall j :: i < j < |kvs| ==> kvs[j].key != kvs[i].key
    ensures kvs[i].key in Metadata(kvs) && Metadata(kvs)[kvs[i].key] == Interpret(kvs[i].raw)
    decreases |kvs|
  {
    var init := kvs[..|kvs| - 1];
    if i < |init| {
      assert init[i] == kvs[i];
      LastWriteWins(init, i);
    }
  }

  lemma {:induction false} MetadataKeys(kvs: seq<KV>, key: seq<byte>)
    requires key in Metadata(kvs)
    ensures exists i :: 0 <= i < |kvs| && kvs[i].key == key
  {
    var init := kvs[..|kvs| - 1];
    if kvs[|init|].key != key {
      MetadataKeys(init, key);
      var i :| 0 <= i < |init| && init[i].key == key;
      assert kvs[i] == init[i];
    }
  }
}
