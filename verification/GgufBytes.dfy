/**
 The GGUF layout in bytes and numbers: where the header fields lie, how each value type is
 stored, the caps, a file written out byte for byte, and the cause of every exception.
 */
module GgufBytes {
  import opened Machine
  import opened LittleEndian
  import opened GgufFormat

  // ---- numbers ------------------------------------------------------------------------

  /** The magic is the four letters GGUF. */
  lemma MagicBytes(bs: seq<byte>)
    requires |bs| == 4
    ensures Dec(bs) == MAGIC <==> bs == [0x47, 0x47, 0x55, 0x46]
  {
    hide Dec;
    Weights(bs);
  }

  /** Documents within the caps: versions 1 to 3, 65536 key/values, 1000000 tensors, strings of
      65536 bytes, eight dimensions, and bit patterns that fit their types. */
  lemma DocOkExactly(doc: Doc)
    ensures DocOk(doc) <==>
      && 1 <= doc.version <= 3 && |doc.kvs| <= 65536 && |doc.descs| <= 1000000
      && (forall kv :: kv in doc.kvs ==> |kv.key| <= 65536 && match kv.raw
            case Text(chars) => |chars| <= 65536
            case Fixed(tag, bits) =>
              if tag in {0, 1, 7} then bits < 0x100
              else if tag in {2, 3} then bits < 0x1_0000
              else if tag in {4, 5, 6} then bits < 0x1_0000_0000
              else tag in {10, 11, 12} && bits < WORD)
      && (forall d :: d in doc.descs ==>
           |d.name| <= 65536 && |d.dims| <= 8 && d.kind < 0x1_0000_0000 && d.offset < WORD)
  {
    Widths();
    hide Pow256;
  }

  /** Tag, width and bits of every value type, signed numbers in two's complement. */
  lemma ValueInBytes(v: Value)
    requires ValueOk(v)
    ensures var tag, bytes := Tag(Store(v)), EncodeBody(Store(v));
      match v
      case UInt8(u) => tag == 0 && |bytes| == 1 && Dec(bytes) == u
      case Int8(i) => tag == 1 && |bytes| == 1 && Dec(bytes) == i % 0x100
      case UInt16(u) => tag == 2 && |bytes| == 2 && Dec(bytes) == u
      case Int16(i) => tag == 3 && |bytes| == 2 && Dec(bytes) == i % 0x1_0000
      case UInt32(u) => tag == 4 && |bytes| == 4 && Dec(bytes) == u
      case Int32(i) => tag == 5 && |bytes| == 4 && Dec(bytes) == i % 0x1_0000_0000
      case Float32(p) => tag == 6 && |bytes| == 4 && Dec(bytes) == p
      case Bool(b) => tag == 7 && |bytes| == 1 && Dec(bytes) == if b then 1 else 0
      case Str(chars) => tag == 8 && 8 <= |bytes| && Dec(bytes[..8]) == |chars| && bytes[8..] == chars
      case UInt64(u) => tag == 10 && |bytes| == 8 && Dec(bytes) == u
      case Int64(i) => tag == 11 && |bytes| == 8 && Dec(bytes) == i % WORD
      case Float64(p) => tag == 12 && |bytes| == 8 && Dec(bytes) == p
  {
    Widths();
    hide Pow256, Enc, Dec;
    match Store(v)
    case Fixed(tag, bits) => DecEnc(Width(tag), bits);
    case Text(chars) =>
      DecEnc(8, |chars|);
      assert EncodeString(chars)[..8] == Enc(8, |chars|);
  }

  // ---- the header by offset -----------------------------------------------------------

  /** The magic, the version and both counts of a decoded buffer lie at 0, 4, 8 and 16. */
  lemma HeaderByOffset(s: seq<byte>)
    requires ReadDoc(s).Decoded?
    ensures 24 <= |s| && s[..4] == [0x47, 0x47, 0x55, 0x46]
    ensures var doc := ReadDoc(s).doc;
      && doc.version == Dec(s[4..8]) && |doc.descs| == Dec(s[8..16]) && |doc.kvs| == Dec(s[16..24])
  {
    hide Dec, Pow256, ReadTables;
    Slices(s);
    MagicBytes(s[..4]);
    TablesCounted(s[24..], Dec(s[4..8]), Dec(s[8..16]), Dec(s[16..24]));
  }

  lemma Slices(s: seq<byte>)
    ensures 8 <= |s| ==> s[4..][..4] == s[4..8] && s[4..][4..] == s[8..]
    ensures 16 <= |s| ==> s[8..][..8] == s[8..16] && s[8..][8..] == s[16..]
    ensures 24 <= |s| ==> s[16..][..8] == s[16..24] && s[16..][8..] == s[24..]
  {
  }

  lemma TablesCounted(s: seq<byte>, version: nat, tensorCount: nat, kvCount: nat)
    ensures var p := ReadTables(s, version, tensorCount, kvCount);
      p.Decoded? ==> p.doc.version == version && |p.doc.descs| == tensorCount && |p.doc.kvs| == kvCount
  {
    Counted(ReadKV, s, kvCount);
    if ReadMany(ReadKV, s, kvCount).Parsed? {
      Counted(ReadDesc, ReadMany(ReadKV, s, kvCount).rest, tensorCount);
    }
  }

  /** Exactly which buffers are refused with a status, by their first eight bytes. */
  lemma RefusedByBytes(s: seq<byte>)
    ensures ReadDoc(s) == Refused(ErrInvalidMagic) <==> 4 <= |s| && s[..4] != [0x47, 0x47, 0x55, 0x46]
    ensures ReadDoc(s) == Refused(ErrUnsupportedVersion) <==>
      8 <= |s| && s[..4] == [0x47, 0x47, 0x55, 0x46] && !(1 <= Dec(s[4..8]) <= 3)
    ensures ReadDoc(s).Refused? ==> ReadDoc(s).status in {ErrInvalidMagic, ErrUnsupportedVersion}
  {
    RefusedExactly(s);
    hide Dec, ReadDoc;
    if 4 <= |s| {
      MagicBytes(s[..4]);
    }
  }

  // ---- the cause of every exception ---------------------------------------------------

  /** The first 24 bytes of a file that announces these counts. */
  function Head(version: nat, tensorCount: nat, kvCount: nat): seq<byte> {
    [0x47, 0x47, 0x55, 0x46] + (Enc(4, version) + (Enc(8, tensorCount) + Enc(8, kvCount)))
  }

  lemma MagicEncoded()
    ensures Enc(4, MAGIC) == [0x47, 0x47, 0x55, 0x46]
  {
    hide Dec, Enc;
    var bs: seq<byte> := [0x47, 0x47, 0x55, 0x46];
    EncDec(bs);
    MagicBytes(bs);
  }

  lemma HeadRead(version: nat, tensorCount: nat, kvCount: nat, t: seq<byte>)
    requires 1 <= version <= 3 && tensorCount < WORD && kvCount < WORD
    ensures ReadDoc(Head(version, tensorCount, kvCount) + t) == ReadTables(t, version, tensorCount, kvCount)
  {
    Widths();
    hide Enc, Dec, Pow256, ReadTables;
    MagicEncoded();
    var v, nt, nk := Enc(4, version), Enc(8, tensorCount), Enc(8, kvCount);
    Assoc(Enc(4, MAGIC), v + (nt + nk), t);
    Assoc(v, nt + nk, t);
    Assoc(nt, nk, t);
    PodRoundTrip(4, MAGIC, v + (nt + (nk + t)));
    PodRoundTrip(4, version, nt + (nk + t));
    PodRoundTrip(8, tensorCount, nk + t);
    PodRoundTrip(8, kvCount, t);
  }

  /** A buffer that ends inside an acceptable header is out of bounds. */
  lemma ShortHeader(s: seq<byte>)
    requires |s| < 24
    requires 4 <= |s| ==> s[..4] == [0x47, 0x47, 0x55, 0x46]
    requires 8 <= |s| ==> 1 <= Dec(s[4..8]) <= 3
    ensures ReadDoc(s) == Raised(ErrOutOfBoundsRead)
  {
    hide Dec, Pow256, ReadTables;
    Slices(s);
    if 4 <= |s| {
      MagicBytes(s[..4]);
    }
  }

  /** Counts above the caps are malformed, whatever follows. */
  lemma TooMany(version: nat, tensorCount: nat, kvCount: nat, t: seq<byte>)
    requires 1 <= version <= 3 && tensorCount < WORD && kvCount < WORD
    requires 65536 < kvCount || 1000000 < tensorCount
    ensures ReadDoc(Head(version, tensorCount, kvCount) + t) == Raised(ErrMalformedHeader)
  {
    HeadRead(version, tensorCount, kvCount, t);
  }

  /** Complete entries and then one that throws. */
  lemma {:induction false} ManyBroken<T(!new)>(
    read: seq<byte> -> Stage<T>, enc: T -> seq<byte>, xs: seq<T>, t: seq<byte>, n: nat)
    requires Undoes(read, enc, xs) && |xs| < n && read(t).Thrown?
    ensures ReadMany(read, EncodeMany(enc, xs) + t, n) == Thrown(read(t).status)
    ensures Front(read, EncodeMany(enc, xs) + t, n) == xs
    decreases |xs|
  {
    if xs == [] {
      assert EncodeMany(enc, xs) + t == t;
    } else {
      Assoc(enc(xs[0]), EncodeMany(enc, xs[1..]), t);
      assert read(enc(xs[0]) + (EncodeMany(enc, xs[1..]) + t)).Parsed?;
      ManyBroken(read, enc, xs[1..], t, n - 1);
      assert [xs[0]] + xs[1..] == xs;
    }
  }

  /** No complete key/value within the caps is in front of t. */
  ghost predicate NoKV(t: seq<byte>) {
    forall kv, rest :: KVOk(kv) ==> t != EncodeKV(kv) + rest
  }

  /** Fewer key/values than announced and then none: the file is malformed, and the key/values
      before are stored. */
  lemma BrokenMetadata(version: nat, tensorCount: nat, kvCount: nat, kvs: seq<KV>, t: seq<byte>)
    requires 1 <= version <= 3 && tensorCount <= 1000000 && kvCount <= 65536
    requires |kvs| < kvCount && (forall kv :: kv in kvs ==> KVOk(kv)) && NoKV(t)
    ensures ReadDoc(Head(version, tensorCount, kvCount) + (EncodeMany(EncodeKV, kvs) + t)) == Raised(ErrMalformedHeader)
    ensures StoredTables(EncodeMany(EncodeKV, kvs) + t, tensorCount, kvCount) == (kvs, [])
  {
    HeadRead(version, tensorCount, kvCount, EncodeMany(EncodeKV, kvs) + t);
    KVSound(t);
    KVThrows(t);
    hide ReadKV, EncodeKV, KVOk, ReadDoc, Head;
    forall x, more | x in kvs ensures ReadKV(EncodeKV(x) + more) == Parsed(x, more) {
      KVRoundTrip(x, more);
    }
    ManyBroken(ReadKV, EncodeKV, kvs, t, kvCount);
  }

  lemma KVThrows(t: seq<byte>)
    ensures ReadKV(t).Thrown? ==> ReadKV(t).status == ErrMalformedHeader
  {
  }

  /** t starts with a name and a dimension count within the caps, and u follows. */
  ghost predicate NameAndCount(t: seq<byte>, name: seq<byte>, n: nat, u: seq<byte>) {
    |name| <= 65536 && n <= 8 && t == EncodeString(name) + (Enc(4, n) + u)
  }

  /** All key/values within the caps, and fewer tensors than announced. */
  ghost predicate UpTo(version: nat, tensorCount: nat, kvs: seq<KV>, descs: seq<Desc>) {
    && 1 <= version <= 3 && tensorCount <= 1000000 && |kvs| <= 65536 && |descs| < tensorCount
    && (forall kv :: kv in kvs ==> KVOk(kv)) && (forall d :: d in descs ==> DescOk(d))
  }

  function Tables(kvs: seq<KV>, descs: seq<Desc>, t: seq<byte>): seq<byte> {
    EncodeMany(EncodeKV, kvs) + (EncodeMany(EncodeDesc, descs) + t)
  }

  lemma TablesBroken(version: nat, tensorCount: nat, kvs: seq<KV>, descs: seq<Desc>, t: seq<byte>)
    requires UpTo(version, tensorCount, kvs, descs) && ReadDesc(t).Thrown?
    ensures ReadDoc(Head(version, tensorCount, |kvs|) + Tables(kvs, descs, t)) == Raised(ReadDesc(t).status)
    ensures StoredTables(Tables(kvs, descs, t), tensorCount, |kvs|) == (kvs, descs)
  {
    hide ReadKV, EncodeKV, KVOk, ReadDesc, EncodeDesc, DescOk, ReadDoc, Head, EncodeMany, ReadMany, Front;
    HeadRead(version, tensorCount, |kvs|, Tables(kvs, descs, t));
    forall x, more | x in kvs ensures ReadKV(EncodeKV(x) + more) == Parsed(x, more) {
      KVRoundTrip(x, more);
    }
    ManyRoundTrip(ReadKV, EncodeKV, kvs, EncodeMany(EncodeDesc, descs) + t);
    forall x, more | x in descs ensures ReadDesc(EncodeDesc(x) + more) == Parsed(x, more) {
      DescRoundTrip(x, more);
    }
    ManyBroken(ReadDesc, EncodeDesc, descs, t, tensorCount);
  }

  /** Then no name and dimension count within the caps: the file is malformed, and everything before
      is stored. */
  lemma MalformedTensor(version: nat, tensorCount: nat, kvs: seq<KV>, descs: seq<Desc>, t: seq<byte>)
    requires UpTo(version, tensorCount, kvs, descs) && forall name, n, u :: !NameAndCount(t, name, n, u)
    ensures ReadDoc(Head(version, tensorCount, |kvs|) + Tables(kvs, descs, t)) == Raised(ErrMalformedHeader)
    ensures StoredTables(Tables(kvs, descs, t), tensorCount, |kvs|) == (kvs, descs)
  {
    hide UpTo, ReadDoc, ReadDesc, Tables, Head, StoredTables;
    NoDescHeader(t);
    TablesBroken(version, tensorCount, kvs, descs, t);
  }

  /** Or these but less than eight bytes for each dimension and twelve for type and offset: the
      file is out of bounds, and everything before is stored. */
  lemma ShortTensor(
    version: nat, tensorCount: nat, kvs: seq<KV>, descs: seq<Desc>, name: seq<byte>, n: nat, u: seq<byte>)
    requires UpTo(version, tensorCount, kvs, descs) && |name| <= 65536 && n <= 8 && |u| < 8 * n + 12
    ensures var t := EncodeString(name) + (Enc(4, n) + u);
      && ReadDoc(Head(version, tensorCount, |kvs|) + Tables(kvs, descs, t)) == Raised(ErrOutOfBoundsRead)
      && StoredTables(Tables(kvs, descs, t), tensorCount, |kvs|) == (kvs, descs)
  {
    hide UpTo, ReadDoc, ReadDesc, Tables, Head, StoredTables;
    var t := EncodeString(name) + (Enc(4, n) + u);
    ShortDesc(t, name, n, u);
    TablesBroken(version, tensorCount, kvs, descs, t);
  }

  lemma NoDescHeader(t: seq<byte>)
    requires forall name, n, u :: !NameAndCount(t, name, n, u)
    ensures ReadDesc(t) == Thrown(ErrMalformedHeader)
  {
    hide Enc, Dec, Pow256, ReadTrailer, EncodeString;
    StringSound(t);
    match ReadString(t)
    case Nothing =>
    case Got(name, r) =>
      PodSound(r, 4);
      match ReadPod(r, 4) {
        case Nothing =>
        case Got(n, u) => assert !NameAndCount(t, name, n, u);
      }
  }

  lemma {:induction false} DimsShort(s: seq<byte>, n: nat)
    ensures ReadMany(ReadDim, s, n).Parsed? <==> 8 * n <= |s|
    ensures ReadMany(ReadDim, s, n).Parsed? ==> |ReadMany(ReadDim, s, n).rest| == |s| - 8 * n
    ensures ReadMany(ReadDim, s, n).Thrown? ==> ReadMany(ReadDim, s, n).status == ErrOutOfBoundsRead
    decreases n
  {
    hide Dec, Pow256;
    if 0 < n && 8 <= |s| {
      DimsShort(s[8..], n - 1);
    }
  }

  lemma ShortDesc(t: seq<byte>, name: seq<byte>, n: nat, u: seq<byte>)
    requires NameAndCount(t, name, n, u) && |u| < 8 * n + 12
    ensures ReadDesc(t) == Thrown(ErrOutOfBoundsRead)
  {
    Widths();
    hide Enc, Dec, Pow256, EncodeString, ReadDim, ReadString;
    StringRoundTrip(name, Enc(4, n) + u);
    PodRoundTrip(4, n, u);
    DimsShort(u, n);
  }

  // ---- a file in bytes ----------------------------------------------------------------

  function Four(b: byte): seq<byte> { [b, 0, 0, 0] }

  function Eight(b: byte): seq<byte> { [b, 0, 0, 0, 0, 0, 0, 0] }

  lemma SmallNumber(b: byte)
    ensures Enc(1, b) == [b] && Enc(4, b) == Four(b) && Enc(8, b) == Eight(b)
  {
    hide Enc, Dec;
    EncDec([b]);
    EncDec(Four(b));
    EncDec(Eight(b));
    Weights([b]);
    Weights(Four(b));
    Weights(Eight(b));
  }

  const SAMPLE_FLAG := KV([0x61], Fixed(7, 1))
  const SAMPLE_TEXT := KV([0x62, 0x63], Text([0x78]))
  const SAMPLE_TENSOR := Desc([0x74], [2, 5], 6, 32)

  function SampleDoc(): Doc {
    Doc(3, [SAMPLE_FLAG, SAMPLE_TEXT], [SAMPLE_TENSOR])
  }

  lemma SampleEntries()
    ensures EncodeKV(SAMPLE_FLAG) == Eight(1) + [0x61] + Four(7) + [1]
    ensures EncodeKV(SAMPLE_TEXT) == Eight(2) + [0x62, 0x63] + Four(8) + Eight(1) + [0x78]
  {
    SmallNumber(1);
    SmallNumber(2);
    SmallNumber(7);
    SmallNumber(8);
    hide Enc, Four, Eight;
  }

  lemma SampleTensor()
    ensures EncodeDesc(SAMPLE_TENSOR) == Eight(1) + [0x74] + Four(2) + Eight(2) + Eight(5) + Four(6) + Eight(32)
  {
    SmallNumber(1);
    SmallNumber(2);
    SmallNumber(5);
    SmallNumber(6);
    SmallNumber(32);
    hide Enc, Four, Eight;
    EncodeTwo(EncodeDim, 2, 5);
  }

  lemma EncodeTwo<T>(enc: T -> seq<byte>, x: T, y: T)
    ensures EncodeMany(enc, [x]) == enc(x)
    ensures EncodeMany(enc, [x, y]) == enc(x) + enc(y)
  {
    assert [x, y][1..] == [y] && [y][1..] == [] && [x][1..] == [];
    assert EncodeMany(enc, [y]) == enc(y) + [];
    assert EncodeMany(enc, [x]) == enc(x) + [];
  }

  lemma Flat(a: seq<byte>, b: seq<byte>, c: seq<byte>, d: seq<byte>, e: seq<byte>, f: seq<byte>, g: seq<byte>)
    ensures a + (b + (c + (d + ((e + f) + g)))) == a + b + c + d + e + f + g
  {
  }

  lemma SampleParts()
    ensures Encode(SampleDoc()) == Enc(4, MAGIC) + Enc(4, 3) + Enc(8, 1) + Enc(8, 2)
      + EncodeKV(SAMPLE_FLAG) + EncodeKV(SAMPLE_TEXT) + EncodeDesc(SAMPLE_TENSOR)
  {
    hide Enc, EncodeKV, EncodeDesc, EncodeMany;
    EncodeTwo(EncodeKV, SAMPLE_FLAG, SAMPLE_TEXT);
    EncodeTwo(EncodeDesc, SAMPLE_TENSOR, SAMPLE_TENSOR);
    Flat(Enc(4, MAGIC), Enc(4, 3), Enc(8, 1), Enc(8, 2), EncodeKV(SAMPLE_FLAG), EncodeKV(SAMPLE_TEXT),
         EncodeDesc(SAMPLE_TENSOR));
  }

  function SampleBytes(): seq<byte> {
    [0x47, 0x47, 0x55, 0x46] + Four(3) + Eight(1) + Eight(2)
    + (Eight(1) + [0x61] + Four(7) + [1])
    + (Eight(2) + [0x62, 0x63] + Four(8) + Eight(1) + [0x78])
    + (Eight(1) + [0x74] + Four(2) + Eight(2) + Eight(5) + Four(6) + Eight(32))
  }

  /** Version 3, one tensor, two key/values: "a" true and "bc" the string "x"; the tensor "t" has
      dimensions 2 and 5, type 6 and offset 32. */
  lemma SampleFile(rest: seq<byte>)
    ensures Encode(SampleDoc()) == SampleBytes()
    ensures ReadDoc(SampleBytes() + rest) == Decoded(SampleDoc(), rest)
  {
    SampleParts();
    SampleEntries();
    SampleTensor();
    MagicEncoded();
    SmallNumber(3);
    SmallNumber(1);
    SmallNumber(2);
    SampleOk();
    hide Enc, Four, Eight, EncodeKV, EncodeDesc, ReadDoc, DocOk, Encode, SampleDoc;
    RoundTrip(SampleDoc(), rest);
  }

  lemma SampleOk()
    ensures DocOk(SampleDoc())
  {
    DocOkExactly(SampleDoc());
    hide DocOk;
  }
}
