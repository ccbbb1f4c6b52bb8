/** The vLLM adapter: KV-cache blocks by id, each one sanitizer allocation cut into tokens. */
module VllmAdapter {
  import opened Machine
  import opened AllocationTable
  import opened AdapterRuns
  import opened Products
  import Shadow
  import Sanitizer

  datatype Block = Block(id: u32, tokens: u32, heads: u64, dim: u64, ptr: u64, bytes: u64)

  /** heads * dim * sizeof(fp16) * 2 in 64-bit arithmetic. */
  function TokenBytes(heads: u64, dim: u64): u64 {
    Mul64(Mul64(Mul64(heads, dim), 2), 2)
  }

  function BlockBytes(tokens: u32, heads: u64, dim: u64): u64 {
    Mul64(tokens, TokenBytes(heads, dim))
  }

  /** The address validate_token_access computes for a token. */
  function TokenAddress(b: Block, t: u32): u64 {
    Add64(b.ptr, Mul64(t, TokenBytes(b.heads, b.dim)))
  }

  predicate TokenAccess(table: map<u64, Region>, blocks: map<u32, Block>, id: u32, t: u32) {
    id in blocks && t < blocks[id].tokens
    && CheckBounds(table, TokenAddress(blocks[id], t), TokenBytes(blocks[id].heads, blocks[id].dim))
  }

  ghost function HeldBy(blocks: map<u32, Block>): map<u64, Holding> {
    map k: u64 | k in blocks :: Holding(blocks[k].ptr, blocks[k].bytes)
  }

  class VLLMAdapter {
    const sanitizer: Sanitizer.CUDASanitizer
    var blocks: map<u32, Block>

    constructor (sanitizer: Sanitizer.CUDASanitizer)
      ensures this.sanitizer == sanitizer && blocks == map[]
    {
      this.sanitizer := sanitizer;
      blocks := map[];
    }

    method AllocateKVBlock(id: u32, tokens: u32, heads: u64, dim: u64, grant: Option<u64>) returns (status: Status)
      requires id !in blocks && 0 < BlockBytes(tokens, heads, dim) ==>
        MayGrant(sanitizer.driver.live, RequestBytes(BlockBytes(tokens, heads, dim), REDZONE), grant)
      modifies this, sanitizer, sanitizer.driver
      ensures id in old(blocks) ==>
        status == ErrCUDAAllocation && blocks == old(blocks) && sanitizer.State() == old(sanitizer.State())
      ensures id !in old(blocks) ==>
        && Taken(sanitizer.State(), HeldBy(blocks), status)
             == Acquire(old(sanitizer.State()), HeldBy(old(blocks)), id as u64, BlockBytes(tokens, heads, dim), grant)
        && blocks == if status == Success
             then old(blocks)[
               id := Block(id, tokens, heads, dim, HeldBy(blocks)[id].ptr, BlockBytes(tokens, heads, dim))]
             else old(blocks)
    {
      if id in blocks {
        return ErrCUDAAllocation;
      }
      var elementSize := 2;
      var bytesPerToken := Mul64(Mul64(Mul64(heads, dim), elementSize), 2);
      var totalBytes := Mul64(tokens, bytesPerToken);
      var ptr, st := sanitizer.AuditMalloc(true, totalBytes, REDZONE, grant);
      if st != Success {
        return st;
      }
      blocks := blocks[id := Block(id, tokens, heads, dim, ptr.value, totalBytes)];
      assert HeldBy(blocks) == HeldBy(old(blocks))[id as u64 := Holding(ptr.value, totalBytes)];
      return Success;
    }

    method ValidateTokenAccess(id: u32, t: u32) returns (valid: bool)
      ensures TableOk(sanitizer.trackedRegions) ==> (valid <==> TokenAccess(sanitizer.trackedRegions, blocks, id, t))
      ensures valid ==> TokenAccess(sanitizer.trackedRegions, blocks, id, t)
    {
      if id !in blocks {
        return false;
      }
      var meta := blocks[id];
      if t >= meta.tokens {
        return false;
      }
      var bytesPerToken := Mul64(Mul64(Mul64(meta.heads, meta.dim), 2), 2);
      var address := Add64(meta.ptr, Mul64(t, bytesPerToken));
      valid := sanitizer.CheckBounds(address, bytesPerToken);
    }

    method FreeKVBlock(id: u32, willing: bool) returns (status: Status)
      modifies this, sanitizer, sanitizer.driver
      ensures Taken(sanitizer.State(), HeldBy(blocks), status)
           == Release(old(sanitizer.State()), HeldBy(old(blocks)), id as u64, willing)
      ensures blocks == old(blocks) - {id}
    {
      if id !in blocks {
        assert blocks - {id} == blocks;
        return ErrCUDABoundaryViolation;
      }
      status := sanitizer.AuditFree(blocks[id].ptr, willing);
      blocks := blocks - {id};
      assert HeldBy(blocks) == HeldBy(old(blocks)) - {id as u64};
    }

    /** The blocks are freed in whatever order the hash map yields them. */
    method Reset(refused: set<u64>) returns (ghost order: seq<u64>)
      modifies this, sanitizer, sanitizer.driver
      ensures Lists(order, HeldBy(old(blocks)).Keys)
      ensures sanitizer.State() == ReleaseMany(old(sanitizer.State()), HeldBy(old(blocks)), order, refused).0
      ensures blocks == map[]
    {
      var todo := blocks.Keys;
      order := [];
      ghost var held := HeldBy(blocks);
      while todo != {}
        invariant blocks == old(blocks) && todo <= blocks.Keys
        invariant forall k :: k in order <==> k in held && k !in todo
        invariant forall i, j :: 0 <= i < j < |order| ==> order[i] != order[j]
        invariant sanitizer.State() == ReleaseMany(old(sanitizer.State()), held, order, refused).0
        decreases todo
      {
        var id :| id in todo;
        var p := blocks[id].ptr;
        var willing := p in sanitizer.trackedRegions ==> sanitizer.trackedRegions[p].RawBase() !in refused;
        var _ := sanitizer.AuditFree(p, willing);
        ghost var more := order + [id as u64];
        assert more[..|order|] == order;
        todo, order := todo - {id}, more;
      }
      blocks := map[];
    }
  }

  // ---- what the sizes and the token check mean ----------------------------------------

  lemma ModTimes(x: int, y: int)
    ensures (x % WORD) * y % WORD == x * y % WORD
  {
    var q, r := x / WORD, x % WORD;
    assert x * y == r * y + (q * y) * WORD by {
      assert x == q * WORD + r;
    }
    ModShift(r * y, q * y);
  }

  lemma ModShift(a: int, k: int)
    ensures (a + k * WORD) % WORD == a % WORD
  {
    var b := a + k * WORD;
    assert b - b % WORD == (b / WORD) * WORD && a - a % WORD == (a / WORD) * WORD;
    SameRest(b % WORD, a % WORD, k + a / WORD - b / WORD);
  }

  lemma SameRest(x: int, y: int, k: int)
    requires 0 <= x < WORD && 0 <= y < WORD && x - y == k * WORD
    ensures x == y
  {
  }

  /** For every shape the sizes are those of four bytes per element, modulo 2^64. */
  lemma SizesModulo(tokens: u32, heads: u64, dim: u64)
    ensures TokenBytes(heads, dim) == heads * dim * 4 % WORD
    ensures BlockBytes(tokens, heads, dim) == tokens * (heads * dim * 4) % WORD
  {
    ModTimes(heads * dim, 2);
    ModTimes(heads * dim * 2, 2);
    ModTimes(heads * dim * 4, tokens);
  }

  /** For every block, live or not, whose token stays inside the address space: the token is
      accessible exactly when the id is known, the index is below the block size and every byte of
      the token is addressable payload. */
  lemma TokenAccessIsShadow(table: map<u64, Region>, blocks: map<u32, Block>, id: u32, t: u32)
    requires TableOk(table) && forall k :: k in table ==> 0 < table[k].redzone
    requires id in blocks ==>
      var size := blocks[id].heads * blocks[id].dim * 4 % WORD;
      blocks[id].ptr + t * size + size < WORD
    ensures TokenAccess(table, blocks, id, t) <==>
      && id in blocks && t < blocks[id].tokens
      && var size := blocks[id].heads * blocks[id].dim * 4 % WORD;
         Shadow.Allows(Shadow.ShadowOf(table), blocks[id].ptr + t * size, size)
  {
    if id in blocks {
      hide CheckBounds, Shadow.ShadowOf, Shadow.Allows, TableOk, TokenBytes, BlockBytes;
      var b := blocks[id];
      SizesModulo(b.tokens, b.heads, b.dim);
      var size := TokenBytes(b.heads, b.dim);
      NotNegative(t, size);
      assert Mul64(t, size) == t * size;
      Shadow.CheckRefinesShadow(table, b.ptr + t * size, size);
    }
  }

  lemma NotNegative(t: nat, size: nat)
    ensures 0 <= t * size
  {
  }

  // ---- tiling -------------------------------------------------------------------------

  /** A recorded block behind its pointer in the table, addressable, with the product of its
      dimensions non-zero and inside 64 bits. */
  ghost predicate LiveBlock(t: map<u64, Region>, b: Block) {
    && b.ptr in t && t[b.ptr].size == b.bytes && !t[b.ptr].poisoned
    && b.bytes == BlockBytes(b.tokens, b.heads, b.dim)
    && 0 < b.tokens * TokenBytes(b.heads, b.dim) < WORD
  }

  /** No multiplication of the size computation wraps. */
  predicate ProductFits(tokens: u32, heads: u64, dim: u64) {
    0 < tokens && 0 < heads && 0 < dim && tokens * (heads * dim * 4) < WORD
  }

  lemma ProductIsExact(tokens: u32, heads: u64, dim: u64)
    requires ProductFits(tokens, heads, dim)
    ensures TokenBytes(heads, dim) == heads * dim * 4
    ensures BlockBytes(tokens, heads, dim) == tokens * (heads * dim * 4)
    ensures 0 < tokens * TokenBytes(heads, dim) < WORD && 0 < BlockBytes(tokens, heads, dim)
  {
    var n := heads * dim;
    FactorBelow(dim, heads);
    FactorBelow(n * 4, tokens);
    assert Mul64(heads, dim) == n;
    assert Mul64(n, 2) == n * 2;
    assert Mul64(n * 2, 2) == n * 4;
  }

  lemma TokenFits(tokens: int, t: int, size: int)
    requires 0 <= t < tokens && 0 < size
    ensures 0 <= t * size && t * size + size <= tokens * size
  {
    assert (t + 1) * size <= tokens * size;
  }

  lemma LiveSize(table: map<u64, Region>, b: Block)
    requires LiveBlock(table, b)
    ensures 0 < TokenBytes(b.heads, b.dim) && b.bytes == b.tokens * TokenBytes(b.heads, b.dim)
  {
    hide TokenBytes;
    assert b.tokens * 0 == 0;
    MulExact(b.tokens, TokenBytes(b.heads, b.dim));
  }

  /** For a live block, a token is accessible exactly when its index is below the block size. */
  lemma TokensExactly(table: map<u64, Region>, blocks: map<u32, Block>, id: u32, t: u32)
    requires TableOk(table) && id in blocks && LiveBlock(table, blocks[id])
    ensures TokenAccess(table, blocks, id, t) <==> t < blocks[id].tokens
  {
    hide TokenBytes, BlockBytes, Mul64, CheckBounds;
    var b := blocks[id];
    var size := TokenBytes(b.heads, b.dim);
    if t < b.tokens {
      assert table[b.ptr].Fits();
      LiveSize(table, b);
      TokenFits(b.tokens, t, size);
      MulExact(t, size);
      TokenAccepted(table, b, t * size, size);
    }
  }

  lemma TokenAccepted(table: map<u64, Region>, b: Block, offset: u64, size: u64)
    requires TableOk(table) && b.ptr in table && table[b.ptr].size == b.bytes && !table[b.ptr].poisoned
    requires 0 < size && offset + size <= b.bytes
    ensures CheckBounds(table, Add64(b.ptr, offset), size)
  {
    assert table[b.ptr].Fits();
    assert Accepts(table[b.ptr], Add64(b.ptr, offset), size);
  }

  ghost predicate InToken(b: Block, t: int, a: int) {
    var size := TokenBytes(b.heads, b.dim);
    0 <= t < b.tokens && b.ptr + t * size <= a < b.ptr + t * size + size
  }

  lemma InTokenIsInside(table: map<u64, Region>, b: Block, t: int, a: int)
    requires TableOk(table) && LiveBlock(table, b) && InToken(b, t, a)
    ensures table[b.ptr].HasByte(a) && t == (a - b.ptr) / TokenBytes(b.heads, b.dim)
  {
    assert table[b.ptr].address == b.ptr;
    hide TokenBytes, BlockBytes, Mul64, TableOk;
    var size := TokenBytes(b.heads, b.dim);
    LiveSize(table, b);
    TokenFits(b.tokens, t, size);
    Quotient(a - b.ptr, t, size);
  }

  /** The tokens of a block cover its payload exactly and do not overlap. */
  lemma TokensTile(table: map<u64, Region>, b: Block, a: int)
    requires TableOk(table) && LiveBlock(table, b)
    ensures table[b.ptr].HasByte(a) <==> exists t :: InToken(b, t, a)
    ensures forall t, u :: InToken(b, t, a) && InToken(b, u, a) ==> t == u
  {
    assert table[b.ptr].address == b.ptr;
    hide TokenBytes, BlockBytes, Mul64, TableOk;
    if table[b.ptr].HasByte(a) {
      var size := TokenBytes(b.heads, b.dim);
      LiveSize(table, b);
      var t := WholePart(a - b.ptr, size);
      Below(t, b.tokens, size, a - b.ptr);
      assert InToken(b, t, a);
    }
    forall t | InToken(b, t, a) ensures table[b.ptr].HasByte(a) && t == (a - b.ptr) / TokenBytes(b.heads, b.dim) {
      InTokenIsInside(table, b, t, a);
    }
  }

  lemma WholePart(off: nat, size: nat) returns (t: nat)
    requires 0 < size
    ensures t * size <= off < t * size + size
  {
    t := off / size;
  }

  lemma Below(t: int, n: int, size: int, off: int)
    requires 0 < size && t * size <= off < n * size
    ensures t < n
  {
    assert n <= t ==> n * size <= t * size;
  }

  lemma Quotient(off: int, t: int, size: int)
    requires 0 < size && t * size <= off < t * size + size
    ensures off / size == t
  {
    var q := off / size;
    assert q * size <= off < q * size + size;
    Below(q, t + 1, size, off);
    Below(t, q + 1, size, off);
  }

  /** Token ranges of blocks behind different pointers never meet. */
  lemma BlocksApart(table: map<u64, Region>, b: Block, c: Block, t: int, u: int, a: int)
    requires TableOk(table) && LiveBlock(table, b) && LiveBlock(table, c) && b.ptr != c.ptr
    ensures !(InToken(b, t, a) && InToken(c, u, a))
  {
    hide InToken;
    TokensTile(table, b, a);
    TokensTile(table, c, a);
    assert table[b.ptr].ApartFrom(table[c.ptr]) && table[b.ptr].Fits() && table[c.ptr].Fits();
  }

  // ---- what the coupling gives, and where the product wraps ---------------------------

  /** The blocks an adapter recorded carry the size it computed for them. */
  ghost predicate Recorded(blocks: map<u32, Block>) {
    forall k :: k in blocks ==> blocks[k].bytes == BlockBytes(blocks[k].tokens, blocks[k].heads, blocks[k].dim)
  }

  /** Under the coupling every recorded block whose product fits is live unless poisoned, and
      two ids never share a pointer. */
  lemma CoupledBlocksAreLive(d: Device, blocks: map<u32, Block>, id: u32)
    requires Coupled<u64>(d, HeldBy(blocks)) && Recorded(blocks) && id in blocks
    requires ProductFits(blocks[id].tokens, blocks[id].heads, blocks[id].dim)
    ensures blocks[id].ptr in d.table
    ensures !d.table[blocks[id].ptr].poisoned ==> LiveBlock(d.table, blocks[id])
    ensures forall j :: j in blocks && j != id ==> blocks[j].ptr != blocks[id].ptr
  {
    hide Inv, TokenBytes, BlockBytes, ProductFits;
    var held := HeldBy(blocks);
    ProductIsExact(blocks[id].tokens, blocks[id].heads, blocks[id].dim);
    assert held[id as u64] == Holding(blocks[id].ptr, blocks[id].bytes);
    assert 0 < held[id as u64].bytes && held[id as u64].ptr != 0;
    forall j | j in blocks && j != id ensures blocks[j].ptr != blocks[id].ptr {
      assert held[j as u64] == Holding(blocks[j].ptr, blocks[j].bytes);
      NotShared<u64>(d, held, j as u64, id as u64);
    }
  }

  /** A per-token size that wraps to zero makes every token of the block inaccessible. */
  lemma ZeroTokensAreRefused(table: map<u64, Region>, blocks: map<u32, Block>, id: u32, t: u32)
    requires id in blocks && TokenBytes(blocks[id].heads, blocks[id].dim) == 0
    ensures !TokenAccess(table, blocks, id, t)
  {
  }

  lemma ZeroTokensExist()
    ensures TokenBytes(0x4000_0000_0000_0000, 1) == 0 && BlockBytes(16, 0x4000_0000_0000_0000, 1) == 0
  {
  }

  /** A tracked, addressable block behind redzones, of the size the adapter computed, with a
      non-zero token size. */
  ghost predicate TrackedBlock(table: map<u64, Region>, b: Block) {
    && b.ptr in table && table[b.ptr].size == b.bytes && !table[b.ptr].poisoned && 0 < table[b.ptr].redzone
    && b.bytes == BlockBytes(b.tokens, b.heads, b.dim)
    && 0 < b.tokens && 0 < TokenBytes(b.heads, b.dim)
  }

  /** The token at the end of the payload starts inside it and leaves the address space. */
  predicate CrossesTheTop(b: Block)
    requires 0 < TokenBytes(b.heads, b.dim)
  {
    var size := TokenBytes(b.heads, b.dim);
    b.bytes % size != 0 && WORD <= b.ptr + b.bytes - b.bytes % size + size
  }

  lemma CutOff(off: nat, size: nat) returns (q: nat)
    requires 0 < size
    ensures q * size == off - off % size && q * size <= off < q * size + size
  {
    q := off / size;
  }

  /** An access that starts at or before the end of a payload and reaches behind it is granted
      exactly when it starts before the end and its own end wraps. */
  lemma PastTheEnd(table: map<u64, Region>, b: Block, offset: u64, size: u64)
    requires TableOk(table) && b.ptr in table && table[b.ptr].size == b.bytes
    requires !table[b.ptr].poisoned && 0 < table[b.ptr].redzone
    requires offset <= b.bytes < offset + size
    ensures CheckBounds(table, Add64(b.ptr, offset), size) <==> offset < b.bytes && WORD <= b.ptr + offset + size
  {
    var r := table[b.ptr];
    var p := Add64(b.ptr, offset);
    assert r.Fits();
    if offset < b.bytes && WORD <= b.ptr + offset + size {
      assert Accepts(r, p, size);
    }
    forall k | k in table && Accepts(table[k], p, size) ensures offset < b.bytes && WORD <= p + size {
      assert table[k].Fits();
      assert k != b.ptr ==> table[k].ApartFrom(r);
    }
  }

  /** When the block size wrapped there is a token at the end of the payload, and it is refused
      exactly when it does not cross the top of the address space. */
  lemma LostTokenExactly(table: map<u64, Region>, blocks: map<u32, Block>, id: u32) returns (t: u32)
    requires TableOk(table) && id in blocks && TrackedBlock(table, blocks[id])
    requires WORD <= blocks[id].tokens * TokenBytes(blocks[id].heads, blocks[id].dim)
    ensures var b := blocks[id];
      var size := TokenBytes(b.heads, b.dim);
      && t < b.tokens && t * size <= b.bytes < t * size + size
      && (TokenAccess(table, blocks, id, t) <==> CrossesTheTop(b))
  {
    hide CheckBounds, TableOk, TokenBytes;
    var b := blocks[id];
    var size := TokenBytes(b.heads, b.dim);
    var q := CutOff(b.bytes, size);
    Below(q, b.tokens, size, b.bytes);
    t := q;
    PastTheEnd(table, b, t * size, size);
    assert Mul64(t, size) == t * size;
  }

  /** All tokens of such a block are accessible when its size did not wrap and, unless a token
      crosses the top of the address space, only then. */
  lemma AllTokensExactlyWhenFits(table: map<u64, Region>, blocks: map<u32, Block>, id: u32)
    requires TableOk(table) && id in blocks && TrackedBlock(table, blocks[id])
    ensures blocks[id].tokens * TokenBytes(blocks[id].heads, blocks[id].dim) < WORD ==>
      forall t: u32 :: t < blocks[id].tokens ==> TokenAccess(table, blocks, id, t)
    ensures WORD <= blocks[id].tokens * TokenBytes(blocks[id].heads, blocks[id].dim) && !CrossesTheTop(blocks[id]) ==>
      exists t: u32 :: t < blocks[id].tokens && !TokenAccess(table, blocks, id, t)
  {
    var b := blocks[id];
    var size := TokenBytes(b.heads, b.dim);
    hide TokenBytes, CheckBounds;
    if b.tokens * size < WORD {
      FactorBelow(size, b.tokens);
      assert LiveBlock(table, b);
      forall t: u32 | t < b.tokens ensures TokenAccess(table, blocks, id, t) {
        TokensExactly(table, blocks, id, t);
      }
    } else if !CrossesTheTop(b) {
      var t := LostTokenExactly(table, blocks, id);
    }
  }

  /** One that crosses it: three tokens of two thirds of the address space each, computed to need
      2^64 - 8192 bytes, all three accessible. */
  lemma TokensAroundTheTop()
    ensures var size: u64 := 0xAAAA_AAAA_AAAA_A000;
      var b := Block(1, 3, 0x2AAA_AAAA_AAAA_A800, 1, 4096, 0xFFFF_FFFF_FFFF_E000);
      var table := map[4096 := Region(4096, b.bytes, REDZONE, false)];
      && TokenBytes(b.heads, b.dim) == size && WORD <= b.tokens * size
      && TableOk(table) && TrackedBlock(table, b) && CrossesTheTop(b)
      && forall t: u32 :: t < 3 ==> TokenAccess(table, map[1 := b], 1, t)
  {
    var size: u64 := 0xAAAA_AAAA_AAAA_A000;
    var b := Block(1, 3, 0x2AAA_AAAA_AAAA_A800, 1, 4096, 0xFFFF_FFFF_FFFF_E000);
    var table: map<u64, Region> := map[4096 := Region(4096, b.bytes, REDZONE, false)];
    assert TokenBytes(b.heads, b.dim) == size;
    assert Mul64(0, size) == 0 && Mul64(1, size) == size && Mul64(2, size) == 0x5555_5555_5555_4000;
    forall t: u32 | t < 3 ensures TokenAccess(table, map[1 := b], 1, t) {
      assert t == 0 || t == 1 || t == 2;
      assert Accepts(table[4096], TokenAddress(b, t), size);
    }
  }
}
