/** Fixed-width little-endian integers, as memcpy reads them on a little-endian host. */
module LittleEndian {
  import opened Machine

  function Pow256(n: nat): (r: nat)
    ensures 0 < r
  {
    if n == 0 then 1 else 256 * Pow256(n - 1)
  }

  /** The low n bytes of x. */
  function Enc(n: nat, x: nat): (bs: seq<byte>)
    ensures |bs| == n
  {
    if n == 0 then [] else [x % 256] + Enc(n - 1, x / 256)
  }

  function Dec(bs: seq<byte>): (x: nat)
    ensures x < Pow256(|bs|)
  {
    if bs == [] then 0 else bs[0] + 256 * Dec(bs[1..])
  }

  lemma {:induction false} DecEnc(n: nat, x: nat)
    requires x < Pow256(n)
    ensures Dec(Enc(n, x)) == x
  {
    if n > 0 {
      DecEnc(n - 1, x / 256);
      assert Enc(n, x)[1..] == Enc(n - 1, x / 256);
    }
  }

  lemma {:induction false} EncDec(bs: seq<byte>)
    ensures Enc(|bs|, Dec(bs)) == bs
  {
    if bs != [] {
      EncDec(bs[1..]);
      assert (bs[0] + 256 * Dec(bs[1..])) / 256 == Dec(bs[1..]);
    }
  }

  lemma DecStep(bs: seq<byte>)
    requires bs != []
    ensures Dec(bs) == bs[0] + 256 * Dec(bs[1..])
  {
  }

  lemma DecPair(bs: seq<byte>)
    requires 2 <= |bs|
    ensures Dec(bs) == bs[0] + 0x100 * bs[1] + 0x1_0000 * Dec(bs[2..])
  {
    hide Dec;
    DecStep(bs);
    DecStep(bs[1..]);
    assert bs[1..][1..] == bs[2..];
  }

  /** The first byte is the lowest: the weights of the bytes of each width the formats use. */
  lemma Weights(bs: seq<byte>)
    ensures |bs| == 1 ==> Dec(bs) == bs[0]
    ensures |bs| == 2 ==> Dec(bs) == bs[0] as int + 0x100 * bs[1] as int
    ensures |bs| == 4 ==>
      Dec(bs) == bs[0] as int + 0x100 * bs[1] as int + 0x1_0000 * bs[2] as int + 0x100_0000 * bs[3] as int
    ensures |bs| == 8 ==>
      Dec(bs) == bs[0] as int + 0x100 * bs[1] as int + 0x1_0000 * bs[2] as int + 0x100_0000 * bs[3] as int
        + 0x1_0000_0000 * bs[4] as int + 0x100_0000_0000 * bs[5] as int
        + 0x1_0000_0000_0000 * bs[6] as int + 0x100_0000_0000_0000 * bs[7] as int
  {
    NoBytes();
    hide Dec;
    if |bs| == 1 {
      DecStep(bs);
      assert bs[1..] == [];
    }
    if 2 <= |bs| {
      DecPair(bs);
    }
    if |bs| == 2 {
      assert bs[2..] == [];
    }
    if 4 <= |bs| {
      DecPair(bs[2..]);
      assert bs[2..][2..] == bs[4..];
    }
    if |bs| == 4 {
      assert bs[4..] == [];
    }
    if |bs| == 8 {
      DecPair(bs[4..]);
      DecPair(bs[4..][2..]);
      assert bs[4..][2..][2..] == [];
      assert bs[4..][2..] == bs[6..];
    }
  }

  lemma NoBytes()
    ensures Dec([]) == 0
  {
  }

  lemma Widths()
    ensures Pow256(1) == 0x100 && Pow256(2) == 0x1_0000
    ensures Pow256(4) == 0x1_0000_0000 && Pow256(8) == WORD
  {
    assert Pow256(1) == 0x100;
    assert Pow256(2) == 256 * Pow256(1);
    assert Pow256(3) == 256 * Pow256(2);
    assert Pow256(4) == 256 * Pow256(3);
    assert Pow256(5) == 256 * Pow256(4);
    assert Pow256(6) == 256 * Pow256(5);
    assert Pow256(7) == 256 * Pow256(6);
    assert Pow256(8) == 256 * Pow256(7);
  }
}
