/**
 Base-128 varints (Protocol Buffers Encoding, section "Base 128 Varints") as the reader
 computes them: shifts and ORs in a 64-bit word, at most ten bytes.
 */
module Varint {
  import opened Machine

  // ---- machine operations -------------------------------------------------------------

  function Pow2(k: nat): (r: nat)
    ensures 0 < r
  {
    if k == 0 then 1 else 2 * Pow2(k - 1)
  }

  /** Bitwise or, bit by bit from the lowest. */
  function Or(a: nat, b: nat): nat
    decreases a + b
  {
    if a == 0 && b == 0 then 0
    else (if a % 2 == 1 || b % 2 == 1 then 1 else 0) + 2 * Or(a / 2, b / 2)
  }

  /** v << k in a 64-bit word. */
  function Shl64(v: nat, k: nat): u64 {
    (v * Pow2(k)) % WORD
  }

  // ---- varints ------------------------------------------------------------------------

  /** A complete varint: the last byte ends it, all others announce another. */
  predicate IsVarint(bs: seq<byte>) {
    && 1 <= |bs| <= 10
    && bs[|bs| - 1] < 128
    && forall i :: 0 <= i < |bs| - 1 ==> 128 <= bs[i]
  }

  /** The unreduced sum of the seven-bit groups, least significant first. */
  function VarSum(bs: seq<byte>): nat {
    if bs == [] then 0 else bs[0] % 128 + 128 * VarSum(bs[1..])
  }

  /** What a varint means in a 64-bit word. */
  function VarValue(bs: seq<byte>): u64 {
    VarSum(bs) % WORD
  }

  /** The shortest encoding of x. */
  function EncVarint(x: nat): seq<byte> {
    if x < 128 then [x] else [x % 128 + 128] + EncVarint(x / 128)
  }

  datatype VarintRead = Varint(bytes: seq<byte>, rest: seq<byte>) | Unreadable(rest: seq<byte>)

  /** Leading bytes that announce another one, at most cap. */
  function Announcing(s: seq<byte>, cap: nat): (n: nat)
    ensures n <= cap && n <= |s|
    ensures forall i :: 0 <= i < n ==> 128 <= s[i]
    ensures n < cap && n < |s| ==> s[n] < 128
  {
    if cap == 0 || s == [] || s[0] < 128 then 0 else 1 + Announcing(s[1..], cap - 1)
  }

  /** The bytes the reader takes from the front of s, and those it leaves. */
  function ReadVarint(s: seq<byte>): VarintRead {
    var n := Announcing(s, 10);
    if n < 10 && n < |s| then Varint(s[..n + 1], s[n + 1..]) else Unreadable(s[n..])
  }

  // ---- reading ------------------------------------------------------------------------

  /** A varint is read exactly, whatever follows it. */
  lemma ReadExact(bs: seq<byte>, rest: seq<byte>)
    requires IsVarint(bs)
    ensures ReadVarint(bs + rest) == Varint(bs, rest)
  {
    var s := bs + rest;
    var n := Announcing(s, 10);
    var last := |bs| - 1;
    assert s[last] == bs[last];
    assert forall i :: 0 <= i < last ==> s[i] == bs[i];
    assert n == last;
    assert s[..n + 1] == bs && s[n + 1..] == rest;
  }

  lemma ReadSound(s: seq<byte>)
    ensures ReadVarint(s).Varint? ==> IsVarint(ReadVarint(s).bytes) && s == ReadVarint(s).bytes + ReadVarint(s).rest
    ensures ReadVarint(s).Varint? <==> exists n :: 0 <= n <= |s| && IsVarint(s[..n])
  {
    var v := ReadVarint(s);
    if v.Varint? {
      assert s == v.bytes + v.rest;
      assert s[..|v.bytes|] == v.bytes;
    }
    if n :| 0 <= n <= |s| && IsVarint(s[..n]) {
      ReadExact(s[..n], s[n..]);
      assert s == s[..n] + s[n..];
    }
  }

  /** A failed read takes every byte it looked at: ten, or all that were left. */
  lemma FailedRead(s: seq<byte>)
    requires ReadVarint(s).Unreadable?
    ensures |ReadVarint(s).rest| == if |s| < 10 then 0 else |s| - 10
  {
  }

  // ---- values -------------------------------------------------------------------------

  lemma {:induction false} EncIsVarint(x: nat, room: nat)
    requires x < Pow2(7 * room) && 1 <= room <= 10
    ensures IsVarint(EncVarint(x)) && |EncVarint(x)| <= room
    decreases room
  {
    if 128 <= x {
      Seven(room - 1);
      if room == 1 {
        assert Pow2(0) == 1;
      } else {
        EncIsVarint(x / 128, room - 1);
        var tail := EncVarint(x / 128);
        var bs := EncVarint(x);
        assert bs[|bs| - 1] == tail[|tail| - 1];
        forall i | 0 <= i < |bs| - 1 ensures 128 <= bs[i] {
          assert i > 0 ==> bs[i] == tail[i - 1];
        }
      }
    }
  }

  lemma Seven(k: nat)
    ensures Pow2(7 * (k + 1)) == 128 * Pow2(7 * k)
  {
    var n := 7 * k;
    assert Pow2(n + 1) == 2 * Pow2(n);
    assert Pow2(n + 2) == 2 * Pow2(n + 1);
    assert Pow2(n + 3) == 2 * Pow2(n + 2);
    assert Pow2(n + 4) == 2 * Pow2(n + 3);
    assert Pow2(n + 5) == 2 * Pow2(n + 4);
    assert Pow2(n + 6) == 2 * Pow2(n + 5);
    assert Pow2(n + 7) == 2 * Pow2(n + 6);
  }

  lemma {:induction false} SumOfEnc(x: nat)
    ensures VarSum(EncVarint(x)) == x
  {
    if 128 <= x {
      SumOfEnc(x / 128);
      assert EncVarint(x)[1..] == EncVarint(x / 128);
    } else {
      assert EncVarint(x)[1..] == [];
    }
  }

  lemma Double(p: int, x: int, y: int)
    requires p == x * y
    ensures 2 * p == (2 * x) * y
  {
  }

  lemma {:induction false} Pow2Add(a: nat, b: nat)
    ensures Pow2(a + b) == Pow2(a) * Pow2(b)
  {
    if a > 0 {
      Pow2Add(a - 1, b);
      assert Pow2(a + b) == 2 * Pow2(a - 1 + b) && Pow2(a) == 2 * Pow2(a - 1);
      Double(Pow2(a - 1 + b), Pow2(a - 1), Pow2(b));
    }
  }

  lemma WordIsPow2()
    ensures Pow2(64) == WORD && Pow2(63) == 0x8000_0000_0000_0000
  {
    assert Pow2(0) == 1 && Pow2(7 * 0) == 1;
    Seven(0);
    Seven(1);
    Seven(2);
    Seven(3);
    Seven(4);
    Seven(5);
    Seven(6);
    Seven(7);
    Seven(8);
    assert Pow2(63) == 0x8000_0000_0000_0000;
    assert Pow2(64) == 2 * Pow2(63);
  }

  /** Every 64-bit value survives the shortest encoding and the reader, with any bytes behind. */
  lemma RoundTrip(x: u64, rest: seq<byte>)
    ensures IsVarint(EncVarint(x))
    ensures ReadVarint(EncVarint(x) + rest) == Varint(EncVarint(x), rest)
    ensures VarValue(EncVarint(x)) == x
  {
    WordIsPow2();
    Pow2Add(64, 6);
    assert Pow2(70) == WORD * Pow2(6);
    EncIsVarint(x, 10);
    ReadExact(EncVarint(x), rest);
    SumOfEnc(x);
  }

  /** No varint is shorter than the shortest encoding of its sum. */
  lemma {:induction false} ShortestIsShortest(bs: seq<byte>)
    requires bs != [] && bs[|bs| - 1] < 128
    ensures |EncVarint(VarSum(bs))| <= |bs|
  {
    var x := VarSum(bs);
    if |bs| == 1 {
      assert bs[1..] == [] && x < 128;
    } else {
      ShortestIsShortest(bs[1..]);
      assert x / 128 == VarSum(bs[1..]);
    }
  }

  /** Two varints at the front of one buffer are the same varint. */
  lemma PrefixFree(a: seq<byte>, b: seq<byte>, p: seq<byte>, q: seq<byte>)
    requires IsVarint(a) && IsVarint(b) && a + p == b + q
    ensures a == b && p == q
  {
    ReadExact(a, p);
    ReadExact(b, q);
  }

  // ---- the OR of shifts is the sum ----------------------------------------------------

  lemma {:induction false} OrZero(b: nat)
    ensures Or(0, b) == b
    decreases b
  {
    if b > 0 {
      OrZero(b / 2);
    }
  }

  /** OR with bits above k adds them. */
  lemma {:induction false} OrAdds(a: nat, b: nat, k: nat)
    requires a < Pow2(k)
    ensures Or(a, b * Pow2(k)) == a + b * Pow2(k)
    decreases k
  {
    if k == 0 {
      OrZero(b);
    } else {
      var half := b * Pow2(k - 1);
      assert b * Pow2(k) == 2 * half;
      OrAdds(a / 2, b, k - 1);
      assert (2 * half) / 2 == half && (2 * half) % 2 == 0;
    }
  }

  lemma ModUnique(x: nat, q: nat, r: nat)
    requires x == q * WORD + r && r < WORD
    ensures x % WORD == r
  {
  }

  lemma Expand(q: nat, m: nat, r: nat, p: nat)
    ensures (q * m + r) * p == q * (m * p) + r * p
  {
  }

  lemma Scale(r: nat, m: nat, p: nat)
    requires r < m
    ensures r * p + p <= m * p
  {
    assert (r + 1) * p <= m * p;
  }

  lemma ShiftWraps(v: nat, k: nat)
    requires k <= 64
    ensures Shl64(v, k) == (v % Pow2(64 - k)) * Pow2(k)
    ensures Shl64(v, k) + Pow2(k) <= WORD
  {
    hide Pow2;
    WordIsPow2();
    Pow2Add(64 - k, k);
    var m, p := Pow2(64 - k), Pow2(k);
    var q, r := v / m, v % m;
    assert v == q * m + r;
    Expand(q, m, r, p);
    Scale(r, m, p);
    ModUnique(v * p, q, r * p);
  }

  lemma ModSum(r: nat, x: nat)
    requires r + x % WORD < WORD
    ensures (r + x) % WORD == r + x % WORD
  {
    ModUnique(r + x, x / WORD, r + x % WORD);
  }

  /** One round of the loop: OR-ing in seven shifted bits adds them modulo 2^64. */
  lemma ShiftOr(result: nat, v: nat, k: nat)
    requires k < 64 && result < Pow2(k)
    ensures Or(result, Shl64(v, k)) == (result + v * Pow2(k)) % WORD
  {
    hide Pow2, Or;
    ShiftWraps(v, k);
    OrAdds(result, v % Pow2(64 - k), k);
    ModSum(result, v * Pow2(k));
  }

  lemma {:induction false} VarSumSnoc(bs: seq<byte>, b: byte)
    ensures VarSum(bs + [b]) == VarSum(bs) + (b % 128) * Pow2(7 * |bs|)
  {
    if bs == [] {
      assert [b][1..] == [] && bs + [b] == [b] && Pow2(7 * 0) == 1;
    } else {
      var p := Pow2(7 * |bs[1..]|);
      VarSumSnoc(bs[1..], b);
      Seven(|bs| - 1);
      assert (bs + [b])[1..] == bs[1..] + [b];
      assert 128 * ((b % 128) * p) == (b % 128) * (128 * p);
    }
  }

  lemma {:induction false} VarSumBound(bs: seq<byte>)
    ensures VarSum(bs) < Pow2(7 * |bs|)
  {
    if bs == [] {
      assert Pow2(7 * 0) == 1;
    } else {
      VarSumBound(bs[1..]);
      Seven(|bs| - 1);
    }
  }
}
