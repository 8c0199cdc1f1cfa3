/** The FNV-1 hash (hash.c) and the three bucket functions built on it. */
module Hash {
  import opened Common

  /** Number of chains in every table (hash.h). */
  const BUCKETS: nat := 512

  type u64 = x: int | 0 <= x < 0x1_0000_0000_0000_0000

  const FNV_OFFSET_BASIS: u64 := 0xcbf29ce484222325
  const FNV_PRIME: u64 := 0x100000001b3

  /** Exclusive-or of two bytes. */
  function Xor8(a: byte, b: byte): byte
  {
    ((a as bv8) ^ (b as bv8)) as int
  }

  /** `h ^ b` for a 64-bit `h` and a byte `b`: only the low byte changes. */
  function XorLow(h: u64, b: byte): u64
  {
    h - h % 0x100 + Xor8(h % 0x100, b)
  }

  /** One FNV-1 round: multiply modulo 2^64, then exclusive-or the byte. */
  function Round(h: u64, b: byte): u64
  {
    XorLow(h * FNV_PRIME % 0x1_0000_0000_0000_0000, b)
  }

  /** 64-bit FNV-1 of a byte string, defined on its last byte. */
  function Fnv(data: seq<byte>): (h: u64)
    ensures data == [] ==> h == FNV_OFFSET_BASIS
  {
    if data == [] then FNV_OFFSET_BASIS
    else Round(Fnv(data[..|data| - 1]), data[|data| - 1])
  }

  /** An independent reference definition: the left fold that starts from
      `h` and consumes the bytes front to back. */
  function FnvFrom(h: u64, data: seq<byte>): u64
    decreases |data|
  {
    if data == [] then h else FnvFrom(Round(h, data[0]), data[1..])
  }

  /** FNV-1 is the left fold of Round from the offset basis. */
  lemma {:induction false} FnvIsFold(data: seq<byte>)
    ensures Fnv(data) == FnvFrom(FNV_OFFSET_BASIS, data)
  {
    if data != [] {
      FnvIsFold(data[..|data| - 1]);
      FnvFromSnoc(FNV_OFFSET_BASIS, data);
    }
  }

  /** Consuming one more byte at the end is one more Round. */
  lemma {:induction false} FnvFromSnoc(h: u64, data: seq<byte>)
    requires data != []
    ensures FnvFrom(h, data) == Round(FnvFrom(h, data[..|data| - 1]), data[|data| - 1])
    decreases |data|
  {
    if |data| > 1 {
      var t := data[1..];
      FnvFromSnoc(Round(h, data[0]), t);
      assert t[..|t| - 1] == data[..|data| - 1][1..];
      assert t[|t| - 1] == data[|data| - 1];
    }
  }

  /** hash.c `fnvhash`: the loop over the bytes accumulating `h`. */
  method FnvHash(data: seq<byte>) returns (h: u64)
    ensures h == Fnv(data)
    ensures h == FnvFrom(FNV_OFFSET_BASIS, data)
  {
    h := FNV_OFFSET_BASIS;
    var i := 0;
    while i < |data|
      invariant 0 <= i <= |data|
      invariant h == Fnv(data[..i])
    {
      assert data[..i + 1][..i] == data[..i];
      h := Round(h, data[i]);
      i := i + 1;
    }
    assert data[..i] == data;
    FnvIsFold(data);
  }

  /** `% BUCKETS` of the unsigned 64-bit hash. */
  function Bucket(h: u64): (r: int)
    ensures 0 <= r < BUCKETS
  {
    h % 512
  }

  /** `shash(target)`: FNV-1 of the bytes before the NUL. */
  function SHash(target: seq<byte>): (r: int)
    ensures 0 <= r < BUCKETS
  {
    Bucket(Fnv(CStr(target)))
  }

  /** The bytes `dhash` hashes: the 4 in-memory bytes of src, then 2 of qid. */
  function DKey(src: u32, qid: u16): (r: seq<byte>)
    ensures |r| == 6
  {
    Le(src, 4) + Le(qid, 2)
  }

  /** The bytes `bhash` hashes: the 4 in-memory bytes of src, then 4 of dst. */
  function BKey(src: u32, dst: u32): (r: seq<byte>)
    ensures |r| == 8
  {
    Le(src, 4) + Le(dst, 4)
  }

  function DHash(src: u32, qid: u16): (r: int)
    ensures 0 <= r < BUCKETS
  {
    Bucket(Fnv(DKey(src, qid)))
  }

  function BHash(src: u32, dst: u32): (r: int)
    ensures 0 <= r < BUCKETS
  {
    Bucket(Fnv(BKey(src, dst)))
  }

  /** A string and any buffer holding it before a NUL land in the same
      bucket: shash depends only on bytes before the terminator. */
  lemma SHashStopsAtNul(s: CString, tail: seq<byte>)
    ensures SHash(s + [0] + tail) == SHash(s)
  {
    CStrOfCString(s, tail);
  }

  /** The serialisations are injective, so the bucket is a function of the
      key itself and distinct keys are told apart only by chain comparison. */
  lemma DKeyInjective(src1: u32, qid1: u16, src2: u32, qid2: u16)
    requires DKey(src1, qid1) == DKey(src2, qid2)
    ensures src1 == src2 && qid1 == qid2
  {
    var k1, k2 := DKey(src1, qid1), DKey(src2, qid2);
    assert k1[..4] == Le(src1, 4) && k2[..4] == Le(src2, 4);
    assert k1[4..] == Le(qid1, 2) && k2[4..] == Le(qid2, 2);
    UnLeLe(src1, 4); UnLeLe(src2, 4);
    UnLeLe(qid1, 2); UnLeLe(qid2, 2);
  }

  lemma BKeyInjective(src1: u32, dst1: u32, src2: u32, dst2: u32)
    requires BKey(src1, dst1) == BKey(src2, dst2)
    ensures src1 == src2 && dst1 == dst2
  {
    var k1, k2 := BKey(src1, dst1), BKey(src2, dst2);
    assert k1[..4] == Le(src1, 4) && k2[..4] == Le(src2, 4);
    assert k1[4..] == Le(dst1, 4) && k2[4..] == Le(dst2, 4);
    UnLeLe(src1, 4); UnLeLe(src2, 4);
    UnLeLe(dst1, 4); UnLeLe(dst2, 4);
  }
}
