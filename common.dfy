/** Fixed-width integers, big- and little-endian byte fields and C strings,
    shared by every other module of the model. */
module Common {

  datatype Option<T> = None | Some(value: T)

  type byte = x: int | 0 <= x < 0x100
  type u16 = x: int | 0 <= x < 0x1_0000
  type u32 = x: int | 0 <= x < 0x1_0000_0000

  /** A C string as strlen, strcmp and strstr see it: the bytes before the NUL. */
  type CString = s: seq<byte> | 0 !in s

  /** Size of every name buffer of the program (`char name[256]`). */
  const NAME_SIZE: nat := 256

  /** `a - b` on uint16_t: wraps modulo 2^16 (`--nc` with nc == 0 gives 65535). */
  function Sub16(a: u16, b: u16): (r: u16)
    ensures a >= b ==> r == a - b
    ensures a < b ==> r == a - b + 0x1_0000
  {
    (a - b) % 0x1_0000
  }

  /** `a - b` on uint32_t: wraps modulo 2^32 (ages and clock differences). */
  function Sub32(a: u32, b: u32): (r: u32)
    ensures a >= b ==> r == a - b
    ensures a < b ==> r == a - b + 0x1_0000_0000
  {
    (a - b) % 0x1_0000_0000
  }

  /** Conversion of an arbitrary integer to a 32-bit two's-complement `int`. */
  function ToInt32(x: int): (r: int)
    ensures -0x8000_0000 <= r < 0x8000_0000
    ensures (r - x) % 0x1_0000_0000 == 0
  {
    var m := x % 0x1_0000_0000;
    if m >= 0x8000_0000 then m - 0x1_0000_0000 else m
  }

  /** True when `n` bytes starting at `off` lie inside `data`. */
  predicate InBounds(data: seq<byte>, off: int, n: nat)
  {
    0 <= off && off + n <= |data|
  }

  /** `ntohs` of the two bytes at `off`. */
  function Be16(data: seq<byte>, off: int): u16
    requires InBounds(data, off, 2)
  {
    data[off] as int * 0x100 + data[off + 1] as int
  }

  /** `ntohl` of the four bytes at `off`. */
  function Be32(data: seq<byte>, off: int): u32
    requires InBounds(data, off, 4)
  {
    Be16(data, off) * 0x1_0000 + Be16(data, off + 2)
  }

  /** Network byte order encodings, the partners of Be16 and Be32. */
  function Enc16(x: u16): (r: seq<byte>)
    ensures |r| == 2
  {
    [x / 0x100, x % 0x100]
  }

  function Enc32(x: u32): (r: seq<byte>)
    ensures |r| == 4
  {
    Enc16(x / 0x1_0000) + Enc16(x % 0x1_0000)
  }

  lemma Be16Enc16(x: u16, pre: seq<byte>, post: seq<byte>)
    ensures InBounds(pre + Enc16(x) + post, |pre|, 2)
    ensures Be16(pre + Enc16(x) + post, |pre|) == x
  {
    var d := pre + Enc16(x) + post;
    assert d[|pre|] == x / 0x100 && d[|pre| + 1] == x % 0x100;
  }

  lemma Be32Enc32(x: u32, pre: seq<byte>, post: seq<byte>)
    ensures InBounds(pre + Enc32(x) + post, |pre|, 4)
    ensures Be32(pre + Enc32(x) + post, |pre|) == x
  {
    var hi, lo := Enc16(x / 0x1_0000), Enc16(x % 0x1_0000);
    assert pre + Enc32(x) + post == pre + hi + (lo + post);
    assert pre + Enc32(x) + post == (pre + hi) + lo + post;
    Be16Enc16(x / 0x1_0000, pre, lo + post);
    Be16Enc16(x % 0x1_0000, pre + hi, post);
  }

  /** Two bytes holding Enc16(x) read back as x. */
  lemma Be16At(data: seq<byte>, off: nat, x: u16)
    requires off + 2 <= |data| && data[off] == x / 0x100 && data[off + 1] == x % 0x100
    ensures InBounds(data, off, 2) && Be16(data, off) == x
  {
  }

  /** Four bytes holding Enc32(x) read back as x. */
  lemma Be32At(data: seq<byte>, off: nat, x: u32)
    requires off + 4 <= |data| && data[off..off + 4] == Enc32(x)
    ensures InBounds(data, off, 4) && Be32(data, off) == x
  {
    var e := Enc32(x);
    assert e == Enc16(x / 0x1_0000) + Enc16(x % 0x1_0000);
    assert data[off] == e[0] && data[off + 1] == e[1] && data[off + 2] == e[2] && data[off + 3] == e[3];
    Be16At(data, off, x / 0x1_0000);
    Be16At(data, off + 2, x % 0x1_0000);
  }

  /** Little-endian in-memory bytes of an integer (`memcpy(&buf, &x, n)` on
      the little-endian host this model assumes). */
  function Le(x: nat, n: nat): (r: seq<byte>)
    ensures |r| == n
  {
    if n == 0 then [] else [x % 0x100] + Le(x / 0x100, n - 1)
  }

  function Pow256(n: nat): (r: nat)
    ensures r > 0
  {
    if n == 0 then 1 else 0x100 * Pow256(n - 1)
  }

  /** Reading little-endian bytes back: the partner of Le. */
  function UnLe(s: seq<byte>): (r: nat)
    ensures r < Pow256(|s|)
  {
    if s == [] then 0 else s[0] as int + 0x100 * UnLe(s[1..])
  }

  lemma {:induction false} UnLeLe(x: nat, n: nat)
    requires x < Pow256(n)
    ensures UnLe(Le(x, n)) == x
  {
    if n > 0 {
      UnLeLe(x / 0x100, n - 1);
      assert Le(x, n)[1..] == Le(x / 0x100, n - 1);
    }
  }

  /** The C string held in a NUL-terminated buffer: everything before the
      first zero byte, or the whole buffer when it holds none. */
  function CStr(s: seq<byte>): (r: CString)
    ensures |r| <= |s| && r == s[..|r|]
    ensures |r| < |s| ==> s[|r|] == 0
  {
    if s == [] then []
    else if s[0] == 0 then []
    else [s[0]] + CStr(s[1..])
  }

  lemma {:induction false} CStrOfCString(s: CString, tail: seq<byte>)
    ensures CStr(s + [0] + tail) == s
    ensures CStr(s) == s
  {
    if s != [] {
      assert (s + [0] + tail)[1..] == s[1..] + [0] + tail;
      CStrOfCString(s[1..], tail);
    } else {
      assert (s + [0] + tail)[0] == 0;
    }
  }

  /** A buffer holding `b` and then a NUL holds the same C string as `b`. */
  lemma {:induction false} CStrAtNul(s: seq<byte>, b: seq<byte>)
    requires |b| < |s| && s[..|b|] == b && s[|b|] == 0
    ensures CStr(s) == CStr(b)
  {
    if b != [] && b[0] != 0 {
      assert s[0] == b[0];
      assert s[1..][..|b| - 1] == b[1..];
      CStrAtNul(s[1..], b[1..]);
    }
  }

  /** `strlcpy(dst, src, size)`: at most `size - 1` bytes of the string are kept. */
  function Strlcpy(s: CString, size: nat): (r: CString)
    requires size > 0
    ensures |r| <= size - 1
    ensures |s| < size ==> r == s
    ensures |s| >= size ==> |r| == size - 1
    ensures r == s[..|r|]
  {
    if |s| < size then s else s[..size - 1]
  }

  /** `strstr(hay, needle) != NULL`: the needle occurs as a contiguous run. */
  predicate Contains(hay: seq<byte>, needle: seq<byte>)
  {
    exists i :: 0 <= i <= |hay| - |needle| && OccursAt(hay, needle, i)
  }

  predicate OccursAt(hay: seq<byte>, needle: seq<byte>, i: int)
    requires 0 <= i <= |hay| - |needle|
  {
    hay[i..i + |needle|] == needle
  }
}
