/** read_nsname (packet.c): DNS names as length-prefixed labels with
    compression pointers (section 4.1.4 of RFC 1035), decoded into a
    fixed-size output buffer. */
module Names {
  import opened Common

  /** `'.'`, written after every label. */
  const DOT: byte := 0x2e

  /** How read_nsname ends. `Name` is the return value 0, with the bytes
      written before the terminating NUL and the new `*offset`; `BadLabel`
      and `BadPointer` are the return value 1. `Unsafe` stands for a read
      past the captured bytes or a write past the output buffer, which the
      source does not check. `OutOfFuel` stands for a pointer chain deeper
      than the recursion the model allows. `ForwardPointer` is returned only
      by the fuel-free decoder, for a pointer that does not point strictly
      backwards. */
  datatype NameResult =
    | Name(bytes: seq<byte>, next: nat)
    | BadLabel
    | BadPointer
    | Unsafe
    | OutOfFuel
    | ForwardPointer

  /** The top two bits of a length byte (the NSM_MASK test). */
  function Tag(n: byte): int
  {
    n / 0x40
  }

  /** The 14-bit offset of a compression pointer whose bytes are `n`, `lo`. */
  function PointerTarget(n: byte, lo: byte): (p: int)
    ensures 0 <= p < 0x4000
  {
    (n % 0x40) * 0x100 + lo
  }

  /** read_nsname as written. `r` is the read cursor, `acc` the bytes this
      call has written so far (`out[0..w]`), `olen` the size of its part of
      the output buffer. A pointer recurses with the rest of the buffer,
      `out + w` and `olen - w`, and `fuel` bounds the depth of recursion. */
  function ReadName(data: seq<byte>, r: nat, len: int, olen: int, acc: seq<byte>, fuel: nat): (res: NameResult)
    requires |acc| <= olen - 1
    ensures res.Name? ==> acc <= res.bytes && |res.bytes| <= olen - 1 && res.next >= r
    ensures !res.ForwardPointer?
    decreases fuel, len - r
  {
    if !(r < len && |acc| < olen - 1) then Name(acc, r)
    else if r >= |data| then Unsafe
    else
      var n := data[r];
      if n == 0 then Name(acc, r + 1)
      else if Tag(n) == 0 then
        if r + 1 + n > |data| || |acc| + n + 2 > olen then Unsafe
        else ReadName(data, r + 1 + n, len, olen, acc + data[r + 1..r + 1 + n] + [DOT], fuel)
      else if Tag(n) == 3 then
        if r + 1 >= |data| then Unsafe
        else
          var ptr := PointerTarget(n, data[r + 1]);
          if ptr > r + 2 then BadPointer
          else if fuel == 0 then OutOfFuel
          else
            var inner := ReadName(data, ptr, len, olen - |acc|, [], fuel - 1);
            if inner.Name? then Name(acc + inner.bytes, r + 2) else inner
      else BadLabel
  }

  /** The checks on the length byte: tags 01 and 10 fail, a pointer past
      the byte after its own two bytes fails, and a name read through a
      pointer leaves the offset just past the two pointer bytes. */
  lemma LengthByteRules(data: seq<byte>, r: nat, len: int, olen: int, acc: seq<byte>, fuel: nat)
    requires |acc| < olen - 1 && r < len && r < |data|
    ensures var res := ReadName(data, r, len, olen, acc, fuel);
            && (Tag(data[r]) == 1 || Tag(data[r]) == 2 ==> res == BadLabel)
            && (Tag(data[r]) == 3 && r + 1 < |data| && PointerTarget(data[r], data[r + 1]) > r + 2 ==> res == BadPointer)
            && (Tag(data[r]) == 3 && res.Name? ==> res.next == r + 2)
  {
  }

  /** The C string the buffer holds after a successful read. */
  function NameString(res: NameResult): CString
    requires res.Name?
  {
    CStr(res.bytes)
  }

  /** read_nsname as the loop and recursion of the source, writing into
      `out[base..base + olen]` (`out + w` in the recursive call). On
      success the bytes before the NUL are those ReadName gives, followed
      by the NUL; nothing before `base` changes. */
  method ReadNsName(data: seq<byte>, offset: nat, len: int, out: array<byte>, base: nat, olen: int, fuel: nat)
    returns (res: NameResult)
    requires 1 <= olen && base + olen <= out.Length
    modifies out
    ensures res == ReadName(data, offset, len, olen, [], fuel)
    ensures res.Name? ==> out[base..base + |res.bytes|] == res.bytes && out[base + |res.bytes|] == 0
    ensures out[..base] == old(out[..base])
    decreases fuel, 1
  {
    var r, w := offset, 0;
    while r < len && w < olen - 1
      invariant 0 <= w <= olen - 1
      invariant ReadName(data, r, len, olen, out[base..base + w], fuel) == ReadName(data, offset, len, olen, [], fuel)
      invariant out[..base] == old(out[..base])
      decreases len - r
    {
      ghost var acc := out[base..base + w];
      if r >= |data| {
        return Unsafe;
      }
      var n := data[r];
      if n == 0 {
        assert ReadName(data, r, len, olen, acc, fuel) == Name(acc, r + 1);
        r := r + 1;
        break;
      } else if Tag(n) == 0 {
        if r + 1 + n > |data| || w + n + 2 > olen {
          return Unsafe;
        }
        r, w := CopyLabel(data, r, len, out, base, w, olen, fuel);
      } else if Tag(n) == 3 {
        if r + 1 >= |data| {
          return Unsafe;
        }
        res := FollowPointer(data, r, len, out, base, w, olen, fuel);
        return;
      } else {
        return BadLabel;
      }
    }
    WriteNul(out, base, w);
    res := Name(out[base..base + w], r);
  }

  /** The label branch: the bytes and the dot go to `out + w`. */
  method CopyLabel(data: seq<byte>, r: nat, len: int, out: array<byte>, base: nat, w: nat, olen: int, fuel: nat)
    returns (r': nat, w': nat)
    requires 1 <= olen && base + olen <= out.Length && w < olen - 1
    requires r < len && r < |data| && 0 < data[r] < 0x40
    requires r + 1 + data[r] <= |data| && w + data[r] + 2 <= olen
    modifies out
    ensures r' == r + 1 + data[r] && w' == w + data[r] + 1 && w' <= olen - 1
    ensures ReadName(data, r', len, olen, out[base..base + w'], fuel)
            == ReadName(data, r, len, olen, old(out[base..base + w]), fuel)
    ensures out[..base] == old(out[..base])
  {
    ghost var acc := out[base..base + w];
    var n := data[r];
    LabelStep(data, r, len, olen, acc, fuel);
    WriteLabel(out, base, base + w, data[r + 1..r + 1 + n]);
    r', w' := r + 1 + n, w + n + 1;
  }

  /** The pointer branch: check the target, then the recursive call on
      `out + w`, returning with the cursor just past the two pointer bytes. */
  method FollowPointer(data: seq<byte>, r: nat, len: int, out: array<byte>, base: nat, w: nat, olen: int, fuel: nat)
    returns (res: NameResult)
    requires 1 <= olen && base + olen <= out.Length && w < olen - 1
    requires r < len && r + 1 < |data| && Tag(data[r]) == 3
    modifies out
    ensures res == ReadName(data, r, len, olen, old(out[base..base + w]), fuel)
    ensures res.Name? ==> out[base..base + |res.bytes|] == res.bytes && out[base + |res.bytes|] == 0
    ensures out[..base] == old(out[..base])
    decreases fuel, 0
  {
    ghost var acc := out[base..base + w];
    var ptr := PointerTarget(data[r], data[r + 1]);
    if ptr > r + 2 {
      return BadPointer;
    }
    if fuel == 0 {
      return OutOfFuel;
    }
    var inner := ReadNsName(data, ptr, len, out, base + w, olen - w, fuel - 1);
    assert out[..base + w] == old(out[..base + w]);
    assert out[base..base + w] == acc;
    if !inner.Name? {
      return inner;
    }
    assert out[base..base + w + |inner.bytes|] == out[base..base + w] + out[base + w..base + w + |inner.bytes|];
    return Name(out[base..base + w + |inner.bytes|], r + 2);
  }

  /** `out[w++] = '\0'`: the bytes before it stay as they are. */
  method WriteNul(out: array<byte>, base: nat, w: nat)
    requires base + w < out.Length
    modifies out
    ensures out[base + w] == 0
    ensures out[..base + w] == old(out[..base + w])
    ensures out[base..base + w] == old(out[base..base + w])
  {
    out[base + w] := 0;
  }

  /** The `memcpy` of a label and the dot after it, at `at`: what `out`
      holds from `base` is extended by them. */
  method WriteLabel(out: array<byte>, base: nat, at: nat, bytes: seq<byte>)
    requires base <= at && at + |bytes| + 1 <= out.Length
    modifies out
    ensures out[base..at + |bytes| + 1] == old(out[base..at]) + bytes + [DOT]
    ensures out[..base] == old(out[..base])
  {
    forall k | 0 <= k < |bytes| {
      out[at + k] := bytes[k];
    }
    out[at + |bytes|] := DOT;
    assert out[base..at + |bytes| + 1] == out[base..at] + out[at..at + |bytes|] + [DOT];
  }

  // ---------------------------------------------------------------------
  // Termination without fuel for strictly backward pointers.

  /** A decoder that follows a pointer only when it points before the
      pointer's own first byte. It needs no fuel: every label shrinks the
      room left in the buffer and every pointer moves the cursor back. */
  function StrictName(data: seq<byte>, r: nat, len: int, olen: int, acc: seq<byte>): (res: NameResult)
    requires |acc| <= olen - 1
    ensures res.Name? ==> acc <= res.bytes && |res.bytes| <= olen - 1
    ensures !res.OutOfFuel?
    decreases olen - |acc|, r
  {
    if !(r < len && |acc| < olen - 1) then Name(acc, r)
    else if r >= |data| then Unsafe
    else
      var n := data[r];
      if n == 0 then Name(acc, r + 1)
      else if Tag(n) == 0 then
        if r + 1 + n > |data| || |acc| + n + 2 > olen then Unsafe
        else StrictName(data, r + 1 + n, len, olen, acc + data[r + 1..r + 1 + n] + [DOT])
      else if Tag(n) == 3 then
        if r + 1 >= |data| then Unsafe
        else
          var ptr := PointerTarget(n, data[r + 1]);
          if ptr > r + 2 then BadPointer
          else if ptr >= r then ForwardPointer
          else
            var inner := StrictName(data, ptr, len, olen - |acc|, []);
            if inner.Name? then Name(acc + inner.bytes, r + 2) else inner
      else BadLabel
  }

  /** `a * b` on naturals, by repeated addition. */
  function Mul(a: nat, b: nat): nat
  {
    if a == 0 then 0 else b + Mul(a - 1, b)
  }

  lemma {:induction false} MulMono(a: nat, b: nat, d: nat)
    requires a <= b
    ensures Mul(a, d) <= Mul(b, d)
    decreases b
  {
    if a < b {
      MulMono(a, b - 1, d);
    }
  }

  /** Enough fuel for the strict decoder's recursion from this state: one
      level per pointer, and pointers only move the cursor back between
      labels, each of which takes room in the buffer. */
  function Bound(data: seq<byte>, r: nat, olen: int, acc: seq<byte>): nat
    requires |acc| <= olen - 1
  {
    Mul(olen - |acc|, |data|) + (if r < |data| then r else |data|)
  }

  /** With enough fuel, read_nsname agrees with the fuel-free decoder on
      every name whose pointers all point before their own first byte: none
      to its own two bytes or to the byte after them. */
  lemma {:induction false} StrictAgrees(data: seq<byte>, r: nat, len: int, olen: int, acc: seq<byte>, fuel: nat)
    requires |acc| <= olen - 1
    requires fuel >= Bound(data, r, olen, acc)
    requires !StrictName(data, r, len, olen, acc).ForwardPointer?
    ensures ReadName(data, r, len, olen, acc, fuel) == StrictName(data, r, len, olen, acc)
    decreases olen - |acc|, r
  {
    if r < len && |acc| < olen - 1 && r < |data| {
      var n := data[r];
      if n != 0 && Tag(n) == 0 && r + 1 + n <= |data| && |acc| + n + 2 <= olen {
        var acc' := acc + data[r + 1..r + 1 + n] + [DOT];
        MulMono(olen - |acc'|, olen - |acc| - 1, |data|);
        assert Mul(olen - |acc|, |data|) == |data| + Mul(olen - |acc| - 1, |data|);
        StrictAgrees(data, r + 1 + n, len, olen, acc', fuel);
        LabelStep(data, r, len, olen, acc, fuel);
        StrictLabelStep(data, r, len, olen, acc);
      } else if Tag(n) == 3 && r + 1 < |data| && PointerTarget(n, data[r + 1]) < r {
        var ptr := PointerTarget(n, data[r + 1]);
        StrictAgrees(data, ptr, len, olen - |acc|, [], fuel - 1);
        PointerSteps(data, r, len, olen, acc, fuel);
      } else {
        NoRecursionAgrees(data, r, len, olen, acc, fuel);
      }
    }
  }

  lemma StrictLabelStep(data: seq<byte>, r: nat, len: int, olen: int, acc: seq<byte>)
    requires |acc| <= olen - 1 && r < len && |acc| < olen - 1 && r < |data|
    requires 0 < data[r] < 0x40 && r + 1 + data[r] <= |data| && |acc| + data[r] + 2 <= olen
    ensures StrictName(data, r, len, olen, acc)
            == StrictName(data, r + 1 + data[r], len, olen, acc + data[r + 1..r + 1 + data[r]] + [DOT])
  {
  }

  /** A backward pointer: both decoders recurse on the same target. */
  lemma PointerSteps(data: seq<byte>, r: nat, len: int, olen: int, acc: seq<byte>, fuel: nat)
    requires |acc| <= olen - 1 && r < len && |acc| < olen - 1 && r + 1 < |data| && Tag(data[r]) == 3
    requires PointerTarget(data[r], data[r + 1]) < r && fuel > 0
    requires var ptr := PointerTarget(data[r], data[r + 1]);
             ReadName(data, ptr, len, olen - |acc|, [], fuel - 1) == StrictName(data, ptr, len, olen - |acc|, [])
    ensures ReadName(data, r, len, olen, acc, fuel) == StrictName(data, r, len, olen, acc)
  {
  }

  /** Without a label or a backward pointer at `r`, neither decoder recurses. */
  lemma NoRecursionAgrees(data: seq<byte>, r: nat, len: int, olen: int, acc: seq<byte>, fuel: nat)
    requires |acc| <= olen - 1 && r < len && |acc| < olen - 1 && r < |data|
    requires !(data[r] != 0 && Tag(data[r]) == 0 && r + 1 + data[r] <= |data| && |acc| + data[r] + 2 <= olen)
    requires !(Tag(data[r]) == 3 && r + 1 < |data| && PointerTarget(data[r], data[r + 1]) < r)
    requires !StrictName(data, r, len, olen, acc).ForwardPointer?
    ensures ReadName(data, r, len, olen, acc, fuel) == StrictName(data, r, len, olen, acc)
  {
  }

  /** The fuel parse_dns gives read_nsname for a packet of these bytes. */
  function NameFuel(data: seq<byte>): nat
  {
    Mul(NAME_SIZE + 1, |data|)
  }

  /** NameFuel is enough for every name read into a 256-byte buffer whose
      pointers all point before their own first byte. */
  lemma StrictAgreesTop(data: seq<byte>, r: nat, len: int)
    requires !StrictName(data, r, len, NAME_SIZE, []).ForwardPointer?
    ensures ReadName(data, r, len, NAME_SIZE, [], NameFuel(data)) == StrictName(data, r, len, NAME_SIZE, [])
  {
    assert Mul(NAME_SIZE + 1, |data|) == |data| + Mul(NAME_SIZE, |data|);
    StrictAgrees(data, r, len, NAME_SIZE, [], NameFuel(data));
  }

  /** A pointer to itself is accepted by the check and never ends: no fuel
      is enough. */
  lemma {:induction false} SelfPointerNeverEnds(olen: int, fuel: nat)
    requires olen >= 2
    ensures ReadName([0xc0, 0x00], 0, 2, olen, [], fuel) == OutOfFuel
  {
    if fuel > 0 {
      SelfPointerNeverEnds(olen, fuel - 1);
    }
  }

  /** The fuel-free decoder refuses the same bytes. */
  lemma SelfPointerIsForward()
    ensures StrictName([0xc0, 0x00], 0, 2, NAME_SIZE, []) == ForwardPointer
  {
  }

  /** A pointer to the byte just after its own two bytes passes the check
      and is followed; the fuel-free decoder refuses it, so its agreement
      lemmas do not cover such names. */
  lemma NextBytePointer(fuel: nat)
    requires fuel > 0
    ensures ReadName([0xc0, 0x02, 0x00], 0, 3, NAME_SIZE, [], fuel) == Name([], 2)
    ensures StrictName([0xc0, 0x02, 0x00], 0, 3, NAME_SIZE, []) == ForwardPointer
  {
  }

  // ---------------------------------------------------------------------
  // Encoding: the partner of the decoder.

  predicate ValidLabel(l: seq<byte>)
  {
    1 <= |l| < 0x40
  }

  /** Every label of the sequence is valid. */
  predicate ValidLabels(labels: seq<seq<byte>>)
  {
    labels == [] || (ValidLabel(labels[0]) && ValidLabels(labels[1..]))
  }

  function LenByte(l: seq<byte>): (n: byte)
    requires ValidLabel(l)
    ensures n == |l|
  {
    |l|
  }

  /** Labels in wire form: each prefixed by its length, a zero byte last. */
  function EncodeName(labels: seq<seq<byte>>): (e: seq<byte>)
    requires ValidLabels(labels)
    ensures |e| >= 1
  {
    if labels == [] then [0]
    else [LenByte(labels[0])] + labels[0] + EncodeName(labels[1..])
  }

  /** What the decoder writes for the labels: each followed by `'.'`. */
  function Dotted(labels: seq<seq<byte>>): (d: seq<byte>)
  {
    if labels == [] then [] else labels[0] + [DOT] + Dotted(labels[1..])
  }

  /** The two bytes of a compression pointer to offset `p`. */
  function PointerBytes(p: nat): (e: seq<byte>)
    requires p < 0x4000
    ensures |e| == 2 && Tag(e[0]) == 3 && PointerTarget(e[0], e[1]) == p
  {
    [0xc0 + p / 0x100, p % 0x100]
  }

  /** Decoding an encoded name that fits the buffer gives the dotted labels
      and leaves the offset just past the terminating zero. */
  lemma {:induction false} ReadEncodedName(data: seq<byte>, r: nat, labels: seq<seq<byte>>,
                                            len: int, olen: int, acc: seq<byte>, fuel: nat)
    requires ValidLabels(labels)
    requires r + |EncodeName(labels)| <= |data| && data[r..r + |EncodeName(labels)|] == EncodeName(labels)
    requires |acc| + |Dotted(labels)| < olen - 1
    requires len >= r + |EncodeName(labels)|
    ensures ReadName(data, r, len, olen, acc, fuel) == Name(acc + Dotted(labels), r + |EncodeName(labels)|)
    decreases |labels|
  {
    if labels == [] {
      assert data[r] == EncodeName(labels)[0] == 0;
      assert acc + Dotted(labels) == acc;
    } else {
      var l := labels[0];
      EncodeLayout(data, r, labels);
      assert ValidLabel(l) && Dotted(labels) == l + [DOT] + Dotted(labels[1..]);
      ReadEncodedName(data, r + 1 + |l|, labels[1..], len, olen, acc + l + [DOT], fuel);
      LabelThen(data, r, len, olen, acc, fuel, l, Dotted(labels[1..]), r + |EncodeName(labels)|);
    }
  }

  /** A label that fits, followed by a name that decodes: the label comes first. */
  lemma LabelThen(data: seq<byte>, r: nat, len: int, olen: int, acc: seq<byte>, fuel: nat,
                  l: seq<byte>, tail: seq<byte>, next: nat)
    requires ValidLabel(l) && r < len && |acc| + |l| + 1 + |tail| < olen - 1
    requires r + 1 + |l| <= |data| && data[r] == |l| && data[r + 1..r + 1 + |l|] == l
    requires ReadName(data, r + 1 + |l|, len, olen, acc + l + [DOT], fuel) == Name(acc + l + [DOT] + tail, next)
    ensures ReadName(data, r, len, olen, acc, fuel) == Name(acc + (l + [DOT] + tail), next)
  {
    LabelStep(data, r, len, olen, acc, fuel);
    assert acc + l + [DOT] + tail == acc + (l + [DOT] + tail);
  }

  /** Where the first label and the rest of an encoded name sit. */
  lemma EncodeLayout(data: seq<byte>, r: nat, labels: seq<seq<byte>>)
    requires labels != [] && ValidLabels(labels)
    requires r + |EncodeName(labels)| <= |data| && data[r..r + |EncodeName(labels)|] == EncodeName(labels)
    ensures var l, e' := labels[0], EncodeName(labels[1..]);
            && |EncodeName(labels)| == 1 + |l| + |e'|
            && data[r] == |l|
            && data[r + 1..r + 1 + |l|] == l
            && data[r + 1 + |l|..r + 1 + |l| + |e'|] == e'
  {
    var e, l, e' := EncodeName(labels), labels[0], EncodeName(labels[1..]);
    assert e == [LenByte(l)] + l + e';
    forall k | 0 <= k < |e| ensures data[r + k] == e[k] {
      assert data[r..r + |e|][k] == e[k];
    }
    assert data[r] == e[0];
    forall k | 0 <= k < |l| ensures data[r + 1..r + 1 + |l|][k] == l[k] {
      assert e[1 + k] == l[k];
    }
    forall k | 0 <= k < |e'| ensures data[r + 1 + |l|..r + 1 + |l| + |e'|][k] == e'[k] {
      assert e[1 + |l| + k] == e'[k];
    }
  }

  /** The same, for an encoded name that sits between any bytes before and after it. */
  lemma ReadEncodedNameIn(pre: seq<byte>, labels: seq<seq<byte>>, post: seq<byte>, olen: int, fuel: nat)
    requires ValidLabels(labels)
    requires |Dotted(labels)| < olen - 1
    ensures var data := pre + EncodeName(labels) + post;
            ReadName(data, |pre|, |data|, olen, [], fuel) == Name(Dotted(labels), |pre| + |EncodeName(labels)|)
  {
    var data := pre + EncodeName(labels) + post;
    assert data[|pre|..|pre| + |EncodeName(labels)|] == EncodeName(labels);
    ReadEncodedName(data, |pre|, labels, |data|, olen, [], fuel);
  }

  /** A pointer to an encoded name reads back as that name's dotted
      labels, after what the buffer already holds, and the offset ends
      just past the two pointer bytes. */
  lemma ReadPointerToName(data: seq<byte>, r: nat, p: nat, labels: seq<seq<byte>>,
                          len: int, olen: int, acc: seq<byte>, fuel: nat)
    requires ValidLabels(labels) && r < len && r + 1 < |data| && p <= r + 2
    requires Tag(data[r]) == 3 && PointerTarget(data[r], data[r + 1]) == p
    requires p + |EncodeName(labels)| <= |data| && data[p..p + |EncodeName(labels)|] == EncodeName(labels)
    requires len >= p + |EncodeName(labels)|
    requires |acc| + |Dotted(labels)| < olen - 1 && fuel > 0
    ensures ReadName(data, r, len, olen, acc, fuel) == Name(acc + Dotted(labels), r + 2)
  {
    ReadEncodedName(data, p, labels, len, olen - |acc|, [], fuel - 1);
    assert [] + Dotted(labels) == Dotted(labels);
    PointerThen(data, r, len, olen, acc, fuel, p, Dotted(labels), p + |EncodeName(labels)|);
  }

  /** The bytes of a pointer to `p` read back as one. */
  lemma PointerAt(data: seq<byte>, r: nat, p: nat)
    requires p < 0x4000 && r + 2 <= |data| && data[r..r + 2] == PointerBytes(p)
    ensures Tag(data[r]) == 3 && PointerTarget(data[r], data[r + 1]) == p
  {
    var e := PointerBytes(p);
    assert data[r] == data[r..r + 2][0] == e[0];
    assert data[r + 1] == data[r..r + 2][1] == e[1];
  }

  /** A pointer that passes the check, to a name that reads back: that name
      is written after what the buffer holds, and the offset ends just past
      the two pointer bytes. */
  lemma PointerThen(data: seq<byte>, r: nat, len: int, olen: int, acc: seq<byte>, fuel: nat,
                    p: nat, name: seq<byte>, next: nat)
    requires |acc| < olen - 1 && r < len && r + 1 < |data| && Tag(data[r]) == 3
    requires PointerTarget(data[r], data[r + 1]) == p && p <= r + 2 && fuel > 0
    requires ReadName(data, p, len, olen - |acc|, [], fuel - 1) == Name(name, next)
    ensures ReadName(data, r, len, olen, acc, fuel) == Name(acc + name, r + 2)
  {
  }

  /** A compressed name: one label at `r`, then a pointer to a name
      encoded at `p`. It reads back as the label and its dot followed by
      the name pointed at, and the offset ends just past the pointer. */
  lemma ReadLabelThenPointer(data: seq<byte>, r: nat, l: seq<byte>, p: nat, rest: seq<seq<byte>>,
                             len: int, olen: int, fuel: nat)
    requires ValidLabel(l) && ValidLabels(rest)
    requires r + 1 + |l| + 2 <= |data| && r + 1 + |l| < len
    requires data[r] == |l| && data[r + 1..r + 1 + |l|] == l
    requires Tag(data[r + 1 + |l|]) == 3 && PointerTarget(data[r + 1 + |l|], data[r + 2 + |l|]) == p
    requires p <= r + 1 + |l| + 2
    requires p + |EncodeName(rest)| <= |data| && data[p..p + |EncodeName(rest)|] == EncodeName(rest)
    requires len >= p + |EncodeName(rest)|
    requires |l| + 1 + |Dotted(rest)| < olen - 1 && fuel > 0
    ensures ReadName(data, r, len, olen, [], fuel) == Name(l + [DOT] + Dotted(rest), r + 1 + |l| + 2)
  {
    var q := r + 1 + |l|;
    assert [] + l + [DOT] == l + [DOT];
    ReadPointerToName(data, q, p, rest, len, olen, l + [DOT], fuel);
    assert [] + l + [DOT] + Dotted(rest) == l + [DOT] + Dotted(rest);
    LabelThen(data, r, len, olen, [], fuel, l, Dotted(rest), q + 2);
    assert [] + (l + [DOT] + Dotted(rest)) == l + [DOT] + Dotted(rest);
  }

  /** The same at the byte level: a name compressed against one encoded
      earlier in the message reads back in full. */
  lemma ReadCompressedNameIn(data: seq<byte>, pre: seq<byte>, rest: seq<seq<byte>>, mid: seq<byte>,
                             l: seq<byte>, post: seq<byte>, olen: int, fuel: nat)
    requires ValidLabel(l) && ValidLabels(rest) && |pre| < 0x4000
    requires data == pre + EncodeName(rest) + mid + ([LenByte(l)] + l) + PointerBytes(|pre|) + post
    requires |l| + 1 + |Dotted(rest)| < olen - 1 && fuel > 0
    ensures var r := |pre| + |EncodeName(rest)| + |mid|;
            ReadName(data, r, |data|, olen, [], fuel) == Name(l + [DOT] + Dotted(rest), r + 1 + |l| + 2)
  {
    var r := |pre| + |EncodeName(rest)| + |mid|;
    CompressedLayout(data, pre, rest, mid, l, post);
    PointerAt(data, r + 1 + |l|, |pre|);
    ReadLabelThenPointer(data, r, l, |pre|, rest, |data|, olen, fuel);
  }

  /** Where the parts of that message sit. */
  lemma CompressedLayout(data: seq<byte>, pre: seq<byte>, rest: seq<seq<byte>>, mid: seq<byte>,
                         l: seq<byte>, post: seq<byte>)
    requires ValidLabel(l) && ValidLabels(rest) && |pre| < 0x4000
    requires data == pre + EncodeName(rest) + mid + ([LenByte(l)] + l) + PointerBytes(|pre|) + post
    ensures var r := |pre| + |EncodeName(rest)| + |mid|;
            var q := r + 1 + |l|;
            && q + 2 <= |data|
            && data[|pre|..|pre| + |EncodeName(rest)|] == EncodeName(rest)
            && data[r] == |l| && data[r + 1..q] == l && data[q..q + 2] == PointerBytes(|pre|)
  {
    var e, c, b := EncodeName(rest), [LenByte(l)] + l, PointerBytes(|pre|);
    var r := |pre| + |e| + |mid|;
    PartsAt(data, pre, e, mid, c, b, post);
    assert data[r] == data[r..r + |c|][0] == c[0];
    assert data[r + 1..r + |c|] == data[r..r + |c|][1..] == l;
  }

  /** In `pre + e + mid + c + b + post`, the slices where `e`, `c` and `b` sit. */
  lemma PartsAt(data: seq<byte>, pre: seq<byte>, e: seq<byte>, mid: seq<byte>, c: seq<byte>, b: seq<byte>,
                post: seq<byte>)
    requires data == pre + e + mid + c + b + post
    ensures var r := |pre| + |e| + |mid|;
            && data[|pre|..|pre| + |e|] == e
            && data[r..r + |c|] == c
            && data[r + |c|..r + |c| + |b|] == b
  {
    var before := pre + e + mid;
    assert data[..|before|] == before;
    assert data[..|before| + |c| + |b|] == before + c + b;
  }

  /** One label that fits: it is appended with its dot and reading goes on
      after it. */
  lemma LabelStep(data: seq<byte>, r: nat, len: int, olen: int, acc: seq<byte>, fuel: nat)
    requires |acc| <= olen - 1 && r < len && |acc| < olen - 1 && r < |data|
    requires 0 < data[r] < 0x40 && r + 1 + data[r] <= |data| && |acc| + data[r] + 2 <= olen
    ensures ReadName(data, r, len, olen, acc, fuel)
            == ReadName(data, r + 1 + data[r], len, olen, acc + data[r + 1..r + 1 + data[r]] + [DOT], fuel)
  {
  }
}
