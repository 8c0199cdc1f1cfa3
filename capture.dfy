/** The record loop of connbal.c `main`: the snoop file-header check, the
    growth rule of the record buffer, the periodic expiry sweep, and the
    Ethernet / 802.1Q / IPv4 / UDP / TCP demux that hands each record to
    parse_dns or got_tcp_conn. The decoder is a pure function returning a
    dispatch decision; the loop's state (the tables, `lastclean`, `dlen`
    and the buffer) is a class whose `Record` method performs one pass of
    the loop. */
module Capture {
  import opened Common
  import opened Tables
  import opened Correlator
  import opened Dns

  // The snoop file header (RFC 1761): an 8-byte magic, then the version
  // and the datalink type as 32-bit big-endian words.
  const FILE_HEADER_SIZE: nat := 16
  const SNOOP_VERSION: u32 := 2
  const DL_ETHER: u32 := 4
  /** The literal "snoop": five characters, then its terminating NUL. */
  const SNOOP_MAGIC: CString := [0x73, 0x6e, 0x6f, 0x6f, 0x70]

  /** `sizeof (struct pkthdr)`: six 32-bit words per record header. */
  const RECORD_HEADER_SIZE: nat := 24
  /** Initial `dlen`. */
  const INITIAL_BUFFER: nat := 512
  /** The largest buffer the doubling loop reaches without overflowing a
      32-bit `int` (512 times a power of two, at most 2^30). */
  const MAX_BUFFER: nat := 0x4000_0000
  const INT_MAX: int := 0x7fff_ffff

  /** Seconds between sweeps of the pending-query table. */
  const CLEAN_INTERVAL: u32 := 10

  // enums.h
  const MAC_IP4: u16 := 0x0800
  const MAC_DOT1Q: u16 := 0x8100
  const PR_TCP: byte := 0x06
  const PR_UDP: byte := 0x11
  const TCPFL_SYN: byte := 0x02

  /* ---------------------------------------------------------------- */
  /* File header                                                        */
  /* ---------------------------------------------------------------- */

  /** The character a C string literal holds at index i: its NUL past the end. */
  function CharAt(s: CString, i: nat): byte
  {
    if i < |s| then s[i] else 0
  }

  /** `strncmp(a, s, n) == 0` from index i on: equal characters up to n,
      stopping early at a NUL common to both. */
  predicate StrnEqFrom(a: seq<byte>, s: CString, n: nat, i: nat)
    requires n <= |a|
    decreases n - i
  {
    i >= n || (a[i] == CharAt(s, i) && (a[i] == 0 || StrnEqFrom(a, s, n, i + 1)))
  }

  /** Compared against a literal shorter than n, strncmp matches exactly
      when the literal and its NUL are a prefix of a. */
  lemma {:induction false} StrnEqLiteral(a: seq<byte>, s: CString, n: nat, i: nat)
    requires |s| < n <= |a| && i <= |s|
    ensures StrnEqFrom(a, s, n, i) <==> a[i..|s| + 1] == s[i..] + [0]
    decreases |s| - i
  {
    if i == |s| {
      assert CharAt(s, i) == 0;
      assert s[i..] + [0] == [0];
      assert StrnEqFrom(a, s, n, i) <==> a[i] == 0;
      assert a[i..|s| + 1] == [a[i]];
    } else {
      assert CharAt(s, i) == s[i] && s[i] != 0;
      StrnEqLiteral(a, s, n, i + 1);
      assert a[i..|s| + 1] == [a[i]] + a[i + 1..|s| + 1];
      assert s[i..] + [0] == [s[i]] + (s[i + 1..] + [0]);
    }
  }

  /** The three tests of the file header; a header that fails any of
      them, or a file shorter than the header, ends the program with
      status 2. */
  predicate FileHeaderOk(raw: seq<byte>)
  {
    && |raw| >= FILE_HEADER_SIZE
    && StrnEqFrom(raw[..8], SNOOP_MAGIC, 8, 0)
    && Be32(raw, 8) == SNOOP_VERSION
    && Be32(raw, 12) == DL_ETHER
  }

  /** The header is accepted exactly when it begins with the six bytes
      "snoop\0" and carries version 2 and datalink type 4; the two magic
      bytes after the NUL are never looked at. */
  lemma FileHeaderAccepted(raw: seq<byte>)
    ensures FileHeaderOk(raw) <==>
              && |raw| >= FILE_HEADER_SIZE
              && raw[..6] == SNOOP_MAGIC + [0]
              && Be32(raw, 8) == SNOOP_VERSION
              && Be32(raw, 12) == DL_ETHER
  {
    if |raw| >= FILE_HEADER_SIZE {
      StrnEqLiteral(raw[..8], SNOOP_MAGIC, 8, 0);
      assert raw[..8][0..6] == raw[..6];
    }
  }

  /* ---------------------------------------------------------------- */
  /* Record header and buffer growth                                    */
  /* ---------------------------------------------------------------- */

  /** `struct pkthdr` after ntohl of every field. */
  datatype PacketHeader = PacketHeader(len: u32, snap: u32, reclen: u32, drops: u32, sec: u32, usec: u32)

  function ReadPacketHeader(raw: seq<byte>): PacketHeader
    requires |raw| >= RECORD_HEADER_SIZE
  {
    PacketHeader(Be32(raw, 0), Be32(raw, 4), Be32(raw, 8), Be32(raw, 12), Be32(raw, 16), Be32(raw, 20))
  }

  function EncodePacketHeader(h: PacketHeader): (r: seq<byte>)
    ensures |r| == RECORD_HEADER_SIZE
  {
    Enc32(h.len) + (Enc32(h.snap) + (Enc32(h.reclen) + (Enc32(h.drops) + (Enc32(h.sec) + Enc32(h.usec)))))
  }

  /** Every field of the record header is read back in network byte order. */
  lemma PacketHeaderRoundTrip(h: PacketHeader, rest: seq<byte>)
    ensures |EncodePacketHeader(h) + rest| >= RECORD_HEADER_SIZE
    ensures ReadPacketHeader(EncodePacketHeader(h) + rest) == h
  {
    var raw := EncodePacketHeader(h) + rest;
    assert raw[0..4] == Enc32(h.len);
    assert raw[4..8] == Enc32(h.snap);
    assert raw[8..12] == Enc32(h.reclen);
    assert raw[12..16] == Enc32(h.drops);
    assert raw[16..20] == Enc32(h.sec);
    assert raw[20..24] == Enc32(h.usec);
    Be32At(raw, 0, h.len);
    Be32At(raw, 4, h.snap);
    Be32At(raw, 8, h.reclen);
    Be32At(raw, 12, h.drops);
    Be32At(raw, 16, h.sec);
    Be32At(raw, 20, h.usec);
  }

  /** What becomes of a record before any of its bytes are looked at.
      `plen` is `reclen - sizeof (hdr)`: a record of exactly 24 bytes makes
      fread read zero items, which main treats as a read failure; a shorter
      one, or one whose payload exceeds MAX_BUFFER, leaves the doubling
      loop or fread to overrun (`Unsafe`). */
  datatype Status = Ok | ReadFailed | Unsafe

  function RecordStatus(hdr: PacketHeader): Status
  {
    if hdr.reclen == RECORD_HEADER_SIZE then ReadFailed
    else if hdr.reclen < RECORD_HEADER_SIZE || hdr.reclen - RECORD_HEADER_SIZE > MAX_BUFFER then Unsafe
    else Ok
  }

  /** `plen` as main computes it: the record length minus the header, in
      32-bit arithmetic, as a signed `int`. */
  lemma PayloadLength(hdr: PacketHeader)
    ensures RecordStatus(hdr) == Ok ==> ToInt32(hdr.reclen - RECORD_HEADER_SIZE) == hdr.reclen - RECORD_HEADER_SIZE > 0
    ensures hdr.reclen < RECORD_HEADER_SIZE ==> ToInt32(hdr.reclen - RECORD_HEADER_SIZE) < 0
  {
  }

  /** The capacity the loop `while (plen > dlen) dlen *= 2` ends with. */
  function Grown(dlen: nat, plen: int): nat
    requires dlen > 0
    decreases plen - dlen
  {
    if plen > dlen then Grown(2 * dlen, plen) else dlen
  }

  predicate PowerOfTwo(x: nat)
    decreases x
  {
    x == 1 || (x > 1 && x % 2 == 0 && PowerOfTwo(x / 2))
  }

  /** Two powers of two less than a factor 2 apart are ordered. */
  lemma {:induction false} PowerOfTwoBelow(x: nat, y: nat)
    requires PowerOfTwo(x) && PowerOfTwo(y) && x < 2 * y
    ensures x <= y
  {
    if x != 1 && y != 1 {
      PowerOfTwoBelow(x / 2, y / 2);
    }
  }

  /** The buffer sizes the loop can produce: 512 doubled any number of times. */
  predicate Scale(d: nat)
  {
    d >= INITIAL_BUFFER && d % INITIAL_BUFFER == 0 && PowerOfTwo(d / INITIAL_BUFFER)
  }

  /** A buffer size reachable without `int` overflow. */
  predicate Capacity(d: nat)
  {
    Scale(d) && d <= MAX_BUFFER
  }

  /** After the loop the buffer holds the payload; the size only ever
      doubled, never shrank, and it is the smallest doubling that fits. */
  lemma {:induction false} GrownSpec(dlen: nat, plen: int)
    requires dlen > 0
    ensures Grown(dlen, plen) >= plen && Grown(dlen, plen) >= dlen
    ensures Grown(dlen, plen) == dlen || Grown(dlen, plen) < 2 * plen
    ensures Scale(dlen) ==> Scale(Grown(dlen, plen))
    decreases plen - dlen
  {
    if plen > dlen {
      GrownSpec(2 * dlen, plen);
      if Scale(dlen) {
        assert (2 * dlen) / INITIAL_BUFFER == 2 * (dlen / INITIAL_BUFFER);
        assert (2 * (dlen / INITIAL_BUFFER)) / 2 == dlen / INITIAL_BUFFER;
      }
    }
  }

  /** For payloads up to MAX_BUFFER no size the loop passes through
      overflows: the grown size is still within MAX_BUFFER. */
  lemma GrownFits(dlen: nat, plen: int)
    requires Capacity(dlen) && plen <= MAX_BUFFER
    ensures Capacity(Grown(dlen, plen))
  {
    GrownSpec(dlen, plen);
    var g := Grown(dlen, plen);
    if g != dlen {
      assert g / INITIAL_BUFFER < 2 * (MAX_BUFFER / INITIAL_BUFFER);
      assert PowerOfTwo(MAX_BUFFER / INITIAL_BUFFER) by { PowerOfTwoConst(); }
      PowerOfTwoBelow(g / INITIAL_BUFFER, MAX_BUFFER / INITIAL_BUFFER);
    }
  }

  /** A payload larger than MAX_BUFFER drives the loop past INT_MAX, which
      is why such records are `Unsafe`. */
  lemma GrownOverflows(dlen: nat, plen: int)
    requires Capacity(dlen) && plen > MAX_BUFFER
    ensures Grown(dlen, plen) > INT_MAX
  {
    GrownSpec(dlen, plen);
    var g := Grown(dlen, plen);
    var m := MAX_BUFFER / INITIAL_BUFFER;
    PowerOfTwoConst();
    if g / INITIAL_BUFFER < 2 * m {
      PowerOfTwoBelow(g / INITIAL_BUFFER, m);
      assert false;
    }
  }

  /** MAX_BUFFER is 512 doubled 21 times. */
  lemma PowerOfTwoConst()
    ensures PowerOfTwo(MAX_BUFFER / INITIAL_BUFFER)
  {
    assert PowerOfTwo(1);
    PowerOfTwoDouble(0x1); PowerOfTwoDouble(0x2); PowerOfTwoDouble(0x4); PowerOfTwoDouble(0x8); PowerOfTwoDouble(0x10); PowerOfTwoDouble(0x20);
    PowerOfTwoDouble(0x40); PowerOfTwoDouble(0x80); PowerOfTwoDouble(0x100); PowerOfTwoDouble(0x200); PowerOfTwoDouble(0x400); PowerOfTwoDouble(0x800);
    PowerOfTwoDouble(0x1000); PowerOfTwoDouble(0x2000); PowerOfTwoDouble(0x4000); PowerOfTwoDouble(0x8000); PowerOfTwoDouble(0x10000); PowerOfTwoDouble(0x20000);
    PowerOfTwoDouble(0x40000); PowerOfTwoDouble(0x80000); PowerOfTwoDouble(0x100000);
    assert MAX_BUFFER / INITIAL_BUFFER == 0x20_0000;
  }

  lemma PowerOfTwoDouble(x: nat)
    requires PowerOfTwo(x)
    ensures PowerOfTwo(2 * x)
  {
    assert (2 * x) / 2 == x;
  }

  /* ---------------------------------------------------------------- */
  /* Demux                                                              */
  /* ---------------------------------------------------------------- */

  /** What main does with one record. */
  datatype Dispatch =
    | Ignore
    | ToDns(src: u32, dst: u32, sport: u16, dport: u16, payload: seq<byte>, len: int)
    | ToTcp(src: u32, dst: u32, sport: u16, dport: u16)

  /** Offset of the IPv4 header behind the Ethernet header: 14, or 18
      behind one 802.1Q tag; None when the ethertype is not IPv4. Bytes
      beyond the captured payload end the decoding (None), where main
      would read memory past them. */
  function NetworkOffset(d: seq<byte>): (off: Option<nat>)
    ensures off.Some? ==> off.value == 14 || off.value == 18
  {
    if !InBounds(d, 12, 2) then None
    else if Be16(d, 12) == MAC_DOT1Q then
      if InBounds(d, 16, 2) && Be16(d, 16) == MAC_IP4 then Some(18) else None
    else if Be16(d, 12) == MAC_IP4 then Some(14)
    else None
  }

  /** The IPv4 fields main reads, and where the transport header starts. */
  datatype Ip = Ip(src: u32, dst: u32, proto: byte, next: nat)

  /** Version nibble 4 is required; IHL times 4 is the header length. */
  function ReadIp(d: seq<byte>, off: nat): (r: Option<Ip>)
    ensures r.Some? ==> InBounds(d, off, 20) && d[off] / 16 == 4 && r.value.next == off + d[off] % 16 * 4
  {
    if !InBounds(d, off, 20) || d[off] / 16 != 4 then None
    else Some(Ip(Be32(d, off + 12), Be32(d, off + 16), d[off + 9], off + d[off] % 16 * 4))
  }

  /** UDP to or from port 53 goes to parse_dns with the bytes after the
      8-byte UDP header and `len = snap - off` (unsigned 32-bit difference
      passed as an `int`); TCP goes to got_tcp_conn when the flags byte is
      exactly SYN. */
  function Transport(d: seq<byte>, ip: Ip, snap: u32): (r: Dispatch)
    ensures r.ToDns? ==> r.sport == DNS_PORT || r.dport == DNS_PORT
    ensures r.ToTcp? ==> ip.proto == PR_TCP && InBounds(d, ip.next, 14) && d[ip.next + 13] == TCPFL_SYN
  {
    var off := ip.next;
    if ip.proto == PR_UDP then
      if !InBounds(d, off, 4) then Ignore
      else
        var sport, dport := Be16(d, off), Be16(d, off + 2);
        if sport != DNS_PORT && dport != DNS_PORT then Ignore
        else ToDns(ip.src, ip.dst, sport, dport, if off + 8 <= |d| then d[off + 8..] else [], ToInt32(snap - (off + 8)))
    else if ip.proto == PR_TCP then
      if !InBounds(d, off, 14) || d[off + 13] != TCPFL_SYN then Ignore
      else ToTcp(ip.src, ip.dst, Be16(d, off), Be16(d, off + 2))
    else Ignore
  }

  /** The per-record decode of main. */
  function Demux(d: seq<byte>, snap: u32): (r: Dispatch)
    ensures r != Ignore ==> NetworkOffset(d).Some? && ReadIp(d, NetworkOffset(d).value).Some?
    ensures r.ToDns? ==> r.sport == DNS_PORT || r.dport == DNS_PORT
  {
    var n := NetworkOffset(d);
    if n.None? then Ignore
    else
      var ip := ReadIp(d, n.value);
      if ip.None? then Ignore else Transport(d, ip.value, snap)
  }

  /* Encoders of the frames main accepts, the partners of the decoders. */

  function LinkLen(vlan: Option<u16>): nat
  {
    if vlan.Some? then 18 else 14
  }

  /** Two MAC addresses, an optional 802.1Q tag, and the ethertype. */
  function EncodeLink(macs: seq<byte>, vlan: Option<u16>, ethertype: u16): (r: seq<byte>)
    requires |macs| == 12
    ensures |r| == LinkLen(vlan)
  {
    macs + ((if vlan.Some? then Enc16(MAC_DOT1Q) + Enc16(vlan.value) else []) + Enc16(ethertype))
  }

  /** An IPv4 header of `ihl` words: the version/IHL byte, eight bytes main
      does not read, the protocol, two checksum bytes, the addresses, and
      the options. */
  function EncodeIp(ihl: nat, mid: seq<byte>, proto: byte, cks: seq<byte>, src: u32, dst: u32, opts: seq<byte>): (r: seq<byte>)
    requires 5 <= ihl < 16 && |mid| == 8 && |cks| == 2 && |opts| == 4 * ihl - 20
    ensures |r| == 4 * ihl
  {
    [0x40 + ihl] + (mid + ([proto] + (cks + (Enc32(src) + (Enc32(dst) + opts)))))
  }

  /** A UDP header (ports, then length and checksum) and its payload. */
  function EncodeUdp(sport: u16, dport: u16, lenck: seq<byte>, payload: seq<byte>): (r: seq<byte>)
    requires |lenck| == 4
    ensures |r| == 8 + |payload|
  {
    Enc16(sport) + (Enc16(dport) + (lenck + payload))
  }

  /** A TCP header: ports, nine bytes up to the flags, the flags byte, the rest. */
  function EncodeTcp(sport: u16, dport: u16, mid: seq<byte>, flags: byte, rest: seq<byte>): (r: seq<byte>)
    requires |mid| == 9
    ensures |r| == 14 + |rest|
  {
    Enc16(sport) + (Enc16(dport) + (mid + ([flags] + rest)))
  }

  /** The link layer: IPv4 behind zero or one tag starts right after the
      Ethernet header; one tag moves it, and the ethertype read, by 4
      bytes. Any other ethertype is dropped. An untagged frame cannot
      carry 0x8100 as its ethertype: that is the tag itself. */
  lemma LinkRoundTrip(d: seq<byte>, macs: seq<byte>, vlan: Option<u16>, ethertype: u16, rest: seq<byte>)
    requires |macs| == 12 && d == EncodeLink(macs, vlan, ethertype) + rest
    requires vlan.None? ==> ethertype != MAC_DOT1Q
    ensures NetworkOffset(d) == if ethertype == MAC_IP4 then Some(LinkLen(vlan)) else None
  {
    var l := LinkLen(vlan);
    assert d[l - 2..l] == Enc16(ethertype);
    Be16At(d, l - 2, ethertype);
    if vlan.Some? {
      assert d[12..14] == Enc16(MAC_DOT1Q);
      Be16At(d, 12, MAC_DOT1Q);
    }
  }

  /** The IPv4 header: source and destination are the big-endian words at
      offsets 12 and 16, and the transport header follows IHL words. */
  lemma IpRoundTrip(d: seq<byte>, pre: seq<byte>, ihl: nat, mid: seq<byte>, proto: byte, cks: seq<byte>,
                    src: u32, dst: u32, opts: seq<byte>, post: seq<byte>)
    requires 5 <= ihl < 16 && |mid| == 8 && |cks| == 2 && |opts| == 4 * ihl - 20
    requires d == pre + (EncodeIp(ihl, mid, proto, cks, src, dst, opts) + post)
    ensures ReadIp(d, |pre|) == Some(Ip(src, dst, proto, |pre| + 4 * ihl))
  {
    var o := |pre|;
    var ip := EncodeIp(ihl, mid, proto, cks, src, dst, opts);
    assert d[o..o + 4 * ihl] == ip;
    assert d[o] == ip[0] == 0x40 + ihl;
    assert d[o + 9] == ip[9] == proto;
    assert ip[12..16] == Enc32(src) && ip[16..20] == Enc32(dst);
    assert d[o + 12..o + 16] == ip[12..16];
    assert d[o + 16..o + 20] == ip[16..20];
    Be32At(d, o + 12, src);
    Be32At(d, o + 16, dst);
  }

  /** UDP: the record goes to parse_dns exactly when either port is 53,
      with the payload that follows the UDP header and `len = snap - off`. */
  lemma UdpRoundTrip(d: seq<byte>, pre: seq<byte>, ip: Ip, sport: u16, dport: u16, lenck: seq<byte>,
                     payload: seq<byte>, snap: u32)
    requires |lenck| == 4 && d == pre + EncodeUdp(sport, dport, lenck, payload)
    requires ip.proto == PR_UDP && ip.next == |pre|
    ensures Transport(d, ip, snap) ==
              if sport == DNS_PORT || dport == DNS_PORT
              then ToDns(ip.src, ip.dst, sport, dport, payload, ToInt32(snap - (|pre| + 8)))
              else Ignore
  {
    var o := |pre|;
    assert d[o..o + 2] == Enc16(sport);
    assert d[o + 2..o + 4] == Enc16(dport);
    Be16At(d, o, sport);
    Be16At(d, o + 2, dport);
    assert d[o + 8..] == payload;
  }

  /** TCP: got_tcp_conn is called exactly when the flags byte is 0x02. */
  lemma TcpRoundTrip(d: seq<byte>, pre: seq<byte>, ip: Ip, sport: u16, dport: u16, mid: seq<byte>,
                     flags: byte, rest: seq<byte>, snap: u32)
    requires |mid| == 9 && d == pre + EncodeTcp(sport, dport, mid, flags, rest)
    requires ip.proto == PR_TCP && ip.next == |pre|
    ensures Transport(d, ip, snap) ==
              if flags == TCPFL_SYN then ToTcp(ip.src, ip.dst, sport, dport) else Ignore
  {
    var o := |pre|;
    assert d[o..o + 2] == Enc16(sport);
    assert d[o + 2..o + 4] == Enc16(dport);
    assert d[o + 13] == flags;
    Be16At(d, o, sport);
    Be16At(d, o + 2, dport);
  }

  /** A whole UDP frame: the DNS payload starts at the Ethernet header
      length (14, or 18 with a tag) plus IHL times 4, plus 8. */
  lemma UdpFrameDispatch(macs: seq<byte>, vlan: Option<u16>, ihl: nat, mid: seq<byte>, cks: seq<byte>,
                         src: u32, dst: u32, opts: seq<byte>, sport: u16, dport: u16, lenck: seq<byte>,
                         payload: seq<byte>, snap: u32)
    requires |macs| == 12 && 5 <= ihl < 16 && |mid| == 8 && |cks| == 2 && |opts| == 4 * ihl - 20 && |lenck| == 4
    ensures var d := EncodeLink(macs, vlan, MAC_IP4)
                     + (EncodeIp(ihl, mid, PR_UDP, cks, src, dst, opts) + EncodeUdp(sport, dport, lenck, payload));
            Demux(d, snap) ==
              if sport == DNS_PORT || dport == DNS_PORT
              then ToDns(src, dst, sport, dport, payload, ToInt32(snap - (LinkLen(vlan) + 4 * ihl + 8)))
              else Ignore
  {
    var link := EncodeLink(macs, vlan, MAC_IP4);
    var ip := EncodeIp(ihl, mid, PR_UDP, cks, src, dst, opts);
    var udp := EncodeUdp(sport, dport, lenck, payload);
    var d := link + (ip + udp);
    LinkRoundTrip(d, macs, vlan, MAC_IP4, ip + udp);
    IpRoundTrip(d, link, ihl, mid, PR_UDP, cks, src, dst, opts, udp);
    assert d == (link + ip) + udp;
    UdpRoundTrip(d, link + ip, Ip(src, dst, PR_UDP, |link| + 4 * ihl), sport, dport, lenck, payload, snap);
  }

  /** A whole TCP frame: only a pure SYN is credited. */
  lemma TcpFrameDispatch(macs: seq<byte>, vlan: Option<u16>, ihl: nat, mid: seq<byte>, cks: seq<byte>,
                         src: u32, dst: u32, opts: seq<byte>, sport: u16, dport: u16, tmid: seq<byte>,
                         flags: byte, rest: seq<byte>, snap: u32)
    requires |macs| == 12 && 5 <= ihl < 16 && |mid| == 8 && |cks| == 2 && |opts| == 4 * ihl - 20 && |tmid| == 9
    ensures var d := EncodeLink(macs, vlan, MAC_IP4)
                     + (EncodeIp(ihl, mid, PR_TCP, cks, src, dst, opts) + EncodeTcp(sport, dport, tmid, flags, rest));
            Demux(d, snap) == if flags == TCPFL_SYN then ToTcp(src, dst, sport, dport) else Ignore
  {
    var link := EncodeLink(macs, vlan, MAC_IP4);
    var ip := EncodeIp(ihl, mid, PR_TCP, cks, src, dst, opts);
    var tcp := EncodeTcp(sport, dport, tmid, flags, rest);
    var d := link + (ip + tcp);
    LinkRoundTrip(d, macs, vlan, MAC_IP4, ip + tcp);
    IpRoundTrip(d, link, ihl, mid, PR_TCP, cks, src, dst, opts, tcp);
    assert d == (link + ip) + tcp;
    TcpRoundTrip(d, link + ip, Ip(src, dst, PR_TCP, |link| + 4 * ihl), sport, dport, tmid, flags, rest, snap);
  }

  /** A frame whose link layer is not IPv4 is dropped whatever follows. */
  lemma NonIpDropped(macs: seq<byte>, vlan: Option<u16>, ethertype: u16, rest: seq<byte>, snap: u32)
    requires |macs| == 12 && ethertype != MAC_IP4 && (vlan.None? ==> ethertype != MAC_DOT1Q)
    ensures Demux(EncodeLink(macs, vlan, ethertype) + rest, snap) == Ignore
  {
    LinkRoundTrip(EncodeLink(macs, vlan, ethertype) + rest, macs, vlan, ethertype, rest);
  }

  /* ---------------------------------------------------------------- */
  /* The loop state                                                     */
  /* ---------------------------------------------------------------- */

  /** The state main carries from record to record. */
  datatype Loop = Loop(tables: TableState, lastclean: u32, dlen: nat)

  function Initial(): (s: Loop)
    ensures WellFormed(s.tables) && Capacity(s.dlen)
  {
    EmptyTablesWellFormed();
    assert PowerOfTwo(INITIAL_BUFFER / INITIAL_BUFFER);
    Loop(EmptyTables(), 0, INITIAL_BUFFER)
  }

  /** The sweep runs when more than CLEAN_INTERVAL seconds (mod 2^32)
      have passed since the last one. */
  predicate SweepDue(sec: u32, lastclean: u32)
  {
    Sub32(sec, lastclean) > CLEAN_INTERVAL
  }

  /** Hand a decoded record to packet.c. */
  function Deliver(st: TableState, d: Dispatch, sec: u32, namefilt: Option<CString>): (st': TableState)
    requires Shaped(st)
    ensures Shaped(st')
  {
    match d
    case Ignore => st
    case ToDns(src, dst, sport, dport, payload, len) => ParseDns(st, src, dst, sport, dport, payload, len, sec, namefilt)
    case ToTcp(src, dst, sport, dport) => GotTcp(st, src, dst, dport)
  }

  /** One pass of the record loop over a record that main reads in full. */
  function Pass(s: Loop, hdr: PacketHeader, payload: seq<byte>, namefilt: Option<CString>): (s': Loop)
    requires Shaped(s.tables) && s.dlen > 0 && RecordStatus(hdr) == Ok
    ensures Shaped(s'.tables)
  {
    var dlen := Grown(s.dlen, hdr.reclen - RECORD_HEADER_SIZE);
    var swept := if SweepDue(hdr.sec, s.lastclean) then CleanDns(s.tables, hdr.sec) else s.tables;
    var lastclean := if SweepDue(hdr.sec, s.lastclean) then hdr.sec else s.lastclean;
    Loop(Deliver(swept, Demux(payload, hdr.snap), hdr.sec, namefilt), lastclean, dlen)
  }

  /** Every pass keeps the tables well formed and the buffer size one the
      doubling loop reaches without overflow, holding the payload. */
  lemma PassWellFormed(s: Loop, hdr: PacketHeader, payload: seq<byte>, namefilt: Option<CString>)
    requires WellFormed(s.tables) && Capacity(s.dlen) && RecordStatus(hdr) == Ok
    ensures WellFormed(Pass(s, hdr, payload, namefilt).tables)
    ensures Capacity(Pass(s, hdr, payload, namefilt).dlen)
    ensures Pass(s, hdr, payload, namefilt).dlen >= hdr.reclen - RECORD_HEADER_SIZE
  {
    var plen := hdr.reclen - RECORD_HEADER_SIZE;
    GrownFits(s.dlen, plen);
    GrownSpec(s.dlen, plen);
    var swept := if SweepDue(hdr.sec, s.lastclean) then CleanDns(s.tables, hdr.sec) else s.tables;
    if SweepDue(hdr.sec, s.lastclean) {
      CleanDnsWellFormed(s.tables, hdr.sec);
    }
    match Demux(payload, hdr.snap)
    case Ignore =>
    case ToDns(src, dst, sport, dport, p, len) => ParseDnsWellFormed(swept, src, dst, sport, dport, p, len, hdr.sec, namefilt);
    case ToTcp(src, dst, sport, dport) => GotTcpWellFormed(swept, src, dst, dport);
  }

  /** After a pass that swept, no record stamped within CLEAN_INTERVAL
      seconds of it sweeps again; after one that did not, `lastclean`
      has not moved. */
  lemma SweepSpacing(s: Loop, hdr: PacketHeader, payload: seq<byte>, namefilt: Option<CString>, sec': u32)
    requires Shaped(s.tables) && s.dlen > 0 && RecordStatus(hdr) == Ok
    ensures var s' := Pass(s, hdr, payload, namefilt);
            && (SweepDue(hdr.sec, s.lastclean) && Sub32(sec', hdr.sec) <= CLEAN_INTERVAL ==> !SweepDue(sec', s'.lastclean))
            && (!SweepDue(hdr.sec, s.lastclean) ==> s'.lastclean == s.lastclean)
  {
  }

  /** A record that is neither IPv4 UDP to or from port 53 nor a pure TCP
      SYN changes the tables only by the sweep. */
  lemma IgnoredOnlySweeps(s: Loop, hdr: PacketHeader, payload: seq<byte>, namefilt: Option<CString>)
    requires Shaped(s.tables) && s.dlen > 0 && RecordStatus(hdr) == Ok
    requires Demux(payload, hdr.snap) == Ignore
    ensures Pass(s, hdr, payload, namefilt).tables ==
              if SweepDue(hdr.sec, s.lastclean) then CleanDns(s.tables, hdr.sec) else s.tables
  {
  }

  /** main's loop state: the tables, `lastclean`, `dlen` and the buffer. */
  class Capture {
    var lastclean: u32
    var dlen: nat
    var data: array<byte>
    var tables: Correlator

    function Abstract(): Loop
      reads this, tables, tables.dnsreqs, tables.srvrecs, tables.backends
    {
      Loop(tables.State(), lastclean, dlen)
    }

    ghost predicate Valid()
      reads this, tables, tables.dnsreqs, tables.srvrecs, tables.backends
    {
      data.Length == dlen && Capacity(dlen) && tables.Valid()
    }

    /** The state after the file header is accepted: empty tables,
        `lastclean = 0` and a 512-byte buffer. */
    constructor ()
      ensures Valid() && Abstract() == Initial()
    {
      lastclean := 0;
      dlen := INITIAL_BUFFER;
      data := new byte[INITIAL_BUFFER];
      tables := new Correlator();
      new;
      assert Capacity(Initial().dlen);
    }

    /** `while (plen > dlen) { dlen *= 2; free(data); data = malloc(dlen); }` */
    method Grow(plen: int)
      requires dlen > 0 && data.Length == dlen
      modifies this
      ensures dlen == Grown(old(dlen), plen) && data.Length == dlen
      ensures dlen == old(dlen) ==> data == old(data)
      ensures dlen != old(dlen) ==> fresh(data)
      ensures tables == old(tables) && lastclean == old(lastclean)
    {
      while plen > dlen
        invariant dlen > 0 && data.Length == dlen
        invariant Grown(dlen, plen) == Grown(old(dlen), plen)
        invariant dlen == old(dlen) ==> data == old(data)
        invariant dlen != old(dlen) ==> fresh(data)
        invariant tables == old(tables) && lastclean == old(lastclean)
        decreases plen - dlen
      {
        dlen := 2 * dlen;
        data := new byte[dlen];
      }
    }

    /** The fread of the record's payload into the buffer. */
    method Load(payload: seq<byte>)
      requires |payload| <= data.Length
      modifies data
      ensures data[..|payload|] == payload
    {
      for i := 0 to |payload|
        invariant data[..i] == payload[..i]
      {
        data[i] := payload[i];
      }
    }

    /** One pass of main's record loop. On `Ok` the buffer holds the
        payload and the state is the one Step describes; otherwise main
        stops at this record and nothing changes. */
    method Record(hdr: PacketHeader, payload: seq<byte>, namefilt: Option<CString>) returns (status: Status)
      requires Valid()
      requires RecordStatus(hdr) == Ok ==> |payload| == hdr.reclen - RECORD_HEADER_SIZE
      modifies this, data, tables.dnsreqs, tables.srvrecs, tables.backends
      ensures Valid()
      ensures status == RecordStatus(hdr)
      ensures status == Ok ==> Abstract() == Pass(old(Abstract()), hdr, payload, namefilt)
      ensures status == Ok ==> |payload| <= data.Length && data[..|payload|] == payload
      ensures status != Ok ==> Abstract() == old(Abstract())
    {
      status := RecordStatus(hdr);
      if status != Ok {
        return;
      }
      ghost var s := Abstract();
      PassWellFormed(s, hdr, payload, namefilt);
      var plen := hdr.reclen - RECORD_HEADER_SIZE;
      Grow(plen);
      GrownSpec(s.dlen, plen);
      Load(payload);
      MaybeSweep(hdr.sec);
      ghost var swept := tables.State();
      var d := Demux(data[..plen], hdr.snap);
      assert d == Demux(payload, hdr.snap);
      DispatchRecord(d, hdr.sec, namefilt);
      assert tables.State() == Deliver(swept, Demux(payload, hdr.snap), hdr.sec, namefilt);
    }

    /** `if (hdr.sec - lastclean > 10) { clean_dns(hdr.sec); lastclean = hdr.sec; }` */
    method MaybeSweep(sec: u32)
      requires tables.Valid()
      modifies this, tables.dnsreqs
      ensures tables.Valid() && tables == old(tables) && dlen == old(dlen) && data == old(data)
      ensures tables.State() == if SweepDue(sec, old(lastclean)) then CleanDns(old(tables.State()), sec) else old(tables.State())
      ensures lastclean == if SweepDue(sec, old(lastclean)) then sec else old(lastclean)
    {
      if SweepDue(sec, lastclean) {
        tables.CleanDns(sec);
        lastclean := sec;
      }
    }

    /** The calls into packet.c that a decoded record makes. */
    method DispatchRecord(d: Dispatch, sec: u32, namefilt: Option<CString>)
      requires tables.Valid()
      modifies tables.dnsreqs, tables.srvrecs, tables.backends
      ensures tables.Valid()
      ensures tables.State() == Deliver(old(tables.State()), d, sec, namefilt)
    {
      match d
      case Ignore =>
      case ToDns(src, dst, sport, dport, p, len) =>
        ParseDnsPacket(tables, src, dst, sport, dport, p, len, sec, namefilt);
      case ToTcp(src, dst, sport, dport) =>
        tables.GotTcpConn(src, dst, sport, dport);
    }
  }
}
