/** parse_dns (packet.c): one captured UDP payload to or from port 53.
    A query is remembered as a pending request; a response that answers a
    pending request is walked record by record, and its A and SRV records
    update the backend and SRV target tables. */
module Dns {
  import opened Common
  import opened Hash
  import opened Ports
  import opened Tables
  import opened Names
  import opened Correlator

  const DNS_PORT: u16 := 53
  const HEADER_SIZE: nat := 12
  /** The record class and types parse_dns looks at (enums.h). */
  const CLASS_IN: u16 := 1
  const TYPE_A: u16 := 1
  const TYPE_CNAME: u16 := 5
  const TYPE_SRV: u16 := 0x21
  /** Packets claiming more questions or answers than this are ignored. */
  const MAX_QUESTIONS: nat := 1
  const MAX_ANSWERS: nat := 1000

  /** The four counts and the id of the 12-byte header (the flags are skipped). */
  datatype Header = Header(qid: u16, qc: u16, ac: u16, nc: u16, ec: u16)

  function ReadHeader(data: seq<byte>): Header
    requires |data| >= HEADER_SIZE
  {
    Header(Be16(data, 0), Be16(data, 4), Be16(data, 6), Be16(data, 8), Be16(data, 10))
  }

  /** A name read into one of the 256-byte buffers. */
  function DecodeName(data: seq<byte>, off: nat, len: int): NameResult
  {
    ReadName(data, off, len, NAME_SIZE, [], NameFuel(data))
  }

  /** A decoded name as the C string strcmp and strstr see, and the offset after it. */
  datatype Field = Field(name: CString, next: nat)

  /** read_nsname into a 256-byte buffer at `off`; None when it fails. */
  function ReadNameAt(data: seq<byte>, off: nat, len: int): (f: Option<Field>)
    ensures f.Some? ==> |f.value.name| < NAME_SIZE && f.value.next >= off
  {
    var res := DecodeName(data, off, len);
    if res.Name? then Some(Field(NameString(res), res.next)) else None
  }

  // ---------------------------------------------------------------------
  // Queries

  /** The request a query packet is tracked as, or None when the question
      does not decode, is cut short, is not class IN type A or SRV, or does
      not contain the name filter. */
  function QueryEntry(src: u32, dst: u32, sport: u16, data: seq<byte>, len: int, time: u32,
                      namefilt: Option<CString>): (r: Option<DnsReq>)
    requires |data| >= HEADER_SIZE
    ensures var q := ReadNameAt(data, HEADER_SIZE, len);
            r.Some? <==>
              && q.Some? && InBounds(data, q.value.next, 4)
              && Be16(data, q.value.next + 2) == CLASS_IN
              && (Be16(data, q.value.next) == TYPE_A || Be16(data, q.value.next) == TYPE_SRV)
              && (namefilt.Some? ==> Contains(q.value.name, namefilt.value))
    ensures r.Some? ==>
              && ReadNameAt(data, HEADER_SIZE, len).Some?
              && r.value == DnsReq(ReadHeader(data).qid, src, dst, sport, time, ReadNameAt(data, HEADER_SIZE, len).value.name)
              && (namefilt.Some? ==> Contains(r.value.name, namefilt.value))
  {
    var q := ReadNameAt(data, HEADER_SIZE, len);
    if q.None? || !InBounds(data, q.value.next, 4) then None
    else
      var qtype, qclass := Be16(data, q.value.next), Be16(data, q.value.next + 2);
      var name := q.value.name;
      if qclass != CLASS_IN || (qtype != TYPE_A && qtype != TYPE_SRV) then None
      else if namefilt.Some? && !Contains(name, namefilt.value) then None
      else Some(DnsReq(ReadHeader(data).qid, src, dst, sport, time, name))
  }

  // ---------------------------------------------------------------------
  // Responses

  /** The section being walked (`enum nspos`; the loop never sees NSP_QUESTION). */
  datatype Section = Answer | Authority | Additional

  /** The loop state of the record walk: `off`, `pos`, the remaining
      counts and `srv`. `srv` stands for the pointer find_srv_target
      returned: the target it was found under, or None for NULL. */
  datatype Cursor = Cursor(off: nat, pos: Section, ac: u16, nc: u16, ec: u16, srv: Option<CString>)

  /** The tables after one record, and the cursor for the next one (None
      when the walk ends). */
  datatype Step = Step(st: TableState, next: Option<Cursor>)

  /** find_srv_target as the walk records it. */
  function SrvKey(st: TableState, name: CString): (k: Option<CString>)
    requires Shaped(st)
    ensures k.Some? <==> FindSrv(st, name).Some?
    ensures k.Some? ==> k.value == name
  {
    if FindSrv(st, name).Some? then Some(name) else None
  }

  /** The record `srv` points at, as it is now. */
  function SrvOf(st: TableState, key: Option<CString>): Option<SrvRec>
    requires Shaped(st)
  {
    if key.None? then None else FindSrv(st, key.value)
  }

  /** The `switch (pos)` after a record: `--ac <= 0` etc. on uint16_t, so
      a count of 0 wraps to 65535 and the section goes on; the additional
      count reaching 0 ends the walk. */
  function Advance(cur: Cursor, off: nat, srv: Option<CString>): (next: Option<Cursor>)
    ensures next.Some? ==> next.value.off == off && next.value.srv == srv
    ensures cur.pos == Answer ==>
              && next.Some?
              && next.value.pos == (if cur.ac == 1 then Authority else Answer)
              && next.value.ac == (if cur.ac == 0 then 0xffff else cur.ac - 1)
              && next.value.nc == cur.nc && next.value.ec == cur.ec
    ensures cur.pos == Authority ==>
              && next.Some?
              && next.value.pos == (if cur.nc == 1 then Additional else Authority)
              && next.value.nc == (if cur.nc == 0 then 0xffff else cur.nc - 1)
              && next.value.ac == cur.ac && next.value.ec == cur.ec
    ensures cur.pos == Additional ==>
              && (next.None? <==> cur.ec == 1)
              && (next.Some? ==>
                    && next.value.pos == Additional
                    && next.value.ec == (if cur.ec == 0 then 0xffff else cur.ec - 1)
                    && next.value.ac == cur.ac && next.value.nc == cur.nc)
  {
    match cur.pos
    case Answer =>
      var ac := Sub16(cur.ac, 1);
      Some(Cursor(off, if ac == 0 then Authority else Answer, ac, cur.nc, cur.ec, srv))
    case Authority =>
      var nc := Sub16(cur.nc, 1);
      Some(Cursor(off, if nc == 0 then Additional else Authority, cur.ac, nc, cur.ec, srv))
    case Additional =>
      var ec := Sub16(cur.ec, 1);
      if ec == 0 then None else Some(Cursor(off, Additional, cur.ac, cur.nc, ec, srv))
  }

  /** Whether the A record leads to make_backend: with several answers, or
      a name known as an SRV target. `ac` is the count still remaining. */
  predicate WantsA(rtype: u16, cur: Cursor, srv: Option<CString>)
  {
    rtype == TYPE_A && (cur.ac > 1 || srv.Some?)
  }

  /** The fixed part of a resource record: owner name, type, class, the
      data length and where the data starts (the TTL is skipped). */
  datatype RecordHead = RecordHead(name: CString, rtype: u16, rclass: u16, rlen: u16, rdata: nat)

  /** The owner name and the ten bytes after it, or None when the name
      does not decode or the bytes run past the capture. */
  function ReadRecordHead(data: seq<byte>, off: nat, len: int): (r: Option<RecordHead>)
    ensures r.Some? ==> r.value.rdata >= off + 10 && |r.value.name| < NAME_SIZE
  {
    var f := ReadNameAt(data, off, len);
    if f.None? || !InBounds(data, f.value.next, 10) then None
    else
      var o := f.value.next;
      Some(RecordHead(f.value.name, Be16(data, o), Be16(data, o + 2), Be16(data, o + 8), o + 10))
  }

  /** The port and target of an SRV record's data (the priority and
      weight before them are skipped). */
  datatype SrvData = SrvData(port: u16, target: CString)

  function ReadSrvData(data: seq<byte>, rdata: nat, len: int): (r: Option<SrvData>)
    ensures r.Some? ==> |r.value.target| < NAME_SIZE
  {
    if !InBounds(data, rdata + 4, 2) then None
    else
      var t := ReadNameAt(data, rdata + 6, len);
      if t.None? then None else Some(SrvData(Be16(data, rdata + 4), t.value.name))
  }

  /** What an A or SRV record does to the tables; None when its data
      cannot be read, which ends the walk. `srv` is the SRV context for
      this record. */
  function RecordEffect(st: TableState, dst: u32, data: seq<byte>, len: int, cur: Cursor,
                        rr: RecordHead, srv: Option<CString>): (r: Option<TableState>)
    requires Shaped(st)
    ensures r.Some? ==> Shaped(r.value) && r.value.dnsreqs == st.dnsreqs
  {
    if WantsA(rr.rtype, cur, srv) then
      if !InBounds(data, rr.rdata, 4) then None
      else Some(Tables.MakeBackend(st, dst, Be32(data, rr.rdata), rr.name, SrvOf(st, srv)))
    else if rr.rtype == TYPE_SRV then
      var d := ReadSrvData(data, rr.rdata, len);
      if d.None? then None else Some(SawSrv(st, d.value.target, d.value.port, rr.name))
    else Some(st)
  }

  /** One iteration of the record loop at `cur.off`: a class other than
      IN, a CNAME of a single answer without SRV context, or a read that
      fails ends the walk. Outside the answers the SRV context is looked up
      again under the record's own name. */
  function RecordStep(st: TableState, dst: u32, data: seq<byte>, len: int, cur: Cursor): (s: Step)
    requires Shaped(st)
    ensures Shaped(s.st)
    ensures s.next.Some? ==> s.next.value.off > cur.off
    ensures s.st.dnsreqs == st.dnsreqs
  {
    StepWith(st, dst, data, len, cur, ReadRecordHead(data, cur.off, len))
  }

  /** The record loop's body once the record's fixed part `rr` is read. */
  function StepWith(st: TableState, dst: u32, data: seq<byte>, len: int, cur: Cursor,
                    rr: Option<RecordHead>): (s: Step)
    requires Shaped(st)
    requires rr.Some? ==> rr.value.rdata >= cur.off + 10
    ensures Shaped(s.st)
    ensures s.next.Some? ==> s.next.value.off > cur.off
    ensures s.st.dnsreqs == st.dnsreqs
  {
    if rr.None? || rr.value.rclass != CLASS_IN then Step(st, None)
    else
      var srv := if cur.pos != Answer then SrvKey(st, rr.value.name) else cur.srv;
      if rr.value.rtype == TYPE_CNAME && cur.ac <= 1 && srv.None? then Step(st, None)
      else
        var e := RecordEffect(st, dst, data, len, cur, rr.value, srv);
        if e.None? then Step(st, None)
        else Step(e.value, Advance(cur, rr.value.rdata + rr.value.rlen, srv))
  }

  /** The record loop `while (off < len)`. */
  function Records(st: TableState, dst: u32, data: seq<byte>, len: int, cur: Cursor): (st': TableState)
    requires Shaped(st)
    ensures Shaped(st')
    decreases len - cur.off
  {
    if cur.off >= len then st
    else
      var s := RecordStep(st, dst, data, len, cur);
      if s.next.None? then s.st else Records(s.st, dst, data, len, s.next.value)
  }

  /** A response: the question must match a pending request, which is
      unlinked; then the answers and the records after them are walked,
      starting with the SRV target known for the question name. */
  function Response(st: TableState, src: u32, dst: u32, dport: u16, data: seq<byte>, len: int): TableState
    requires Shaped(st) && |data| >= HEADER_SIZE
  {
    var h := ReadHeader(data);
    var q := ReadNameAt(data, HEADER_SIZE, len);
    if q.None? then st
    else
      var name := q.value.name;
      var t := TakeReq(st, h.qid, src, dst, dport, name);
      if t.None? then st
      else Records(t.value, dst, data, len, Cursor(q.value.next + 4, Answer, h.ac, h.nc, h.ec, SrvKey(t.value, name)))
  }

  /** Whether parse_dns gets past its header checks. */
  predicate HeaderOk(data: seq<byte>, len: int)
  {
    len >= HEADER_SIZE && |data| >= HEADER_SIZE
    && ReadHeader(data).qc <= MAX_QUESTIONS && ReadHeader(data).ac <= MAX_ANSWERS
  }

  predicate IsQuery(data: seq<byte>, dport: u16)
    requires |data| >= HEADER_SIZE
  {
    dport == DNS_PORT && ReadHeader(data).qc == 1
  }

  predicate IsResponse(data: seq<byte>, sport: u16, dport: u16)
    requires |data| >= HEADER_SIZE
  {
    !IsQuery(data, dport) && sport == DNS_PORT && ReadHeader(data).ac != 0
  }

  /** parse_dns(src, dst, sport, dport, data, len, time) with the global
      name filter `namefilt`: the tables after the packet. */
  function ParseDns(st: TableState, src: u32, dst: u32, sport: u16, dport: u16,
                    data: seq<byte>, len: int, time: u32, namefilt: Option<CString>): (st': TableState)
    requires Shaped(st)
    ensures Shaped(st')
  {
    if !HeaderOk(data, len) then st
    else if IsQuery(data, dport) then
      var r := QueryEntry(src, dst, sport, data, len, time, namefilt);
      if r.None? then st else AddReq(st, r.value)
    else if IsResponse(data, sport, dport) then Response(st, src, dst, dport, data, len)
    else st
  }

  // ---------------------------------------------------------------------
  // Properties

  /** Only a packet that passes the header checks and is a query or a
      response can change the tables. */
  lemma ParseDnsNeedsHeader(st: TableState, src: u32, dst: u32, sport: u16, dport: u16,
                            data: seq<byte>, len: int, time: u32, namefilt: Option<CString>)
    requires Shaped(st)
    requires ParseDns(st, src, dst, sport, dport, data, len, time, namefilt) != st
    ensures len >= HEADER_SIZE && |data| >= HEADER_SIZE
    ensures ReadHeader(data).qc <= MAX_QUESTIONS && ReadHeader(data).ac <= MAX_ANSWERS
    ensures IsQuery(data, dport) || IsResponse(data, sport, dport)
  {
  }

  /** A query is tracked exactly when QueryEntry accepts it: it is pushed
      at the head of its bucket and nothing else changes. */
  lemma QueryTracked(st: TableState, src: u32, dst: u32, sport: u16, dport: u16,
                     data: seq<byte>, len: int, time: u32, namefilt: Option<CString>)
    requires WellFormed(st) && HeaderOk(data, len) && IsQuery(data, dport)
    ensures var st' := ParseDns(st, src, dst, sport, dport, data, len, time, namefilt);
            var r := QueryEntry(src, dst, sport, data, len, time, namefilt);
            && (st' != st <==> r.Some?)
            && st'.srvrecs == st.srvrecs && st'.backends == st.backends
            && (r.Some? ==> var h := DHash(src, ReadHeader(data).qid);
                            && st'.dnsreqs[h] == [r.value] + st.dnsreqs[h]
                            && forall g :: 0 <= g < BUCKETS && g != h ==> st'.dnsreqs[g] == st.dnsreqs[g])
  {
    var r := QueryEntry(src, dst, sport, data, len, time, namefilt);
    if r.Some? {
      var h := DHash(src, ReadHeader(data).qid);
      var st' := AddReq(st, r.value);
      assert |st'.dnsreqs[h]| != |st.dnsreqs[h]|;
    }
  }

  /** The record walk never touches the pending requests. */
  lemma {:induction false} RecordsKeepRequests(st: TableState, dst: u32, data: seq<byte>, len: int, cur: Cursor)
    requires Shaped(st)
    ensures Records(st, dst, data, len, cur).dnsreqs == st.dnsreqs
    decreases len - cur.off
  {
    if cur.off < len {
      var s := RecordStep(st, dst, data, len, cur);
      if s.next.Some? {
        RecordsKeepRequests(s.st, dst, data, len, s.next.value);
      }
    }
  }

  /** A response changes the tables only when its question decodes and
      matches a pending request; then exactly that request is unlinked and
      every other pending request is kept. */
  lemma ResponseUnlinks(st: TableState, src: u32, dst: u32, sport: u16, dport: u16,
                        data: seq<byte>, len: int, time: u32, namefilt: Option<CString>)
    requires WellFormed(st) && HeaderOk(data, len) && IsResponse(data, sport, dport)
    ensures var st' := ParseDns(st, src, dst, sport, dport, data, len, time, namefilt);
            var q := ReadNameAt(data, HEADER_SIZE, len);
            var t := if q.Some? then TakeReq(st, ReadHeader(data).qid, src, dst, dport, q.value.name) else None;
            && (t.None? ==> st' == st)
            && (t.Some? ==> st'.dnsreqs == t.value.dnsreqs)
  {
    var h := ReadHeader(data);
    var q := ReadNameAt(data, HEADER_SIZE, len);
    if q.Some? {
      var name := q.value.name;
      var t := TakeReq(st, h.qid, src, dst, dport, name);
      if t.Some? {
        RecordsKeepRequests(t.value, dst, data, len, Cursor(q.value.next + 4, Answer, h.ac, h.nc, h.ec, SrvKey(t.value, name)));
      }
    }
  }

  /** An A or SRV record keeps the tables well formed: SRV target names
      come from a 256-byte buffer and a found SRV record has 16 slots. */
  lemma RecordEffectWellFormed(st: TableState, dst: u32, data: seq<byte>, len: int, cur: Cursor,
                               rr: RecordHead, srv: Option<CString>)
    requires WellFormed(st) && |rr.name| < NAME_SIZE
    ensures var e := RecordEffect(st, dst, data, len, cur, rr, srv);
            e.Some? ==> WellFormed(e.value)
  {
    if WantsA(rr.rtype, cur, srv) {
      if InBounds(data, rr.rdata, 4) {
        var b := SrvOf(st, srv);
        assert RecordEffect(st, dst, data, len, cur, rr, srv) == Some(Tables.MakeBackend(st, dst, Be32(data, rr.rdata), rr.name, b));
        if srv.Some? {
          FindSrvOk(st, srv.value);
        }
        MakeBackendWellFormed(st, dst, Be32(data, rr.rdata), rr.name, b);
      }
    } else if rr.rtype == TYPE_SRV {
      var d := ReadSrvData(data, rr.rdata, len);
      if d.Some? {
        SawSrvWellFormed(st, d.value.target, d.value.port, rr.name);
      }
    }
  }

  lemma RecordStepWellFormed(st: TableState, dst: u32, data: seq<byte>, len: int, cur: Cursor)
    requires WellFormed(st)
    ensures WellFormed(RecordStep(st, dst, data, len, cur).st)
  {
    var rr := ReadRecordHead(data, cur.off, len);
    if rr.Some? && rr.value.rclass == CLASS_IN {
      var srv := if cur.pos != Answer then SrvKey(st, rr.value.name) else cur.srv;
      RecordEffectWellFormed(st, dst, data, len, cur, rr.value, srv);
    }
  }

  lemma {:induction false} RecordsWellFormed(st: TableState, dst: u32, data: seq<byte>, len: int, cur: Cursor)
    requires WellFormed(st)
    ensures WellFormed(Records(st, dst, data, len, cur))
    decreases len - cur.off
  {
    if cur.off < len {
      var s := RecordStep(st, dst, data, len, cur);
      RecordStepWellFormed(st, dst, data, len, cur);
      if s.next.Some? {
        RecordsWellFormed(s.st, dst, data, len, s.next.value);
      }
    }
  }

  /** parse_dns keeps every table invariant. */
  lemma ParseDnsWellFormed(st: TableState, src: u32, dst: u32, sport: u16, dport: u16,
                           data: seq<byte>, len: int, time: u32, namefilt: Option<CString>)
    requires WellFormed(st)
    ensures WellFormed(ParseDns(st, src, dst, sport, dport, data, len, time, namefilt))
  {
    if HeaderOk(data, len) {
      if IsQuery(data, dport) {
        var r := QueryEntry(src, dst, sport, data, len, time, namefilt);
        if r.Some? {
          AddReqWellFormed(st, r.value);
        }
      } else if IsResponse(data, sport, dport) {
        ResponseWellFormed(st, src, dst, dport, data, len);
      }
    }
  }

  lemma ResponseWellFormed(st: TableState, src: u32, dst: u32, dport: u16, data: seq<byte>, len: int)
    requires WellFormed(st) && |data| >= HEADER_SIZE
    ensures WellFormed(Response(st, src, dst, dport, data, len))
  {
    var h := ReadHeader(data);
    var q := ReadNameAt(data, HEADER_SIZE, len);
    if q.Some? {
      var name := q.value.name;
      var t := TakeReq(st, h.qid, src, dst, dport, name);
      if t.Some? {
        TakeReqUnlinksOne(st, h.qid, src, dst, dport, name);
        RecordsWellFormed(t.value, dst, data, len, Cursor(q.value.next + 4, Answer, h.ac, h.nc, h.ec, SrvKey(t.value, name)));
      }
    }
  }

  /** The `srv` pointer never dangles: SRV records are never freed, and a
      record found for a target is found again after saw_srv_target. */
  lemma SrvTargetPersists(st: TableState, key: CString, target: CString, port: u16, name: CString)
    requires WellFormed(st) && |target| < NAME_SIZE && FindSrv(st, key).Some?
    ensures FindSrv(SawSrv(st, target, port, name), key).Some?
  {
    var h := SHash(key);
    var chain := st.srvrecs[h];
    var i := FindSrvIn(chain, key);
    var st' := SawSrv(st, target, port, name);
    var c' := st'.srvrecs[h];
    if SHash(target) == h {
      var j := FindSrvIn(chain, target);
      if j >= 0 {
        assert c' == chain[j := chain[j].(ports := AddPort(chain[j].ports, port).ports)];
        assert c'[i].target == key;
      } else {
        assert c' == [NewSrv(target, port, name)] + chain;
        assert c'[i + 1].target == key;
      }
    }
  }

  /** The rules of the record loop for one record whose fixed part reads
      back: a class other than IN ends the walk; so does a CNAME when at
      most one answer remains and there is no SRV context; an A record
      without SRV context and with at most one answer remaining (in
      particular the only answer) changes nothing; otherwise an A record is
      make_backend keyed on the response's destination and the address, and
      an SRV record is saw_srv_target of its target and port. */
  lemma RecordRules(st: TableState, dst: u32, data: seq<byte>, len: int, cur: Cursor)
    requires Shaped(st) && ReadRecordHead(data, cur.off, len).Some?
    ensures var rr := ReadRecordHead(data, cur.off, len).value;
            var srv := if cur.pos != Answer then SrvKey(st, rr.name) else cur.srv;
            var s := RecordStep(st, dst, data, len, cur);
            && (rr.rclass != CLASS_IN ==> s == Step(st, None))
            && (rr.rclass == CLASS_IN && rr.rtype == TYPE_CNAME && cur.ac <= 1 && srv.None? ==> s == Step(st, None))
            && (rr.rclass == CLASS_IN && rr.rtype == TYPE_A && cur.ac <= 1 && srv.None? ==> s.st == st)
            && (rr.rclass == CLASS_IN && rr.rtype == TYPE_A && (cur.ac > 1 || srv.Some?) && InBounds(data, rr.rdata, 4) ==>
                  s.st == Tables.MakeBackend(st, dst, Be32(data, rr.rdata), rr.name, SrvOf(st, srv)))
            && (rr.rclass == CLASS_IN && rr.rtype == TYPE_SRV && ReadSrvData(data, rr.rdata, len).Some? ==>
                  var d := ReadSrvData(data, rr.rdata, len).value;
                  s.st == SawSrv(st, d.target, d.port, rr.name))
  {
    var rr := ReadRecordHead(data, cur.off, len);
    assert RecordStep(st, dst, data, len, cur) == StepWith(st, dst, data, len, cur, rr);
  }

  /** Once the walk has left the answers, a zero authority count wraps to
      65535 rather than moving on to the additional records. */
  lemma AuthorityCountWraps(off: nat, ac: u16, ec: u16, srv: Option<CString>)
    ensures Advance(Cursor(off, Authority, ac, 0, ec, srv), off, srv)
            == Some(Cursor(off, Authority, ac, 0xffff, ec, srv))
  {
  }

  /** Likewise a zero additional count wraps to 65535, and the walk goes on
      instead of ending. */
  lemma AdditionalCountWraps(off: nat, ac: u16, nc: u16, srv: Option<CString>)
    ensures Advance(Cursor(off, Additional, ac, nc, 0, srv), off, srv)
            == Some(Cursor(off, Additional, ac, nc, 0xffff, srv))
  {
  }

  // ---------------------------------------------------------------------
  // A query packet built from its parts

  /** The 12-byte header with the given counts and flags. */
  function EncodeHeader(h: Header, flags: u16): (e: seq<byte>)
    ensures |e| == HEADER_SIZE
  {
    Enc16(h.qid) + Enc16(flags) + Enc16(h.qc) + Enc16(h.ac) + Enc16(h.nc) + Enc16(h.ec)
  }

  lemma ReadEncodedHeader(data: seq<byte>, h: Header, flags: u16, rest: seq<byte>)
    requires data == EncodeHeader(h, flags) + rest
    ensures |data| >= HEADER_SIZE && ReadHeader(data) == h
  {
    Be16At(data, 0, h.qid);
    Be16At(data, 4, h.qc);
    Be16At(data, 6, h.ac);
    Be16At(data, 8, h.nc);
    Be16At(data, 10, h.ec);
  }

  /** A query packet: header, question name, type and class IN, then any bytes. */
  function QueryPacket(h: Header, flags: u16, labels: seq<seq<byte>>, qtype: u16, rest: seq<byte>): seq<byte>
    requires ValidLabels(labels)
  {
    EncodeHeader(h, flags) + (EncodeName(labels) + (Enc16(qtype) + Enc16(CLASS_IN) + rest))
  }

  /** A well-formed query for a name asking for an A or SRV record, sent
      to port 53 with no name filter, is tracked under that name with the
      dotted labels as its text. */
  lemma QueryRoundTrip(st: TableState, src: u32, dst: u32, sport: u16, time: u32,
                       h: Header, flags: u16, labels: seq<seq<byte>>, qtype: u16, rest: seq<byte>)
    requires WellFormed(st) && h.qc == 1 && h.ac <= MAX_ANSWERS
    requires ValidLabels(labels) && |Dotted(labels)| < NAME_SIZE - 1
    requires qtype == TYPE_A || qtype == TYPE_SRV
    ensures var data := QueryPacket(h, flags, labels, qtype, rest);
            ParseDns(st, src, dst, sport, DNS_PORT, data, |data|, time, None)
              == AddReq(st, DnsReq(h.qid, src, dst, sport, time, CStr(Dotted(labels))))
  {
    var data := QueryPacket(h, flags, labels, qtype, rest);
    QueryPacketEntry(data, src, dst, sport, time, h, flags, labels, qtype, rest);
  }

  /** The header and the pending-query entry read from a query packet. */
  lemma QueryPacketEntry(data: seq<byte>, src: u32, dst: u32, sport: u16, time: u32,
                         h: Header, flags: u16, labels: seq<seq<byte>>, qtype: u16, rest: seq<byte>)
    requires ValidLabels(labels) && |Dotted(labels)| < NAME_SIZE - 1
    requires qtype == TYPE_A || qtype == TYPE_SRV
    requires data == QueryPacket(h, flags, labels, qtype, rest)
    ensures |data| >= HEADER_SIZE && ReadHeader(data) == h
    ensures QueryEntry(src, dst, sport, data, |data|, time, None) == Some(DnsReq(h.qid, src, dst, sport, time, CStr(Dotted(labels))))
  {
    var e := EncodeName(labels);
    var post := Enc16(qtype) + Enc16(CLASS_IN) + rest;
    ReadEncodedHeader(data, h, flags, e + post);
    QuestionNameAt(data, EncodeHeader(h, flags), labels, post);
    var next := HEADER_SIZE + |e|;
    assert data == (EncodeHeader(h, flags) + e) + post;
    QuestionTailAt(data, EncodeHeader(h, flags) + e, qtype, rest);
    QueryEntryAt(src, dst, sport, data, time, CStr(Dotted(labels)), next);
  }

  /** The question type and class IN after the name read back. */
  lemma QuestionTailAt(data: seq<byte>, pre: seq<byte>, qtype: u16, rest: seq<byte>)
    requires data == pre + (Enc16(qtype) + Enc16(CLASS_IN) + rest)
    ensures InBounds(data, |pre|, 4) && Be16(data, |pre|) == qtype && Be16(data, |pre| + 2) == CLASS_IN
  {
    var post := Enc16(qtype) + Enc16(CLASS_IN) + rest;
    var next := |pre|;
    assert data[next] == post[0] && data[next + 1] == post[1];
    assert data[next + 2] == post[2] && data[next + 3] == post[3];
    Be16At(data, next, qtype);
    Be16At(data, next + 2, CLASS_IN);
  }

  /** The query entry built when the name and the type and class check out. */
  lemma QueryEntryAt(src: u32, dst: u32, sport: u16, data: seq<byte>, time: u32, name: CString, next: nat)
    requires |data| >= HEADER_SIZE && ReadNameAt(data, HEADER_SIZE, |data|) == Some(Field(name, next))
    requires InBounds(data, next, 4) && Be16(data, next + 2) == CLASS_IN
    requires Be16(data, next) == TYPE_A || Be16(data, next) == TYPE_SRV
    ensures QueryEntry(src, dst, sport, data, |data|, time, None) == Some(DnsReq(ReadHeader(data).qid, src, dst, sport, time, name))
  {
  }

  /** The question name of such a packet decodes to the dotted labels. */
  lemma QuestionNameAt(data: seq<byte>, pre: seq<byte>, labels: seq<seq<byte>>, post: seq<byte>)
    requires |pre| == HEADER_SIZE && ValidLabels(labels) && |Dotted(labels)| < NAME_SIZE - 1
    requires data == pre + (EncodeName(labels) + post)
    ensures ReadNameAt(data, HEADER_SIZE, |data|) == Some(Field(CStr(Dotted(labels)), HEADER_SIZE + |EncodeName(labels)|))
  {
    var e := EncodeName(labels);
    assert data[HEADER_SIZE..HEADER_SIZE + |e|] == e;
    ReadEncodedName(data, HEADER_SIZE, labels, |data|, NAME_SIZE, [], NameFuel(data));
    assert [] + Dotted(labels) == Dotted(labels);
  }

  // ---------------------------------------------------------------------
  // The imperative parser over the tables

  /** parse_dns over the tables of `c`. */
  method ParseDnsPacket(c: Correlator, src: u32, dst: u32, sport: u16, dport: u16,
                        data: seq<byte>, len: int, time: u32, namefilt: Option<CString>)
    requires c.Valid()
    modifies c.dnsreqs, c.srvrecs, c.backends
    ensures c.Valid()
    ensures c.State() == ParseDns(old(c.State()), src, dst, sport, dport, data, len, time, namefilt)
  {
    if len < HEADER_SIZE || |data| < HEADER_SIZE {
      return;
    }
    var h := ReadHeader(data);
    if h.qc > MAX_QUESTIONS || h.ac > MAX_ANSWERS {
      return;
    }
    if dport == DNS_PORT && h.qc == 1 {
      ParseQuery(c, src, dst, sport, data, len, time, namefilt);
    } else if sport == DNS_PORT && h.ac != 0 {
      ParseResponse(c, src, dst, dport, data, len);
    }
  }

  /** The query branch: the question is read straight into the new entry's
      name buffer. */
  method ParseQuery(c: Correlator, src: u32, dst: u32, sport: u16,
                    data: seq<byte>, len: int, time: u32, namefilt: Option<CString>)
    requires c.Valid() && |data| >= HEADER_SIZE
    modifies c.dnsreqs
    ensures c.Valid()
    ensures var r := QueryEntry(src, dst, sport, data, len, time, namefilt);
            c.State() == (if r.None? then old(c.State()) else AddReq(old(c.State()), r.value))
  {
    var name := new byte[NAME_SIZE];
    var q := ReadNameInto(data, HEADER_SIZE, len, name);
    if q.None? || !InBounds(data, q.value.next, 4) {
      return;
    }
    var qtype, qclass := Be16(data, q.value.next), Be16(data, q.value.next + 2);
    var qname := q.value.name;
    if qclass != CLASS_IN || (qtype != TYPE_A && qtype != TYPE_SRV) {
      return;
    }
    if namefilt.Some? && !Contains(qname, namefilt.value) {
      return;
    }
    c.AddQuery(DnsReq(ReadHeader(data).qid, src, dst, sport, time, qname));
  }

  /** The response branch: match and unlink the request, then the record loop. */
  method ParseResponse(c: Correlator, src: u32, dst: u32, dport: u16, data: seq<byte>, len: int)
    requires c.Valid() && |data| >= HEADER_SIZE
    modifies c.dnsreqs, c.srvrecs, c.backends
    ensures c.Valid()
    ensures c.State() == Response(old(c.State()), src, dst, dport, data, len)
  {
    var h := ReadHeader(data);
    var name := new byte[NAME_SIZE];
    var q := ReadNameInto(data, HEADER_SIZE, len, name);
    if q.None? {
      return;
    }
    var qname := q.value.name;
    var found := c.TakeQuery(h.qid, src, dst, dport, qname);
    if !found {
      return;
    }
    var srv := c.FindSrvTarget(qname);
    var cur := Cursor(q.value.next + 4, Answer, h.ac, h.nc, h.ec, if srv.Some? then Some(qname) else None);
    WalkRecords(c, dst, data, len, cur, name);
  }

  /** The record loop `while (off < len)` of the response branch. */
  method WalkRecords(c: Correlator, dst: u32, data: seq<byte>, len: int, start: Cursor, name: array<byte>)
    requires c.Valid() && name.Length == NAME_SIZE
    modifies c.srvrecs, c.backends, name
    ensures c.Valid()
    ensures c.State() == Records(old(c.State()), dst, data, len, start)
  {
    var cur := start;
    ghost var final := Records(c.State(), dst, data, len, cur);
    while cur.off < len
      invariant c.Valid()
      invariant name.Length == NAME_SIZE
      invariant Records(c.State(), dst, data, len, cur) == final
      decreases len - cur.off
    {
      var next := ParseRecord(c, dst, data, len, cur, name);
      if next.None? {
        return;
      }
      cur := next.value;
    }
  }

  /** One iteration of the record loop; `name` is the response's name buffer. */
  method ParseRecord(c: Correlator, dst: u32, data: seq<byte>, len: int, cur: Cursor, name: array<byte>)
    returns (next: Option<Cursor>)
    requires c.Valid() && name.Length == NAME_SIZE
    modifies c.srvrecs, c.backends, name
    ensures c.Valid()
    ensures var s := RecordStep(old(c.State()), dst, data, len, cur);
            next == s.next && c.State() == s.st
  {
    var rr := ReadHead(data, cur.off, len, name);
    next := ProcessRecord(c, dst, data, len, cur, rr);
  }

  /** The record loop's body after the fixed part of the record is read. */
  method ProcessRecord(c: Correlator, dst: u32, data: seq<byte>, len: int, cur: Cursor, rr: Option<RecordHead>)
    returns (next: Option<Cursor>)
    requires c.Valid()
    requires rr.Some? ==> rr.value.rdata >= cur.off + 10 && |rr.value.name| < NAME_SIZE
    modifies c.srvrecs, c.backends
    ensures c.Valid()
    ensures var s := StepWith(old(c.State()), dst, data, len, cur, rr);
            next == s.next && c.State() == s.st
  {
    if rr.None? || rr.value.rclass != CLASS_IN {
      return None;
    }
    var srv := cur.srv;
    if cur.pos != Answer {
      var found := c.FindSrvTarget(rr.value.name);
      srv := if found.Some? then Some(rr.value.name) else None;
    }
    if rr.value.rtype == TYPE_CNAME && cur.ac <= 1 && srv.None? {
      return None;
    }
    var ok := ApplyRecord(c, dst, data, len, cur, rr.value, srv);
    if !ok {
      return None;
    }
    next := Advance(cur, rr.value.rdata + rr.value.rlen, srv);
  }

  /** The owner name is read into `name`; the fixed fields follow it. */
  method ReadHead(data: seq<byte>, off: nat, len: int, name: array<byte>) returns (rr: Option<RecordHead>)
    requires name.Length == NAME_SIZE
    modifies name
    ensures rr == ReadRecordHead(data, off, len)
  {
    var f := ReadNameInto(data, off, len, name);
    if f.None? || !InBounds(data, f.value.next, 10) {
      return None;
    }
    var o := f.value.next;
    return Some(RecordHead(f.value.name, Be16(data, o), Be16(data, o + 2), Be16(data, o + 8), o + 10));
  }

  /** read_nsname into `buf`; the name is the C string the buffer then holds. */
  method ReadNameInto(data: seq<byte>, off: nat, len: int, buf: array<byte>) returns (f: Option<Field>)
    requires buf.Length == NAME_SIZE
    modifies buf
    ensures f == ReadNameAt(data, off, len)
  {
    var res := ReadNsName(data, off, len, buf, 0, NAME_SIZE, NameFuel(data));
    if !res.Name? {
      return None;
    }
    CStrAtNul(buf[..], res.bytes);
    return Some(Field(CStr(buf[..]), res.next));
  }

  /** The A and SRV branches of the record loop; false when the record's
      data cannot be read. */
  method ApplyRecord(c: Correlator, dst: u32, data: seq<byte>, len: int, cur: Cursor,
                     rr: RecordHead, srv: Option<CString>) returns (ok: bool)
    requires c.Valid() && |rr.name| < NAME_SIZE
    modifies c.srvrecs, c.backends
    ensures c.Valid()
    ensures var e := RecordEffect(old(c.State()), dst, data, len, cur, rr, srv);
            ok == e.Some? && c.State() == (if ok then e.value else old(c.State()))
  {
    if WantsA(rr.rtype, cur, srv) {
      if !InBounds(data, rr.rdata, 4) {
        return false;
      }
      var rec: Option<SrvRec> := None;
      if srv.Some? {
        rec := c.FindSrvTarget(srv.value);
        FindSrvOk(c.State(), srv.value);
      }
      ghost var st := c.State();
      c.MakeBackend(dst, Be32(data, rr.rdata), rr.name, rec);
      assert RecordEffect(st, dst, data, len, cur, rr, srv) == Some(c.State());
    } else if rr.rtype == TYPE_SRV {
      var d := ReadSrv(data, rr.rdata, len);
      if d.None? {
        return false;
      }
      c.SawSrvTarget(d.value.target, d.value.port, rr.name);
    }
    return true;
  }

  /** The SRV branch's reads: the port, then the target into its own
      256-byte buffer. */
  method ReadSrv(data: seq<byte>, rdata: nat, len: int) returns (d: Option<SrvData>)
    ensures d == ReadSrvData(data, rdata, len)
  {
    if !InBounds(data, rdata + 4, 2) {
      return None;
    }
    var port := Be16(data, rdata + 4);
    var target := new byte[NAME_SIZE];
    var t := ReadNameInto(data, rdata + 6, len, target);
    if t.None? {
      return None;
    }
    return Some(SrvData(port, t.value.name));
  }
}
