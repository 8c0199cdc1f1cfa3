/** The three bucketed tables of packet.c as values: pending DNS queries,
    SRV targets and backends. Each table is 512 chains; a chain is the
    sequence of its entries, head first. The functions here are the
    specifications that the methods of module Correlator are proved
    against. */
module Tables {
  import opened Common
  import opened Hash
  import opened Ports

  /** Seconds after which a pending query is swept (clean_dns). */
  const EXPIRY: nat := 10

  /** `struct dnsreq`: a pending query, hashed on (src, qid). */
  datatype DnsReq = DnsReq(qid: u16, src: u32, dst: u32, sport: u16, ctime: u32, name: CString)

  /** `struct srvrec`: an SRV target, hashed on target. */
  datatype SrvRec = SrvRec(target: CString, name: CString, ports: seq<u16>)

  /** `struct backend`, hashed on (src, dst). `ports`, `counts` and
      `rcounts` are the parallel 16-slot arrays. */
  datatype Backend = Backend(src: u32, dst: u32, rcount: nat, name: CString,
                             ports: seq<u16>, counts: seq<nat>, rcounts: seq<nat>)

  /** The contents of the three global bucket arrays. */
  datatype TableState = TableState(dnsreqs: seq<seq<DnsReq>>,
                                   srvrecs: seq<seq<SrvRec>>,
                                   backends: seq<seq<Backend>>)

  predicate Shaped(st: TableState)
  {
    |st.dnsreqs| == BUCKETS && |st.srvrecs| == BUCKETS && |st.backends| == BUCKETS
  }

  /** The tables as the program starts: every bucket empty. */
  function EmptyTables(): (st: TableState)
    ensures Shaped(st)
  {
    TableState(seq(BUCKETS, _ => []), seq(BUCKETS, _ => []), seq(BUCKETS, _ => []))
  }

  function Zeros(n: nat): (s: seq<nat>)
    ensures |s| == n && forall k :: 0 <= k < n ==> s[k] == 0
  {
    seq(n, _ => 0)
  }

  function NoPorts(n: nat): (s: seq<u16>)
    ensures |s| == n && forall k :: 0 <= k < n ==> s[k] == 0
  {
    seq(n, _ => 0)
  }

  // ---------------------------------------------------------------------
  // Chain invariants: every entry sits in the bucket its key hashes to,
  // has 16-slot arrays, and (for SRV targets and backends) no key occurs
  // twice in a chain.

  ghost predicate ReqChainOk(chain: seq<DnsReq>, h: int)
  {
    forall i :: 0 <= i < |chain| ==> DHash(chain[i].src, chain[i].qid) == h
  }

  ghost predicate SrvChainOk(chain: seq<SrvRec>, h: int)
  {
    && (forall i :: 0 <= i < |chain| ==> SHash(chain[i].target) == h && |chain[i].ports| == PORT_SLOTS)
    && (forall i, j :: 0 <= i < j < |chain| ==> chain[i].target != chain[j].target)
  }

  ghost predicate BackendOk(b: Backend)
  {
    |b.ports| == PORT_SLOTS && |b.counts| == PORT_SLOTS && |b.rcounts| == PORT_SLOTS
  }

  ghost predicate BackendChainOk(chain: seq<Backend>, h: int)
  {
    && (forall i :: 0 <= i < |chain| ==> BHash(chain[i].src, chain[i].dst) == h && BackendOk(chain[i]))
    && (forall i, j :: 0 <= i < j < |chain| ==>
          chain[i].src != chain[j].src || chain[i].dst != chain[j].dst)
  }

  ghost predicate WellFormed(st: TableState)
  {
    && Shaped(st)
    && (forall h :: 0 <= h < BUCKETS ==> ReqChainOk(st.dnsreqs[h], h))
    && (forall h :: 0 <= h < BUCKETS ==> SrvChainOk(st.srvrecs[h], h))
    && (forall h :: 0 <= h < BUCKETS ==> BackendChainOk(st.backends[h], h))
  }

  lemma EmptyTablesWellFormed()
    ensures WellFormed(EmptyTables())
  {
  }

  // ---------------------------------------------------------------------
  // SRV targets: saw_srv_target and find_srv_target.

  /** Position of the first record in the chain whose target is `target`
      (strcmp == 0), or -1. */
  function FindSrvIn(chain: seq<SrvRec>, target: CString): (i: int)
    ensures -1 <= i < |chain|
    ensures i >= 0 ==> chain[i].target == target
    ensures i >= 0 ==> forall k :: 0 <= k < i ==> chain[k].target != target
    ensures i == -1 ==> forall k :: 0 <= k < |chain| ==> chain[k].target != target
  {
    if chain == [] then -1
    else if chain[0].target == target then 0
    else
      var j := FindSrvIn(chain[1..], target);
      if j < 0 then -1 else j + 1
  }

  lemma FindSrvInIs(chain: seq<SrvRec>, target: CString, i: int)
    requires 0 <= i < |chain| && chain[i].target == target
    requires forall k :: 0 <= k < i ==> chain[k].target != target
    ensures FindSrvIn(chain, target) == i
  {
  }

  /** The record calloc'ed on a first sighting: port in slot 0, the rest empty. */
  function NewSrv(target: CString, port: u16, name: CString): SrvRec
  {
    SrvRec(Strlcpy(target, NAME_SIZE), Strlcpy(name, NAME_SIZE), [port] + NoPorts(PORT_SLOTS - 1))
  }

  /** saw_srv_target on the chain `srvrecs[shash(target)]`. */
  function SawSrvChain(chain: seq<SrvRec>, target: CString, port: u16, name: CString): seq<SrvRec>
  {
    var i := FindSrvIn(chain, target);
    if i >= 0 then chain[i := chain[i].(ports := AddPort(chain[i].ports, port).ports)]
    else [NewSrv(target, port, name)] + chain
  }

  function SawSrv(st: TableState, target: CString, port: u16, name: CString): (st': TableState)
    requires Shaped(st)
    ensures Shaped(st')
  {
    var h := SHash(target);
    st.(srvrecs := st.srvrecs[h := SawSrvChain(st.srvrecs[h], target, port, name)])
  }

  /** find_srv_target: the first record for `target` in its bucket, or NULL. */
  function FindSrv(st: TableState, target: CString): (r: Option<SrvRec>)
    requires Shaped(st)
    ensures r.Some? ==> r.value.target == target && r.value in st.srvrecs[SHash(target)]
  {
    var chain := st.srvrecs[SHash(target)];
    var i := FindSrvIn(chain, target);
    if i >= 0 then Some(chain[i]) else None
  }

  /** A record found for a target has the 16 port slots. */
  lemma FindSrvOk(st: TableState, target: CString)
    requires WellFormed(st)
    ensures FindSrv(st, target).Some? ==> |FindSrv(st, target).value.ports| == PORT_SLOTS
  {
    var h := SHash(target);
    assert SrvChainOk(st.srvrecs[h], h);
  }

  /** With the bucket invariant, find_srv_target answers for the whole
      table: NULL exactly when no bucket holds a record for the target. */
  lemma FindSrvComplete(st: TableState, target: CString)
    requires WellFormed(st)
    ensures FindSrv(st, target).None? <==>
              forall h, i :: 0 <= h < BUCKETS && 0 <= i < |st.srvrecs[h]| ==> st.srvrecs[h][i].target != target
  {
    CStrOfCString(target, []);
    if FindSrv(st, target).None? {
      forall h, i | 0 <= h < BUCKETS && 0 <= i < |st.srvrecs[h]|
        ensures st.srvrecs[h][i].target != target
      {
        assert SHash(st.srvrecs[h][i].target) == h;
      }
    }
  }

  lemma SawSrvWellFormed(st: TableState, target: CString, port: u16, name: CString)
    requires WellFormed(st) && |target| < NAME_SIZE
    ensures WellFormed(SawSrv(st, target, port, name))
  {
    var h := SHash(target);
    SawSrvChainOk(st.srvrecs[h], h, target, port, name);
    ReplaceSrvChain(st, h, SawSrvChain(st.srvrecs[h], target, port, name));
  }

  lemma SawSrvChainOk(chain: seq<SrvRec>, h: int, target: CString, port: u16, name: CString)
    requires SrvChainOk(chain, h) && SHash(target) == h && |target| < NAME_SIZE
    ensures SrvChainOk(SawSrvChain(chain, target, port, name), h)
  {
    var i := FindSrvIn(chain, target);
    if i < 0 {
      PushSrvChainOk(chain, h, NewSrv(target, port, name));
    } else {
      UpdateSrvChainOk(chain, h, i, chain[i].(ports := AddPort(chain[i].ports, port).ports));
    }
  }

  /** A record for a new target in the right bucket may go at the head. */
  lemma PushSrvChainOk(chain: seq<SrvRec>, h: int, s: SrvRec)
    requires SrvChainOk(chain, h) && SHash(s.target) == h && |s.ports| == PORT_SLOTS
    requires forall k :: 0 <= k < |chain| ==> chain[k].target != s.target
    ensures SrvChainOk([s] + chain, h)
  {
    var c' := [s] + chain;
    assert forall i :: 1 <= i < |c'| ==> c'[i] == chain[i - 1];
  }

  /** A record may be replaced by one with the same target and 16 slots. */
  lemma UpdateSrvChainOk(chain: seq<SrvRec>, h: int, i: int, s: SrvRec)
    requires SrvChainOk(chain, h) && 0 <= i < |chain| && |s.ports| == PORT_SLOTS
    requires s.target == chain[i].target
    ensures SrvChainOk(chain[i := s], h)
  {
  }

  lemma ReplaceSrvChain(st: TableState, h: int, c: seq<SrvRec>)
    requires WellFormed(st) && 0 <= h < BUCKETS && SrvChainOk(c, h)
    ensures WellFormed(st.(srvrecs := st.srvrecs[h := c]))
  {
  }

  /** A first sighting puts a new record at the head of the bucket, with the
      port in slot 0 and the owner name; find_srv_target then returns it. */
  lemma SawSrvFirstSighting(st: TableState, target: CString, port: u16, name: CString)
    requires WellFormed(st) && |target| < NAME_SIZE && |name| < NAME_SIZE
    requires FindSrv(st, target).None?
    ensures var st' := SawSrv(st, target, port, name);
            && st'.srvrecs[SHash(target)] == [SrvRec(target, name, [port] + NoPorts(15))] + st.srvrecs[SHash(target)]
            && FindSrv(st', target) == Some(SrvRec(target, name, [port] + NoPorts(15)))
  {
  }

  /** A later sighting creates no second record: it only adds the port to
      the existing record, which stays unchanged when all 16 slots are full. */
  lemma SawSrvLaterSighting(st: TableState, target: CString, port: u16, name: CString)
    requires WellFormed(st)
    requires FindSrv(st, target).Some?
    ensures var s := FindSrv(st, target).value;
            var st' := SawSrv(st, target, port, name);
            var h := SHash(target);
            var i := FindSrvIn(st.srvrecs[h], target);
            && |st'.srvrecs[h]| == |st.srvrecs[h]|
            && FindSrv(st', target) == Some(s.(ports := AddPort(s.ports, port).ports))
            && (forall k :: 0 <= k < |st.srvrecs[h]| && k != i ==> st'.srvrecs[h][k] == st.srvrecs[h][k])
            && (forall g :: 0 <= g < BUCKETS && g != h ==> st'.srvrecs[g] == st.srvrecs[g])
            && st'.dnsreqs == st.dnsreqs && st'.backends == st.backends
            && (port !in s.ports && 0 !in s.ports ==> FindSrv(st', target) == Some(s))
  {
    var h := SHash(target);
    var i := FindSrvIn(st.srvrecs[h], target);
    var c' := SawSrvChain(st.srvrecs[h], target, port, name);
    assert forall k :: 0 <= k < i ==> c'[k] == st.srvrecs[h][k];
    FindSrvInIs(c', target, i);
  }

  // ---------------------------------------------------------------------
  // Backends: make_backend and got_tcp_conn.

  /** Position of the first backend keyed (src, dst) in the chain, or -1. */
  function FindBackendIn(chain: seq<Backend>, src: u32, dst: u32): (i: int)
    ensures -1 <= i < |chain|
    ensures i >= 0 ==> chain[i].src == src && chain[i].dst == dst
    ensures i >= 0 ==> forall k :: 0 <= k < i ==> chain[k].src != src || chain[k].dst != dst
    ensures i == -1 ==> forall k :: 0 <= k < |chain| ==> chain[k].src != src || chain[k].dst != dst
  {
    if chain == [] then -1
    else if chain[0].src == src && chain[0].dst == dst then 0
    else
      var j := FindBackendIn(chain[1..], src, dst);
      if j < 0 then -1 else j + 1
  }

  lemma FindBackendInIs(chain: seq<Backend>, src: u32, dst: u32, i: int)
    requires 0 <= i < |chain| && chain[i].src == src && chain[i].dst == dst
    requires forall k :: 0 <= k < i ==> chain[k].src != src || chain[k].dst != dst
    ensures FindBackendIn(chain, src, dst) == i
  {
  }

  /** The backend keyed (src, dst), looked up in its bucket. */
  function FindBackend(st: TableState, src: u32, dst: u32): (r: Option<Backend>)
    requires Shaped(st)
    ensures r.Some? ==> r.value.src == src && r.value.dst == dst && r.value in st.backends[BHash(src, dst)]
  {
    var chain := st.backends[BHash(src, dst)];
    var i := FindBackendIn(chain, src, dst);
    if i >= 0 then Some(chain[i]) else None
  }

  /** The merge loop of make_backend: every one of the SRV record's slots,
      empty ones included, goes through add_port and bumps the resolution
      count of the slot it lands in; the first -1 ends the merge, keeping
      what was merged before it. */
  function MergeSrvPorts(b: Backend, srvPorts: seq<u16>): (r: Backend)
    ensures r.src == b.src && r.dst == b.dst && r.rcount == b.rcount
    ensures r.name == b.name && r.counts == b.counts
    ensures |r.ports| == |b.ports| && |r.rcounts| == |b.rcounts|
    decreases |srvPorts|
  {
    if srvPorts == [] then b
    else
      var a := AddPort(b.ports, srvPorts[0]);
      if a.index == -1 then b
      else MergeSrvPorts(b.(ports := a.ports, rcounts := Bump(b.rcounts, a.index)), srvPorts[1..])
  }

  /** The backend calloc'ed for a new (src, dst): rcount 1, every rcounts
      slot 0, the SRV record's owner name and ports when there is one. */
  function NewBackend(src: u32, dst: u32, name: CString, srv: Option<SrvRec>): Backend
  {
    Backend(src, dst, 1,
            Strlcpy(if srv.None? then name else srv.value.name, NAME_SIZE),
            if srv.None? then NoPorts(PORT_SLOTS) else srv.value.ports,
            Zeros(PORT_SLOTS), Zeros(PORT_SLOTS))
  }

  function MakeBackendChain(chain: seq<Backend>, src: u32, dst: u32, name: CString, srv: Option<SrvRec>): seq<Backend>
  {
    var i := FindBackendIn(chain, src, dst);
    if i < 0 then [NewBackend(src, dst, name, srv)] + chain
    else if srv.None? then chain[i := chain[i].(rcount := chain[i].rcount + 1)]
    else chain[i := MergeSrvPorts(chain[i], srv.value.ports)]
  }

  function MakeBackend(st: TableState, src: u32, dst: u32, name: CString, srv: Option<SrvRec>): (st': TableState)
    requires Shaped(st)
    ensures Shaped(st')
  {
    var h := BHash(src, dst);
    st.(backends := st.backends[h := MakeBackendChain(st.backends[h], src, dst, name, srv)])
  }

  lemma MakeBackendWellFormed(st: TableState, src: u32, dst: u32, name: CString, srv: Option<SrvRec>)
    requires WellFormed(st)
    requires srv.Some? ==> |srv.value.ports| == PORT_SLOTS
    ensures WellFormed(MakeBackend(st, src, dst, name, srv))
  {
    var h := BHash(src, dst);
    MakeBackendChainOk(st.backends[h], h, src, dst, name, srv);
    ReplaceBackendChain(st, h, MakeBackendChain(st.backends[h], src, dst, name, srv));
  }

  lemma MakeBackendChainOk(chain: seq<Backend>, h: int, src: u32, dst: u32, name: CString, srv: Option<SrvRec>)
    requires BackendChainOk(chain, h) && BHash(src, dst) == h
    requires srv.Some? ==> |srv.value.ports| == PORT_SLOTS
    ensures BackendChainOk(MakeBackendChain(chain, src, dst, name, srv), h)
  {
    var i := FindBackendIn(chain, src, dst);
    var c' := MakeBackendChain(chain, src, dst, name, srv);
    if i < 0 {
      var b := NewBackend(src, dst, name, srv);
      assert c' == [b] + chain;
      PushBackendChainOk(chain, h, b);
    } else {
      assert BackendOk(chain[i]);
      var b := if srv.None? then chain[i].(rcount := chain[i].rcount + 1) else MergeSrvPorts(chain[i], srv.value.ports);
      assert c' == chain[i := b];
      UpdateBackendChainOk(chain, h, i, b);
    }
  }

  /** A backend with a new key in the right bucket may go at the head. */
  lemma PushBackendChainOk(chain: seq<Backend>, h: int, b: Backend)
    requires BackendChainOk(chain, h) && BHash(b.src, b.dst) == h && BackendOk(b)
    requires forall k :: 0 <= k < |chain| ==> chain[k].src != b.src || chain[k].dst != b.dst
    ensures BackendChainOk([b] + chain, h)
  {
    var c' := [b] + chain;
    assert forall i :: 1 <= i < |c'| ==> c'[i] == chain[i - 1];
  }

  /** A backend may be replaced by one with the same key and 16-slot arrays. */
  lemma UpdateBackendChainOk(chain: seq<Backend>, h: int, i: int, b: Backend)
    requires BackendChainOk(chain, h) && 0 <= i < |chain| && BackendOk(b)
    requires b.src == chain[i].src && b.dst == chain[i].dst
    ensures BackendChainOk(chain[i := b], h)
  {
  }

  lemma ReplaceBackendChain(st: TableState, h: int, c: seq<Backend>)
    requires WellFormed(st) && 0 <= h < BUCKETS && BackendChainOk(c, h)
    ensures WellFormed(st.(backends := st.backends[h := c]))
  {
  }

  /** make_backend keeps one backend per (src, dst): with one already
      present, the bucket keeps its length and the backend is updated in
      place (rcount + 1 without SRV context, the merge with it); otherwise a
      new backend goes at the head of the bucket. */
  lemma MakeBackendCases(st: TableState, src: u32, dst: u32, name: CString, srv: Option<SrvRec>)
    requires Shaped(st)
    ensures var st' := MakeBackend(st, src, dst, name, srv);
            var h := BHash(src, dst);
            match FindBackend(st, src, dst)
            case Some(b) =>
              && |st'.backends[h]| == |st.backends[h]|
              && FindBackend(st', src, dst) ==
                   Some(if srv.None? then b.(rcount := b.rcount + 1) else MergeSrvPorts(b, srv.value.ports))
              && (forall k :: 0 <= k < |st.backends[h]| && k != FindBackendIn(st.backends[h], src, dst) ==>
                    st'.backends[h][k] == st.backends[h][k])
            case None =>
              && st'.backends[h] == [NewBackend(src, dst, name, srv)] + st.backends[h]
              && FindBackend(st', src, dst) == Some(NewBackend(src, dst, name, srv))
    ensures var st' := MakeBackend(st, src, dst, name, srv);
            && (forall g :: 0 <= g < BUCKETS && g != BHash(src, dst) ==> st'.backends[g] == st.backends[g])
            && st'.dnsreqs == st.dnsreqs && st'.srvrecs == st.srvrecs
  {
    var h := BHash(src, dst);
    var chain := st.backends[h];
    var i := FindBackendIn(chain, src, dst);
    if i >= 0 {
      var b := if srv.None? then chain[i].(rcount := chain[i].rcount + 1) else MergeSrvPorts(chain[i], srv.value.ports);
      assert MakeBackendChain(chain, src, dst, name, srv) == chain[i := b];
      UpdateKeepsFirst(chain, i, b);
    } else {
      assert MakeBackendChain(chain, src, dst, name, srv) == [NewBackend(src, dst, name, srv)] + chain;
    }
  }

  /** Replacing the first backend with a key by another with the same key
      leaves it the first one with that key. */
  lemma UpdateKeepsFirst(chain: seq<Backend>, i: int, b: Backend)
    requires 0 <= i < |chain| && FindBackendIn(chain, b.src, b.dst) == i
    ensures FindBackendIn(chain[i := b], b.src, b.dst) == i
  {
    FindBackendInIs(chain[i := b], b.src, b.dst, i);
  }

  /** A new backend gets rcount 1 and all-zero rcounts even when the SRV
      ports are copied in; its name is the SRV owner name, else `name`. */
  lemma NewBackendFields(src: u32, dst: u32, name: CString, srv: Option<SrvRec>)
    requires |name| < NAME_SIZE && (srv.Some? ==> |srv.value.name| < NAME_SIZE)
    ensures var b := NewBackend(src, dst, name, srv);
            && b.rcount == 1
            && (forall k :: 0 <= k < PORT_SLOTS ==> b.rcounts[k] == 0 && b.counts[k] == 0)
            && b.name == (if srv.Some? then srv.value.name else name)
            && b.ports == (if srv.Some? then srv.value.ports else NoPorts(PORT_SLOTS))
  {
  }

  /** The merge bumps only rcounts, each by at most the number of SRV slots,
      never lowers one, and keeps the port set free of duplicates. */
  lemma {:induction false} MergeSrvPortsMonotone(b: Backend, srvPorts: seq<u16>)
    requires BackendOk(b)
    ensures var r := MergeSrvPorts(b, srvPorts);
            && BackendOk(r)
            && (forall k :: 0 <= k < PORT_SLOTS ==> b.rcounts[k] <= r.rcounts[k] <= b.rcounts[k] + |srvPorts|)
            && (Distinct(b.ports) ==> Distinct(r.ports))
    decreases |srvPorts|
  {
    if srvPorts != [] {
      var a := AddPort(b.ports, srvPorts[0]);
      if a.index != -1 {
        if Distinct(b.ports) { AddPortKeepsDistinct(b.ports, srvPorts[0]); }
        MergeSrvPortsMonotone(b.(ports := a.ports, rcounts := Bump(b.rcounts, a.index)), srvPorts[1..]);
      }
    }
  }

  /** got_tcp_conn on the chain `backends[bhash(src, dst)]`: every backend
      keyed (src, dst) gets `dport` added and its connection count bumped;
      a full port set ends the walk. */
  function GotTcpChain(chain: seq<Backend>, src: u32, dst: u32, dport: u16): (r: seq<Backend>)
    ensures |r| == |chain|
    decreases |chain|
  {
    if chain == [] then []
    else
      var b := chain[0];
      if b.src == src && b.dst == dst then
        var a := AddPort(b.ports, dport);
        if a.index == -1 then chain
        else [b.(ports := a.ports, counts := Bump(b.counts, a.index))] + GotTcpChain(chain[1..], src, dst, dport)
      else [b] + GotTcpChain(chain[1..], src, dst, dport)
  }

  function GotTcp(st: TableState, src: u32, dst: u32, dport: u16): (st': TableState)
    requires Shaped(st)
    ensures Shaped(st')
  {
    var h := BHash(src, dst);
    st.(backends := st.backends[h := GotTcpChain(st.backends[h], src, dst, dport)])
  }

  /** What got_tcp_conn does to one backend keyed (src, dst). */
  function Credit(b: Backend, dport: u16): Backend
  {
    var a := AddPort(b.ports, dport);
    if a.index == -1 then b else b.(ports := a.ports, counts := Bump(b.counts, a.index))
  }

  /** On a chain with at most one entry per key, got_tcp_conn changes
      exactly that entry, as Credit says, and nothing else. */
  lemma {:induction false} GotTcpChainCredits(chain: seq<Backend>, h: int, src: u32, dst: u32, dport: u16)
    requires BackendChainOk(chain, h)
    ensures var r := GotTcpChain(chain, src, dst, dport);
            forall k :: 0 <= k < |chain| ==>
              r[k] == if chain[k].src == src && chain[k].dst == dst then Credit(chain[k], dport) else chain[k]
    decreases |chain|
  {
    if chain != [] {
      var b, t := chain[0], chain[1..];
      var r := GotTcpChain(chain, src, dst, dport);
      assert BackendChainOk(t, h) by {
        assert forall i :: 0 <= i < |t| ==> t[i] == chain[i + 1];
      }
      GotTcpChainCredits(t, h, src, dst, dport);
      var rt := GotTcpChain(t, src, dst, dport);
      if b.src == src && b.dst == dst && AddPort(b.ports, dport).index == -1 {
        assert r == chain && Credit(b, dport) == b;
        forall k | 1 <= k < |chain| ensures chain[k].src != src || chain[k].dst != dst {
          assert chain[0].src != chain[k].src || chain[0].dst != chain[k].dst;
        }
      } else {
        var b' := if b.src == src && b.dst == dst then Credit(b, dport) else b;
        assert r == [b'] + rt;
        forall k | 1 <= k < |chain|
          ensures r[k] == if chain[k].src == src && chain[k].dst == dst then Credit(chain[k], dport) else chain[k]
        {
          assert r[k] == rt[k - 1] && chain[k] == t[k - 1];
        }
      }
    }
  }

  lemma GotTcpWellFormed(st: TableState, src: u32, dst: u32, dport: u16)
    requires WellFormed(st)
    ensures WellFormed(GotTcp(st, src, dst, dport))
  {
    var h := BHash(src, dst);
    assert BackendChainOk(st.backends[h], h);
    GotTcpChainCredits(st.backends[h], h, src, dst, dport);
    GotTcpChainOk(st.backends[h], h, src, dst, dport);
    ReplaceBackendChain(st, h, GotTcpChain(st.backends[h], src, dst, dport));
  }

  /** got_tcp_conn with no backend keyed (src, dst), or with that backend's
      port set full, changes nothing. */
  lemma GotTcpUnknownOrFull(st: TableState, src: u32, dst: u32, dport: u16)
    requires WellFormed(st)
    requires FindBackend(st, src, dst).None? ||
             AddPort(FindBackend(st, src, dst).value.ports, dport).index == -1
    ensures GotTcp(st, src, dst, dport) == st
  {
    var h := BHash(src, dst);
    var chain := st.backends[h];
    assert BackendChainOk(chain, h);
    GotTcpChainCredits(chain, h, src, dst, dport);
    var r := GotTcpChain(chain, src, dst, dport);
    var i := FindBackendIn(chain, src, dst);
    assert forall k :: 0 <= k < |chain| && k != i ==> r[k] == chain[k];
    assert r == chain;
  }

  /** got_tcp_conn credits the connection to the backend keyed (src, dst):
      the port goes through add_port and the count of its slot goes up by
      one; rcount and rcounts never change; no other table changes. */
  lemma GotTcpCredits(st: TableState, src: u32, dst: u32, dport: u16)
    requires WellFormed(st)
    requires FindBackend(st, src, dst).Some?
    ensures var st' := GotTcp(st, src, dst, dport);
            var b := FindBackend(st, src, dst).value;
            var a := AddPort(b.ports, dport);
            && st'.dnsreqs == st.dnsreqs && st'.srvrecs == st.srvrecs
            && FindBackend(st', src, dst) == Some(Credit(b, dport))
            && (0 <= a.index < |b.counts| ==> Credit(b, dport).counts[a.index] == b.counts[a.index] + 1)
            && Credit(b, dport).rcount == b.rcount && Credit(b, dport).rcounts == b.rcounts
  {
    var h := BHash(src, dst);
    assert BackendChainOk(st.backends[h], h);
    GotTcpChainFind(st.backends[h], h, src, dst, dport);
    CreditFields(FindBackend(st, src, dst).value, dport);
  }

  /** In the chain, the credited backend is still the first one with its key. */
  lemma GotTcpChainFind(chain: seq<Backend>, h: int, src: u32, dst: u32, dport: u16)
    requires BackendChainOk(chain, h) && FindBackendIn(chain, src, dst) >= 0
    ensures var i := FindBackendIn(chain, src, dst);
            var r := GotTcpChain(chain, src, dst, dport);
            FindBackendIn(r, src, dst) == i && r[i] == Credit(chain[i], dport)
  {
    GotTcpChainCredits(chain, h, src, dst, dport);
    var r := GotTcpChain(chain, src, dst, dport);
    var i := FindBackendIn(chain, src, dst);
    assert forall k :: 0 <= k < i ==> r[k] == chain[k];
    FindBackendInIs(r, src, dst, i);
  }

  lemma CreditFields(b: Backend, dport: u16)
    ensures var a := AddPort(b.ports, dport);
            && (0 <= a.index < |b.counts| ==> Credit(b, dport).counts[a.index] == b.counts[a.index] + 1)
            && Credit(b, dport).rcount == b.rcount && Credit(b, dport).rcounts == b.rcounts
  {
  }

  /** got_tcp_conn keeps a chain well formed. */
  lemma GotTcpChainOk(chain: seq<Backend>, h: int, src: u32, dst: u32, dport: u16)
    requires BackendChainOk(chain, h)
    requires var r := GotTcpChain(chain, src, dst, dport);
             forall k :: 0 <= k < |chain| ==>
               r[k] == if chain[k].src == src && chain[k].dst == dst then Credit(chain[k], dport) else chain[k]
    ensures BackendChainOk(GotTcpChain(chain, src, dst, dport), h)
  {
    var r := GotTcpChain(chain, src, dst, dport);
    assert forall k :: 0 <= k < |chain| ==> r[k].src == chain[k].src && r[k].dst == chain[k].dst;
    assert forall k :: 0 <= k < |chain| ==> BackendOk(r[k]);
  }

  // ---------------------------------------------------------------------
  // Pending queries: insertion, the response match, and clean_dns.

  /** Insertion at the head of `dnsreqs[dhash(src, qid)]`. */
  function AddReq(st: TableState, r: DnsReq): (st': TableState)
    requires Shaped(st)
    ensures Shaped(st')
  {
    var h := DHash(r.src, r.qid);
    st.(dnsreqs := st.dnsreqs[h := [r] + st.dnsreqs[h]])
  }

  lemma AddReqWellFormed(st: TableState, r: DnsReq)
    requires WellFormed(st)
    ensures WellFormed(AddReq(st, r))
  {
    var h := DHash(r.src, r.qid);
    var c' := [r] + st.dnsreqs[h];
    assert ReqChainOk(st.dnsreqs[h], h);
    assert forall i :: 1 <= i < |c'| ==> c'[i] == st.dnsreqs[h][i - 1];
    ReplaceReqChain(st, h, c');
  }

  /** Whether a pending query is the one a response (from src:53 to dst:dport
      with id qid and question `name`) answers: same id, roles reversed. */
  predicate Answers(r: DnsReq, qid: u16, src: u32, dst: u32, dport: u16, name: CString)
  {
    r.qid == qid && r.dst == src && r.src == dst && r.sport == dport && r.name == name
  }

  /** Position of the first pending query in the chain that the response answers, or -1. */
  function FindReqIn(chain: seq<DnsReq>, qid: u16, src: u32, dst: u32, dport: u16, name: CString): (i: int)
    ensures -1 <= i < |chain|
    ensures i >= 0 ==> Answers(chain[i], qid, src, dst, dport, name)
    ensures i >= 0 ==> forall k :: 0 <= k < i ==> !Answers(chain[k], qid, src, dst, dport, name)
    ensures i == -1 ==> forall k :: 0 <= k < |chain| ==> !Answers(chain[k], qid, src, dst, dport, name)
  {
    if chain == [] then -1
    else if Answers(chain[0], qid, src, dst, dport, name) then 0
    else
      var j := FindReqIn(chain[1..], qid, src, dst, dport, name);
      if j < 0 then -1 else j + 1
  }

  lemma FindReqInIs(chain: seq<DnsReq>, qid: u16, src: u32, dst: u32, dport: u16, name: CString, i: int)
    requires 0 <= i < |chain| && Answers(chain[i], qid, src, dst, dport, name)
    requires forall k :: 0 <= k < i ==> !Answers(chain[k], qid, src, dst, dport, name)
    ensures FindReqIn(chain, qid, src, dst, dport, name) == i
  {
  }

  /** The response-match step of parse_dns: the first matching query in
      `dnsreqs[dhash(dst, qid)]` is unlinked; None when there is none. */
  function TakeReq(st: TableState, qid: u16, src: u32, dst: u32, dport: u16, name: CString): (r: Option<TableState>)
    requires Shaped(st)
    ensures r.Some? ==> Shaped(r.value)
  {
    UnlinkReq(st, DHash(dst, qid), qid, src, dst, dport, name)
  }

  /** The unlink of the first query in bucket h that the response answers. */
  function UnlinkReq(st: TableState, h: int, qid: u16, src: u32, dst: u32, dport: u16, name: CString): (r: Option<TableState>)
    requires Shaped(st) && 0 <= h < BUCKETS
    ensures r.Some? ==> Shaped(r.value)
  {
    var chain := st.dnsreqs[h];
    var i := FindReqIn(chain, qid, src, dst, dport, name);
    if i < 0 then None
    else Some(st.(dnsreqs := st.dnsreqs[h := chain[..i] + chain[i + 1..]]))
  }

  /** Replacing one bucket of pending queries by a well-formed chain keeps the tables well formed. */
  lemma ReplaceReqChain(st: TableState, h: int, c: seq<DnsReq>)
    requires WellFormed(st) && 0 <= h < BUCKETS && ReqChainOk(c, h)
    ensures WellFormed(st.(dnsreqs := st.dnsreqs[h := c]))
  {
  }

  /** Unlinking entry i keeps the bucket invariant. */
  lemma UnlinkChainOk(chain: seq<DnsReq>, h: int, i: int)
    requires ReqChainOk(chain, h) && 0 <= i < |chain|
    ensures ReqChainOk(chain[..i] + chain[i + 1..], h)
  {
    var c' := chain[..i] + chain[i + 1..];
    forall k | 0 <= k < |c'| ensures DHash(c'[k].src, c'[k].qid) == h {
      if k < i { assert c'[k] == chain[k]; } else { assert c'[k] == chain[k + 1]; }
    }
  }

  /** Unlinking entry i drops exactly that entry and keeps all the others. */
  lemma UnlinkOne(chain: seq<DnsReq>, i: int)
    requires 0 <= i < |chain|
    ensures var c' := chain[..i] + chain[i + 1..];
            && |c'| + 1 == |chain|
            && multiset(c') + multiset{chain[i]} == multiset(chain)
  {
    assert chain == chain[..i] + [chain[i]] + chain[i + 1..];
  }

  /** The match removes exactly one entry, the first matching one, from its
      bucket, and keeps every other entry; no other bucket or table changes.
      A response that matches nothing finds None. */
  lemma TakeReqUnlinksOne(st: TableState, qid: u16, src: u32, dst: u32, dport: u16, name: CString)
    requires WellFormed(st)
    ensures var h := DHash(dst, qid);
            TakeReq(st, qid, src, dst, dport, name).None? ==>
              forall k :: 0 <= k < |st.dnsreqs[h]| ==> !Answers(st.dnsreqs[h][k], qid, src, dst, dport, name)
    ensures var h := DHash(dst, qid);
            var i := FindReqIn(st.dnsreqs[h], qid, src, dst, dport, name);
            var t := TakeReq(st, qid, src, dst, dport, name);
            t.Some? ==>
              && WellFormed(t.value)
              && t.value.srvrecs == st.srvrecs && t.value.backends == st.backends
              && (forall g :: 0 <= g < BUCKETS && g != h ==> t.value.dnsreqs[g] == st.dnsreqs[g])
              && |t.value.dnsreqs[h]| + 1 == |st.dnsreqs[h]|
              && t.value.dnsreqs[h] == st.dnsreqs[h][..i] + st.dnsreqs[h][i + 1..]
  {
    TakeReqMiss(st, qid, src, dst, dport, name);
    TakeReqHit(st, qid, src, dst, dport, name);
  }

  /** No match: no entry of the bucket answers the response. */
  lemma TakeReqMiss(st: TableState, qid: u16, src: u32, dst: u32, dport: u16, name: CString)
    requires Shaped(st)
    ensures var h := DHash(dst, qid);
            TakeReq(st, qid, src, dst, dport, name).None? ==>
              forall k :: 0 <= k < |st.dnsreqs[h]| ==> !Answers(st.dnsreqs[h][k], qid, src, dst, dport, name)
  {
  }

  /** A match: the tables after the unlink. */
  lemma TakeReqHit(st: TableState, qid: u16, src: u32, dst: u32, dport: u16, name: CString)
    requires WellFormed(st)
    ensures var h := DHash(dst, qid);
            var i := FindReqIn(st.dnsreqs[h], qid, src, dst, dport, name);
            var t := TakeReq(st, qid, src, dst, dport, name);
            t.Some? ==>
              && WellFormed(t.value)
              && t.value.srvrecs == st.srvrecs && t.value.backends == st.backends
              && (forall g :: 0 <= g < BUCKETS && g != h ==> t.value.dnsreqs[g] == st.dnsreqs[g])
              && |t.value.dnsreqs[h]| + 1 == |st.dnsreqs[h]|
              && t.value.dnsreqs[h] == st.dnsreqs[h][..i] + st.dnsreqs[h][i + 1..]
  {
    UnlinkReqHit(st, DHash(dst, qid), qid, src, dst, dport, name);
    UnlinkReqWellFormed(st, DHash(dst, qid), qid, src, dst, dport, name);
  }

  /** The same, for any bucket: only bucket h changes, and it loses
      exactly its entry i. */
  lemma UnlinkReqHit(st: TableState, h: int, qid: u16, src: u32, dst: u32, dport: u16, name: CString)
    requires Shaped(st) && 0 <= h < BUCKETS
    ensures var i := FindReqIn(st.dnsreqs[h], qid, src, dst, dport, name);
            var t := UnlinkReq(st, h, qid, src, dst, dport, name);
            t.Some? ==>
              && t.value.srvrecs == st.srvrecs && t.value.backends == st.backends
              && (forall g :: 0 <= g < BUCKETS && g != h ==> t.value.dnsreqs[g] == st.dnsreqs[g])
              && |t.value.dnsreqs[h]| + 1 == |st.dnsreqs[h]|
              && t.value.dnsreqs[h] == st.dnsreqs[h][..i] + st.dnsreqs[h][i + 1..]
  {
  }

  /** The unlink in any bucket keeps the tables well formed. */
  lemma UnlinkReqWellFormed(st: TableState, h: int, qid: u16, src: u32, dst: u32, dport: u16, name: CString)
    requires WellFormed(st) && 0 <= h < BUCKETS
    ensures var t := UnlinkReq(st, h, qid, src, dst, dport, name);
            t.Some? ==> WellFormed(t.value)
  {
    var chain := st.dnsreqs[h];
    var i := FindReqIn(chain, qid, src, dst, dport, name);
    if i >= 0 {
      var c' := chain[..i] + chain[i + 1..];
      assert UnlinkReq(st, h, qid, src, dst, dport, name) == Some(st.(dnsreqs := st.dnsreqs[h := c']));
      assert ReqChainOk(chain, h);
      UnlinkChainOk(chain, h, i);
      ReplaceReqChain(st, h, c');
    }
  }

  /** Whether a pending query has reached the expiry age at `time`
      (uint32_t subtraction, so a clock that went backwards reads as old). */
  predicate Expired(r: DnsReq, time: u32)
  {
    Sub32(time, r.ctime) >= EXPIRY
  }

  /** The clean_dns loop over one chain, as written. `kept` is the list as
      far as the loop has walked it, `rest` the entries from `r` on and
      `prNull` whether `pr` is NULL. After unlinking an entry that has a
      predecessor the loop step still sets `pr` to NULL, so when the next
      entry is expired too it is unlinked as if it were the head: the chain
      restarts at its successor and `kept` is lost. */
  function Sweep(kept: seq<DnsReq>, prNull: bool, rest: seq<DnsReq>, time: u32): (r: seq<DnsReq>)
    decreases |rest|
  {
    if rest == [] then kept
    else if Expired(rest[0], time) then
      if prNull then Sweep([], true, rest[1..], time)
      else Sweep(kept, true, rest[1..], time)
    else Sweep(kept + [rest[0]], false, rest[1..], time)
  }

  function CleanChain(chain: seq<DnsReq>, time: u32): seq<DnsReq>
  {
    Sweep([], true, chain, time)
  }

  /** clean_dns(time) over every bucket. */
  function CleanDns(st: TableState, time: u32): (st': TableState)
    requires Shaped(st)
    ensures Shaped(st')
  {
    st.(dnsreqs := seq(BUCKETS, h requires 0 <= h < BUCKETS => CleanChain(st.dnsreqs[h], time)))
  }

  /** The entries of `s` that have not expired (what the sweep means to keep). */
  function Live(s: seq<DnsReq>, time: u32): seq<DnsReq>
    decreases |s|
  {
    if s == [] then []
    else if Expired(s[0], time) then Live(s[1..], time)
    else [s[0]] + Live(s[1..], time)
  }

  lemma {:induction false} LiveProps(s: seq<DnsReq>, time: u32)
    ensures forall k :: 0 <= k < |Live(s, time)| ==> !Expired(Live(s, time)[k], time) && Live(s, time)[k] in s
    decreases |s|
  {
    if s != [] {
      LiveProps(s[1..], time);
    }
  }

  lemma {:induction false} LiveAppend(a: seq<DnsReq>, b: seq<DnsReq>, time: u32)
    ensures Live(a + b, time) == Live(a, time) + Live(b, time)
    decreases |a|
  {
    if a != [] {
      assert (a + b)[1..] == a[1..] + b;
      LiveAppend(a[1..], b, time);
    } else {
      assert a + b == b;
    }
  }

  lemma LiveOne(x: DnsReq, time: u32)
    ensures Live([x], time) == if Expired(x, time) then [] else [x]
  {
    assert [x][1..] == [];
  }

  predicate IsSuffix<T(==)>(r: seq<T>, l: seq<T>)
  {
    |r| <= |l| && l[|l| - |r|..] == r
  }

  lemma SuffixOfAppend<T>(r: seq<T>, l: seq<T>, p: seq<T>)
    requires IsSuffix(r, l)
    ensures IsSuffix(r, p + l)
  {
    assert (p + l)[|p + l| - |r|..] == l[|l| - |r|..];
  }

  /** Invariant of the sweep: what it returns is a suffix of the live
      entries of `kept + rest`. */
  lemma {:induction false} SweepSuffix(kept: seq<DnsReq>, prNull: bool, rest: seq<DnsReq>, time: u32)
    requires Live(kept, time) == kept
    ensures IsSuffix(Sweep(kept, prNull, rest, time), Live(kept + rest, time))
    decreases |rest|
  {
    if rest == [] {
      assert kept + rest == kept;
    } else {
      var x, t := rest[0], rest[1..];
      assert kept + rest == kept + [x] + t;
      LiveAppend(kept + [x], t, time);
      LiveAppend(kept, [x], time);
      LiveOne(x, time);
      if Expired(x, time) {
        LiveAppend(kept, t, time);
        assert Live(kept + rest, time) == kept + Live(t, time);
        if prNull {
          SweepSuffix([], true, t, time);
          assert [] + t == t;
          SuffixOfAppend(Sweep([], true, t, time), Live(t, time), kept);
        } else {
          SweepSuffix(kept, true, t, time);
        }
      } else {
        SweepSuffix(kept + [x], false, t, time);
      }
    }
  }

  /** clean_dns removes every expired entry and keeps only entries of the
      chain: its result is a suffix of the chain's live entries. */
  lemma CleanChainKeepsSuffix(chain: seq<DnsReq>, time: u32)
    ensures var r := CleanChain(chain, time);
            && IsSuffix(r, Live(chain, time))
            && (forall k :: 0 <= k < |r| ==> !Expired(r[k], time) && r[k] in chain)
  {
    SweepSuffix([], true, chain, time);
    assert [] + chain == chain;
    LiveProps(chain, time);
    var r := CleanChain(chain, time);
    var l := Live(chain, time);
    var off := |l| - |r|;
    assert l[off..] == r;
    forall k | 0 <= k < |r| ensures !Expired(r[k], time) && r[k] in chain {
      assert r[k] == l[off..][k] == l[off + k];
    }
  }

  /** No two adjacent expired entries: then the sweep drops nothing live. */
  ghost predicate NoAdjacentExpired(s: seq<DnsReq>, time: u32)
  {
    forall k :: 0 <= k < |s| - 1 ==> !(Expired(s[k], time) && Expired(s[k + 1], time))
  }

  lemma {:induction false} SweepExact(kept: seq<DnsReq>, prNull: bool, rest: seq<DnsReq>, time: u32)
    requires NoAdjacentExpired(rest, time)
    requires prNull && kept != [] ==> rest == [] || !Expired(rest[0], time)
    ensures Sweep(kept, prNull, rest, time) == kept + Live(rest, time)
    decreases |rest|
  {
    if rest != [] {
      var x, t := rest[0], rest[1..];
      assert NoAdjacentExpired(t, time) by {
        forall k | 0 <= k < |t| - 1 ensures !(Expired(t[k], time) && Expired(t[k + 1], time)) {
          assert t[k] == rest[k + 1] && t[k + 1] == rest[k + 2];
        }
      }
      if Expired(x, time) {
        assert t == [] || !Expired(t[0], time) by {
          if t != [] { assert t[0] == rest[1]; }
        }
        if prNull {
          SweepExact([], true, t, time);
        } else {
          SweepExact(kept, true, t, time);
        }
      } else {
        SweepExact(kept + [x], false, t, time);
      }
    }
  }

  /** When no two expired entries are adjacent, clean_dns keeps exactly the
      live entries in their order. */
  lemma CleanChainExact(chain: seq<DnsReq>, time: u32)
    requires NoAdjacentExpired(chain, time)
    ensures CleanChain(chain, time) == Live(chain, time)
  {
    SweepExact([], true, chain, time);
  }

  /** The fault made concrete: live A, expired B and C, live D. The sweep
      unlinks B through its predecessor, then unlinks C as the head and
      restarts the chain at D, losing A. */
  lemma CleanChainDropsLiveEntry(a: DnsReq, b: DnsReq, c: DnsReq, d: DnsReq, time: u32)
    requires !Expired(a, time) && Expired(b, time) && Expired(c, time) && !Expired(d, time)
    ensures Live([a, b, c, d], time) == [a, d]
    ensures CleanChain([a, b, c, d], time) == [d]
  {
    var s := [a, b, c, d];
    assert s[1..] == [b, c, d] && s[1..][1..] == [c, d] && s[1..][1..][1..] == [d];
    assert [d][1..] == [];
    assert Live([d], time) == [d];
    assert Live([c, d], time) == [d];
    assert Live([b, c, d], time) == [d];
    assert Live(s, time) == [a] + Live(s[1..], time);
    assert [] + [d] == [d] && [] + [a] == [a];
    assert Sweep([], true, [d], time) == Sweep([d], false, [], time) == [d];
    assert Sweep([a], true, [c, d], time) == Sweep([], true, [d], time);
    assert Sweep([a], false, [b, c, d], time) == Sweep([a], true, [c, d], time);
    assert Sweep([], true, s, time) == Sweep([a], false, [b, c, d], time);
  }

  lemma CleanDnsWellFormed(st: TableState, time: u32)
    requires WellFormed(st)
    ensures WellFormed(CleanDns(st, time))
  {
    var st' := CleanDns(st, time);
    forall h | 0 <= h < BUCKETS ensures ReqChainOk(st'.dnsreqs[h], h) {
      CleanChainKeepsSuffix(st.dnsreqs[h], time);
      assert ReqChainOk(st.dnsreqs[h], h);
      forall k | 0 <= k < |st'.dnsreqs[h]| ensures DHash(st'.dnsreqs[h][k].src, st'.dnsreqs[h][k].qid) == h {
        var j :| 0 <= j < |st.dnsreqs[h]| && st.dnsreqs[h][j] == st'.dnsreqs[h][k];
      }
    }
  }
}
