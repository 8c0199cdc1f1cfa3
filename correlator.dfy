/** The global tables of packet.c as an object: three arrays of 512
    bucket chains, updated in place by the operations of packet.c. Each
    method is proved to leave the tables as the function of module Tables
    that specifies it says, and to keep them well formed. */
module Correlator {
  import opened Common
  import opened Hash
  import opened Ports
  import opened Tables

  class Correlator {
    var dnsreqs: array<seq<DnsReq>>
    var srvrecs: array<seq<SrvRec>>
    var backends: array<seq<Backend>>

    /** The contents of the three arrays. */
    function State(): TableState
      reads this, dnsreqs, srvrecs, backends
    {
      TableState(dnsreqs[..], srvrecs[..], backends[..])
    }

    ghost predicate Valid()
      reads this, dnsreqs, srvrecs, backends
    {
      && dnsreqs.Length == BUCKETS && srvrecs.Length == BUCKETS && backends.Length == BUCKETS
      && WellFormed(State())
    }

    /** The tables at program start: `= { NULL }` for every bucket. */
    constructor ()
      ensures Valid() && State() == EmptyTables()
      ensures fresh(dnsreqs) && fresh(srvrecs) && fresh(backends)
    {
      dnsreqs := new seq<DnsReq>[BUCKETS](_ => []);
      srvrecs := new seq<SrvRec>[BUCKETS](_ => []);
      backends := new seq<Backend>[BUCKETS](_ => []);
      new;
      assert dnsreqs[..] == EmptyTables().dnsreqs;
      assert srvrecs[..] == EmptyTables().srvrecs;
      assert backends[..] == EmptyTables().backends;
      EmptyTablesWellFormed();
    }

    /** find_srv_target: walk the bucket until strcmp matches. */
    method FindSrvTarget(target: CString) returns (s: Option<SrvRec>)
      requires Valid()
      ensures s == FindSrv(State(), target)
    {
      var h := SHash(target);
      var chain := srvrecs[h];
      var i := 0;
      while i < |chain|
        invariant 0 <= i <= |chain|
        invariant forall k :: 0 <= k < i ==> chain[k].target != target
      {
        if chain[i].target == target {
          FindSrvInIs(chain, target, i);
          return Some(chain[i]);
        }
        i := i + 1;
      }
      return None;
    }

    /** saw_srv_target: add the port to the record for `target`, or push a
        new record at the head of its bucket. A target always comes from a
        256-byte buffer, so it is shorter than NAME_SIZE. */
    method SawSrvTarget(target: CString, port: u16, name: CString)
      requires Valid() && |target| < NAME_SIZE
      modifies srvrecs
      ensures Valid()
      ensures State() == SawSrv(old(State()), target, port, name)
    {
      SawSrvWellFormed(State(), target, port, name);
      var h := SHash(target);
      var chain := SawSrvIn(srvrecs[h], target, port, name);
      srvrecs[h] := chain;
    }

    /** The walk of saw_srv_target over one chain. */
    static method SawSrvIn(chain: seq<SrvRec>, target: CString, port: u16, name: CString) returns (r: seq<SrvRec>)
      ensures r == SawSrvChain(chain, target, port, name)
    {
      var i := 0;
      while i < |chain|
        invariant 0 <= i <= |chain|
        invariant forall k :: 0 <= k < i ==> chain[k].target != target
      {
        if chain[i].target == target {
          FindSrvInIs(chain, target, i);
          var a := AddPort(chain[i].ports, port);
          return chain[i := chain[i].(ports := a.ports)];
        }
        i := i + 1;
      }
      return [NewSrv(target, port, name)] + chain;
    }

    /** make_backend: find the backend keyed (src, dst); without SRV
        context bump its rcount, with one merge the SRV ports slot by slot;
        with none, push a new backend at the head of the bucket. */
    method MakeBackend(src: u32, dst: u32, name: CString, srv: Option<SrvRec>)
      requires Valid() && (srv.Some? ==> |srv.value.ports| == PORT_SLOTS)
      modifies backends
      ensures Valid()
      ensures State() == Tables.MakeBackend(old(State()), src, dst, name, srv)
    {
      MakeBackendWellFormed(State(), src, dst, name, srv);
      var h := BHash(src, dst);
      var chain := MakeBackendIn(backends[h], src, dst, name, srv);
      backends[h] := chain;
    }

    /** The walk of make_backend over one chain. */
    static method MakeBackendIn(chain: seq<Backend>, src: u32, dst: u32, name: CString, srv: Option<SrvRec>)
      returns (r: seq<Backend>)
      ensures r == MakeBackendChain(chain, src, dst, name, srv)
    {
      var i := 0;
      while i < |chain|
        invariant 0 <= i <= |chain|
        invariant forall k :: 0 <= k < i ==> chain[k].src != src || chain[k].dst != dst
      {
        if chain[i].src == src && chain[i].dst == dst {
          FindBackendInIs(chain, src, dst, i);
          var b := chain[i];
          if srv.None? {
            b := b.(rcount := b.rcount + 1);
          } else {
            b := MergePorts(b, srv.value.ports);
          }
          return chain[i := b];
        }
        i := i + 1;
      }
      return [NewBackend(src, dst, name, srv)] + chain;
    }

    /** The merge loop of make_backend over the 16 SRV slots. */
    static method MergePorts(b: Backend, srvPorts: seq<u16>) returns (r: Backend)
      ensures r == MergeSrvPorts(b, srvPorts)
    {
      r := b;
      var i := 0;
      while i < |srvPorts|
        invariant 0 <= i <= |srvPorts|
        invariant MergeSrvPorts(r, srvPorts[i..]) == MergeSrvPorts(b, srvPorts)
      {
        var a := AddPort(r.ports, srvPorts[i]);
        if a.index == -1 {
          return;
        }
        assert srvPorts[i..][1..] == srvPorts[i + 1..];
        r := r.(ports := a.ports, rcounts := Bump(r.rcounts, a.index));
        i := i + 1;
      }
    }

    /** got_tcp_conn: credit the port to every backend keyed (src, dst);
        a full port set ends the walk. */
    method GotTcpConn(src: u32, dst: u32, sport: u16, dport: u16)
      requires Valid()
      modifies backends
      ensures Valid()
      ensures State() == GotTcp(old(State()), src, dst, dport)
    {
      GotTcpWellFormed(State(), src, dst, dport);
      var h := BHash(src, dst);
      var chain := GotTcpIn(backends[h], src, dst, dport);
      backends[h] := chain;
    }

    /** The walk of got_tcp_conn over one chain. `done` is the prefix
        already walked, as the loop has left it. */
    static method GotTcpIn(chain: seq<Backend>, src: u32, dst: u32, dport: u16) returns (r: seq<Backend>)
      ensures r == GotTcpChain(chain, src, dst, dport)
    {
      var done: seq<Backend> := [];
      var i := 0;
      while i < |chain|
        invariant 0 <= i <= |chain|
        invariant done + GotTcpChain(chain[i..], src, dst, dport) == GotTcpChain(chain, src, dst, dport)
      {
        var b := chain[i];
        ghost var rest := chain[i..];
        assert rest[0] == b && rest[1..] == chain[i + 1..];
        if b.src == src && b.dst == dst {
          var a := AddPort(b.ports, dport);
          if a.index == -1 {
            assert GotTcpChain(rest, src, dst, dport) == rest;
            return done + chain[i..];
          }
          b := b.(ports := a.ports, counts := Bump(b.counts, a.index));
        }
        ghost var tail := GotTcpChain(chain[i + 1..], src, dst, dport);
        assert GotTcpChain(rest, src, dst, dport) == [b] + tail;
        assert done + ([b] + tail) == (done + [b]) + tail;
        done := done + [b];
        i := i + 1;
      }
      return done;
    }

    /** Track a query: insert it at the head of `dnsreqs[dhash(src, qid)]`. */
    method AddQuery(r: DnsReq)
      requires Valid()
      modifies dnsreqs
      ensures Valid()
      ensures State() == AddReq(old(State()), r)
    {
      AddReqWellFormed(State(), r);
      var h := DHash(r.src, r.qid);
      dnsreqs[h] := [r] + dnsreqs[h];
    }

    /** The response-match step of parse_dns: find the first pending query
        the response answers and unlink it; false when there is none. */
    method TakeQuery(qid: u16, src: u32, dst: u32, dport: u16, name: CString) returns (found: bool)
      requires Valid()
      modifies dnsreqs
      ensures Valid()
      ensures var t := TakeReq(old(State()), qid, src, dst, dport, name);
              && found == t.Some?
              && State() == (if found then t.value else old(State()))
    {
      TakeReqUnlinksOne(State(), qid, src, dst, dport, name);
      var h := DHash(dst, qid);
      var i := FindQuery(dnsreqs[h], qid, src, dst, dport, name);
      if i >= 0 {
        dnsreqs[h] := dnsreqs[h][..i] + dnsreqs[h][i + 1..];
      }
      found := i >= 0;
    }

    /** The walk of the response match over one chain. */
    static method FindQuery(chain: seq<DnsReq>, qid: u16, src: u32, dst: u32, dport: u16, name: CString)
      returns (i: int)
      ensures i == FindReqIn(chain, qid, src, dst, dport, name)
    {
      i := 0;
      while i < |chain|
        invariant 0 <= i <= |chain|
        invariant forall k :: 0 <= k < i ==> !Answers(chain[k], qid, src, dst, dport, name)
      {
        if Answers(chain[i], qid, src, dst, dport, name) {
          FindReqInIs(chain, qid, src, dst, dport, name, i);
          return;
        }
        i := i + 1;
      }
      i := -1;
    }

    /** clean_dns(time): sweep every bucket with the `pr`/`r` walk. */
    method CleanDns(time: u32)
      requires Valid()
      modifies dnsreqs
      ensures Valid()
      ensures State() == Tables.CleanDns(old(State()), time)
    {
      ghost var st := State();
      CleanDnsWellFormed(st, time);
      ghost var want := Tables.CleanDns(st, time).dnsreqs;
      var h := 0;
      while h < BUCKETS
        invariant 0 <= h <= BUCKETS
        invariant forall g :: 0 <= g < h ==> dnsreqs[g] == want[g]
        invariant forall g :: h <= g < BUCKETS ==> dnsreqs[g] == st.dnsreqs[g]
      {
        var kept := SweepChain(dnsreqs[h], time);
        dnsreqs[h] := kept;
        h := h + 1;
      }
      assert dnsreqs[..] == want;
    }

    /** The inner loop of clean_dns over one chain. `kept` is the chain as
        the walk leaves it up to `r`, `prNull` whether `pr` is NULL. */
    static method SweepChain(chain: seq<DnsReq>, time: u32) returns (kept: seq<DnsReq>)
      ensures kept == CleanChain(chain, time)
    {
      kept := [];
      var prNull := true;
      var j := 0;
      while j < |chain|
        invariant 0 <= j <= |chain|
        invariant Sweep(kept, prNull, chain[j..], time) == CleanChain(chain, time)
      {
        assert chain[j..][1..] == chain[j + 1..];
        if Expired(chain[j], time) {
          if prNull {
            kept := [];
          }
          prNull := true;
        } else {
          kept := kept + [chain[j]];
          prNull := false;
        }
        j := j + 1;
      }
    }
  }
}
