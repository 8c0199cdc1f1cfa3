/** The 16-slot port sets of SRV targets and backends (packet.c `add_port`).
    A slot holding 0 is empty. */
module Ports {
  import opened Common

  const PORT_SLOTS: nat := 16

  /** Index of the first slot equal to `x`, or -1 when there is none. */
  function FirstIndex(s: seq<u16>, x: u16): (i: int)
    ensures -1 <= i < |s|
    ensures i >= 0 ==> s[i] == x && forall k :: 0 <= k < i ==> s[k] != x
    ensures i == -1 <==> x !in s
  {
    if s == [] then -1
    else if s[0] == x then 0
    else
      var j := FirstIndex(s[1..], x);
      if j < 0 then -1 else j + 1
  }

  /** What add_port returns and the port set it leaves behind. */
  datatype Added = Added(index: int, ports: seq<u16>)

  /** add_port: the index of an existing equal slot; otherwise the first
      empty slot, now holding `port`; otherwise -1 with nothing changed. */
  function AddPort(ports: seq<u16>, port: u16): (r: Added)
    ensures |r.ports| == |ports| && -1 <= r.index < |ports|
  {
    var i := FirstIndex(ports, port);
    if i >= 0 then Added(i, ports)
    else
      var z := FirstIndex(ports, 0);
      if z >= 0 then Added(z, ports[z := port]) else Added(-1, ports)
  }

  /** What add_port promises: -1 exactly when the port is absent and no
      slot is free; otherwise the returned slot holds the port, it is the
      first equal slot when the port was present (and nothing changes), or
      the first free slot, and no other slot changes. */
  lemma AddPortSpec(ports: seq<u16>, port: u16)
    ensures var r := AddPort(ports, port);
            && (r.index == -1 <==> port !in ports && 0 !in ports)
            && (r.index >= 0 ==> r.ports[r.index] == port)
            && (forall k :: 0 <= k < |ports| && k != r.index ==> r.ports[k] == ports[k])
            && (port in ports ==> r.ports == ports && ports[r.index] == port
                                  && forall k :: 0 <= k < r.index ==> ports[k] != port)
            && (port !in ports && 0 in ports ==>
                  ports[r.index] == 0 && forall k :: 0 <= k < r.index ==> ports[k] != 0)
  {
  }

  /** A repeated add_port of the same port returns the same index and
      changes nothing more. */
  lemma AddPortIdempotent(ports: seq<u16>, port: u16)
    ensures AddPort(AddPort(ports, port).ports, port) == AddPort(ports, port)
  {
    AddPortSpec(ports, port);
    AddPortSpec(AddPort(ports, port).ports, port);
  }

  /** No port other than 0 appears twice. */
  ghost predicate Distinct(ports: seq<u16>)
  {
    forall i, j :: 0 <= i < j < |ports| && ports[i] != 0 ==> ports[i] != ports[j]
  }

  /** add_port never introduces a duplicate. */
  lemma AddPortKeepsDistinct(ports: seq<u16>, port: u16)
    requires Distinct(ports)
    ensures Distinct(AddPort(ports, port).ports)
  {
    AddPortSpec(ports, port);
  }

  /** `counts[j]++` on a parallel counter array; out-of-range j changes nothing. */
  function Bump(counts: seq<nat>, j: int): (r: seq<nat>)
    ensures |r| == |counts|
    ensures 0 <= j < |counts| ==> r[j] == counts[j] + 1
    ensures forall k :: 0 <= k < |counts| && k != j ==> r[k] == counts[k]
  {
    if 0 <= j < |counts| then counts[j := counts[j] + 1] else counts
  }

  /** packet.c `add_port` on a fixed array, with its two loops. */
  method AddPortInPlace(ports: array<u16>, port: u16) returns (i: int)
    modifies ports
    ensures Added(i, ports[..]) == AddPort(old(ports[..]), port)
  {
    i := 0;
    while i < ports.Length
      invariant 0 <= i <= ports.Length
      invariant forall k :: 0 <= k < i ==> ports[k] != port
    {
      if ports[i] == port {
        assert FirstIndex(ports[..], port) == i;
        return;
      }
      i := i + 1;
    }
    assert port !in ports[..];
    i := 0;
    while i < ports.Length
      invariant 0 <= i <= ports.Length
      invariant forall k :: 0 <= k < i ==> ports[k] != 0
    {
      if ports[i] == 0 {
        assert FirstIndex(ports[..], 0) == i;
        ports[i] := port;
        return;
      }
      i := i + 1;
    }
    i := -1;
  }
}
