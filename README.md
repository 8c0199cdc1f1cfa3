# snoop-conn-balance, modelled in Dafny

snoop-conn-balance reads a snoop capture (RFC 1761) of Ethernet traffic.
It infers how clients spread their TCP connections over the backends that
DNS handed out to them. It works in three steps:

1. It watches DNS queries for A and SRV names and remembers each one as a
   pending request.
2. When the matching response arrives, it creates or updates one backend
   per address answered. SRV records teach it the ports of SRV targets.
3. Every pure TCP SYN from a client to a known backend credits that
   backend's port.

This project models the core of that program:

- `packet.c`: `add_port`, `saw_srv_target`, `find_srv_target`,
  `make_backend`, `got_tcp_conn`, `read_nsname`, `clean_dns` and
  `parse_dns`.
- `hash.c`: `fnvhash`, `shash`, `dhash` and `bhash`, with 512 buckets.
- The record loop of `main` in `connbal.c`.

The modules follow the program's structure:

- `Common`: fixed-width integers, unsigned 16- and 32-bit subtraction,
  the conversion of an unsigned value to a 32-bit `int`, big-endian
  fields, and C strings. A C string is the bytes before the first NUL,
  which is all that `strcmp`, `strstr` and `strlen` read. `byte`, `u16`
  and `u32` are subtypes of `int` bounded to their ranges. They are not
  bit-vectors.
- `Hash`: 64-bit FNV as a recursive function, plus the loop of `fnvhash`
  proved equal to it. The keys of `dhash` and `bhash` are the
  little-endian bytes that `memcpy` copies on the hosts the program
  targets.
- `Ports`: `add_port` on 16-slot port sets, as a function and as a loop
  over an array.
- `Tables`: the three hash tables as values (512 chains each), every
  operation of `packet.c` as a function on them, and the well-formedness
  invariant. In a well-formed table every entry sits in the bucket its key
  hashes to, SRV targets and backend keys are unique, and every port set
  has 16 slots.
- `Correlator`: the tables as an object holding three arrays, updated in
  place. Each method is proved to leave the arrays as the matching
  `Tables` function says.
- `Names`: `read_nsname` with its pointer check `ptr > r`, which lets a
  pointer reach its own bytes (or the byte after them). A pointer to
  itself recurses without end, so the decoder carries a recursion bound
  (`fuel`). A second decoder follows only strictly backward pointers and
  needs no fuel. It is proved to agree with the first once the fuel that
  parse_dns passes is enough.
- `Dns`: `parse_dns` as a function of the tables and the packet, and the
  loop that does the same work on a `Correlator`.
- `Capture`: the file-header check, the record-header decoding, the growth
  rule of the record buffer, the ten-second sweep, and the Ethernet /
  802.1Q / IPv4 / UDP / TCP demux. A class `Capture` holds the loop's
  state (`lastclean`, `dlen`, the buffer and the tables). Its `Record`
  method carries out one pass of the loop.

Where the C code has behaviour its authors probably did not intend, the
model keeps the code's behaviour:

- Names keep the `.` that follows every label.
- Reaching `len`, or filling the output buffer up to its last byte, ends
  a name as a success even without its zero byte. A label that leaves no
  room for its dot and the NUL writes past the buffer; the model calls
  that `Unsafe`.
- The A and CNAME tests look at the number of answers still remaining.
- Authority records are treated like additional records.
- The section counts `nc` and `ec` wrap around in 16 bits.
- A backend is keyed by the response's destination and the answered
  address.
- A new backend starts with `rcount` 1 and all `rcounts` 0.
- The SRV merge adds all 16 slots, including the empty ones.
- The pure-SYN test compares the whole flags byte with `0x02`.
- `clean_dns` has an unlink bug: after removing an entry in the middle of
  a chain it resets `pr` to NULL. If the next entry has also expired, the
  entries before it are lost. The model keeps this bug;
  `Tables.CleanChainDropsLiveEntry` shows an input where the sweep loses
  an entry that has not expired.

A read past the captured bytes is undefined behaviour in C. The model
treats it as a read that fails, and decoding stops at that point.

## Model

| member | source | states |
|---|---|---|
| Common.Sub16 | packet.c:467-478 | `--` on a `uint16_t`: the difference, plus 65536 when it would go negative |
| Common.Sub32 | packet.c:276 | unsigned 32-bit subtraction, as in `time - r->ctime` and `hdr.sec - lastclean` |
| Common.ToInt32 | connbal.c:173 | a value converted to a 32-bit `int` lies in its range and is congruent modulo 2^32 |
| Common.Be16Enc16 | connbal.c:137-139 | `ntohs` of two bytes written big-endian gives back the written value, at any offset |
| Common.Be32Enc32 | connbal.c:154-157 | `ntohl` of four bytes written big-endian gives back the written value, at any offset |
| Common.Strlcpy | packet.c:102-103 | `strlcpy` into a buffer of `size` bytes keeps a prefix shorter than `size`: the whole string when it fits, and exactly `size - 1` bytes when it does not |
| Common.CStrOfCString | packet.c:92 | the C string of a string followed by a NUL and anything else is that string |
| Hash.Fnv | hash.c:8 | FNV of no bytes is the offset basis `0xcbf29ce484222325` |
| Hash.FnvIsFold | hash.c:4-14 | the recursive FNV equals the left fold of multiply-then-xor rounds from the offset basis |
| Hash.FnvFromSnoc | hash.c:9-12 | the round for the last byte is applied last |
| Hash.FnvHash | hash.c:4-14 | the loop of `fnvhash` returns FNV of its input, the fold from the offset basis, modulo 2^64 |
| Hash.SHash | hash.c:16-20 | `shash` lies in `[0, 512)` |
| Hash.SHashStopsAtNul | hash.c:19 | `shash` reads only up to the first NUL (`strlen`) |
| Hash.DHash | hash.c:22-29 | `dhash` lies in `[0, 512)` |
| Hash.BHash | hash.c:31-38 | `bhash` lies in `[0, 512)` |
| Hash.DKeyInjective | hash.c:25-27 | the six bytes hashed by `dhash` determine `src` and `qid` |
| Hash.BKeyInjective | hash.c:34-36 | the eight bytes hashed by `bhash` determine `src` and `dst` |
| Ports.FirstIndex | packet.c:71-74 | the first index holding the port when there is one; -1 exactly when the port is absent |
| Ports.AddPort | packet.c:67-82 | keeps 16 slots and returns an index in range or -1 |
| Ports.AddPortSpec | packet.c:67-82 | -1 exactly when the port is absent and no slot is free; otherwise the returned slot holds the port, and it is the first equal slot (nothing changes) or the first free slot; no other slot changes |
| Ports.AddPortIdempotent | packet.c:67-82 | adding the same port again returns the same slot and changes nothing |
| Ports.AddPortKeepsDistinct | packet.c:67-82 | a port set without repeated ports keeps that property |
| Ports.Bump | packet.c:145 | `counts[j]++`: slot `j` goes up by one and every other slot is unchanged |
| Ports.AddPortInPlace | packet.c:67-82 | the loop over the array returns the index and leaves the array as `AddPort` says |
| Tables.Zeros | packet.c:151 | `calloc` gives counters that are all zero |
| Tables.NoPorts | packet.c:151 | `calloc` gives port slots that are all zero (empty) |
| Tables.EmptyTablesWellFormed | packet.c:33 | the initial, all-NULL tables are well formed |
| Tables.FindSrvIn | packet.c:115-121 | the first record of the chain with that target, or -1 when no record has it |
| Tables.FindSrv | packet.c:109-122 | a record found under a target has that target and sits in the target's bucket |
| Tables.FindSrvOk | packet.c:109-122 | a found record has 16 port slots |
| Tables.FindSrvComplete | packet.c:109-122 | NULL exactly when no record in any bucket has that target |
| Tables.SawSrvWellFormed | packet.c:84-107 | `saw_srv_target` keeps the tables well formed |
| Tables.SawSrvFirstSighting | packet.c:100-106 | an unknown target gets a new record at the head of its bucket, holding the target, the name and the port in slot 0, and is found afterwards |
| Tables.SawSrvLaterSighting | packet.c:91-98 | a known target's record gets the port added as `add_port` says, and it stays unchanged when the port is new and all 16 slots are full; no record is pushed, and every other record, every other bucket and the other two tables are unchanged |
| Tables.FindBackendIn | packet.c:132-133 | the first backend of the chain with that key, or -1 when none has it |
| Tables.FindBackend | packet.c:130-133 | a backend found under `(src, dst)` has that key and sits in its bucket |
| Tables.MergeSrvPorts | packet.c:138-146 | the merge changes only the ports and `rcounts`, and keeps their sizes |
| Tables.MergeSrvPortsMonotone | packet.c:138-146 | the merge keeps a backend well formed, never lowers an `rcounts` slot, raises none by more than the number of SRV ports, and keeps the ports distinct |
| Tables.MakeBackendWellFormed | packet.c:124-160 | `make_backend` keeps the tables well formed |
| Tables.MakeBackendCases | packet.c:132-159 | a known key without SRV context gets `rcount + 1`; with SRV context it gets the merge; either way the chain keeps its length and its other backends. An unknown key gets a new backend at the head of its bucket. Other buckets and the other two tables are unchanged |
| Tables.NewBackendFields | packet.c:151-158 | a new backend has `rcount` 1, zero `counts` and `rcounts`, the SRV record's name and ports when there is one, and otherwise the answer name and empty ports |
| Tables.GotTcpChainCredits | packet.c:173-183 | on a chain whose keys are unique, every backend with the key is credited and the others are unchanged |
| Tables.GotTcpWellFormed | packet.c:165-184 | `got_tcp_conn` keeps the tables well formed |
| Tables.GotTcpUnknownOrFull | packet.c:173-180 | an unknown key, or a port that finds no slot, changes nothing |
| Tables.GotTcpCredits | packet.c:173-183 | a known backend gets the port added and the count at its slot raised by one; `rcount`, `rcounts` and the other tables are unchanged |
| Tables.GotTcpChainFind | packet.c:173-183 | after the walk, the first backend with the key is still at the same place, now credited |
| Tables.CreditFields | packet.c:175-181 | a credit raises the count at the port's slot by one and leaves `rcount` and `rcounts` alone |
| Tables.AddReqWellFormed | packet.c:364-366 | pushing a request onto `dnsreqs[dhash(src, qid)]` keeps the tables well formed |
| Tables.FindReqIn | packet.c:385-391 | the first request answered by the response (same id, addresses and ports swapped, same name), or -1 when none is |
| Tables.UnlinkChainOk | packet.c:396-400 | removing one entry keeps every remaining entry in the bucket its key hashes to |
| Tables.UnlinkOne | packet.c:396-400 | removing one entry shortens the chain by one and drops exactly that entry, as a multiset |
| Tables.TakeReqMiss | packet.c:385-394 | with no match, no request in `dnsreqs[dhash(dst, qid)]` is answered by the response |
| Tables.UnlinkReqHit | packet.c:396-400 | with a match in bucket `h`, only that bucket changes, and it becomes the chain without its first matching entry |
| Tables.UnlinkReqWellFormed | packet.c:396-400 | the unlink keeps the tables well formed |
| Tables.TakeReqHit | packet.c:383-400 | with a match, the tables stay well formed; only `dnsreqs[dhash(dst, qid)]` changes, losing exactly its first matching entry |
| Tables.TakeReqUnlinksOne | packet.c:383-400 | with no match, no pending request in the bucket is answered; otherwise the first match is unlinked from `dnsreqs[dhash(dst, qid)]`, and the bucket becomes the chain without that entry. Every other bucket and both other tables are unchanged, and the tables stay well formed |
| Tables.LiveProps | packet.c:276 | the unexpired part of a chain holds only unexpired entries of that chain |
| Tables.LiveAppend | packet.c:276 | filtering out expired entries distributes over concatenation |
| Tables.SweepSuffix | packet.c:274-289 | the sweep loop's result is a suffix of the unexpired entries |
| Tables.CleanChainKeepsSuffix | packet.c:273-289 | a swept chain is a suffix of its unexpired entries, so it holds no expired entry and nothing new |
| Tables.SweepExact | packet.c:274-289 | without two adjacent expired entries the sweep keeps every unexpired entry, in order |
| Tables.CleanChainExact | packet.c:273-289 | without two adjacent expired entries a swept chain is exactly its unexpired entries |
| Tables.CleanChainDropsLiveEntry | packet.c:282-287 | for live, expired, expired, live, the unexpired entries are the first and last, but the sweep keeps only the last |
| Tables.CleanDnsWellFormed | packet.c:267-291 | `clean_dns` keeps the tables well formed |
| Correlator.Correlator.constructor | packet.c:33 | the three tables start with 512 empty buckets and are well formed |
| Correlator.Correlator.FindSrvTarget | packet.c:109-122 | the walk returns `FindSrv` of the tables |
| Correlator.Correlator.SawSrvTarget | packet.c:84-107 | the arrays afterwards are `SawSrv` of the old tables and stay well formed |
| Correlator.Correlator.SawSrvIn | packet.c:91-106 | the walk of one chain gives `SawSrvChain` |
| Correlator.Correlator.MakeBackend | packet.c:124-160 | the arrays afterwards are `MakeBackend` of the old tables and stay well formed |
| Correlator.Correlator.MakeBackendIn | packet.c:132-159 | the walk of one chain gives `MakeBackendChain` |
| Correlator.Correlator.MergePorts | packet.c:138-146 | the 16-slot merge loop, with its early return, gives `MergeSrvPorts` |
| Correlator.Correlator.GotTcpConn | packet.c:165-184 | the arrays afterwards are `GotTcp` of the old tables and stay well formed |
| Correlator.Correlator.GotTcpIn | packet.c:173-183 | the walk of one chain, with its early return, gives `GotTcpChain` |
| Correlator.Correlator.AddQuery | packet.c:364-366 | the arrays afterwards are `AddReq` of the old tables and stay well formed |
| Correlator.Correlator.TakeQuery | packet.c:383-400 | reports whether a pending request matched; the arrays afterwards are `TakeReq` of the old tables, or unchanged when nothing matched |
| Correlator.Correlator.FindQuery | packet.c:385-391 | the walk returns `FindReqIn` of the chain |
| Correlator.Correlator.CleanDns | packet.c:267-291 | the arrays afterwards are `CleanDns` of the old tables and stay well formed |
| Correlator.Correlator.SweepChain | packet.c:274-289 | the `pr`/`r` walk over one chain gives `CleanChain` |
| Names.PointerTarget | packet.c:243-245 | a compression pointer targets an offset below 2^14 |
| Names.ReadName | packet.c:228-264 | a successful read only extends what was written, stays below the buffer size, and never moves the cursor back |
| Names.LengthByteRules | packet.c:232-258 | tags 01 and 10 are `BadLabel`, a pointer past the byte after its own two bytes is `BadPointer`, and a name read through a pointer ends just past the pointer |
| Names.PointerBytes | packet.c:242-245 | the two bytes `c0\|p` carry the pointer tag and target `p` |
| Names.PointerAt | packet.c:242-245 | a pointer written at `r` reads as tag 3 with target `p` |
| Names.PointerThen | packet.c:246-255 | a pointer that passes the check returns what was written before it followed by the name at its target, and ends just past its two bytes |
| Names.ReadPointerToName | packet.c:242-255 | a pointer to an encoded name at or before the byte after it reads back as that name's dotted form, ending just past the pointer |
| Names.ReadLabelThenPointer | packet.c:232-255 | a label followed by a pointer to an encoded name reads as the label, a dot and the dotted name |
| Names.ReadCompressedNameIn | packet.c:232-255 | a compressed name anywhere in a packet (a label, then a pointer back to an earlier encoded name) reads back as the label, a dot and the earlier name |
| Names.NextBytePointer | packet.c:246 | the check lets through `c0 02 00`, a pointer to the byte after its own two bytes, and reads it as the empty name; the fuel-free decoder refuses it |
| Names.ReadNsName | packet.c:228-264 | the loop returns `ReadName`; on success the buffer holds the name's bytes and a NUL, and nothing before the buffer changes |
| Names.CopyLabel | packet.c:237-240 | one label step moves the cursor past the label, writes the label and a dot, and continues as `ReadName` says |
| Names.FollowPointer | packet.c:242-255 | a pointer step returns what `ReadName` returns for the pointer and writes its bytes |
| Names.WriteNul | packet.c:261 | writes the terminating NUL and nothing else |
| Names.WriteLabel | packet.c:238-240 | appends the label and a dot to what was written before |
| Names.StrictName | packet.c:228-264 | the decoder that follows only strictly backward pointers needs no fuel; its successful reads extend what was written and stay below the buffer size |
| Names.StrictAgrees | packet.c:228-264 | with enough fuel and no pointer to its own two bytes or to the byte after them, `read_nsname` gives the same result as the fuel-free decoder |
| Names.StrictLabelStep | packet.c:237-240 | a label step of the fuel-free decoder continues after the label |
| Names.PointerSteps | packet.c:242-255 | a strictly backward pointer steps the same way in both decoders |
| Names.NoRecursionAgrees | packet.c:232-259 | a step that neither copies a label nor follows a pointer ends the same way in both decoders |
| Names.StrictAgreesTop | packet.c:346 | the fuel parse_dns passes for a 256-byte buffer is always enough, unless a pointer reaches its own two bytes or the byte after them |
| Names.SelfPointerNeverEnds | packet.c:246-251 | the check lets through a pointer to itself, `c0 00`, and no fuel is enough to finish reading it |
| Names.SelfPointerIsForward | packet.c:246 | the fuel-free decoder refuses that pointer |
| Names.ReadEncodedName | packet.c:232-240 | reading an encoded label sequence gives back the labels, joined and each followed by a dot, and ends just after the zero byte |
| Names.LabelThen | packet.c:237-240 | a label followed by a name reads back as the label, a dot and that name |
| Names.EncodeLayout | packet.c:232-240 | the encoding of labels is a length byte, the first label, then the encoding of the rest |
| Names.ReadEncodedNameIn | packet.c:232-240 | an encoded name anywhere in a packet reads back as its dotted form |
| Names.LabelStep | packet.c:237-240 | a label step with room left continues after the label |
| Dns.ReadNameAt | packet.c:346 | a name read into a 256-byte buffer is shorter than 256 bytes and ends at or after its start |
| Dns.QueryEntry | packet.c:337-363 | a query is tracked exactly when its question name decodes, is followed by four bytes, has class IN and type A or SRV, and contains the name filter; a tracked query holds the header's id, the addresses, the source port, the time and the decoded question name, and contains the name filter |
| Dns.SrvKey | packet.c:402 | `find_srv_target` is non-NULL exactly when a record with that target exists |
| Dns.Advance | packet.c:463-479 | moving past a record keeps its new offset and SRV context; an answer record decrements `ac` (65535 after 0) and moves to the authority section after the last one, an authority record does the same with `nc` and the additional section; an additional record decrements `ec` the same way and ends the walk exactly when it was the last |
| Dns.AuthorityCountWraps | packet.c:470-472 | with a zero authority count, `--nc` wraps to 65535 and the walk stays in the authority section |
| Dns.AdditionalCountWraps | packet.c:474-478 | with a zero additional count, `--ec` wraps to 65535 and the walk goes on |
| Dns.ReadRecordHead | packet.c:409-422 | a record's data starts at least ten bytes after its owner name, and the name fits its buffer |
| Dns.ReadSrvData | packet.c:446-458 | an SRV target fits its 256-byte buffer |
| Dns.RecordEffect | packet.c:440-460 | an A or SRV record never touches the pending requests and keeps the tables' shape |
| Dns.RecordStep | packet.c:406-480 | one record never touches the pending requests, and the loop goes on only forward |
| Dns.StepWith | packet.c:423-479 | the record's body never touches the pending requests, and the loop goes on only forward |
| Dns.RecordRules | packet.c:423-460 | a non-IN class ends the walk unchanged; a CNAME with at most one answer left and no SRV context ends it unchanged; an A record without SRV context and with at most one answer left changes nothing; otherwise an A record is `make_backend(dst, addr, name, srv)`; an SRV record is `saw_srv_target(target, port, name)` |
| Dns.RecordsKeepRequests | packet.c:406-480 | the whole record loop leaves the pending requests alone |
| Dns.RecordEffectWellFormed | packet.c:440-460 | an A or SRV record keeps the tables well formed |
| Dns.RecordStepWellFormed | packet.c:406-480 | one record keeps the tables well formed |
| Dns.RecordsWellFormed | packet.c:406-480 | the record loop keeps the tables well formed |
| Dns.ParseDns | packet.c:294-484 | the tables keep their 512-bucket shape |
| Dns.ParseDnsNeedsHeader | packet.c:302-325 | parse_dns changes the tables only for a packet of at least 12 bytes, with at most one question and 1000 answers, that is a query to port 53 or a response from port 53 |
| Dns.QueryTracked | packet.c:337-366 | a query changes the tables exactly when `QueryEntry` yields a request, which is pushed onto `dnsreqs[dhash(src, qid)]`; no other bucket and neither other table changes |
| Dns.ResponseUnlinks | packet.c:373-400 | a response whose question matches no pending request changes nothing; otherwise the pending requests end as `TakeReq` leaves them |
| Dns.ParseDnsWellFormed | packet.c:294-484 | parse_dns keeps the tables well formed |
| Dns.ResponseWellFormed | packet.c:367-484 | handling a response (the request it answers unlinked, then its records) keeps the tables well formed |
| Dns.SrvTargetPersists | packet.c:84-107 | a target known before `saw_srv_target` is still known after it, so the SRV context held across records stays valid |
| Dns.ReadEncodedHeader | packet.c:311-331 | the id and the four counts of an encoded header read back |
| Dns.QueryRoundTrip | packet.c:337-366 | an A or SRV class-IN query for an encoded name, sent to port 53 without a filter, is tracked as a request holding the dotted name |
| Dns.QueryPacketEntry | packet.c:337-363 | such a query's header reads back and its question yields that request |
| Dns.QuestionTailAt | packet.c:350-355 | the question's type and class read back after the name |
| Dns.QueryEntryAt | packet.c:350-363 | a question of class IN and type A or SRV yields a request with the header's id and the question name |
| Dns.QuestionNameAt | packet.c:346 | the question name after the header reads back as the dotted labels |
| Dns.ParseDnsPacket | packet.c:294-484 | the tables afterwards are `ParseDns` of the old tables and stay well formed |
| Dns.ParseQuery | packet.c:337-366 | the tables afterwards hold the tracked request pushed, or are unchanged when the query is not tracked |
| Dns.ParseResponse | packet.c:373-482 | the tables afterwards are `Response` of the old tables |
| Dns.WalkRecords | packet.c:406-480 | the `while (off < len)` loop leaves the tables as `Records` says |
| Dns.ParseRecord | packet.c:406-479 | one iteration gives the tables and the next cursor of `RecordStep` |
| Dns.ProcessRecord | packet.c:423-479 | the body after the fixed part gives the tables and cursor of `StepWith` |
| Dns.ReadHead | packet.c:409-422 | reading a record's fixed part gives `ReadRecordHead` |
| Dns.ReadNameInto | packet.c:409-412 | reading a name into the 256-byte buffer gives `ReadNameAt` |
| Dns.ApplyRecord | packet.c:431-460 | an A or SRV record's effect is `RecordEffect`, or it fails with the tables unchanged |
| Dns.ReadSrv | packet.c:446-458 | reading the SRV port and target gives `ReadSrvData` |
| Capture.StrnEqLiteral | connbal.c:82 | `strncmp` against a literal shorter than `n` compares up to and including the literal's NUL |
| Capture.FileHeaderAccepted | connbal.c:76-91 | the header is accepted exactly when it starts with `"snoop"` and a NUL, the version is 2 and the datalink type is 4 (Ethernet) |
| Capture.PacketHeaderRoundTrip | connbal.c:104-126 | the six 32-bit record-header fields read back after encoding |
| Capture.PayloadLength | connbal.c:112 | for a usable record `plen` is the record length minus 24 and positive; a record shorter than 24 gives a negative `plen` |
| Capture.GrownSpec | connbal.c:113-117 | doubling ends with a buffer of at least `plen` bytes, no smaller than before, and either unchanged or below `2 * plen` |
| Capture.GrownFits | connbal.c:113-117 | for a record of at most 2^30 bytes, the buffer stays 512 times a power of two and at most 2^30 |
| Capture.GrownOverflows | connbal.c:113-117 | for a longer record, the doubling would pass `INT_MAX` |
| Capture.NetworkOffset | connbal.c:133-148 | the IP header starts at 14, or at 18 behind an 802.1Q tag |
| Capture.ReadIp | connbal.c:150-161 | an IP header is read only for version 4, and the transport header starts `IHL * 4` bytes after it |
| Capture.Transport | connbal.c:163-184 | a UDP packet reaches parse_dns only with a port equal to 53; a TCP packet reaches got_tcp_conn only when its flags byte is exactly SYN |
| Capture.Demux | connbal.c:133-184 | only IPv4 frames are dispatched, and DNS only to or from port 53 |
| Capture.LinkRoundTrip | connbal.c:133-148 | an encoded Ethernet header, tagged or not, gives its IP offset exactly when its type is IPv4 |
| Capture.IpRoundTrip | connbal.c:150-161 | an encoded IPv4 header gives back its addresses, protocol and length |
| Capture.UdpRoundTrip | connbal.c:163-174 | an encoded UDP packet goes to parse_dns with its ports, payload and `snap - off` exactly when a port is 53 |
| Capture.TcpRoundTrip | connbal.c:175-184 | an encoded TCP packet goes to got_tcp_conn exactly when its flags byte is `0x02` |
| Capture.UdpFrameDispatch | connbal.c:133-174 | a whole encoded UDP frame is dispatched to parse_dns exactly when a port is 53 |
| Capture.TcpFrameDispatch | connbal.c:133-184 | a whole encoded TCP frame is dispatched to got_tcp_conn exactly for a pure SYN |
| Capture.NonIpDropped | connbal.c:147-148 | a frame whose type is not IPv4 is skipped |
| Capture.Initial | connbal.c:93 | the loop starts with well-formed empty tables and a 512-byte buffer |
| Capture.Deliver | connbal.c:171-183 | handing a record to parse_dns or got_tcp_conn keeps the tables' shape |
| Capture.Pass | connbal.c:104-184 | one pass of the loop keeps the tables' shape |
| Capture.PassWellFormed | connbal.c:104-184 | one pass keeps the tables well formed and the buffer within its bounds, and leaves the buffer big enough for the record |
| Capture.SweepSpacing | connbal.c:128-131 | after a sweep, none is due again within ten seconds; without one, `lastclean` is unchanged |
| Capture.IgnoredOnlySweeps | connbal.c:128-148 | a record the demux skips changes the tables only by the sweep it may trigger |
| Capture.Capture.constructor | connbal.c:93-94 | the loop state starts as `Initial` |
| Capture.Capture.Grow | connbal.c:113-117 | the doubling loop reaches `Grown`, allocating a fresh buffer whenever it doubles |
| Capture.Capture.Load | connbal.c:118 | the payload is copied to the start of the buffer |
| Capture.Capture.Record | connbal.c:104-184 | returns the record's status; a usable record leaves the state as `Pass` says, with the payload at the start of the buffer; any other record changes nothing |
| Capture.Capture.MaybeSweep | connbal.c:128-131 | sweeps and moves `lastclean` exactly when `hdr.sec - lastclean > 10` |
| Capture.Capture.DispatchRecord | connbal.c:171-183 | the tables afterwards are `Deliver` of the old tables |

## Left out

- Command-line parsing, opening the input, the warnings on standard
  error and the exit codes of `main` are not modelled. A record that
  cannot be read becomes the status `ReadFailed`, and reaching the end of
  the file is leaving the loop.
- `print_summary` (the report written at the end) is I/O and is not part
  of this model.
- `malloc`, `calloc` and `free` are modelled as values. Chains are
  sequences, with the head of a bucket first. Ownership and freeing of
  memory have no counterpart.
- Names.ReadName: a label copy that would write past the output buffer
  (the unchecked `memcpy`, dot and NUL) is undefined behaviour in C. It
  becomes the result `Unsafe`, and the bytes beyond the buffer are not
  modelled.
- Reads past the captured bytes are undefined behaviour in C. They become
  a failed read (`Unsafe` in `Names`, `None` elsewhere), and decoding
  stops there.
- Bytes of the buffer past the current record's payload, left over from
  an earlier record, are treated as unavailable. The model reads only the
  payload.
- parse_dns with `len >= 12` but fewer than 12 captured bytes is treated
  as a packet it ignores.
- Capture.Capture.Record: a record whose length is below 24, or whose
  payload is above 2^30 bytes, only gets the status `Unsafe`. Its
  negative `fread` size, and the doubling that overflows `int`, are
  undefined behaviour and are not modelled. For every record that is not
  `Ok`, `Record` returns before the buffer grows, without the partial
  growth the C loop may do before its `fread` fails.
- The 64-bit counters `rcount`, `counts` and `rcounts` are unbounded
  naturals, because a 2^64 wrap-around cannot happen.
- `fnvhash` wraps at 2^64 explicitly. The `dhash` and `bhash` keys
  assume a little-endian host, as the program does on the platforms it
  targets.
- Names.ReadName: the depth of pointer recursion is bounded by `fuel`.
  Running out is the result `OutOfFuel`, where the C program would
  overflow its stack. `Names.StrictAgreesTop` shows that the fuel
  parse_dns passes is enough for every name except one with a pointer
  to its own two bytes or to the byte after them
  (`Names.NextBytePointer`).
- `byte`, `u16` and `u32` are bounded subtypes of `int`, not
  bit-vectors. Masks and shifts are written as division and remainder.
- The `abort()` for `NSP_QUESTION` is unreachable: the record walk
  starts in the answer section. The model's section type has no
  question case.
- The `srv` pointer of parse_dns is the target it was found under, and
  it is looked up again where it is used. Records are never freed and
  targets are unique, so this gives the record the pointer points at,
  including ports added to it earlier in the same response.
- Port sets and counters inside the tables are sequences. The in-place
  array form of `add_port` is `Ports.AddPortInPlace`.
- TCP connections are seen only through the pure-SYN test. Nothing
  tracks FIN or RST, IPv6 frames are skipped, and no record type other
  than A, CNAME and SRV has an effect. The source does the same.
