# hash:net,port,net and keepalived checker-handler model

This project models two parts of the DPVS load balancer in Dafny and proves properties of them.

**The `hash:net,port,net` ipset type variant.** It lives in `src/ipset/ipset_hash_netportnet.c`. An element has a key and metadata:

- the key is two networks (address plus prefix length), a protocol and one port;
- the metadata is a comment and a `nomatch` flag.

The model covers these parts of the variant:

- **Three-way comparison.** Only the key region is compared. The stored element's `nomatch` decides between EQUAL_ACCEPT and EQUAL_REJECT.
- **IPv4 hash** over the key.
- **List projection** of an element into a member record.
- **IPv4 ADT driver.** It turns a request into the nested product of CIDR blocks of network 1 × CIDR blocks of network 2 × each port. The request carries two address ranges, or explicit prefixes, and a port range. The driver stops at the first error, and earlier calls are not undone.
- **IPv6 ADT driver.** It masks each address to its prefix and expands the port range.
- **Fast-path probe builder.**
- **Creation-time variant selection.**

The hash-table operation (`adtfn`) is a trace of the calls made plus an oracle. The oracle gives the answer to the k-th call. Each driver is proved to produce exactly the specified call sequence, cut after the first non-zero answer.

The range-to-CIDR decomposition (`Cidr`) is proved aligned, disjoint, exact and maximal. The maximal-block cover is the one of section 3.1 of RFC 4632. It is proved simple when a prefix is given, and it terminates at the top of the address space.

**The checker configuration handlers of keepalived.** They live in `tools/keepalived/keepalived/check/check_parser.c`. Each handler is a method over a `VirtualServer` or `RealServer` object whose fields it updates:

- the persistence-granularity line, including the netmask-solidity loop;
- the establish-timeout clamp;
- the scheduler-name check;
- the forwarding-method and tunnel-option line;
- the `ip_family` line;
- the protocol line;
- the end-of-block family scan;
- the weight and quorum lines.

Token readers (`read_unsigned_strvec`, `inet_aton`, `atoi`) are external, so their results are parameters. Configuration errors are reported through an `error` out-parameter.

**Editions.** Ipset error codes are `EDPVS_OK` = 0 and `EDPVS_INVAL` = -1. The keepalived build configuration fixed here defines all four of these:

- `_HAVE_IPVS_TUN_TYPE_`
- `_HAVE_IPVS_TUN_CSUM_`
- `_HAVE_IPVS_TUN_GRE_`
- `LIBIPVS_USE_NL`

**Behaviour of the code worth noting:**

- A failing add or delete request is not all-or-nothing. Elements applied before the first error stay applied.
- There is no per-request cap on the number of elements.
- An IPv6 request with an address range and no prefix is not rejected. Its maximum address is ignored, and an address with prefix 0 is used unmasked.
- A packet too short for the port word is not handled. The word is a parameter of the probe builder.

Files:

- `inet.dfy`: fixed-width integers, `AF_*` and `IPPROTO_*` numbers, powers of two.
- `cidr.dfy`: CIDR blocks, `ip_set_mask_from_to`, `ip_set_range_to_cidr` and the block cover.
- `hash_netportnet.dfy`: the type variant.
- `check_parser.dfy`: the keepalived handlers.

## Model

| member | source | states |
|---|---|---|
| Inet.Inc32 | src/ipset/ipset_hash_netportnet.c:135-137 | `ip2++` / `ip1++` on uint32_t is addition modulo 2^32, the C rule for unsigned arithmetic |
| Inet.Inc16 | src/ipset/ipset_hash_netportnet.c:128-129 | `port++` on uint16_t is addition modulo 2^16 |
| Cidr.ClearLowBits | src/ipset/ipset_hash_netportnet.c:109-110 | masking clears the low bits and yields the largest aligned value not above the address |
| Cidr.ClearLowBitsIdempotent | src/ipset/ipset_hash_netportnet.c:109-110 | masking an already masked address changes nothing |
| Cidr.MaskFromTo | src/ipset/ipset_hash_netportnet.c:109-119 | reference definition of `ip_set_mask_from_to`: the masked range always contains the address it was formed from |
| Cidr.MaskFromToSpec | src/ipset/ipset_hash_netportnet.c:109-119 | with a nonzero prefix the range becomes the aligned block of that prefix containing `min_addr`, `to` being its last address |
| Cidr.FindCidrSpec | src/ipset/ipset_hash_netportnet.c:124 | the prefix search returns an aligned block at `from`; every shorter prefix from the start of the search does not fit in [from, to] |
| Cidr.RangeToCidr | src/ipset/ipset_hash_netportnet.c:124-127 | reference definition of `ip_set_range_to_cidr`: the returned last address is never below `from`, and never above `to` when from <= to |
| Cidr.RangeToCidrBlock | src/ipset/ipset_hash_netportnet.c:124 | the returned address is the last address of the aligned block at `from` with the returned prefix |
| Cidr.RangeToCidrSpec | src/ipset/ipset_hash_netportnet.c:124-127 | the returned block fits in [from, to] whenever from <= to, and no larger aligned block at `from` fits |
| Cidr.Cover | src/ipset/ipset_hash_netportnet.c:122-137 | the blocks one address field's do-while visits: at least one, the first starting at `from` (its other properties are the Cover lemmas below) |
| Cidr.CoverNext | src/ipset/ipset_hash_netportnet.c:122-137 | the cover is the first block, then (only if the loop's post-increment test passes) the cover from the next address |
| Cidr.CoverAligned | src/ipset/ipset_hash_netportnet.c:122-137 | every emitted block is CIDR-aligned |
| Cidr.CoverWithin | src/ipset/ipset_hash_netportnet.c:122-137 | every emitted block lies inside [from, to] |
| Cidr.CoverEnd | src/ipset/ipset_hash_netportnet.c:122-137 | the last block ends exactly at `to`, including to = 0xFFFFFFFF |
| Cidr.CoverDisjoint | src/ipset/ipset_hash_netportnet.c:122-137 | blocks are emitted in increasing order and are pairwise disjoint |
| Cidr.CoverComplete | src/ipset/ipset_hash_netportnet.c:122-137 | every address in [from, to] lies in some emitted block |
| Cidr.CoverExact | src/ipset/ipset_hash_netportnet.c:122-137 | an address is covered iff it lies in [from, to] |
| Cidr.CoverMaximal | src/ipset/ipset_hash_netportnet.c:124 | each emitted block is the largest aligned block at its start that fits |
| Cidr.RangeOfBlock | src/ipset/ipset_hash_netportnet.c:109-124 | decomposing exactly one aligned block gives back that block |
| Cidr.CoverOfPrefix | src/ipset/ipset_hash_netportnet.c:109-137 | a nonzero prefix yields exactly one block, the masked `min_addr` with that prefix |
| Cidr.CoverInverted | src/ipset/ipset_hash_netportnet.c:122-137 | with from > to the do-while still emits one /32 block at `from` |
| HashNetPortNet.V4Addr | src/ipset/ipset_hash_netportnet.c:123-126 | an IPv4 address occupies the first four bytes of `union inet_addr`; the rest is zero |
| HashNetPortNet.In4OfV4Addr | src/ipset/ipset_hash_netportnet.c:106-126 | `ntohl(htonl(ip)) == ip`: storing an address and reading it back is lossless |
| HashNetPortNet.KeyBytes | src/ipset/ipset_hash_netportnet.c:22-32 | the key region (`offsetof(elem_t, comment)`) is 40 bytes |
| HashNetPortNet.KeyBytesDecode | src/ipset/ipset_hash_netportnet.c:22-32 | the key fields are recoverable from the key-region bytes |
| HashNetPortNet.KeyBytesInjective | src/ipset/ipset_hash_netportnet.c:39 | key-region bytes are equal iff all six key fields are equal (what memcmp compares) |
| HashNetPortNet.DataEqual | src/ipset/ipset_hash_netportnet.c:34-45 | UNEQUAL iff ip1, cidr1, ip2, cidr2, proto or port differ; otherwise REJECT iff the second element's nomatch is set, else ACCEPT |
| HashNetPortNet.DataEqualIgnoresMetadata | src/ipset/ipset_hash_netportnet.c:34-45 | comments never affect the result, and neither does the first element's nomatch |
| HashNetPortNet.DataEqualKeyEquivalence | src/ipset/ipset_hash_netportnet.c:34-45 | "not UNEQUAL" is reflexive, symmetric and transitive |
| HashNetPortNet.HashKey4 | src/ipset/ipset_hash_netportnet.c:63-72 | the bucket index never exceeds the mask |
| HashNetPortNet.HashKey4RespectsDataEqual | src/ipset/ipset_hash_netportnet.c:63-72 | elements that compare equal hash to the same bucket |
| HashNetPortNet.HashKey4Inputs | src/ipset/ipset_hash_netportnet.c:63-72 | the hash depends only on the IPv4 words of ip1 and ip2, the port, cidr1 and cidr2 |
| HashNetPortNet.DoList | src/ipset/ipset_hash_netportnet.c:47-61 | the listed record holds the element's whole key and its nomatch |
| HashNetPortNet.ListRoundTrip | src/ipset/ipset_hash_netportnet.c:47-61 | listing copies every key field and nomatch; the comment is copied only when requested, otherwise the member's is kept |
| HashNetPortNet.FirstErrorRunUnique | src/ipset/ipset_hash_netportnet.c:131-139 | for fixed answers, the calls made and the result are determined |
| HashNetPortNet.FirstErrorRunAllOk | src/ipset/ipset_hash_netportnet.c:131-139 | if every call succeeds, all expected calls are made and EDPVS_OK is returned |
| HashNetPortNet.FirstErrorRunStopsAtFirstError | src/ipset/ipset_hash_netportnet.c:131-133 | the first non-zero answer is returned at once; no later call is made and earlier ones stay made |
| HashNetPortNet.PortsExact | src/ipset/ipset_hash_netportnet.c:128-129 | the intended port sequence holds each port of [min_port, max_port] once, in increasing order, and none when min_port > max_port |
| HashNetPortNet.CellMembers | src/ipset/ipset_hash_netportnet.c:128-134 | the calls for one block pair are exactly one per port |
| HashNetPortNet.RowMembers | src/ipset/ipset_hash_netportnet.c:125-135 | the calls for one net1 block are exactly net2 blocks × ports |
| HashNetPortNet.GridMembers | src/ipset/ipset_hash_netportnet.c:122-137 | the calls are exactly net1 blocks × net2 blocks × ports |
| HashNetPortNet.RowLength | src/ipset/ipset_hash_netportnet.c:125-135 | one net1 block issues \|net2 blocks\| × \|ports\| calls |
| HashNetPortNet.GridLength | src/ipset/ipset_hash_netportnet.c:122-137 | a request issues \|net1 blocks\| × \|net2 blocks\| × \|ports\| calls |
| HashNetPortNet.RowAppend | src/ipset/ipset_hash_netportnet.c:125-135 | the calls for consecutive net2 blocks follow each other in net2 order |
| HashNetPortNet.GridAppend | src/ipset/ipset_hash_netportnet.c:122-137 | the calls are net1-major: all calls of one net1 block precede those of the next |
| HashNetPortNet.RowStep | src/ipset/ipset_hash_netportnet.c:125-135 | one turn of the inner do-while issues the port calls for the current net2 block, then continues from the next address |
| HashNetPortNet.GridStep | src/ipset/ipset_hash_netportnet.c:122-137 | one turn of the outer do-while issues the whole net2 decomposition, restarted from `ip2_from`, for the current net1 block |
| HashNetPortNet.Expected4 | src/ipset/ipset_hash_netportnet.c:88-137 | the calls an IPv4 add/del should make; there are \|net1 blocks\| × \|net2 blocks\| × \|ports\| of them (their contents are Expected4Elements and Expected4Exact) |
| HashNetPortNet.Expected4Elements | src/ipset/ipset_hash_netportnet.c:88-137 | every IPv4 add/del call carries the request's op, flag and proto, a port in range, and a net1 and a net2 block of the covers; comment and nomatch are set only on ADD (comment only if the set has comments) |
| HashNetPortNet.Expected4Exact | src/ipset/ipset_hash_netportnet.c:122-137 | a call is issued iff it is (net1 block, net2 block, port) for some blocks of the two covers and some port in range |
| HashNetPortNet.AdtPorts | src/ipset/ipset_hash_netportnet.c:128-134 | the port loop issues one call per port of [min_port, max_port] in order and stops at the first error (corrected loop; see Findings) |
| HashNetPortNet.AdtNet2 | src/ipset/ipset_hash_netportnet.c:125-135 | the inner do-while issues the calls of every net2 block in order and stops at the first error |
| HashNetPortNet.AdtNet1 | src/ipset/ipset_hash_netportnet.c:122-137 | the nested do-whiles issue the whole net1 × net2 × port product in order and stop at the first error |
| HashNetPortNet.Adt4Ranges | src/ipset/ipset_hash_netportnet.c:86-139 | an IPv4 add/del issues exactly the expected calls, cut after the first error, and otherwise returns EDPVS_OK |
| HashNetPortNet.Adt4 | src/ipset/ipset_hash_netportnet.c:74-140 | a family mismatch returns EDPVS_INVAL with no call; TEST makes one call (min addresses, min_port, flag 0) with no decomposition; add/del is the first-error product run, over the corrected port loop (see Findings) |
| Cidr.ClearLowBitsKeepsHigh | src/ipset/ipset_hash_netportnet.c:200-203 | clearing the low n bits keeps every bit above them (x >> n is unchanged) |
| HashNetPortNet.MaskByte | src/ipset/ipset_hash_netportnet.c:200-203 | a byte inside the prefix is kept, one after it is zero, and at the boundary the prefix bits are kept and the rest cleared; the result is never larger |
| HashNetPortNet.Ip6Netmask | src/ipset/ipset_hash_netportnet.c:200-203 | the first plen bits are kept and the rest cleared: bytes inside the prefix are kept, bytes after it are zero, and the boundary byte keeps its high bits with its low bits zero |
| HashNetPortNet.Ip6NetmaskIdempotent | src/ipset/ipset_hash_netportnet.c:200-203 | masking twice is masking once |
| HashNetPortNet.Ip6NetmaskFull | src/ipset/ipset_hash_netportnet.c:200-203 | a /128 mask keeps the address |
| HashNetPortNet.Expected6 | src/ipset/ipset_hash_netportnet.c:182-211 | the calls an IPv6 add/del should make, one per port of the range (their contents are Expected6Exact) |
| HashNetPortNet.Expected6Exact | src/ipset/ipset_hash_netportnet.c:182-211 | IPv6 add/del issues one call per port of the range (the masked element with that port), max-port − min-port + 1 of them, and max_addr never matters |
| HashNetPortNet.Adt6 | src/ipset/ipset_hash_netportnet.c:169-213 | a family mismatch returns EDPVS_INVAL with no call; TEST (by opcode) makes one unmasked call with flag 0; add/del is the first-error port run over the masked element, with the corrected port loop (see Findings) |
| HashNetPortNet.TestProbeAsWritten | src/ipset/ipset_hash_netportnet.c:149-157 | the probe as written holds the packet's addresses and port word, and keeps the memset's zero in proto, both prefixes and nomatch |
| HashNetPortNet.TestProbeAsWrittenMissesProto | src/ipset/ipset_hash_netportnet.c:149-157 | the probe as written never equals a stored element whose proto is nonzero, at any prefix |
| HashNetPortNet.TestProbeAsWrittenCounterexample | src/ipset/ipset_hash_netportnet.c:149-157 | a TCP flow 10.0.0.1 to 10.0.0.2 on port 80 misses the stored element with proto TCP, but matches once proto is filled in |
| HashNetPortNet.TestProbeMatchesOwnFlow | src/ipset/ipset_hash_netportnet.c:142-158 | the corrected probe matches a stored element (at its prefixes) iff proto and port agree |
| HashNetPortNet.Test | src/ipset/ipset_hash_netportnet.c:142-158 | the fast-path test as written makes one TEST call with flag 0 and returns its answer; the probe carries the packet's addresses and port word and protocol 0 |
| HashNetPortNet.Create | src/ipset/ipset_hash_netportnet.c:224-238 | net_count is 2, hash_len is the key region, and the variant is the IPv4 one iff the family is AF_INET |
| HashNetPortNet.HashLenIsKeyRegion | src/ipset/ipset_hash_netportnet.c:230 | comparing hash_len bytes is comparing the key, so comment and nomatch are excluded |
| HashNetPortNet.PortLoopAsWritten | src/ipset/ipset_hash_netportnet.c:128-129 | the uint16_t port loop as written, within a number of turns: at most that many ports, each one passing the loop's guard |
| HashNetPortNet.PortLoopAsWrittenNeverExits | src/ipset/ipset_hash_netportnet.c:128-129 | with min_port = 0 and max_port = 65535 the uint16_t loop never exits |
| HashNetPortNet.PortLoopAsWrittenRevisits | src/ipset/ipset_hash_netportnet.c:205-206 | that loop issues port 0 again after 65536 calls |
| HashNetPortNet.PortLoopAsWrittenAt | src/ipset/ipset_hash_netportnet.c:128-129 | for min_port 0 and max_port 65535, turn k from port p visits (p + k) mod 65536 |
| HashNetPortNet.PortLoopAsWrittenAgrees | src/ipset/ipset_hash_netportnet.c:128-129 | when min_port > 0 or max_port < 65535 the loop as written visits exactly [min_port, max_port] |
| CheckParser.PrefixMask | tools/keepalived/keepalived/check/check_parser.c:535-541 | the mask of n ones then zeros is a 32-bit value |
| CheckParser.SolidMaskBounds | tools/keepalived/keepalived/check/check_parser.c:535-541 | 0.0.0.0, 255.255.255.255 and 255.255.255.0 are solid |
| CheckParser.OddTimesPow2Unique | tools/keepalived/keepalived/check/check_parser.c:536-537 | a value's odd part and its number of trailing zeros are unique |
| CheckParser.SolidStep | tools/keepalived/keepalived/check/check_parser.c:536-537 | one iteration shifts a one in at the top and drops a trailing zero |
| CheckParser.NetmaskIsSolid | tools/keepalived/keepalived/check/check_parser.c:535-541 | the loop runs at most 32 times and ends at all ones iff the mask is a run of ones followed by zeros |
| CheckParser.SolidAtExit | tools/keepalived/keepalived/check/check_parser.c:538 | at loop exit the value is 0xffffffff iff the mask is solid |
| CheckParser.PgrFamily | tools/keepalived/keepalived/check/check_parser.c:519-520 | a set family is used as is; an unset one is IPv4 iff the token contains a '.' |
| CheckParser.PgrGranularity | tools/keepalived/keepalived/check/check_parser.c:522-544 | the granularity pgr_handler stores, or none when it rejects the token (which tokens it accepts is PgrGranularityBounds) |
| CheckParser.PgrGranularityBounds | tools/keepalived/keepalived/check/check_parser.c:522-544 | IPv6 accepts exactly 1..128; IPv4 accepts exactly the solid netmasks |
| CheckParser.PgrHandler | tools/keepalived/keepalived/check/check_parser.c:512-551 | a rejected token changes nothing; an accepted one sets the granularity, sets af only if unset, and defaults the persistence timeout only if zero |
| CheckParser.EstablishTimeout | tools/keepalived/keepalived/check/check_parser.c:49-50 | the stored value is in [1, 3600]; in-range values are kept, larger ones become 3600, smaller ones 1 |
| CheckParser.EstablishTimeoutIdempotentMonotone | tools/keepalived/keepalived/check/check_parser.c:1069-1072 | clamping twice is clamping once; the clamp is monotone |
| CheckParser.EstablishTimeoutHandler | tools/keepalived/keepalived/check/check_parser.c:1064-1074 | only conn_timeout changes, to the clamped atoi value |
| CheckParser.SchedulerNamesFit | tools/keepalived/keepalived/check/check_parser.c:53-54 | every listed scheduler name fits in the sched buffer |
| CheckParser.LbalgoHandler | tools/keepalived/keepalived/check/check_parser.c:307-322 | sched becomes the name iff it is in the scheduler table; otherwise the line is an error and nothing changes |
| CheckParser.ForwardingMethodOf | tools/keepalived/keepalived/check/check_parser.c:377-390 | exactly NAT, DR, TUN, FNAT and SNAT name a forwarding method, each the code the source stores for it (MASQ, DROUTE, TUNNEL, FULLNAT, SNAT) |
| CheckParser.ScanOptions | tools/keepalived/keepalived/check/check_parser.c:393-435 | the option loop from a token index on, with the settings read so far, or none on a rejected option (what it yields is ScanOptionsValues) |
| CheckParser.ScanOptionsValues | tools/keepalived/keepalived/check/check_parser.c:393-435 | a successful option scan yields a port in 1..65535 (or the default), a known tunnel type and a known checksum flag |
| CheckParser.TunnelSettingsValid | tools/keepalived/keepalived/check/check_parser.c:437-452 | stored settings are consistent: gue iff a port in 1..65535 is set, ipip only with nocsum, gre never with remcsum |
| CheckParser.TunnelSettingsExamples | tools/keepalived/keepalived/check/check_parser.c:393-452 | no options keeps ipip defaults; `type gue port 6080` is stored; gue without port and ipip with csum are rejected |
| CheckParser.SvrForwardingHandler | tools/keepalived/keepalived/check/check_parser.c:365-462 | an unknown method changes nothing; a known one is stored before the options are checked; the tun fields are written only for valid, consistent options |
| CheckParser.FamilyOf | tools/keepalived/keepalived/check/check_parser.c:226-239 | exactly "inet" and "inet6" name a family, never AF_UNSPEC |
| CheckParser.FamilyAfter | tools/keepalived/keepalived/check/check_parser.c:241-247 | a set family is never replaced; an unset one takes the named family |
| CheckParser.FamilyAfterIdempotent | tools/keepalived/keepalived/check/check_parser.c:241-247 | repeating the line changes nothing, and after a known family no later line changes it |
| CheckParser.IpFamilyHandler | tools/keepalived/keepalived/check/check_parser.c:221-248 | an unknown name or a conflicting family is an error and leaves af unchanged; otherwise af becomes the named family |
| CheckParser.ProtocolOf | tools/keepalived/keepalived/check/check_parser.c:558-569 | a name is recognised iff it equals TCP, SCTP, UDP, ICMP or ICMPV6 ignoring ASCII case, and each maps to its own protocol number; any other name is rejected |
| CheckParser.ProtocolOfIgnoresCase | tools/keepalived/keepalived/check/check_parser.c:558-567 | names differing only in letter case map alike |
| CheckParser.ProtocolOfExamples | tools/keepalived/keepalived/check/check_parser.c:558-569 | the five protocol names are recognised, in lower, upper and mixed case; "tcp6" is not a protocol |
| CheckParser.ProtoHandler | tools/keepalived/keepalived/check/check_parser.c:553-570 | service_type becomes the mapped protocol; an unknown name changes nothing |
| CheckParser.Families | tools/keepalived/keepalived/check/check_parser.c:203-210 | the scanned families are the real servers' families in list order |
| CheckParser.FirstKnownTakeNext | tools/keepalived/keepalived/check/check_parser.c:204-206 | the held family is kept once known, else taken from the next server |
| CheckParser.FirstKnownTake | tools/keepalived/keepalived/check/check_parser.c:204-209 | once a family is known, later servers do not change it |
| CheckParser.Mixed | tools/keepalived/keepalived/check/check_parser.c:198-210 | some real server's family differs from the family held when it is scanned, once one is known (restated by MixedDiffersFromFirstKnown) |
| CheckParser.MixedDiffersFromFirstKnown | tools/keepalived/keepalived/check/check_parser.c:198-210 | mixed iff some real server after the first known family (sorry server's, else the first real server's) differs from it |
| CheckParser.MixedWhenAllKnown | tools/keepalived/keepalived/check/check_parser.c:198-210 | with all families set, mixed iff some real server's family differs from the first known one |
| CheckParser.VsEndHandler | tools/keepalived/keepalived/check/check_parser.c:168-219 | the mixture is reported iff af is unset and the scan finds mixed families; the virtual server is not modified |
| CheckParser.RsWeightHandler | tools/keepalived/keepalived/check/check_parser.c:663-675 | a weight in 0..65535 sets weight and iweight; otherwise nothing changes |
| CheckParser.QuorumValue | tools/keepalived/keepalived/check/check_parser.c:900-911 | the quorum is in [1, UINT_MAX]: the value if valid, else 1 |
| CheckParser.QuorumHandler | tools/keepalived/keepalived/check/check_parser.c:900-911 | an invalid quorum is reported and replaced by 1; the quorum is always written |

## Left out

- Hash-table internals are not part of this model: `hash_adtfn`, `hash_create`, `hash_list`, `hash_destroy`, `hash_flush`, `hash_data_netmask4/6` and the multi-prefix lookup. `adtfn` is a trace of calls plus an oracle of answers.
- `set->dsize = sizeof(elem_t)` is not modelled. `IPSET_MAXCOMLEN` is not part of this model, so the record size is unknown.
- `rte_strlcpy` truncation of comments to `IPSET_MAXCOMLEN` is left out: a comment is copied whole.
- `jhash_hashkey` is the IPv6 hash, a foreign function, and is left out.
- Packet buffer access is left out:
  - `mbuf_header_pointer` is not modelled, and neither is its unchecked NULL return on short packets.
  - The 16-bit port word (`ports[0]`) is a parameter of `Test`.
- Byte order:
  - `htonl`/`ntohl` are the big-endian layout of an IPv4 address in the first four bytes of `union inet_addr`.
  - `htons`/`ntohs` on ports are the identity.
  - The hash uses the raw little-endian reading of those bytes.
  - `persistence_granularity` for IPv4 is stored as the host-order value; the code stores the network-order word.
- `ip_set_range_to_cidr`, `ip_set_mask_from_to` and `ip6_netmask` are not part of this model's sources. `Cidr.RangeToCidr`, `Cidr.MaskFromTo` and `HashNetPortNet.Ip6Netmask` are reference definitions of their documented behaviour. The range-to-CIDR search compares plainly (`last <= to`).
- HashNetPortNet.Adt4: requires prefixes of at most 32 on add/del. Masking an IPv4 address with a longer prefix is outside what `ip_set_mask_from_to` defines.
- HashNetPortNet.Adt4Ranges: requires prefixes of at most 32, for the same reason.
- Concurrency of fast-path readers is out of scope.
- Keepalived config plumbing is out of scope: keyword registration, the allocators, `set_value`, notify scripts, SSL handlers, and `report_config_error`/`log_message`, which become the `error` out-parameter.
- Keepalived token readers are parameters:
  - `read_unsigned_strvec` is the number a token spells; its range check is explicit.
  - `inet_aton` is an optional host-order address.
  - `atoi` is an unbounded integer, so 32-bit `int` overflow of the token is not modelled.
- CheckParser.SvrForwardingHandler: requires at least the keyword and the method token, since `strvec_slot(strvec, 1)` is read unconditionally.
- `forwarding_handler` is not one of the modelled handlers. It is the virtual-server variant, which copies a dummy real server's result.
- Other handlers in `check_parser.c` are not modelled, such as `lbflags_handler`, `pto_handler` and the timers.
- The constants are fixed:
  - `IP_VS_*` values and `IPVS_SVC_PERSISTENT_TIMEOUT` (360) come from headers that are not part of this model; only their distinctness matters.
  - `sizeof(vs->sched)` is taken as `IP_VS_SCHEDNAME_MAXLEN` (16).
- The build variants without tunnel types, checksums, GRE or netlink (`#ifndef` branches) are not modelled.
- A real server's address family is a fixed field. Its parsing in `rs_handler` is not modelled.
- Case folding in `proto_handler` is ASCII only (C locale `tolower`).

## Findings

| source | as written | input that shows it | evidently intended | confidence | as-written member | corrected member |
|---|---|---|---|---|---|---|
| src/ipset/ipset_hash_netportnet.c:128-129 | `for (port = min_port; port >= min_port && port <= max_port; port++)` on a `uint16_t` port: after 65535 the port wraps to 0, and with min_port = 0 the guard still holds (same loop at 205-206) | min_port = 0, max_port = 65535: the loop never exits and re-adds port 0, 1, … | visit each port of [min_port, max_port] once and stop | high, not executed | HashNetPortNet.PortLoopAsWrittenNeverExits | HashNetPortNet.AdtPorts |
| src/ipset/ipset_hash_netportnet.c:149-157 | the fast-path probe is zeroed and then gets addresses and port but never `proto` | a set holding 10.0.0.1/32, 10.0.0.2/32, proto TCP, port 80; a TCP packet 10.0.0.1 → 10.0.0.2 port 80 compares UNEQUAL | fill `e.proto` from the packet header so elements added with a protocol can match | medium, not executed | HashNetPortNet.TestProbeAsWrittenMissesProto | HashNetPortNet.TestProbeMatchesOwnFlow |

For the first finding, `HashNetPortNet.AdtPorts`, and through it `Adt4` and `Adt6`, model the intended loop, which visits each port of the range once with a counter that does not wrap. The loop as written is modelled by `PortLoopAsWritten` and the `PortLoopAsWritten*` lemmas, and `PortLoopAsWrittenAgrees` proves the two visit the same ports on every range except 0 to 65535.

For the second finding, `HashNetPortNet.Test` models the code as written and hands the hash layer `TestProbeAsWritten`. The corrected probe is `TestProbe`; `TestProbeMatchesOwnFlow` is proved about it, and the counterexample lemma compares both probes.
