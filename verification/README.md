# Verification model of the hotspot control daemons

This project models, in Dafny, the algorithmic cores of a hotspot traffic controller for Android and
proves what they promise. Each component has a module of its own; methods and classes follow the
source where it changes state step by step, and every one of them is proved against a function or
predicate on values, about which the theorems are then stated. `dafny verify dfyconfig.toml` checks
everything.

## Components

- **Packet capture** (`PacketFilter`, `DpidParser`, `DpidDns`, `DpidDnsResponses`, `DpidTls`,
  `FilterAgreement`, `DpidFrames`). The hand-assembled kernel filter is run by an interpreter of classic BPF and
  proved to mean a predicate on frames; the parser behind it is proved against a declarative meaning
  of frames; the two are proved to agree; and frames built from their parts are proved to be reported as
  the messages inside them.
- **Names on the wire** (`DnsNames`, `MdnsResolve`, `MdnsResponses`, `MdnsOwners`, `DecoderAgreement`). One
  specification of compressed names, met by two decoders in two languages and inverted by an encoder;
  queries and responses of the reverse resolver.
- **Hostname cache** (`JsonEscape`, `CacheFile`, `CacheFileRoundTrip`, `HostnameCache`,
  `HostnameCacheFacts`). A truncating escaper, a printer and a parser that works by substring search,
  and the table they save and restore.
- **Tokens** (`TokenStore`, `TokenFacts`, `TokenProtocol`, `TokenRuns`, `TokenDeletions`, `CookieAuth`). A map in memory merged with a
  file that another process also writes; requests read the file outside the lock. All interleavings.
- **Offload control** (`OffloadAdapter`, `OffloadScheduler`, `OffloadRuns`). The set of limited
  devices, the kernel's limit map and a worker thread.
- **Rate limits** (`RateLimiter`, `RateLimiterRuns`, `WriteLimiter`). A least-recently-seen list with
  entries that cannot be evicted, token buckets, and a sliding window against its full log.
- **mDNS worker** (`MdnsWorker`, `MdnsProtocol`). Two bounded rings, a condition variable and stop.
- **Supervisor** (`CrashBreaker`). Crash breaker and restart pauses.
- **Netlink requests** (`NetlinkAttrs`, `MatchallFilter`). Attributes with back-patched lengths.

`Bytes` holds the shared vocabulary: bytes, C strings, big-endian fields; `DistinctLists` the lists
without repetitions. Addresses, names and file
contents are sequences of bytes or strings; integers are unbounded except where a width matters and
is written out. Time, randomness and what a system call returns are parameters.

## What the code does differently from what it says

- `TtlExact`: the smallest TTL restarts at every answer whose TTL is 0.
- `DottedOwnerAnswered`, `NulOwnerAnswered`: the resolver compares owner names as C strings of dotted
  text, so a dot or a NUL inside a label lets a foreign name pass; `AnsweredOwnerExact` says that nothing
  else does.
- `LoneLeadByteNotRestored`: the escaper drops an incomplete last character even when all of the source
  fits, and the cache, which cuts names at 63 bytes, can hold such names; `RestoredExactly` has the
  exact condition.
- `ChangedExactly`: a host name of over 63 bytes makes every update worth a save, although the cut name stays the same.
- `LongMacTwice`: a MAC longer than 17 bytes is stored cut and then no longer found by itself,
  so a second update makes a duplicate.
- `EvictionForgets`: failures are forgotten when other addresses push the entry out.
- `SafeIffFilePresent`: a store opened before its file exists has a race that re-installs old contents.
- `UsedRecordComesBack`: a token deleted from the file by the shell comes back at the next save when a
  request has used it since the last one; `DeletedStaysDeleted` says that no other does.
- `ParserIgnoresFragmentation`: the parser reads fragments; only the filter keeps them out.
- `PauseValue`: the longest restart pause is 32 seconds, above the stated 30; `TripsExactly`: a
  program that lives 8 seconds each time is restarted for ever.
- `IdleLosesTheExcess`: the result ring is said not to fill up, yet sixteen queued tasks and one in hand
  lose a result.
- The comment at the start of `daemon/hnc_httpd/ratelimit.go` says that new requests are refused when all
  entries are locked; `CheckUnauth` serves them from the shared bucket, and the model follows the code.

## Model

| member | source | states |
|---|---|---|
| PacketFilter.FilterMeansWanted | src/dpid/capture/bpf.go:59-101 | For every frame the 29 instructions halt, and hand the frame up if and only if it is unfragmented IPv4 and UDP or TCP with port 53 on either side, or TCP to port 443 whose first payload byte is 0x16; a load past the end drops the frame |
| PacketFilter.EntryBlock | src/dpid/capture/bpf.go:60-62 | The EtherType test, the only one every frame passes |
| PacketFilter.UdpBlock | src/dpid/capture/bpf.go:69-76 | For UDP: the fragment test and the two port tests mean "unfragmented and port 53 on a side" |
| PacketFilter.TcpBlock | src/dpid/capture/bpf.go:78-96 | For TCP: the same, or the handshake byte behind both header lengths on port 443 |
| PacketFilter.TlsBlock | src/dpid/capture/bpf.go:88-96 | The computed offset is IP header length plus TCP header length, taken from the high nibble |
| FilterAgreement.ParsedFramesAccepted | src/dpid/capture/parse.go:68-160 | Of the frames the parser reports, the filter accepts exactly the unfragmented ones except a ClientHello sent from port 443 to another port |
| FilterAgreement.AcceptedFramesIgnored | src/dpid/capture/parse.go:147-156 | Of the accepted frames the parser ignores only TCP frames to port 443 without a usable ClientHello |
| FilterAgreement.ParserIgnoresFragmentation | src/dpid/capture/parse.go:68-110 | The parser answers the same whatever the fragment field holds, so fragments are the whole difference |
| DpidParser.ParsePacket | src/dpid/capture/parse.go:68-160 | Every frame: the result, and every field of the event for every result: time and addresses once the IP header is good, ports once the transport header is complete, contents and client only when reported; no index is out of range |
| DpidParser.ParseUdp | src/dpid/capture/parse.go:104-121 | The UDP branch |
| DpidParser.ParseTcp | src/dpid/capture/parse.go:123-157 | The TCP branch: length-prefixed DNS on port 53, ClientHello on port 443 |
| DpidParser.Event.AssignClient | src/dpid/capture/parse.go:164-174 | The client is the destination of a response and the source of a query, MAC and address alike |
| DpidFrames.UdpResponseReported | src/dpid/capture/parse.go:68-121 | A well-formed DNS response in a UDP frame with port 53 on a side is reported as itself, whatever MACs, IPv4 options up to 40 bytes, other header fields and padding: its question, answers and TTL, or malformed unless it has one question |
| DpidFrames.TcpResponseReported | src/dpid/capture/parse.go:123-145 | The same for TCP with any data offset, behind two length bytes |
| DpidFrames.UdpQueryReported | src/dpid/capture/parse.go:104-121 | A query in a UDP frame is reported with its name in lower case and its type |
| DpidFrames.HelloFrameReported | src/dpid/capture/parse.go:123-156 | A ClientHello at the front of the data of a TCP frame with port 443 is reported with its server name and protocols |
| DpidFrames.ReportedFrameAccepted | src/dpid/capture/bpf.go:59-101 | The filter hands up such frames exactly when they are not fragments and a ClientHello goes to port 443 |
| DpidFrames.ReportedOnlySo | src/dpid/capture/parse.go:68-160 | Conversely every reported frame is put together so: UDP with port 53, or TCP with port 53 or 443 |
| DpidFrames.OtherFrames | src/dpid/capture/parse.go:69-93 | A frame without a good IPv4 header is malformed, or ignored when its EtherType is another |
| DpidFrames.ClientOfFrame | src/dpid/capture/parse.go:164-174 | The client of a response is the destination MAC and address of the frame, that of a query or ClientHello the source |
| DpidDns.DnsReadName | src/dpid/capture/parse.go:249-298 | The decoder returns the dotted labels found by following at most 8 pointers in at most 256 turns, and the offset behind the name field; every packet ends it |
| DpidDns.ParseDns | src/dpid/capture/parse.go:176-247 | The DNS header, lower-cased first question, answers and running TTL of any packet |
| DpidDns.TtlExact | src/dpid/capture/parse.go:241-245 | The running TTL of a list of records is their minimum if and only if none has TTL 0 or the last one has: a zero restarts the search |
| DpidDnsResponses.ReportedTtlExact | src/dpid/capture/parse.go:241-245 | The same for every well-formed response as it is reported |
| DpidDnsResponses.TtlNotMinimal | src/dpid/capture/parse.go:241-245 | A response with two address answers of TTL 0 and 300, whatever the addresses, is reported with TTL 300 |
| DpidDnsResponses.ResponseReported | src/dpid/capture/parse.go:176-247 | Every well-formed response with one question is reported with its name, its A, AAAA and CNAME answers in order and its TTL; owners and CNAMEs in full or compressed, and a CNAME left out exactly when it names nothing within the limits; with any other number of questions nothing is reported |
| DpidDnsResponses.QueryReported | src/dpid/capture/parse.go:176-211 | A query with one question is reported with its name and type and nothing else, whatever follows |
| DpidDnsResponses.CompressedCname | src/dpid/capture/parse.go:232-239 | A CNAME of labels and a pointer to any offset where a name stands names the labels in front of that name |
| DnsNames.WireIsRead | daemon/hotspotd/mdns_resolve.c:129-174 | Label lists in wire form are found at any offset of any packet (section 3.1 of RFC 1035) |
| DnsNames.PointerMeansOffset | src/dpid/capture/parse.go:262-281 | Labels and the two bytes that carry any offset t below 16384 mean the labels in front of the name that stands at t, with one pointer used, and end behind the two bytes (section 4.1.4 of RFC 1035) |
| DnsNames.NameIsWritten | src/dpid/capture/parse.go:249-298 | Conversely every name that is found is written so: labels in full, or labels and a pointer to where the other ones stand |
| DecoderAgreement.BothFollowPointers | daemon/hotspotd/mdns_resolve.c:144-160 | Both decoders read such a name: Go when it has fewer than 255 labels, C when it fits its buffer, with the same text and end |
| DnsNames.NameAtMono | daemon/hotspotd/mdns_resolve.c:129-174 | A larger pointer limit never changes a name, and adds only names that use more pointers |
| DnsNames.SelfPointer | src/dpid/capture/parse.go:249-298 | A pointer to itself resolves under no limit |
| MdnsResolve.DecodeDnsName | daemon/hotspotd/mdns_resolve.c:129-174 | The C decoder succeeds exactly when the name resolves within 16 pointers and fits the buffer, and then writes it and its end offset |
| MdnsResolve.EncodeDnsName | daemon/hotspotd/mdns_resolve.c:62-84 | The encoder writes the wire form of the dotted labels or fails exactly when a label is empty or over 63 bytes or the buffer is short |
| MdnsResolve.DecodeInvertsEncode | daemon/hotspotd/mdns_resolve.c:62-174 | Decoding what the encoder wrote gives the name back, one trailing dot apart, at any offset of any packet |
| DecoderAgreement.SameNameAndOffset | src/dpid/capture/parse.go:249-298 | When both decoders succeed they give the same name and next offset |
| DecoderAgreement.GoThenC | daemon/hotspotd/mdns_resolve.c:129-174 | A name the Go decoder reads is read by the C decoder as soon as the buffer has a spare byte |
| DecoderAgreement.COnlyExact | daemon/hotspotd/mdns_resolve.c:129-174 | Names only C reads are exactly those that use 9 to 16 pointers |
| DecoderAgreement.GoOnlyExact | daemon/hotspotd/mdns_resolve.c:129-174 | Names only Go reads are exactly those the C buffer cannot hold |
| DecoderAgreement.ReadExactly | src/dpid/capture/parse.go:249-298 | What each decoder reads: Go the names of at most 8 pointers and fewer than 256 parts, C those of at most 16 pointers that fit the buffer, both as dotted text with the end of the field |
| DecoderAgreement.GoReadsWire | src/dpid/capture/parse.go:249-298 | The Go decoder reads the wire form too |
| MdnsResolve.BuildQuery | daemon/hotspotd/mdns_resolve.c:89-122 | The query packet: id, header, encoded reverse name, PTR and IN, or failure when it does not fit |
| MdnsResolve.QueryAsksForReverseName | daemon/hotspotd/mdns_resolve.c:89-122 | Reading the query back gives d.c.b.a.in-addr.arpa for every address a.b.c.d |
| MdnsResolve.QueryNamesAddress | daemon/hotspotd/mdns_resolve.c:89-122 | The query is one question of type PTR and class IN under the id given; the first four labels of its name are decimal digits that denote d, c, b and a, and the others are in-addr and arpa |
| MdnsResolve.ParseResponse | daemon/hotspotd/mdns_resolve.c:181-240 | The host name answered for any packet and any expected name |
| MdnsResponses.FirstAnswerExact | daemon/hotspotd/mdns_resolve.c:205-240 | Any packet: h is answered if and only if some record is a wanted PTR, none before it is, and its rdata decodes to h |
| MdnsResponses.ResponseGivesFirstHost | daemon/hotspotd/mdns_resolve.c:181-240 | For a well-formed response with any number of questions, none included, the name at the rdata of the first PTR that passes the owner check is answered, in full or compressed, or nothing when it does not fit |
| MdnsResponses.PlainHost | daemon/hotspotd/mdns_resolve.c:129-174 | Rdata in full names its labels |
| MdnsResponses.CompressedHost | daemon/hotspotd/mdns_resolve.c:129-174 | Rdata of labels and a pointer to any offset where a name stands names the labels in front of that name |
| MdnsResponses.ResponseWithoutHost | daemon/hotspotd/mdns_resolve.c:181-240 | Without a PTR that passes the check nothing is answered |
| MdnsResponses.OnlyResponses | daemon/hotspotd/mdns_resolve.c:181-205 | Only a packet of at least 12 bytes that says it is a response and counts answers is answered from |
| MdnsResponses.OwnerCheckExact | daemon/hotspotd/mdns_resolve.c:219-224 | Of the texts that pass the check, those equal to the expected one up to case are exactly those without a NUL |
| MdnsOwners.RightOwnerPasses | daemon/hotspotd/mdns_resolve.c:219-224 | The owner with the labels asked for, case apart, always passes |
| MdnsOwners.OwnerLabelsExact | daemon/hotspotd/mdns_resolve.c:219-224 | Of the label lists that pass, those equal to the reverse name up to case are exactly those with neither a NUL nor a dot in a label |
| MdnsOwners.AnsweredOwnerExact | daemon/hotspotd/mdns_resolve.c:205-240 | Any packet: the answer is the rdata of the first passing PTR, and that record is owned by the name asked for if and only if its owner has no NUL and no dot in a label |
| MdnsOwners.PlainResponseGivesHost | daemon/hotspotd/mdns_resolve.c:205-240 | When no PTR owner has such a label, the first record really owned by the reverse name is answered |
| MdnsOwners.PlainResponseWithoutHost | daemon/hotspotd/mdns_resolve.c:205-240 | And never that of another owner |
| MdnsOwners.DottedOwnerAnswered | daemon/hotspotd/mdns_resolve.c:219-224 | A whole response for every address and host whose owner is the reverse name as one dotted label: a different name without a NUL, and its host is answered |
| MdnsOwners.NulOwnerAnswered | daemon/hotspotd/mdns_resolve.c:219-224 | A whole response whose owner has a NUL and arbitrary bytes behind "arpa" in its last label: its host is answered |
| DpidTls.ParseTlsClientHello | src/dpid/capture/parse.go:300-392 | Server name and protocols of any byte string; no index is out of range |
| DpidTls.HelloReported | src/dpid/capture/parse.go:300-392 | Every well-formed ClientHello in one record with one server_name extension is reported with its first host name in lower case and its ALPN protocols in order, whatever the other extensions |
| DpidTls.OnlyHellos | src/dpid/capture/parse.go:300-316 | Whatever is reported starts a handshake record that is all there and holds a ClientHello that is all there |
| DpidTls.OnlyHostNames | src/dpid/capture/parse.go:359-371 | A server name is read only from a first entry of type host_name that is all there |
| JsonEscape.EscapeInto | daemon/hotspotd/hnc_helpers.c:26-85 | The buffer gets the escape of a prefix of the source and a NUL, within its size |
| JsonEscape.EscapedIsOneString | daemon/hotspotd/hnc_helpers.c:26-54 | The escape of any bytes holds none below 32, and a reader of JSON strings finds the closing quote behind it and none inside (section 7 of RFC 8259) |
| JsonEscape.BackUpIn | daemon/hotspotd/hnc_helpers.c:56-84 | The backing-up loop removes exactly an incomplete last character |
| JsonEscape.BackUpOfEscape | daemon/hotspotd/hnc_helpers.c:56-84 | Backing up in the escaped text is backing up in the source: no escape is ever split |
| JsonEscape.FillIsLongest | daemon/hotspotd/hnc_helpers.c:32-54 | The copying loop stops at the longest prefix whose escape fits |
| JsonEscape.KeptIsLongest | daemon/hotspotd/hnc_helpers.c:26-85 | For valid UTF-8 (section 3 of RFC 3629) the prefix ends on a character boundary, no longer such prefix fits, and it is the whole source if and only if that fits |
| JsonEscape.KeptWholeExact | daemon/hotspotd/hnc_helpers.c:26-85 | For any bytes all of the source is kept if and only if its escape fits with a byte to spare, or exactly and the source does not end within a character |
| JsonEscape.LoneLeadByteDropped | daemon/hotspotd/hnc_helpers.c:56-82 | A 22-byte name whose escape fits 127 bytes loses its last byte in the 128-byte buffer |
| CacheFileRoundTrip.SavedIsLoaded | daemon/hotspotd/hostname_cache.c:192-381 | Loading a saved file gives every entry back, in order, with the part of its host name the escape buffer held |
| CacheFileRoundTrip.RestoredExactly | daemon/hotspotd/hostname_cache.c:340-381 | For any names entries come back exactly if and only if every escape fits 126 bytes, or 127 and the name does not end within a character |
| CacheFileRoundTrip.Utf8EndsWhole | daemon/hotspotd/hostname_cache.c:340-381 | For UTF-8 names the condition is that the escape fits 127 bytes |
| CacheFileRoundTrip.LoneLeadByteNotRestored | daemon/hotspotd/hostname_cache.c:192-381 | A saved entry whose escape fits 127 bytes and that does not come back |
| CacheFileRoundTrip.FileWithinLimit | daemon/hotspotd/hostname_cache.c:192-215 | Even 1024 entries of the largest size stay within the 256 KB the loader accepts |
| CacheFileRoundTrip.NameRead | daemon/hotspotd/hostname_cache.c:235-293 | The search for the end of a host name never stops inside its escape |
| CacheFileRoundTrip.FindsEntry | daemon/hotspotd/hostname_cache.c:219-233 | The search for the host marker finds the next entry and never matches before it |
| CacheFileRoundTrip.EntryIsJson | daemon/hotspotd/hostname_cache.c:357-366 | An entry is the MAC and an object with members h, s and t, byte for byte |
| CacheFileRoundTrip.OneMoreEntry | daemon/hotspotd/hostname_cache.c:350-368 | The file of no entries is an empty object; one more entry goes last, behind a comma unless it is the first |
| CacheFileRoundTrip.UnicodeRead | daemon/hotspotd/hostname_cache.c:252-282 | An escape of any 16-bit number is read as its UTF-8 form, or as nothing when that does not fit behind what is read already |
| HostnameCache.MacEqual | daemon/hotspotd/hostname_cache.c:33-44 | Two MACs are equal exactly when their letters are, case apart |
| Bytes.LowerForgetsCase | daemon/hotspotd/hostname_cache.c:33-44 | Two strings have the same lower-case form exactly when they have the same length and differ only in the case of letters A to Z |
| HostnameCache.HostnameCache.Lookup | daemon/hotspotd/hostname_cache.c:89-105 | The first active slot that matches, its strings cut to the buffers given |
| HostnameCache.HostnameCache.Update | daemon/hotspotd/hostname_cache.c:114-178 | The table after an update, and that a clean cache still equals the last file |
| HostnameCache.HostnameCache.FindOldest | daemon/hotspotd/hostname_cache.c:160-168 | The first slot with the smallest update time |
| HostnameCache.HostnameCache.Save | daemon/hotspotd/hostname_cache.c:340-381 | The file text of the active slots in slot order; a failed save stays dirty |
| HostnameCache.HostnameCache.Load | daemon/hotspotd/hostname_cache.c:192-333 | The table after a load: what the text holds, laid over the slots |
| HostnameCache.TimeOnly | daemon/hotspotd/hostname_cache.c:138-141 | An update that changes only the time leaves what the dirty flag speaks of unchanged |
| HostnameCacheFacts.UpdateKeepsDistinct | daemon/hotspotd/hostname_cache.c:114-178 | An update keeps the MACs distinct if and only if the MAC has at most 17 bytes or its cut form is not already held |
| HostnameCacheFacts.LongMacUnknown | daemon/hotspotd/hostname_cache.c:33-105 | A MAC of more than 17 bytes is never found |
| HostnameCacheFacts.LongMacTwice | daemon/hotspotd/hostname_cache.c:114-178 | Two updates of any such MAC with two slots free leave two slots with the same MAC, and no lookup of it succeeds |
| HostnameCacheFacts.LoadKeepsDistinct | daemon/hotspotd/hostname_cache.c:192-333 | A load keeps the MACs distinct if and only if its records differ from each other and from the slots behind them |
| HostnameCacheFacts.RunKeepsDistinct | daemon/hotspotd/hostname_cache.c:114-333 | Over any run of updates and loads the MACs are distinct throughout if and only if each operation meets its condition when it comes |
| HostnameCacheFacts.LookupAfterUpdate | daemon/hotspotd/hostname_cache.c:89-178 | After an update the MAC finds the new name and every other MAC what it found before, the evicted one apart |
| HostnameCacheFacts.NameAnswered | daemon/hotspotd/hostname_cache.c:89-178 | The name updated is found under its MAC in any case, whole up to 63 bytes, with its source whole up to 11 |
| HostnameCacheFacts.ChangedExactly | daemon/hotspotd/hostname_cache.c:114-178 | An update is worth saving exactly when a lookup before it would not have given this name and source, so a name of over 63 bytes always is |
| HostnameCacheFacts.VictimIsOldest | daemon/hotspotd/hostname_cache.c:144-168 | A new MAC takes a free slot, and evicts a least recently updated one only when all are taken |
| HostnameCacheFacts.RestartKeepsAnswers | daemon/hotspotd/hostname_cache.c:192-381 | Saving and loading into a fresh cache changes the answer to no lookup, for any names that meet that condition |
| TokenStore.TokensStore.Reload | daemon/hnc_httpd/tokens.go:80-144 | The two halves undisturbed: the file replaces the map unless it is no newer |
| TokenStore.TokensStore.SyncIfChanged | daemon/hnc_httpd/tokens.go:149-170 | The map is that of the file whenever the mtime differs |
| TokenStore.TokensStore.SaveAtomicLocked | daemon/hnc_httpd/tokens.go:242-321 | The file and the map after a save hold what SavedExactly says, and the map counts as read from that file |
| TokenStore.TokensStore.MergeForward | daemon/hnc_httpd/tokens.go:256-266 | The forward merge loop |
| TokenStore.TokensStore.DropDeleted | daemon/hnc_httpd/tokens.go:272-280 | The reverse merge loop |
| TokenStore.TokensStore.PutIfAbsent | daemon/hnc_httpd/tokens.go:330-340 | A collision changes nothing |
| TokenStore.TokensStore.Put | daemon/hnc_httpd/tokens.go:344-351 | The token goes into memory and counts as changed; map and file are then those of a save |
| TokenStore.TokensStore.UpdateLastSeen | daemon/hnc_httpd/tokens.go:355-366 | Memory and dirty set only |
| TokenStore.TokensStore.Flush | daemon/hnc_httpd/tokens.go:369-373 | Map and file become the merge of memory with the file, and nothing counts as changed any more |
| TokenStore.TokensStore.Prune | daemon/hnc_httpd/tokens.go:386-418 | The expired records go, their number is returned, and a save happens only if there are any |
| TokenFacts.SavedExactly | daemon/hnc_httpd/tokens.go:242-321 | After a save that sees an unseen file both sides hold exactly the ids of the file and the changed ones of memory: the fields of memory with the revocation of either side where both have the id, otherwise the record of the side that has it; with a seen or missing file what memory held |
| TokenFacts.DeletedComesBackExactly | daemon/hnc_httpd/tokens.go:272-280 | An id the unseen file no longer has is written back exactly when it was changed in memory |
| TokenFacts.PrunedExactly | daemon/hnc_httpd/tokens.go:386-418 | A prune keeps, unchanged, exactly the records never seen or seen within 90 days and, when revoked, within 30 |
| TokenFacts.PutIsFound | daemon/hnc_httpd/tokens.go:344-351 | A token put is in memory and in the file afterwards, revoked if it or an unseen file says so |
| TokenFacts.TouchedExactly | daemon/hnc_httpd/tokens.go:355-366 | A request stamps its own record and no other |
| TokenFacts.InstalledExactly | daemon/hnc_httpd/tokens.go:121-143 | A newer file replaces memory and its changes, one that is no newer nothing |
| TokenProtocol.StepKeeps | daemon/hnc_httpd/tokens.go:80-170 | For a store opened on its file every step of every interleaving keeps that what was read or installed carries every earlier revocation |
| TokenRuns.StepKeepsFile | daemon/hnc_httpd/tokens.go:80-170 | For a store opened on its file or without one every step keeps that memory as new as the file has its ids and revocations, and that a read copy is no newer than the file |
| TokenRuns.StepKeepsRevocation | daemon/hnc_httpd/tokens.go:242-321 | No step takes back a revocation of a record that stays in the file |
| TokenProtocol.SaveKeeps | daemon/hnc_httpd/tokens.go:242-321 | A save never writes back a record without a revocation the file has |
| TokenRuns.RevokedStaysRevoked | daemon/hnc_httpd/tokens.go:242-321 | In every run of a store opened on its file or before the file exists, a record once revoked in the file stays revoked while it stays in the file |
| TokenRuns.WatchedIsRefused | daemon/hnc_httpd/auth.go:106-134 | In every run of a store opened on its file, no cookie a synced request presents, at any time and whatever secrets match, is accepted as a record that was revoked in the file when the request began |
| TokenDeletions.DeletedStaysDeleted | daemon/hnc_httpd/tokens.go:242-321 | In every run, of a store opened on a file or without one, a record deleted from the file by the other writer and not changed in memory is never in the file again |
| TokenDeletions.UsedRecordComesBack | daemon/hnc_httpd/tokens.go:272-280 | The exception: a record used since the last save is back, not revoked, after the next one |
| TokenRuns.SafeIffFilePresent | daemon/hnc_httpd/tokens.go:80-170 | All runs are safe if and only if the file existed when the store was opened; without it thirteen steps let a revoked token back in |
| CookieAuth.VerifyCookie | daemon/hnc_httpd/auth.go:106-134 | The answer for any cookie, store and time, the conditions taken in order |
| CookieAuth.VerifiedExact | daemon/hnc_httpd/auth.go:106-134 | A cookie is accepted as an id if and only if it is that id, a dot and a secret matching the hash of its token, which is in the store, not revoked and seen within 60 days |
| CookieAuth.ParseCookie | daemon/hnc_httpd/auth.go:151-174 | The parts of a cookie or a failure |
| CookieAuth.ParsedCookieExact | daemon/hnc_httpd/auth.go:151-187 | A cookie parses to id and secret if and only if it is those two, base64url and of the right lengths, joined by a dot |
| CookieAuth.AlphabetExact | daemon/hnc_httpd/auth.go:176-187 | The characters accepted are exactly the 64 of base64url (section 5 of RFC 4648) |
| OffloadAdapter.BpfAdapter.DisableUpstream | daemon/hotspotd/offload/adapter_bpf.c:512-562 | The upstream's limit is 0 and it is listed, room permitting |
| OffloadAdapter.BpfAdapter.RestoreUpstream | daemon/hotspotd/offload/adapter_bpf.c:564-607 | The limit is lifted if the key is still there, and it is no longer listed |
| OffloadAdapter.BpfAdapter.DisableGlobal | daemon/hotspotd/offload/adapter_bpf.c:615-663 | The walk sets every entry of the kernel map to 0 |
| OffloadAdapter.BpfAdapter.RestoreGlobal | daemon/hotspotd/offload/adapter_bpf.c:665-716 | The walk lifts every entry and empties the list |
| OffloadAdapter.BpfAdapter.DisabledSetRemove | daemon/hotspotd/offload/adapter_bpf.c:304-314 | The last index fills the hole; exactly the one index goes |
| OffloadScheduler.NormalizeMac | daemon/hotspotd/scheduler.c:96-113 | Exactly the colon-separated hexadecimal MACs are accepted, in lower case |
| OffloadScheduler.AddressAccepted | daemon/hotspotd/scheduler.c:96-113 | Any six bytes in hexadecimal, upper or lower case, alone or before a newline or blank, are accepted and kept in lower case, and refused before anything else |
| OffloadScheduler.Scheduler.NotifyDeviceLimitChanged | daemon/hotspotd/scheduler.c:700-744 | A notification: the set, and on its first and last member the adapter |
| OffloadScheduler.Scheduler.WorkerProbe | daemon/hotspotd/scheduler.c:492-530 | A worker turn: a new primary under limited devices is disabled |
| OffloadScheduler.Scheduler.LimitedSetRemove | daemon/hotspotd/scheduler.c:144-155 | Exactly the one MAC goes |
| OffloadScheduler.Scheduler.ForceDisableGlobal | daemon/hotspotd/scheduler.c:759-764 | Everything to 0 |
| OffloadScheduler.Scheduler.ForceRestoreClear | daemon/hotspotd/scheduler.c:771-773 | The locked half empties the set |
| OffloadScheduler.Scheduler.ForceRestoreFinish | daemon/hotspotd/scheduler.c:775-775 | The half outside the lock lifts every limit |
| OffloadRuns.StepKeeps | daemon/hotspotd/scheduler.c:340-530 | Every notification, worker turn and forced operation keeps: devices limited and primary known implies its limit is 0 |
| OffloadRuns.AlwaysThrottled | daemon/hotspotd/scheduler.c:340-776 | The same in every state of every run after initialisation, the worker also between the halves of a forced restore |
| OffloadRuns.EmptyingLifts | daemon/hotspotd/scheduler.c:700-776 | The step that empties the set leaves every limit lifted and the adapter's list empty |
| OffloadRuns.NotifiedExactly | daemon/hotspotd/scheduler.c:700-744 | A notification concerns its own device alone: off takes it out, on puts it in unless 256 others are in; the first device looks for the upstream and sets its limit, or all, to 0, the last one to go lifts all, and otherwise upstream, limits and list stay |
| OffloadRuns.ProbedExactly | daemon/hotspotd/scheduler.c:492-530 | A probe keeps the devices, takes over the upstream it finds, and sets its limit to 0 when it is a new one under limited devices |
| OffloadRuns.ForcedExactly | daemon/hotspotd/scheduler.c:759-776 | The forced operations set every limit to 0, or to none, and only a restore forgets the devices |
| OffloadRuns.LimitedExactly | daemon/hotspotd/scheduler.c:700-776 | In every state of every run a device is limited if and only if the last word about it, a notification or a forced restore, was an on that had room |
| OffloadRuns.LimitedIsThrottled | daemon/hotspotd/scheduler.c:340-776 | From an on with room until an off of the same device or a forced restore, the limit of a known upstream is 0 |
| RateLimiter.RateLimiter.GetOrCreate | daemon/hnc_httpd/ratelimit.go:74-97 | The entry is there and in front, or all 512 are locked and nothing changes |
| RateLimiter.RateLimiter.EvictOldest | daemon/hnc_httpd/ratelimit.go:102-112 | The hindmost unlocked entry leaves map and list |
| RateLimiter.RateLimiter.CheckPinVerify | daemon/hnc_httpd/ratelimit.go:119-131 | Allowed, or refused with the seconds left of the lock, or with 600 when there is no room; the entry is opened and nothing else changes |
| RateLimiter.RateLimiter.RegisterPinFail | daemon/hnc_httpd/ratelimit.go:136-155 | The window restarts after 60 seconds, the failure is counted, the fifth locks for 600 seconds, and the failures left are returned |
| RateLimiter.RateLimiter.ResetPin | daemon/hnc_httpd/ratelimit.go:158-167 | Failures, window and lock of a known address are cleared, its bucket and place are not |
| RateLimiter.RateLimiter.CheckUnauth | daemon/hnc_httpd/ratelimit.go:172-207 | The own bucket, or the shared one when all entries are locked, is refilled and pays a token if it has one |
| RateLimiter.RateLimiter.Gc | daemon/hnc_httpd/ratelimit.go:223-244 | Exactly the stale unlocked entries go, the order of the others stays |
| RateLimiterRuns.LockHolds | daemon/hnc_httpd/ratelimit.go:119-155 | The failure that locks an address shuts it out for ten minutes, whatever traffic, eviction and collection do, short of its own reset |
| RateLimiterRuns.FifthFailureLocks | daemon/hnc_httpd/ratelimit.go:136-155 | Whatever else happens within 60 seconds of the first failure of a window, as long as the entry is not evicted or reset, the fifth failure and each later one locks, no earlier one does, and the count left is exact; the address may be new |
| RateLimiterRuns.CountStep | daemon/hnc_httpd/ratelimit.go:74-167 | Within the window only failures of the address itself change its count |
| RateLimiterRuns.ResetStartsOver | daemon/hnc_httpd/ratelimit.go:136-167 | After a reset the address is let in, and from its next failure on it has five again, locked or not before |
| RateLimiterRuns.ResetExactly | daemon/hnc_httpd/ratelimit.go:158-167 | A reset changes failures, window and lock of its own address and nothing else |
| RateLimiterRuns.FreshSurvivesGc | daemon/hnc_httpd/ratelimit.go:223-244 | A collection keeps, unchanged, exactly the entries that are locked or were seen in the last 15 minutes |
| RateLimiterRuns.ForgottenStartsOver | daemon/hnc_httpd/ratelimit.go:82-96 | An address without an entry starts over |
| RateLimiterRuns.EvictionForgets | daemon/hnc_httpd/ratelimit.go:82-112 | The exception: four failures, 512 other addresses and a fifth failure within one second do not lock |
| RateLimiterRuns.SlowFailureDoesNotLock | daemon/hnc_httpd/ratelimit.go:143-147 | A failure more than 60 seconds after its window began opens a new window and does not lock |
| RateLimiterRuns.AdmittedExactly | daemon/hnc_httpd/ratelimit.go:172-207 | A request is let through exactly when its bucket, that of a new entry, or the shared one holds a token |
| RateLimiterRuns.EntryCost | daemon/hnc_httpd/ratelimit.go:196-206 | A request let through costs its own bucket exactly one token; no other operation touches it |
| RateLimiterRuns.SharedCost | daemon/hnc_httpd/ratelimit.go:177-195 | The same for the shared bucket |
| RateLimiterRuns.RefusedExactly | daemon/hnc_httpd/ratelimit.go:119-131 | An address is refused exactly while locked, or unknown with all 512 entries locked, and told the seconds left or 600 |
| RateLimiterRuns.AfterTimely | daemon/hnc_httpd/ratelimit.go:74-244 | Every operation keeps map and list together, at most 512 long and in last-seen order, and every bucket between empty and full |
| RateLimiterRuns.RunTimely | daemon/hnc_httpd/ratelimit.go:74-244 | And so does every run |
| RateLimiterRuns.VictimIsLeastRecent | daemon/hnc_httpd/ratelimit.go:102-112 | The evicted entry is the least recently seen of the unlocked ones |
| RateLimiterRuns.SharedBound | daemon/hnc_httpd/ratelimit.go:177-195 | Over d seconds the shared bucket admits at most 50 + 50 d requests |
| RateLimiterRuns.EntryBound | daemon/hnc_httpd/ratelimit.go:196-206 | While its entry lives an address gets at most 20 + 20 d requests through in d seconds |
| RateLimiterRuns.PauseFills | daemon/hnc_httpd/ratelimit.go:196-206 | Without requests of its own the bucket of a living entry gains 20 tokens a second up to 20, whatever else happens |
| RateLimiterRuns.PauseAdmits | daemon/hnc_httpd/ratelimit.go:172-207 | An address that has not asked for a second, and whose entry lives, is let through |
| RateLimiterRuns.SharedGrowth | daemon/hnc_httpd/ratelimit.go:177-195 | The shared bucket gains 50 tokens a second up to 50 |
| WriteLimiter.WriteCounter.CheckAndIncr | daemon/hnc_httpd/writelimit.go:46-77 | The answer and the entry after trimming and counting |
| WriteLimiter.WriteCounter.Gc | daemon/hnc_httpd/writelimit.go:93-103 | Exactly the entries idle for over ten minutes go |
| WriteLimiter.AcceptsByLog | daemon/hnc_httpd/writelimit.go:46-77 | A write is accepted if and only if fewer than 60 accepted writes of its key lie in the last 60 seconds |
| WriteLimiter.WindowBound | daemon/hnc_httpd/writelimit.go:57-75 | No window of 60 seconds, wherever it is placed, holds more than 60 |
| WriteLimiter.RunFollowsLog | daemon/hnc_httpd/writelimit.go:46-103 | Over any run the answers are those of the full log of accepted writes, and no window of it is ever over-full |
| WriteLimiter.CollectionIsInvisible | daemon/hnc_httpd/writelimit.go:93-103 | A run answers the same with every collection taken out |
| MdnsWorker.MdnsWorker.Enqueue | daemon/hotspotd/mdns_worker.c:224-245 | The task ring gains the task, its strings cut to their fields, or is full, stopped or refused |
| MdnsWorker.MdnsWorker.TakeTask | daemon/hotspotd/mdns_worker.c:120-134 | Under the lock the worker waits, stops and discards, or takes the oldest task |
| MdnsWorker.MdnsWorker.PushResult | daemon/hotspotd/mdns_worker.c:88-111 | The result goes last, or nowhere when the ring is full |
| MdnsWorker.MdnsWorker.DrainResults | daemon/hotspotd/mdns_worker.c:247-260 | The oldest results, in order, at most as many as asked for |
| MdnsWorker.MdnsWorker.Start | daemon/hotspotd/mdns_worker.c:161-201 | A start empties both rings |
| MdnsWorker.MdnsWorker.Stop | daemon/hotspotd/mdns_worker.c:203-218 | Stop is set and tasks are no longer accepted |
| MdnsWorker.RingPush | daemon/hotspotd/mdns_worker.c:233-241 | Writing at the tail of a ring appends to its contents |
| MdnsWorker.RingPop | daemon/hotspotd/mdns_worker.c:131-133 | Moving the head drops the first of its contents |
| MdnsProtocol.StepKeeps | daemon/hotspotd/mdns_worker.c:88-260 | Every critical section, in any interleaving, keeps conservation, order and wake-ups |
| MdnsProtocol.EveryRun | daemon/hotspotd/mdns_worker.c:88-260 | In every run each accepted task is, in order, done, in hand, waiting or discarded at the stop; drained and waiting results are the kept ones in order of acceptance; a worker asleep without a signal has nothing to do |
| MdnsProtocol.ResultsAnswerCalls | daemon/hotspotd/mdns_worker.c:88-260 | In every run the results are those of accepted calls in their order: each carries the MAC its call gave, cut to 17 bytes, and the answer the resolver gave to it, cut to 63, with source "mdns", or failure with "mac" |
| MdnsProtocol.AcceptedAreArguments | daemon/hotspotd/mdns_worker.c:224-245 | The tasks accepted are the arguments, cut to their fields, of exactly the calls that come while the worker is started and fewer than 16 tasks wait |
| MdnsProtocol.StopEnds | daemon/hotspotd/mdns_worker.c:203-218 | After stop two steps of the worker end it, and it never waits for another signal |
| MdnsProtocol.CarefulLosesNothing | daemon/hotspotd/mdns_worker.c:88-111 | No result is dropped while at most 16 tasks are under way |
| MdnsProtocol.IdleLosesTheExcess | daemon/hotspotd/mdns_worker.c:88-111 | Left alone the worker loses exactly the results beyond 16: a full task ring and a task in hand already lose one |
| CrashBreaker.CrashTracker.Record | src/launcher/hnc_launcher.c:176-198 | The breaker trips exactly when at least 5 of all crashes so far lie in the last 60 seconds, although only 5 times are kept |
| CrashBreaker.CrashTracker.Keep | src/launcher/hnc_launcher.c:187-194 | The kept times are the last five of all |
| CrashBreaker.CrashTracker.CountRecent | src/launcher/hnc_launcher.c:179-185 | How many kept times are recent |
| CrashBreaker.KeptDecide | src/launcher/hnc_launcher.c:176-198 | The last five decide as all do |
| CrashBreaker.RunSuperviseLoop | src/launcher/hnc_launcher.c:351-418 | The loop ends as the same loop judged by all crashes, and with code 0 exactly when a clean exit, a failed wait or a shutdown comes while it is going |
| CrashBreaker.StoppedExactly | src/launcher/hnc_launcher.c:351-418 | Only a clean exit, a failed wait or a shutdown stops it so, at the first of them, whatever would come after |
| CrashBreaker.PauseValue | src/launcher/hnc_launcher.c:400-404 | The pauses are 2, 4, 8, 16 and then 32, not 30 |
| CrashBreaker.TripsAtFifthOrSixth | src/launcher/hnc_launcher.c:351-405 | A run can trip the breaker only at its fifth or sixth crash |
| CrashBreaker.TripsExactly | src/launcher/hnc_launcher.c:351-405 | A program that only crashes is stopped if and only if its second to fifth lives last at most 30 seconds together or its third to sixth last none |
| CrashBreaker.TwoForkFailuresDisarm | src/launcher/hnc_launcher.c:363-373 | Two failed forks before the first crash and the breaker never trips |
| NetlinkAttrs.NlMessage.AddAttrL | daemon/tc_netlink/hnc_tc_ingress.c:122-139 | The attribute and its padding are appended, or the buffer is too small and nothing changes; the length stays aligned and within the buffer |
| NetlinkAttrs.NlMessage.AddAttrNest | daemon/tc_netlink/hnc_tc_ingress.c:153-160 | An open nest: a bare header and its offset |
| NetlinkAttrs.NlMessage.NestEnd | daemon/tc_netlink/hnc_tc_ingress.c:163-166 | Only the two length bytes change |
| NetlinkAttrs.NlMessage.Put | daemon/tc_netlink/hnc_tc_ingress.c:122-166 | Serialising a tree with the three functions appends its wire form, and fails if and only if that does not fit |
| NetlinkAttrs.PatchCloses | daemon/tc_netlink/hnc_tc_ingress.c:163-166 | Patching turns header and children into the nest with its exact length |
| NetlinkAttrs.WalkInvertsEncode | daemon/tc_netlink/hnc_tc_ingress.c:122-166 | Walking the bytes by aligned length and type gives the tree back |
| MatchallFilter.AppendMirredAction | daemon/tc_netlink/hnc_tc_ingress.c:326-360 | The action's kind and its options nest with the redirect parameters, whose words MirredRead reads |
| MatchallFilter.BuildMatchall | daemon/tc_netlink/hnc_tc_ingress.c:372-437 | The request fits its buffer and is 112 bytes long: the fixed part with type 44, flags 0x605, interface, parent 0xFFFFFFF2 and priority, literal attribute bytes, and the redirect to the given interface |
| MatchallFilter.RequestIsLiteral | daemon/tc_netlink/hnc_tc_ingress.c:372-437 | Every byte of the request: 36 read back as the numbers asked for, 48 literal, and the redirect parameters |
| MatchallFilter.MirredRead | daemon/tc_netlink/hnc_tc_ingress.c:330-345 | Read back, the parameters say action 4, eaction 1, the given interface and 0 elsewhere |
| MatchallFilter.MatchallParses | daemon/tc_netlink/hnc_tc_ingress.c:410-437 | The walk over the request finds the kind, and inside the options the one mirred action, whose words redirect to the given interface |

## Left out

- MdnsResolve.BuildQuery: the address arrives as four octets; reading the text with sscanf is not modelled.
- MdnsResolve.ParseResponse: sockets, retries and the removal of the local suffix around it are not modelled.
- DpidDns.ParseDns: lower-casing is modelled for ASCII only; the source lower-cases text it reads as UTF-8.
- DpidParser.ParsePacket: addresses stay bytes, without their rendering as text.
- PacketFilter.FilterMeansWanted: attaching the filter to a socket is not modelled.
- HostnameCache.HostnameCache.Save: writing, renaming and closing are one success flag; HostnameCache.HostnameCache.Load takes the file's bytes.
- TokenStore.TokensStore.SaveAtomicLocked: reading, renaming and both stats are one step that succeeds, and every save has a later mtime; the source's own comment admits the window this leaves.
- TokenRuns.StepKeepsFile: the external writer only revokes and deletes, and its file always parses; a deletion ends what a request watches for; a put under a known id is only made by logout, which revokes.
- CookieAuth.VerifyCookie: the bcrypt comparison is a predicate about which nothing is assumed; issuing tokens draws random bytes and is not modelled.
- OffloadAdapter.BpfAdapter.DisableGlobal: map updates that fail, reopened descriptors and the other granularities of the adapter are not modelled; the kernel map has no other writer.
- OffloadRuns.AlwaysThrottled: probing the upstream is an oracle that gives an index above 0 or fails; the rules are rebuilt before the run, whose text is not read; the security module's own interface index is not modelled.
- OffloadRuns.StepKeeps: the control thread's operations follow one another as in the daemon's main loop; only the worker comes between them.
- RateLimiterRuns.LockHolds: the clock does not go back below the moment of the lock; RateLimiterRuns.RefusedExactly and RateLimiterRuns.FifthFailureLocks: the clock counts from 1970.
- RateLimiterRuns.SharedBound: bucket contents are real numbers, without floating-point rounding.
- WriteLimiter.RunFollowsLog: the clock does not go back.
- MdnsProtocol.EveryRun: a run is from one start to the next; results still waiting at a new start are lost there.
- MdnsWorker.MdnsWorker.Start: signal masks and thread creation are one success flag.
- CrashBreaker.RunSuperviseLoop: pauses last at least their length and the clock does not go back; spawning, waiting and signals are events; the flag file is not written.
- NetlinkAttrs.NlMessage.AddAttrL: the message length is a field of its own instead of the first four bytes of the buffer; buffers are those of the source, below 64 KB, in which no 16-bit length wraps.
- MatchallFilter.BuildMatchall: sending, acknowledgement and the queueing discipline's own request are not modelled.
- HTTP handlers, TLS certificates, the audit log, shell execution and the web pages: input and output around these cores.
- The OUI table, MAC, rate and SSID validators and the statistics buckets: they would only add easy members.
