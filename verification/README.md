# coldstep: verified core

A Dafny model of the parts of coldstep, an eBPF egress monitor, whose correctness cannot be seen by
reading one function: the TLS server-name parser and the store that joins a split ClientHello, the DNS
decoder and the cache it feeds, the allowlist tries and their repair, two time-window state machines,
the process forest, the HTTP prefix parser and the event-stream reader.

`dafny verify dfyconfig.toml` verifies the whole project.

## How the model is laid out

| file | models | main results |
|---|---|---|
| Bytes.dfy | byte fields, and the Go text helpers used below | where an encoding lies in a buffer |
| Text.dfy | `strings.TrimSpace` and `strings.ToLower` | which bytes are white space, what trimming leaves, lower case bytewise |
| ClientHello.dfy | internal/telemetry/tls_clienthello.go | the parser accepts exactly the encoder's outputs, cut anywhere after server_name |
| TlsReassembler.dfy | internal/agent/agent_linux_tls_reassembler.go | fragmentation does not matter; when entries leave, by the times of the calls |
| DnsName.dfy | internal/agent/dns_wire.go, names | the reader accepts exactly the pointer chains within budget; compression keeps the name |
| DnsResponse.dfy | internal/agent/dns_wire.go, responses | what is read is exactly what lies in the packet, names compressed or not; the first shortest owner wins |
| DnsCache.dfy | internal/agent/dns_cache.go | each kernel map mirrors the entries while its own operations succeed; lookups are sound over runs |
| Faults.dfy | errors of kernel map operations | a count of failures stands still exactly while nothing fails |
| EgressPolicy.dfy | internal/policy/policy.go, internal/policy/ignore.go | classification, merging network lists |
| LpmKeys.dfy | the two key builders | they give the same keys, and the tries agree with the classifier exactly when they cover its mapped networks |
| Integrity.dfy | internal/agent/agent_linux_integrity.go, internal/agent/defend_rearm.go | self-healing without dropping a wanted key |
| Collections.dfy | `sort.Slice` on distinct keys, and facts about sets | one ascending enumeration |
| ProcForest.dfy | internal/proctree/summary.go | the drawing is all simple paths from the roots, in word order |
| KtlsTracker.dfy | internal/agent/agent_linux_ktls_tracker.go | exactly when lazy eviction is invisible |
| DenyDedup.dfy | internal/agent/agent_linux_state_defend.go | what the bounded table remembers, and exactly when only the family that opened a chain is emitted |
| HttpPrefix.dfy | internal/telemetry/parsehttp.go | exactly when a truncated capture is right about whatever it is the start of |
| JsonlFraming.dfy | internal/report/markdown/markdown.go | records do not depend on the read window; one bad record costs one error |

Conventions. Clock readings are integer parameters, and two readings in one call may differ where the
code reads the clock twice. Walking a Go map is an arbitrary choice of the next key. Kernel maps are ideal
finite maps any operation on which may fail: the operations of a map are numbered in the order they are tried,
and a constant set holds the numbers of those that fail. So a contract can say that a method succeeds exactly
when none of its operations fails, and what still holds when one does. Lower-casing a string with a byte
outside ASCII is the parameter `fold`; white space is modelled byte for byte, as `unicode.IsSpace` has it. A
loop or an updated object of the code is a method with invariants or a class; each is proved against a function
or a relation, and the results are about those.

## Where the code falls short of what it promises

* `HttpPrefix.TruncationDecided`, `HttpPrefix.CutInsideWideSpace`, `HttpPrefix.BareHostExample`: a truncated
  capture should report nothing that the whole request would contradict. It can be wrong in three ways. Cut
  inside a white-space character of two or three bytes right after two words of the request line, it can parse
  although the whole request is rejected. Without any CR LF, a host on a line that ends with a bare LF is taken
  back as soon as a CR LF follows, because then everything before it is one line: `GET / H`, LF, `Host:a`, LF
  names the host `a`, and with CR LF behind it no host. After a CR LF, a host on a later line that ends with a
  bare LF can likewise change, unless that line comes first and its value has a port or brackets. The lemma
  gives the exact condition on the capture; `HttpPrefix.TruncationIsSound` is the case of requests whose every
  LF follows a CR, where only the first way remains, and ASCII captures are free of that one too.
* `LpmKeys.MappedIgnoredNetIsNotProgrammed`, `LpmKeys.AgreeIffCovered`: an ignored CIDR in IPv4-mapped form
  passes as IPv4 (internal/policy/ignore.go:16-23) but keeps its 128-bit mask, so the classifier honours it and
  the trie never gets it. Next to the defaults, `::ffff:192.168.0.0/112` is such a network. The lemma gives the
  exact condition for agreement. As an allowed network it makes the load fail instead, although the comment at
  internal/policy/policy.go:115 says such input is normalised.
* `DenyDedup.LossyRunLosesTwin`, `DenyDedup.OpenerFamilyIsEmitted`: of the reports on one call only those of
  the family that came first should be emitted. The bound on the table breaks this when the wall clock steps
  back: a report on some other key, stamped more than a second ahead, prunes an overfull table, and a twin that
  arrives after the clock has stepped back is emitted although its own gap is under a second. A run keeps the
  promise if and only if no twin finds its chain pruned away like that. It always does while no report between
  two neighbours of a chain is stamped more than a second after the earlier one, in particular when the clock
  never goes back, for any number of keys (`DenyDedup.SteadyChainEmitsOpener`, `DenyDedup.ForwardClockIsSteady`).
* `DnsName.CompressionKeepsName`, `DnsName.TrailingDotExample`: a name that ends through a pointer to the bare
  root gets a trailing dot.
* `DnsCache.LowerClampIsIdle`, `ProcForest.NamelessEverywhere`: the lower clamp of the time to live
  (internal/agent/dns_cache.go:84) and the lookup of a child's name while drawing
  (internal/proctree/summary.go:92) never change a result.
* `KtlsTracker.EvictionDecided`: when the clock goes back behind a mark, a mark that was evicted can be live
  again, and the tracker no longer answers for it. The lemma gives the exact condition.

## Model

| member | source | states |
|---|---|---|
| Bytes.ByteOrder | internal/agent/dns_wire.go:36-37 | two-, three- and four-byte fields are read most significant byte first, and the little-endian one the other way round |
| Text.SpaceAtFront | internal/telemetry/parsehttp.go:82-83 | white space is the UTF-8 encodings of the code points that `unicode.IsSpace` accepts, and nothing else |
| Text.TrimSpaceIs | internal/telemetry/parsehttp.go:82-83 | trimming takes white-space characters off both ends, nothing else, and leaves none there |
| Text.ToLowerAscii | internal/telemetry/parsehttp.go:82 | ASCII capitals become small letters and every other ASCII byte stays |
| ClientHello.ScanServerNameList | internal/telemetry/tls_clienthello.go:89-123 | the loop over a truncated extension list finds what `NameInExtensions` defines |
| ClientHello.ParseClientHelloSNI | internal/telemetry/tls_clienthello.go:11-87 | the cursor walk finds what `Sni` defines, in bounds for every buffer |
| ClientHello.SniCharacterised | internal/telemetry/tls_clienthello.go:11-123 | a host is returned if and only if the buffer begins with the encoding, up to the end of server_name, of some ClientHello naming it whose declared lengths do not end earlier |
| ClientHello.SniMonotone | internal/telemetry/tls_clienthello.go:11-123 | once a buffer gives a host, every extension of it gives the same host |
| ClientHello.HelloUnique | internal/telemetry/tls_clienthello.go:27-122 | two encodings that start one buffer end at the same byte |
| ClientHello.RoundTrip | internal/telemetry/tls_clienthello.go:27-122 | a complete ClientHello cut at any byte gives its normalised host if server_name was captured whole, and nothing otherwise |
| ClientHello.NameInBlockSound | internal/telemetry/tls_clienthello.go:101-120 | an accepted server_name body is the encoding of a host with whatever follows it |
| ClientHello.NameInExtensionsSound | internal/telemetry/tls_clienthello.go:89-123 | an accepted extension list begins with other extensions and then a server_name |
| TlsReassembler.Reassembler.constructor | internal/agent/agent_linux_tls_reassembler.go:94-114 | an empty store; each setting that is not positive gets its own default, 30 s, 1024 keys or 512 bytes, and the others are kept |
| TlsReassembler.Reassembler.EvictExpired | internal/agent/agent_linux_tls_reassembler.go:204-217 | an entry stays if and only if the clock is not past its last update plus the ttl, and the count is how many left |
| TlsReassembler.Reassembler.EvictOldest | internal/agent/agent_linux_tls_reassembler.go:221-235 | one least recently updated entry leaves a non-empty store, whichever of several that tie |
| TlsReassembler.Reassembler.AppendAndParse | internal/agent/agent_linux_tls_reassembler.go:134-185 | every call is a step of the store relation: expiry, room for a new key, capped append, parse, drop |
| TlsReassembler.Reassembler.RunSweep | internal/agent/agent_linux_tls_reassembler.go:191-195 | drops the expired entries and returns their number |
| TlsReassembler.RunIsSound | internal/agent/agent_linux_tls_reassembler.go:134-235 | in every reachable store: at most maxKey entries, each buffer 1..bufCap bytes, starting 0x16 and not parseable |
| TlsReassembler.WhyEntriesLeave | internal/agent/agent_linux_tls_reassembler.go:134-235 | one step: an entry leaves only when its own call parses, when it expired, or as a least recently updated one when a new key meets a full store |
| TlsReassembler.StampIsLastFed | internal/agent/agent_linux_tls_reassembler.go:165 | in every run the stamp of an entry is the time of the last call that fed its key |
| TlsReassembler.PastDeadlineLeaves | internal/agent/agent_linux_tls_reassembler.go:204-217 | over runs: once the clock is past the last feeding of a key plus the ttl, the entry is gone after the call, and an append for the key starts a new buffer |
| TlsReassembler.BeforeDeadlineStays | internal/agent/agent_linux_tls_reassembler.go:134-235 | over runs: until then an entry leaves only when its own call parses, or when a new key meets a full store in which no key was fed longer ago |
| TlsReassembler.OneMakesRoom | internal/agent/agent_linux_tls_reassembler.go:221-235 | of two unexpired entries at most one leaves to make room |
| TlsReassembler.FullStoreMakesRoom | internal/agent/agent_linux_tls_reassembler.go:144-153 | a new key at a full store makes some entry leave |
| TlsReassembler.AnswerShape | internal/agent/agent_linux_tls_reassembler.go:134-185 | without a parse there is no host and no reassembly, and an empty payload does nothing |
| TlsReassembler.OtherRecordsAreDropped | internal/agent/agent_linux_tls_reassembler.go:167-172 | bytes that do not start with 0x16 are not kept and give nothing |
| TlsReassembler.BufferIsWhatWasSent | internal/agent/agent_linux_tls_reassembler.go:155-165 | while nothing parsed, the buffer is the first bufCap bytes of all fragments in order |
| TlsReassembler.FragmentAnswer | internal/agent/agent_linux_tls_reassembler.go:134-185 | the answer to each fragment is that of parsing everything sent so far |
| TlsReassembler.FragmentationDoesNotMatter | internal/agent/agent_linux_tls_reassembler.go:134-185 | however a record is cut and whatever other calls come between, some fragment parses if and only if the first bufCap bytes parse at once; the first to parse gives that host, marked reassembled unless it is the first fragment |
| DnsName.ReadDNSNameSafe | internal/agent/dns_wire.go:94-137 | terminates in bounds and returns what `ReadName` defines |
| DnsName.ReadName | internal/agent/dns_wire.go:90-137 | a successful next offset lies in (offset, len] |
| DnsName.ReadNameCharacterised | internal/agent/dns_wire.go:94-137 | succeeds if and only if a chain of label stretches and pointers within budget lies at the offset, and returns its text and the end of its first stretch |
| DnsName.BudgetIs | internal/agent/dns_wire.go:8-11 | the budget is at most 127 labels a stretch, at most 32 pointers, all to different offsets |
| DnsName.UncompressedRoundTrip | internal/agent/dns_wire.go:94-137 | written labels read back joined by dots, for up to 127 of them and for no more |
| DnsName.LabelsReadBack | internal/agent/dns_wire.go:94-144 | for labels without a dot, cutting the name read at its dots gives back exactly the labels of the chain, with one empty piece behind when it ends through a pointer to the root |
| DnsName.RenderIsJoin | internal/agent/dns_wire.go:105-128 | the text of a chain is its labels joined, plus a dot when it ends at a bare root after some label |
| DnsName.CompressionKeepsName | internal/agent/dns_wire.go:108-128 | a compressed name reads like its labels written out if and only if it does not end through a pointer to the bare root |
| DnsName.TrailingDotExample | internal/agent/dns_wire.go:117-128 | the bytes 00 01 61 C0 00 read at offset 1 give `a.`, while 01 61 00 gives `a` |
| DnsResponse.SkipQuestions | internal/agent/dns_wire.go:50-60 | the offset after the counted questions, or failure |
| DnsResponse.ReadRecord | internal/agent/dns_wire.go:62-85 | one record, or a stop when it does not fit |
| DnsResponse.CollectAnswers | internal/agent/dns_wire.go:62-87 | the answer loop collects the records reached |
| DnsResponse.ParseDNSResponseIPv4 | internal/agent/dns_wire.go:28-88 | the whole parse, with its guards, is `Collect` of the records reached |
| DnsResponse.RecordAtCharacterised | internal/agent/dns_wire.go:63-85 | a record is read if and only if its wire encoding lies there behind a readable name |
| DnsResponse.ResponseIsRead | internal/agent/dns_wire.go:28-88 | a response whose questions and answers lie in it one after another, with names compressed in any way within budget, gives exactly those answers, in order |
| DnsResponse.ReachedRecordsLie | internal/agent/dns_wire.go:28-88 | conversely, the records read lie in the packet one after another behind the counted questions, and reading stops only at the counted number or where no record starts |
| DnsResponse.BrokenResponseIsRead | internal/agent/dns_wire.go:45-87 | a response that breaks off gives the records before the break, unless it counts more than one question or answer for every four of its bytes |
| DnsResponse.ResponseRoundTrip | internal/agent/dns_wire.go:28-88 | in particular, a response written out without compression reads back exactly its answers, in order |
| DnsResponse.CollectPicksFirstShortest | internal/agent/dns_wire.go:78-84 | an address is mapped if and only if some A record names it, and to the first of its shortest owners with that record's ttl |
| DnsResponse.QuestionsTakeFiveBytes | internal/agent/dns_wire.go:51-60 | each question that parses takes at least 5 bytes |
| DnsResponse.RecordsTakeElevenBytes | internal/agent/dns_wire.go:62-86 | each record that parses takes at least 11 bytes |
| DnsResponse.GuardNeverRejectsWholePackets | internal/agent/dns_wire.go:41-48 | the size guard never costs a packet whose counted questions and answers all parse |
| DnsCache.Lifetime | internal/agent/dns_cache.go:76-88 | a ttl of 0 counts as 300 s, one above 3600 s as 3600 s, and any other as itself |
| DnsCache.LowerClampIsIdle | internal/agent/dns_cache.go:81-86 | the lower clamp to 1 s never changes a lifetime |
| DnsCache.KernelValue | internal/agent/dns_cache.go:69-74 | 256 bytes: the first 255 bytes of the name, or all of a shorter one, then NUL to the end |
| DnsCache.Cache.constructor | internal/agent/dns_cache.go:47-52 | an empty cache capped at 8192 entries |
| DnsCache.Cache.SetKernelMaps | internal/agent/dns_cache.go:54-58 | registering empty maps on an empty cache puts them in step |
| DnsCache.Cache.DeleteFromKernel | internal/agent/dns_cache.go:126-148 | every registered map is asked to drop the key, also after another has failed; a map whose operation fails is unchanged, the others lose the key, and the counter grows by the number of failures |
| DnsCache.Cache.WriteToKernel | internal/agent/dns_cache.go:183-207 | every registered map is asked to store the value, also after another has failed; a map whose operation fails is unchanged, the others hold the value, and the counter grows by the number of failures |
| DnsCache.Cache.PurgeExpired | internal/agent/dns_cache.go:90-97 | exactly the entries with an expiry ahead stay, and each kernel map whose operations succeed follows |
| DnsCache.Cache.Trim | internal/agent/dns_cache.go:99-119 | over the cap, the cap is reached by dropping exactly the excess of the live entries, whichever they are |
| DnsCache.Cache.AbsorbAnswer | internal/agent/dns_cache.go:159-208 | refresh, keep the shorter owner or replace; each kernel map in step stays in step if its operation succeeds, although a refresh writes nothing |
| DnsCache.Cache.AddFromPacket | internal/agent/dns_cache.go:150-210 | every packet is a step of the entry relation, within the cap; with an answer no entry left has expired; each kernel map in step stays in step unless one of its own operations fails, and the counter counts exactly the failures |
| DnsCache.Cache.AddAll | internal/agent/dns_cache.go:90-210 | over any run of packets, each kernel map none of whose operations failed holds exactly the entries if it did at the start; the failure counter grows by exactly the number of failed operations, and if it stood still all maps are in step |
| DnsCache.StepPurges | internal/agent/dns_cache.go:90-119 | after a packet with an answer no expired entry is left, nothing is left that was neither live nor answered, and while these fit the cap they are all left, the unanswered ones unchanged |
| DnsCache.StepIdles | internal/agent/dns_cache.go:151-154 | a packet without an answer changes nothing |
| DnsCache.MirrorHolds | internal/agent/dns_cache.go:183-193 | a kernel map in step has exactly the addresses of the entries, each with the bytes of its name |
| DnsCache.NoFailureKeepsMirrors | internal/agent/dns_cache.go:41-44 | a failure counter that stands still means that no kernel map has fallen out of step |
| DnsCache.Cache.LookupProvenance | internal/agent/dns_cache.go:218-232 | answers with the name of a live entry of the IPv4 or IPv4-mapped address, and nothing otherwise |
| DnsCache.LookupIsSound | internal/agent/dns_cache.go:150-232 | a name looked up is the lower-cased first shortest owner of that address in an earlier packet whose clamped ttl has not run out |
| DnsCache.AnsweredIsFound | internal/agent/dns_cache.go:166-232 | an answered address that is kept is found, under the name the answer or the shorter live owner gives it, until that lifetime ends and not after |
| DnsCache.EntryStays | internal/agent/dns_cache.go:150-210 | over runs, an entry that is kept and not answered stays as it is |
| DnsCache.To4Is | internal/agent/dns_cache.go:218-224 | the four-byte form is the address itself or the end of an IPv4-mapped one |
| DnsCache.NamesOnlyShrink | internal/agent/dns_cache.go:168-180 | while an entry stays live and unevicted its name never gets longer |
| DnsCache.ShorterOwnerWins | internal/agent/dns_cache.go:166-180 | an answered address keeps a strictly shorter live owner unchanged, and otherwise gets the new owner and expiry |
| DnsCache.NeverOverCap | internal/agent/dns_cache.go:99-119 | in every run from an empty cache the entries stay within the cap |
| EgressPolicy.NetIsAlignedBlock | internal/policy/ignore.go:83-97 | a network of `ones` leading bits holds exactly the aligned block of 2^(32 - ones) addresses around its address |
| EgressPolicy.NetsContain | internal/policy/ignore.go:83-97 | true if and only if some network contains the address |
| EgressPolicy.MergeDedupedNets | internal/policy/ignore.go:45-71 | keeps exactly the first of the entries that print alike, in order |
| EgressPolicy.FirstPrintedKeepsAddresses | internal/policy/ignore.go:45-71 | merging gains and loses no address, invents no entry and keeps no two that print alike |
| EgressPolicy.FirstPrintedIs | internal/policy/ignore.go:45-71 | an entry is kept if and only if nothing before it has its address and prefix length, IPv4-mapped or not, and later entries only append |
| EgressPolicy.WildcardIsOneLabel | internal/policy/policy.go:282-288 | a wildcard matches if and only if the host is one non-empty dot-free label in front of the suffix |
| EgressPolicy.ClassifyEgress | internal/policy/policy.go:291-325 | the scan gives what `Classify` defines |
| EgressPolicy.ClassifyByAddress | internal/policy/policy.go:296-309 | an allowed address is allowed even where it is ignored too; ignored is exactly: in an ignored network and not allowed |
| EgressPolicy.ClassifyByName | internal/policy/policy.go:312-324 | for an address in no list, a name in any letter case with white space around it: unknown if it is empty, allowed if it is an exact host or one dot-free label in front of a listed suffix, else not listed |
| EgressPolicy.ClassifyMonitors | internal/policy/policy.go:292-312 | monitored exactly without an enabled policy, unless the address is ignored |
| LpmKeys.KeyBytes | internal/agent/defend_rearm.go:26-31 | the key of 10.1.2.0/24 is the bytes 24 0 0 0 10 1 2 0 |
| LpmKeys.ExpectedAllowedKeys | internal/agent/defend_rearm.go:18-58 | a /32 key for each resolved or literal address and one key for each network with a 32-bit mask |
| LpmKeys.ExpectedIgnoredKeys | internal/agent/defend_rearm.go:62-89 | one key for each ignored network with a 32-bit mask |
| LpmKeys.PlanSingles | internal/agent/agent_linux_policy_maps.go:426-439 | the /32 keys, each once, ascending by address |
| LpmKeys.BuildAllowedLPMPlan | internal/agent/agent_linux_policy_maps.go:414-465 | succeeds if and only if all networks are IPv4; the two lists are duplicate-free, disjoint and total the number of keys |
| LpmKeys.BuildDefendAllowedPlan | internal/agent/agent_linux_policy_maps.go:263-276 | succeeds if and only if the networks are IPv4 and at most 4096 keys result; its keys are exactly the expected ones |
| LpmKeys.ClassifierIsTriesAndMapped | internal/policy/policy.go:291-311 | an address is let through if and only if a programmed prefix or a mapped network covers it |
| LpmKeys.TriesAgreeWithClassifier | internal/policy/policy.go:291-311 | tries and classifier agree on every address if and only if each mapped network lies inside the programmed prefixes |
| LpmKeys.MappedNetsNeedPrefixes | internal/policy/policy.go:291-311 | they agree if a programmed key is a prefix of each mapped network; where no programmed key covers only a part of a mapped network, only if |
| LpmKeys.AgreeIffCovered | internal/policy/policy.go:291-311 | exactly when: the programmed keys cover each mapped network, by a prefix of it or by covering both its halves |
| LpmKeys.MappedIgnoredNetIsNotProgrammed | internal/policy/ignore.go:10-71 | with the default networks in place, a mapped ignored CIDR for which they disagree |
| Integrity.PutAll | internal/agent/defend_rearm.go:122-133 | succeeds if and only if no update fails, and then every wanted key is in with value 1; at any failure too, added is the number of keys gained |
| Integrity.DeleteStale | internal/agent/defend_rearm.go:135-144 | succeeds if and only if no deletion fails, and then exactly the wanted keys are left; at any failure too, removed is the number of keys lost |
| Integrity.ReconcileLPMMap | internal/agent/defend_rearm.go:98-146 | succeeds if and only if none of its map operations fails, and then the trie holds exactly the wanted keys with value 1; in every case the counts are the keys gained and lost, and what was done is an orderly repair |
| Integrity.RepairNeverDropsWanted | internal/agent/defend_rearm.go:122-144 | at every moment of an orderly repair, also one cut short, no wanted key present at the start is missing and nothing foreign was added |
| Integrity.LpmKeysetsEqual | internal/agent/agent_linux_integrity.go:185-195 | equality of the keysets |
| Integrity.CheckMode | internal/agent/agent_linux_integrity.go:95-121 | alarms if and only if the mode is off, absent or unreadable, and then the mode is 1 unless the write fails |
| Integrity.CheckTrie | internal/agent/agent_linux_integrity.go:123-154 | alarms if and only if the keyset differs or cannot be surveyed; ends with the expected keyset if no operation on the trie fails, and changes it only by an orderly repair |
| Integrity.CheckMapIntegrity | internal/agent/agent_linux_integrity.go:90-181 | whatever was in the maps, each one is in line after the tick unless one of its own operations failed; the alarms are exactly one for each map out of line or unreadable; every change is an orderly repair |
| Integrity.LoadAllowedLPMMap | internal/agent/agent_linux_policy_maps.go:467-489 | succeeds if and only if no update fails, and then exactly the planned keys were added, with value 1; without a map it succeeds only for an empty plan |
| Integrity.LoadIgnoredLPMMap | internal/agent/agent_linux_policy_maps.go:95-138 | succeeds if and only if there are at most 128 networks and no update fails; then the keys of exactly the networks with 32-bit masks were added, with value 1, and their number is returned |
| Integrity.ProgrammableIs | internal/agent/agent_linux_policy_maps.go:105-131 | the number returned is the number of networks with 32-bit masks |
| Integrity.LoadAllowedDomainsMap | internal/agent/agent_linux.go:222-240 | succeeds if and only if no update fails, and then the keys of exactly the exact host names were added, with value 1 |
| Integrity.LoadDefendMaps | internal/agent/agent_linux_policy_maps.go:312-338 | succeeds if and only if no map operation fails, all allowed networks are IPv4 and both limits hold; then fresh tries hold exactly what the integrity tick expects, the domain map the key of every exact host, and the two counts are those of the allowed keys and of the ignored networks that make one |
| Collections.SortSet | internal/proctree/summary.go:46-50 | the one ascending enumeration of a set |
| ProcForest.SeedExecFromEdges | internal/proctree/summary.go:140-149 | a known process keeps its identity, any other goes by the first non-empty name an edge gives it |
| ProcForest.FirstNameIs | internal/proctree/summary.go:140-149 | the name comes from the first edge that gives one, the parent's before the child's; none if and only if no edge gives one |
| ProcForest.EdgeChildComm | internal/proctree/summary.go:151-159 | the child's name on the newest edge of that parent and child, and nothing without such an edge |
| ProcForest.NamelessEverywhere | internal/proctree/summary.go:92-94 | a process still without identity has no name on any edge |
| ProcForest.BuildAdjacency | internal/proctree/summary.go:30-50 | each parent with its distinct children in ascending order, zero and self edges left out |
| ProcForest.FindRoots | internal/proctree/summary.go:52-64 | the parents that no edge names as a child, ascending |
| ProcForest.Drawing.EmitSubtree | internal/proctree/summary.go:82-110 | terminates on cyclic graphs too, and appends the lines of all simple paths below, up to the limit |
| ProcForest.Drawing.DrawRoots | internal/proctree/summary.go:66-112 | the lines of the whole forest, up to the limit |
| ProcForest.DecimalDenotes | internal/proctree/summary.go:120-130 | the digits written denote the pid, without leading zeros |
| ProcForest.NodeLineShows | internal/proctree/summary.go:120-130 | command, pid in brackets, then the executable; a question mark for an unknown command |
| ProcForest.NodeLineOfUnknown | internal/proctree/summary.go:120-130 | a process without identity is a question mark and its pid |
| ProcForest.ContinuationShape | internal/proctree/summary.go:95-107 | four characters for each ancestor but the root: blank where it is its parent's last child, a bar where more follow |
| ProcForest.LineShape | internal/proctree/summary.go:95-102 | a line is that of its parent's children, an elbow for the last child or a tee, and the process |
| ProcForest.FormatForestLines | internal/proctree/summary.go:23-118 | the first maxLines lines of the forest; a notice when edges exist but no root; nothing for a non-positive limit |
| ProcForest.ForestIsAllSimplePaths | internal/proctree/summary.go:66-112 | the paths drawn are all simple paths along edges between different processes other than 0, from the processes that have such an edge and are no edge's child, without repetition, in word order |
| ProcForest.GraphIsDetermined | internal/proctree/summary.go:46-64 | graph and roots are fixed by the edges, whatever order the maps are walked in |
| KtlsTracker.Tracker.EvictAll | internal/agent/agent_linux_ktls_tracker.go:180-187 | exactly the live marks stay |
| KtlsTracker.Tracker.RecordMark | internal/agent/agent_linux_ktls_tracker.go:122-131 | the table stays that of the history with the new mark |
| KtlsTracker.Tracker.IsKTLS | internal/agent/agent_linux_ktls_tracker.go:141-178 | with a clock not behind any mark, the answer is that of the full history; fd 0 asks about any socket of the process |
| KtlsTracker.KeptIsLatest | internal/agent/agent_linux_ktls_tracker.go:122-131 | for every history: the latest mark of a socket is in the table if and only if no later mark came in 60 s or more after it |
| KtlsTracker.EvictionDecided | internal/agent/agent_linux_ktls_tracker.go:122-187 | for any clock: every question gets the answer of the full history if and only if no live latest mark was evicted, but for a mark of fd 0 behind a kept one of its process |
| KtlsTracker.EvictionIsInvisible | internal/agent/agent_linux_ktls_tracker.go:122-187 | while the clock is not behind a mark, asking the table is asking the latest mark of each socket in the full history |
| DenyDedup.DefendState.Prune | internal/agent/agent_linux_state_defend.go:209-215 | exactly the entries within the window stay |
| DenyDedup.DefendState.ShouldEmitDeny | internal/agent/agent_linux_state_defend.go:179-206 | a twin of another family within the window is corroborated, everything else is emitted |
| DenyDedup.DefendState.AppendDeny | internal/agent/agent_linux_policy_maps.go:611-640 | every report is corroborated, counted, or emitted but not written to the log |
| DenyDedup.EmittedCountIs | internal/agent/agent_linux_policy_maps.go:611-640 | the emitted count is the number of emitted reports |
| DenyDedup.TableRemembers | internal/agent/agent_linux_state_defend.go:188-215 | in every run: the entry of the previous report on a key is missing if and only if a later report stamped more than a second after it has pruned, and otherwise it holds that report's time and the family that holds its chain |
| DenyDedup.HeldFamilyIsEmitted | internal/agent/agent_linux_state_defend.go:188-206 | in every run: a report is emitted if and only if its family opened its chain, where a chain also starts anew after the table forgot it |
| DenyDedup.OpenerFamilyIsEmitted | internal/agent/agent_linux_state_defend.go:179-215 | in a run, exactly the reports of the family that opened their chain are emitted if and only if no report of another family finds its chain forgotten |
| DenyDedup.SteadyChainEmitsOpener | internal/agent/agent_linux_state_defend.go:188-206 | a report is emitted if and only if its family opened its chain, when no report between two neighbours of the chain is stamped more than a second after the earlier one |
| DenyDedup.ForwardClockIsSteady | internal/agent/agent_linux_state_defend.go:188-206 | a clock that never goes back makes every chain such, for any number of keys |
| DenyDedup.FewKeysLoseNothing | internal/agent/agent_linux_state_defend.go:202-204 | with at most 4096 keys nothing is pruned and no twin is lost, whatever the clock does |
| DenyDedup.PruningIsInvisible | internal/agent/agent_linux_state_defend.go:202-215 | over a run, the bounded table answers like an unbounded one if and only if no twin is lost |
| DenyDedup.LossyRunLosesTwin | internal/agent/agent_linux_state_defend.go:188-215 | 4096 keys, one more two seconds ahead, a step back: the twin of the first report is emitted |
| HttpPrefix.ParseHTTPRequestPrefix | internal/telemetry/parsehttp.go:30-93 | the parse is what `Parse` defines |
| HttpPrefix.ScanHeaders | internal/telemetry/parsehttp.go:63-91 | the header loop finds the host of the first Host line with a value, and trusts no unterminated line |
| HttpPrefix.FirstLine | internal/telemetry/parsehttp.go:105-116 | the line taken from a text is everything before its first CR LF, bare LFs included, and the rest is everything after |
| HttpPrefix.FirstBareLine | internal/telemetry/parsehttp.go:105-116 | in a text without CR LF the line is everything before its first LF |
| HttpPrefix.LineEndsAtFirstLF | internal/telemetry/parsehttp.go:105-116 | a line ends at the first LF of a text if and only if no CR LF follows or that LF is part of one |
| HttpPrefix.HostInDecided | internal/telemetry/parsehttp.go:78-88 | a line with ASCII before its first colon names a host if and only if that part is white space around the letters of Host and the value is not all white space |
| HttpPrefix.HostLineNames | internal/telemetry/parsehttp.go:10-26 | a Host line with the name in any letter case, any blanks or none around its parts and any value without white space at its ends gives the host without the port |
| HttpPrefix.BracketedHostLineNames | internal/telemetry/parsehttp.go:10-26 | a bracketed host gives what is inside the brackets, whatever follows them |
| HttpPrefix.RequestRoundTrip | internal/telemetry/parsehttp.go:30-93 | a well-formed request, with any lines but Host lines in front of the first Host line, gives its method, its path and the host of that line: without its port, without its brackets, and `?` when it is empty or its bracket is not closed |
| HttpPrefix.EveryValueHasTarget | internal/telemetry/parsehttp.go:10-26 | every value of a Host line has one of the forms that the round trip covers |
| HttpPrefix.RequestWithoutHost | internal/telemetry/parsehttp.go:63-92 | a request without a Host line gives `?` |
| HttpPrefix.FieldsAre | internal/telemetry/parsehttp.go:52 | the words of a line, any number of them, are what white space separates |
| HttpPrefix.EveryLineIsLaid | internal/telemetry/parsehttp.go:52 | every line is words with white space between them, in that sense |
| HttpPrefix.RequestDecided | internal/telemetry/parsehttp.go:37-60 | a request whose first line is ended by CR LF is accepted if and only if that line has three words or more and the second starts with a slash |
| HttpPrefix.RequestLineWords | internal/telemetry/parsehttp.go:50-58 | in particular, a request line of three words |
| HttpPrefix.LeadingBlanks | internal/telemetry/parsehttp.go:37 | spaces, tabs and line ends in front do not matter |
| HttpPrefix.ShortAndUnended | internal/telemetry/parsehttp.go:38-53 | under 8 bytes there is no request, and of an unended request line at most 256 bytes count |
| HttpPrefix.TruncationDecided | internal/telemetry/parsehttp.go:30-116 | for every capture and everything that can follow it: method and path stay and a reported host stays if and only if, without CR LF, no white space is at risk and no host is shown, and with CR LF, the host is on a line ended by CR LF or is the first thing after them with a port or brackets |
| HttpPrefix.BareHostIsTakenBack | internal/telemetry/parsehttp.go:41-91 | a host shown by a capture without CR LF is unknown once CR LF follows, with method and path unchanged |
| HttpPrefix.BareHostExample | internal/telemetry/parsehttp.go:41-91 | a request with bare LFs that names a host, and no host with CR LF behind it |
| HttpPrefix.TruncationIsSound | internal/telemetry/parsehttp.go:30-116 | among requests whose every LF follows a CR: a capture that parses is right about all it can start if and only if it is not cut inside white space after two words |
| HttpPrefix.CutInsideWideSpace | internal/telemetry/parsehttp.go:41-55 | a capture that parses and starts a request that does not |
| HttpPrefix.AsciiIsNeverAtRisk | internal/telemetry/parsehttp.go:30-60 | an ASCII capture is never cut that way |
| JsonlFraming.Reader.ReadEventLine | internal/report/markdown/markdown.go:200-216 | for any window: the next record, flagged oversize if and only if it is longer than max, the stream resumes after it, and the end or read error comes with the last record |
| JsonlFraming.Parse | internal/report/markdown/markdown.go:175-192 | the roll-up is a function of the records, not of the window; it fails if and only if the stream ends in a read error, and the records before it are rolled up all the same |
| JsonlFraming.RecordsAreTheSplit | internal/report/markdown/markdown.go:194-216 | the records are the one way to cut the stream at its newlines |
| JsonlFraming.EveryRecordIsCounted | internal/report/markdown/markdown.go:175-277 | events plus errors is the number of records that are oversize or not blank |
| JsonlFraming.CountersAre | internal/report/markdown/markdown.go:175-228 | events are the records that decode, errors the oversize and malformed ones, non-meta events the events of a type other than meta |
| JsonlFraming.CapturedNothingMeans | internal/report/markdown/markdown.go:103-116 | no non-meta event if and only if every event is a meta row; the types seen are those in the stream |
| JsonlFraming.OneBadRecordCostsOneError | internal/report/markdown/markdown.go:163-174 | an oversize or malformed record adds one error and changes nothing else |

## Left out

- The BPF programs, their loaders and attach code, ring readers, CLI, signing, redaction and report rendering: kernel, library or I/O behaviour.
- Parsing of CIDR, address and host strings, and the DNS resolution that fills the compiled address set: networks and addresses are given as values.
- The IPv6 allowlist: its map is loaded with the same shape and has no repair.
- tlsReassemblyKeyForEvent, the meta and per-type event counters, chooseDefendBackend, integrityBackoff and canaryState: each is settled by reading it.
- Locks: every operation of a locked object is one step; a nil receiver is not modelled.
- ClientHello.Sni: lower-casing of names outside ASCII is a parameter, because the Unicode tables belong to the Go library; the same holds for DnsCache.Absorb and HttpPrefix.HostIn.
- DnsName.ReadDNSNameSafe: the set of visited pointers is passed on rather than shared, because nothing reads it after the recursive call returns.
- DnsCache.Cache.AddAll: the kernel maps are values that the cache holds, so one map registered twice counts as two.
- DnsResponse.ParseDNSResponseIPv4: its two loops and the body of the second are methods of their own.
- Integrity.CheckMapIntegrity: the three maps are present, since with one missing the code does nothing; outside writes happen between ticks, not inside one; values other than 1 in a trie whose keys are right go unnoticed, as in the code.
- JsonlFraming.Parse: JSON decoding is a parameter that gives the event type; the limits of 4 MiB and 64 KiB are parameters.
- ClientHello.ParseClientHelloSNI: the walk from the body to the extensions is a method of its own.
- Integrity.LoadDefendMaps: the two tries are loaded by a method of its own.
- LpmKeys.BuildAllowedLPMPlan: the error texts.
