# Clyntis core: a Dafny model

Clyntis is a rule-based proxy core. This project models the parts of it whose correctness
does not show in any one function, and proves what they promise:

- **Fake-IP mappings.** Names get placeholder addresses from a v4 and a v6 pool. Two hash maps,
  a queue of uses with stale entries and two cursors stand for one plain recency list
  (`FakeIpSpec`); `FakeIpTables` and the classes in `FakeIp` refine it, `FakeIpAnswers` says what
  queries answer, `FakeIpRuns` proves what every run keeps, `FakeIpImport` treats saving and
  loading, `CursorWalk` the cursor itself.
- **Saving the profile.** `SaveProfile` is a state machine of concurrent savers that read the
  selection and the generation and export the mappings at different times.
- **IPv6 fragments.** `Ipv6Packet` reads packets, `HeaderChain` says by their extension headers
  what becomes of them, `ReassemblySpec` is a queue of fragments as a list, `Datagram` says when
  fragments belong together, `Assembler` and the class in `Reassembly` are the byte buffer and the
  merged ranges that refine it,
  `ReassemblyRuns` holds the properties of whole arrival sequences; `Fragmenter`,
  `FragmentRoundTrip`, `FragmentDelivery` and `FragmentLaw` prove that cutting and reassembling
  are inverse.
- **Rule matching.** `Glob`, `HostGlob` and `GlobRegex` (patterns, label by label and as the
  regular expression they are compiled to), `DomainSet` (hashed name lists and pattern index),
  `IpSet` (merged address ranges), `Matcher`, `Meaning` and `Exemption` (three-valued lazy
  evaluation, what conditions mean, what no-resolve exemptions can change), `Provider` (rule lists
  grouped into sets), `Routing` and `RouteMeaning` (the rule scan, the rule it takes, and the DNS
  leak audit).
- **Groups.** `Groups` models the validation of proxy groups and following their selections,
  `GroupRules` says which groups are accepted.
- **DNS cache.** `DnsCache` is the bounded cache with ageing of lifetimes.
- **Object storage targets.** `Percent` and `CosUrl` model reading and writing COS URLs;
  `Escapes` and `CosReading` say which texts, URLs and targets are the right ones.

What the source keeps in fields and updates in place is a class here (`FakeIp.FakeMap`,
`FakeIp.Resolver`, `Reassembly.Reassembler`, `DnsCache.Cache`), its loops are loops with
invariants, and each method is proved against a function or relation of the reference level.

Integers are unbounded except where the width decides something: 16-bit length fields, 13-bit
fragment offsets, 32-bit elapsed seconds, the v4 and v6 address widths. Texts are sequences of
bytes or characters. The clock, upstream answers, keyed hashes, regular expressions and
external address lists are parameters.

Some properties one might expect are false of the code. Each has a lemma with inputs that break
it, and the exact condition under which it holds:

- A save that skips writing need not leave the mappings of the moment it read the generation at:
  `SaveProfile.InexactSkip`. It does if and only if the save that wrote the file saw no net change
  between reading the generation and exporting (`SaveProfile.SkipIsFresh`), and always when saves
  do not overlap (`SaveProfile.SerialSkipIsExact`).
- The frames of a packet do not reassemble in every order, because the record of received
  ranges is bounded: `FragmentDelivery.EvensFirstFails`. `FragmentDelivery.RoundTrip` is the
  equivalence.
- A cached answer can be served with a record whose lifetime is over, because expiry and age are
  read off the clock separately: `DnsCache.LateAgeing`. `DnsCache.Cache.Lookup` is the equivalence,
  and says that it is not when each operation reads the clock once.
- Resolving a name only when a rule asks can route differently from resolving it up front, when
  a rule is exempted from resolving: `Routing.ExemptRuleIsSkipped`. `Routing.LazyIsEagerExactly`
  is the equivalence, with a condition that needs no lookup.
- The hashed name lists can match a host that no condition matches: `DomainSet.CollisionMatches`,
  `DomainSet.LoneDotMatches`. `DomainSet.PackedIsReference` is the equivalence.
- Grouping the entries of a rule list into sets does not always keep its result, although the
  source says so: a `DOMAIN` entry with a dot in front matches the name with the dot, grouped it
  matches the name without it (`Provider.LeadingDotRegroups`). `Provider.GroupingExact` is the
  equivalence, `Provider.GroupingKeeps` a condition on the list and the host.
- Not every packet that has to be cut comes out: one whose length field is zero, with more bytes
  behind it than the MTU, gives no frame. `FragmentLaw.NoFrameExactly` is the equivalence.
- The cursor of a v6 pool can outgrow its 128 bits: `FakeIpImport.CursorOverflows`. It can if and
  only if the pool is the whole address space: `FakeIpSpec.CursorFits`, `FakeIpRuns.RunCursorFits`.

## Model

| member | source | states |
|---|---|---|
| `Addresses.ContainsIsInterval` | crates/config/src/rule.rs:368-378 | a network contains an address exactly when it lies between the network and the broadcast address |
| `Addresses.OffsetFits` | crates/core/src/dns.rs:141-175 | every offset below the network size gives an address of the family, without overflow |
| `CursorWalk.ReturnVisitsAll` | crates/core/src/dns.rs:141-175 | between two steps that end at the same offset every usable offset was visited |
| `CursorWalk.BehindVisitsAhead` | crates/core/src/dns.rs:141-175 | to reach an offset behind the cursor, every offset from the cursor to the end is visited first |
| `FakeIpSpec.TrimKeepsMostRecent` | crates/core/src/dns.rs:365-371 | lowering the capacity keeps exactly the most recently queried mappings, and counts every dropped one in the generation |
| `FakeIpSpec.ScanWalk` | crates/core/src/dns.rs:141-175 | a search visits consecutive offsets of the pool cyclically, all but a successful last one mapped |
| `FakeIpSpec.ScanExact` | crates/core/src/dns.rs:141-175 | with more probes than used addresses a search succeeds exactly when some usable offset is free |
| `FakeIpSpec.AllocateExact` | crates/core/src/dns.rs:141-175 | allocation succeeds exactly when the asked family has a free usable address, although its probes count the mappings of both families; the result is free, usable, in the network and fits the family |
| `FakeIpSpec.CursorFits` | crates/core/src/dns.rs:141-168 | every cursor a pool allows fits the integer that holds it, if and only if the pool is not a v6 range of prefix 0 |
| `FakeIpImport.CursorOverflows` | crates/core/src/dns.rs:141-168 | with a v6 range of prefix 0, importing one address near the end under any name and one answered query leave the cursor at 2^128 |
| `FakeIpRuns.QueryKeeps` | crates/core/src/dns.rs:1105-1118 | a query keeps the table one-to-one per name and address, in its pools, within capacity, cursors in range |
| `FakeIpAnswers.MappedAnswer` | crates/core/src/dns.rs:1105-1118 | a valid mapped name is answered with its address and becomes the most recent; nothing else changes |
| `FakeIpAnswers.UnmappedAnswer` | crates/core/src/dns.rs:1105-1118 | an unmapped valid name replaces the least recent mapping of a full table, answered or not, and is answered exactly when a usable address of its family is then free, with such an address |
| `FakeIpAnswers.QueryAnswers` | crates/core/src/dns.rs:1105-1118 | through the table alone: an answer is what the name maps to afterwards, the same as before if it was mapped, and there is none exactly for an invalid name, or an unmapped one with no free address after making room |
| `FakeIpAnswers.SameAnswerWhileMapped` | crates/core/src/dns.rs:1105-1118 | in every run, queries for one name and family are answered with one address as long as the mapping stays |
| `FakeIpAnswers.ResizeExact` | crates/core/src/dns.rs:365-371 | a new capacity is at least one, keeps exactly the most recent mappings that fit, and leaves the cursors alone |
| `FakeIpRuns.ResizeKeeps` | crates/core/src/dns.rs:365-371 | so does a change of capacity |
| `FakeIpRuns.RunCoherent` | crates/core/src/dns.rs:89-139 | so does every run of queries and capacity changes, in every state |
| `FakeIpRuns.RunCursorFits` | crates/core/src/dns.rs:141-168 | in every run, the v6 range not being the whole address space, both cursors fit their integers |
| `FakeIpRuns.StepVisits` | crates/core/src/dns.rs:141-175 | every offset an operation visits is handed out by it or was mapped before and after it; the cursor moves only over visited offsets |
| `FakeIpRuns.StepMappings` | crates/core/src/dns.rs:1105-1118 | an address is mapped after an operation only if it was before or the operation newly assigned it |
| `FakeIpRuns.AssignmentIsVisit` | crates/core/src/dns.rs:141-175 | a newly assigned address is the last visit of its operation |
| `FakeIpRuns.ReuseDistance` | crates/core/src/dns.rs:56-59 | between two hand-outs of one address every usable offset of its pool was visited, each handed out or found mapped |
| `FakeIpRuns.ReuseCount` | crates/core/src/dns.rs:56-59 | between two hand-outs of one address at least as many other addresses are handed out as its pool has beyond the mappings left by the first |
| `FakeIpRuns.BehindCursorWaits` | crates/core/src/dns.rs:56-59 | an address behind the cursor is not handed out before everything ahead of the cursor was visited |
| `FakeIpRuns.RecencyIsQueryOrder` | crates/core/src/dns.rs:56-59 | in every run the table is ordered by latest query, so an eviction drops the least recently queried |
| `FakeIpTables.CurrentIsOldest` | crates/core/src/dns.rs:108-121 | the first queue entry that is not stale is the least recently used mapping |
| `FakeIpTables.SortedIsUnique` | crates/core/src/dns.rs:122-139 | sorting by stamps gives one list, whatever order the hash map lists its entries in |
| `FakeIpTables.TouchInv` | crates/core/src/dns.rs:89-99 | maps, queue and recency list stay consistent when a mapped name is used again |
| `FakeIpTables.InsertInv` | crates/core/src/dns.rs:100-107 | and when a new mapping is inserted |
| `FakeIpTables.PopInv` | crates/core/src/dns.rs:108-121 | and when the queue is popped: a current entry is the oldest mapping and goes, a stale one changes nothing |
| `FakeIpTables.CompactInv` | crates/core/src/dns.rs:122-127 | and when the queue is replaced by the live entries |
| `FakeIp.FakeMap.constructor` | crates/core/src/dns.rs:77-88 | a new map is valid and stands for the empty table |
| `FakeIp.FakeMap.Get` | crates/core/src/dns.rs:89-99 | answers the mapping of the name in that family and makes it the most recent; otherwise changes nothing |
| `FakeIp.FakeMap.Insert` | crates/core/src/dns.rs:100-107 | appends the mapping as most recent and raises the generation |
| `FakeIp.FakeMap.Evict` | crates/core/src/dns.rs:108-121 | drops exactly the least recent mapping despite stale queue entries, and raises the generation |
| `FakeIp.FakeMap.Compact` | crates/core/src/dns.rs:122-127 | leaves the recency list as it is and the queue without stale entries |
| `FakeIp.FakeMap.SortedEntries` | crates/core/src/dns.rs:122-139 | the entries of the hash map sorted by stamp are the live entries in use order |
| `FakeIp.FakeMap.Export` | crates/core/src/dns.rs:128-139 | lists the mappings in recency order |
| `FakeIp.FakeMap.Allocate` | crates/core/src/dns.rs:141-175 | the probing loop finds what the reference search finds and leaves the cursor where it does |
| `FakeIp.Resolver.constructor` | crates/core/src/dns.rs:77-88 | a new resolver holds a new, empty table of the default capacity with an empty queue |
| `FakeIp.Resolver.FakeAddress` | crates/core/src/dns.rs:1105-1118 | a query does what the recency list does; an answer is of the asked family and is what the name maps to afterwards, and a valid name that was mapped is answered with its address; the queue stays within twice the largest capacity since creation or import (at least 64) plus the capacity |
| `FakeIp.Resolver.MakeRoom` | crates/core/src/dns.rs:1112-1114 | drops the least recent mapping if the table is full, so that one more fits |
| `FakeIp.Resolver.SetFakeCapacity` | crates/core/src/dns.rs:365-371 | keeps the most recent mappings up to the capacity, at least one; the largest capacity so far is the larger of both |
| `FakeIp.Resolver.ExportFake` | crates/core/src/dns.rs:357-359 | the mappings, least recently queried first |
| `FakeIp.Resolver.Capacity` | crates/core/src/dns.rs:379-379 | the capacity of the table, at least one |
| `FakeIp.Resolver.Original` | crates/core/src/dns.rs:343-345 | the name behind an address is the one its mapping has in the recency list |
| `FakeIp.Load` | crates/core/src/dns.rs:374-447 | builds the map of an accepted import, new and with that capacity as its largest so far, and refuses exactly the entries the reference refuses |
| `FakeIp.Resolver.ImportFake` | crates/core/src/dns.rs:374-447 | whatever happened since the capacity was read, replaces the map by a new one with the reference import at that capacity, the largest so far, or leaves it alone when refused |
| `FakeIpImport.ImportEntryExact` | crates/core/src/dns.rs:374-447 | an entry refuses the import exactly when its address is reserved or it repeats a name or an address |
| `FakeIpImport.ImportAllExact` | crates/core/src/dns.rs:374-447 | entries are accepted exactly when none is reserved and the kept ones are one-to-one; the table holds those in order and the cursors are past every saved in-range address |
| `FakeIpImport.ImportExact` | crates/core/src/dns.rs:374-447 | an accepted import holds the most recent kept entries up to the capacity |
| `FakeIpImport.NormalizedExactly` | crates/core/src/dns.rs:374-447 | a saved name loses the dots at its end and its upper-case letters, and nothing else |
| `FakeIpImport.RoundTrip` | crates/core/src/dns.rs:128-139 | importing an export into capacity c restores exactly the c most recent mappings in the same order |
| `FakeIpImport.SavedAddressWaits` | crates/core/src/dns.rs:374-447 | a saved in-range address, mapped or not after the import, is not newly assigned before its cursor has visited everything to the end of the pool |
| `SaveProfile.GenerationTracks` | crates/core/src/dns.rs:100-121 | no operation lowers the generation, and one that keeps it keeps the mappings as a set |
| `SaveProfile.NextKeepsInv` | crates/core/src/profile.rs:45-80 | every step of every saver keeps the relation between history, remembered pair and file; every save under way and the file hold the selection of the moment their saver read it at, or none if selections are not stored, and the file the mappings of its export in order |
| `SaveProfile.RunInv` | crates/core/src/profile.rs:45-80 | so does every interleaving, in every state |
| `SaveProfile.SkipIsFresh` | crates/core/src/profile.rs:45-80 | a skip leaves a file with the selection of the moment the skipping saver read it at (none if not stored) and mappings not older than the generation read; they are the mappings of that moment if and only if the writer of the file saw no net change between its read of the generation and its export |
| `SaveProfile.SerialSkipIsExact` | crates/core/src/profile.rs:45-80 | if no other save is under way whenever one reads the generation, every skip leaves exactly the mappings of the generation read |
| `SaveProfile.InexactSkip` | crates/core/src/profile.rs:45-80 | from every table, with any answered query for an unmapped name, an interleaving in which a skip leaves other mappings than those of the generation read |
| `Ipv6Packet.WalkHeaders` | crates/core/src/packet_ipv6.rs:43-57 | the loop over extension headers finds what the recursive walk finds |
| `Ipv6Packet.PartIsWhole` | crates/core/src/packet_ipv6.rs:37-69 | a packet read as a fragment is, as far as its length field goes, the headers of that fragment, which announce a fragment header, then a fragment header with its fields, then its payload |
| `HeaderChain.WalkIsChain` | crates/core/src/packet_ipv6.rs:43-57 | the headers of a packet fit exactly when there is a list of offsets, each extension header followed by the next, up to one that is none or comes after eight; it leads to where the walk ends |
| `HeaderChain.OtherVersionPasses` | crates/core/src/packet_ipv6.rs:37-42 | packets of another version come back as they are, an empty one gives nothing, the pending datagrams stay |
| `HeaderChain.PlainPasses` | crates/core/src/packet_ipv6.rs:37-60 | a whole IPv6 packet whose chain does not lead to a fragment header comes back as exactly its announced bytes, the pending datagrams stay |
| `HeaderChain.UnreadableDropped` | crates/core/src/packet_ipv6.rs:37-69 | a packet that is cut short, has no chain, or has a cut or nested fragment header gives nothing, the pending datagrams stay |
| `HeaderChain.AtomicUnwraps` | crates/core/src/packet_ipv6.rs:61-78 | a fragment with offset zero and no more to come comes back without its fragment header, announced by what it announced, with its length |
| `HeaderChain.OtherFragmentOffered` | crates/core/src/packet_ipv6.rs:61-98 | any other readable fragment is offered to the datagram of its addresses and identification, with the offset, flag and bytes of its headers |
| `FragmentRoundTrip.FrameReads` | crates/core/src/packet_ipv6.rs:37-69 | the other way round: a fixed header, a fragment header and a payload put together are read as the fragment they describe |
| `ReassemblySpec.ExtendOk` | crates/core/src/packet_ipv6.rs:99-122 | a fragment that contradicts nothing keeps the fragments of a queue disjoint, of one shape and below the known end |
| `ReassemblySpec.TotalIsFinal` | crates/core/src/packet_ipv6.rs:99-122 | the known end is that of the one fragment without the more-fragments flag |
| `ReassemblySpec.AssembledIsDelivery` | crates/core/src/packet_ipv6.rs:123-139 | a complete queue gives a packet with every payload in place and no other byte, the header of the offset-zero fragment, an exact length, at most 65535 bytes |
| `ReassemblySpec.AcceptPartOk` | crates/core/src/packet_ipv6.rs:79-98 | every arrival keeps the table in order, with at most 64 pending datagrams |
| `Datagram.JoinsExactly` | crates/core/src/packet_ipv6.rs:99-116 | a fragment is not invalid exactly when it and the received ones are non-empty pieces of one body that do not overlap, in units of eight bytes but for the end, which alone lacks the more-fragments flag, behind headers of one form, within 65535 bytes |
| `Datagram.OfferExactly` | crates/core/src/packet_ipv6.rs:99-139 | a datagram is given up exactly when its fragments are not such pieces or form too many runs, and delivered exactly when they fill the body, which follows the headers; else the fragment is added |
| `Datagram.AcceptExactly` | crates/core/src/packet_ipv6.rs:33-98 | a fragment drops exactly the datagrams that are 30 s old, changes no other, begins none when 64 are pending, and its own is gone exactly when delivered or not begun |
| `ReassemblyRuns.SafeDelivery` | crates/core/src/packet_ipv6.rs:79-139 | whatever arrived, a delivered packet consists of disjoint gap-free fragments that all arrived, of one source, destination and identification, under 30 s after the first |
| `ReassemblyRuns.RejectedStays` | crates/core/src/packet_ipv6.rs:99-122 | a given-up datagram stays given up within its lifetime |
| `ReassemblyRuns.InvalidSilences` | crates/core/src/packet_ipv6.rs:99-122 | after an overlapping or inconsistent fragment nothing is delivered for the key within 30 s of its first fragment |
| `ReassemblyRuns.OthersInvisible` | crates/core/src/packet_ipv6.rs:33-98 | other keys' fragments, atomic fragments and other packets change nothing a key's later fragment can see |
| `ReassemblyRuns.OwnQueueDecides` | crates/core/src/packet_ipv6.rs:79-139 | the outcome of a fragment depends only on its own queue, given room to open one |
| `ReassemblyRuns.Isolation` | crates/core/src/packet_ipv6.rs:33-122 | the queue of a key is what it would be had only its own fragments arrived, given room when opened |
| `ReassemblyRuns.IsolatedOutcome` | crates/core/src/packet_ipv6.rs:33-139 | so is what each of its fragments gives back |
| `Assembler.MergeMatches` | crates/core/src/packet_ipv6.rs:117-122 | adding a range keeps the record exactly the maximal runs of the received positions |
| `Assembler.StartsAreEdges` | crates/core/src/packet_ipv6.rs:117-122 | runs start exactly at received positions whose predecessor was not received |
| `Assembler.FrontIsWhole` | crates/core/src/packet_ipv6.rs:123-133 | the front run reaches the end exactly when no position below it is missing |
| `Assembler.OverlapIsReceived` | crates/core/src/packet_ipv6.rs:99-116 | a range meets a run exactly when it holds a received position |
| `Assembler.PastEnd` | crates/core/src/packet_ipv6.rs:99-116 | some run ends past a position exactly when something at or past it was received |
| `Reassembly.SameInvalid` | crates/core/src/packet_ipv6.rs:99-116 | the checks on buffer and runs are the checks on the fragment list |
| `Reassembly.SameRuns` | crates/core/src/packet_ipv6.rs:117-122 | the runs after a valid fragment start where the fragment list says |
| `Reassembly.SameComplete` | crates/core/src/packet_ipv6.rs:123-133 | the buffer is complete exactly when the fragments leave no gap |
| `Reassembly.SamePacket` | crates/core/src/packet_ipv6.rs:123-139 | the packet built from the buffer is the one built from the fragment list |
| `Reassembly.Reassembler.ExpireOld` | crates/core/src/packet_ipv6.rs:33-36 | drops exactly the datagrams whose first fragment is 30 s old |
| `Reassembly.Reassembler.Accept` | crates/core/src/packet_ipv6.rs:37-140 | one arriving packet changes the pending datagrams and answers as the fragment-list reference does, which `HeaderChain` fixes case by case |
| `Reassembly.Reassembler.AcceptPart` | crates/core/src/packet_ipv6.rs:79-139 | so does a non-atomic fragment |
| `Fragmenter.FragmentPacket` | crates/core/src/packet_ipv6.rs:143-179 | the loop over chunks gives the frames of the reference, and refuses the same packets and limits; `FragmentLaw` fixes both |
| `FragmentRoundTrip.PieceBounds` | crates/core/src/packet_ipv6.rs:158-177 | pieces abut in order, all but the last of full size |
| `FragmentRoundTrip.FrameIsPiece` | crates/core/src/packet_ipv6.rs:143-179 | every frame fits the MTU, its offset fits 13 bits, and it is read back as the piece put in |
| `FragmentRoundTrip.PiecesApart` | crates/core/src/packet_ipv6.rs:158-177 | pieces of one packet never overlap |
| `FragmentRoundTrip.NextIsValid` | crates/core/src/packet_ipv6.rs:99-116 | a further piece of the same packet contradicts no set of earlier ones |
| `FragmentRoundTrip.RunsAreHeads` | crates/core/src/packet_ipv6.rs:117-122 | the runs of some received frames are as many as frames whose predecessor is missing |
| `FragmentRoundTrip.MissingIsIncomplete` | crates/core/src/packet_ipv6.rs:123-133 | with a frame missing the datagram is not complete |
| `FragmentDelivery.WholeIsPacket` | crates/core/src/packet_ipv6.rs:123-139 | all pieces, in any order, assemble to the packet they were cut from |
| `FragmentDelivery.ExcessIsSilent` | crates/core/src/packet_ipv6.rs:117-122 | once the frames form too many runs, none gives anything back |
| `FragmentDelivery.RoundTrip` | crates/core/src/packet_ipv6.rs:37-179 | frames offered once each in any order to a free queue in time give nothing until the last and then exactly the packet, if and only if the received frames never form more than the allowed runs |
| `FragmentDelivery.InterleavedRoundTrip` | crates/core/src/packet_ipv6.rs:37-179 | the same among arbitrary other packets and fragments and after earlier datagrams of the same key, with a clock that does not go back and room when a queue is opened |
| `FragmentDelivery.InOrderWorks` | crates/core/src/packet_ipv6.rs:117-122 | frames in order never form more than one run |
| `FragmentDelivery.EvensFirstFails` | crates/core/src/packet_ipv6.rs:117-122 | for every limit on runs, a packet of more than twice as many frames offered even-numbered frames first is never given back |
| `FragmentDelivery.EvensFirstIsWhole` | crates/core/src/packet_ipv6.rs:158-177 | even-numbered frames first, then the odd ones, is an order of all frames of a packet, each once |
| `FragmentLaw.RefusedExactly` | crates/core/src/packet_ipv6.rs:143-157 | a packet is refused exactly when it is IPv6 and longer than the MTU, and the MTU is under 1280, the packet over 65535 bytes, cut short, or of a protocol other than UDP, TCP and ICMPv6 |
| `FragmentLaw.FramesFit` | crates/core/src/packet_ipv6.rs:143-179 | the frames are the packet alone when it is of another version or fits, and otherwise all fit the MTU |
| `FragmentLaw.EveryPacketArrives` | crates/core/src/packet_ipv6.rs:37-179 | for every MTU and packet that is no fragment, its frames in order, offered to a table with room in time, give nothing until the last and then exactly its announced bytes, cut or not |
| `FragmentLaw.NoFrameExactly` | crates/core/src/packet_ipv6.rs:143-179 | a packet that is not refused gives no frame at all exactly when it is too long and its length field is zero |
| `Glob.MatchIsSubstitution` | crates/config/src/rule.rs:176-197 | a pattern matches exactly when each star can be replaced by some text to give the label, ASCII case ignored |
| `Glob.LabelMatches` | crates/config/src/rule.rs:176-197 | the loop, which goes back to the latest star on a mismatch, terminates and decides that relation |
| `HostGlob.LabelsAreHost` | crates/config/src/rule.rs:166-175 | label-by-label matching is whole-host matching in which a star never spans a dot |
| `GlobRegex.TextReadsBack` | crates/config/src/rule.rs:671-671 | the escaped pattern with its escaped stars replaced is a regular expression that reads back as the pattern, each star as any text without a dot |
| `GlobRegex.LowerCaseAgrees` | crates/config/src/rule.rs:659-673 | on lower-case hosts the compiled regular expression matches exactly what label-by-label matching does |
| `HostGlob.GlobMatches` | crates/config/src/rule.rs:166-175 | the loop over labels decides whole-host matching |
| `HostGlob.ProperSuffixes` | crates/config/src/rule.rs:210-241 | the label suffixes after the first are exactly what follows a dot |
| `HostGlob.FixedSuffixIsSuffix` | crates/config/src/rule.rs:159-163 | every host a pattern matches ends, after a dot, with the pattern's fixed labels |
| `DomainSet.HashList` | crates/config/src/rule.rs:91-106 | the hashes of the listed names, sorted, each once |
| `DomainSet.IndexGlobs` | crates/config/src/rule.rs:121-142 | every pattern is in the index under its fixed labels, or among those tried for every host |
| `DomainSet.Build` | crates/config/src/rule.rs:318-327 | the packed set holds the hashes and the index of the listing |
| `DomainSet.Contains` | crates/config/src/rule.rs:80-83 | bisection finds a hash exactly when it is listed |
| `DomainSet.AnchoredAt` | crates/config/src/rule.rs:144-150 | some pattern under the hash with that number of labels matches |
| `DomainSet.AnyHit` | crates/config/src/rule.rs:211-237 | the loop over label suffixes finds a hit in the lists or the index exactly when there is one at some suffix |
| `DomainSet.Matches` | crates/config/src/rule.rs:210-241 | one pass over the label suffixes finds every hit in the lists, the index, the loose patterns, keywords and regular expressions, and nothing else |
| `DomainSet.GlobIndexExact` | crates/config/src/rule.rs:121-163 | under any hash the index answers like trying every pattern |
| `DomainSet.NeverMisses` | crates/config/src/rule.rs:80-106 | under any hash and for every host the lists never miss an exact, suffix or subdomain match |
| `DomainSet.PackedIsReference` | crates/config/src/rule.rs:210-241 | for every lower-case host the packed set matches exactly when some condition does, the host is a dot before a listed subdomain name, or a label suffix has the hash of a different listed name |
| `DomainSet.CollisionMatches` | crates/config/src/rule.rs:64-106 | under a constant hash one listed name makes every host match, which no condition does |
| `DomainSet.LoneDotMatches` | crates/config/src/rule.rs:210-241 | a dot before a listed subdomain name matches in the packed set and not in the reference, under any hash |
| `IpSet.Merge` | crates/config/src/rule.rs:379-392 | merging sorted ranges gives sorted, disjoint, non-adjacent ranges covering the same addresses |
| `IpSet.New` | crates/config/src/rule.rs:363-394 | the ranges of both families are separated and cover exactly the networks |
| `IpSet.Matches` | crates/config/src/rule.rs:395-402 | bisection decides whether some range covers the address, negated when inverse |
| `IpSet.NewThenMatches` | crates/config/src/rule.rs:363-402 | together: some network contains the address, negated when inverse |
| `Matcher.AlwaysDecided` | crates/config/src/rule.rs:568-624 | evaluation is never undecided with an address or without the right to ask |
| `Matcher.DecidedForAll` | crates/config/src/rule.rs:568-624 | a verdict without an address is the verdict under every answer to the address conditions |
| `Matcher.OpenBothWays` | crates/config/src/rule.rs:568-624 | an undecided evaluation is open: some answers make it true, others false |
| `Matcher.SettledIsResolved` | crates/config/src/rule.rs:568-624 | with the address settled evaluation is the two-valued meaning |
| `Matcher.LazyIsSound` | crates/config/src/rule.rs:568-624 | a verdict without an address is the verdict under every address, with no address condition exempt from resolving |
| `Matcher.ExemptIsNotSound` | crates/config/src/rule.rs:568-624 | under an exemption it need not be: any network rule shows it |
| `Meaning.NameDescribes` | crates/config/src/rule.rs:577-583 | a name condition holds exactly when the host is the name, ends with a dot and the name (after more than nothing for subdomains), or has the word in it |
| `Meaning.NameIsListed` | crates/config/src/rule.rs:577-584 | a name condition of a rule means what it means as the one entry of a packed set |
| `Meaning.Verdict` | crates/config/src/rule.rs:608-621 | children that decide a conjunction or disjunction decide it, wherever they stand; else it is open if one of them is |
| `Meaning.EvaluateIsHolds` | crates/config/src/rule.rs:568-624 | with an address, or without the right to ask for one, evaluation says whether the condition holds: all or some children, the opposite, names as listed, addresses by interval, ports by range |
| `Provider.Gather` | crates/core/src/resources.rs:1093-1117 | every entry of a list ends up among the names, the networks or the rest, where its kind belongs, and nothing else does |
| `Provider.GroupingExact` | crates/core/src/resources.rs:1088-1125 | the grouped list has the verdict of the list, address or not, if and only if another entry holds, or the names as kept, a lone dot or a hash collision match exactly when the names as written do |
| `Provider.GroupingKeeps` | crates/core/src/resources.rs:1088-1125 | with clean names, and no lone dot or collision, grouping keeps every verdict |
| `Provider.LeadingDotRegroups` | crates/config/src/rule.rs:306-317 | one exact name with a dot in front never matches the name alone and always does once grouped, under any hash |
| `Exemption.BareIsSound` | crates/config/src/rule.rs:568-624 | what the condition with its exemptions taken off decides without an address is the verdict of the condition under every address and none |
| `Exemption.BareOpenIsOverturned` | crates/config/src/rule.rs:568-624 | otherwise the verdict without an address is overturned by any address, under some other address conditions of the same shape |
| `Matcher.AskingIsPredicted` | crates/core/src/dns_leak.rs:77-85 | whenever evaluation asks for the address, the static analysis says it may |
| `Exemption.NeedsAddressExactly` | crates/core/src/dns_leak.rs:77-85 | the static analysis says yes exactly when some address or country condition is reached from the rule without passing an exemption |
| `Routing.TraceRoute` | crates/core/src/lib.rs:776-817 | the rule loop computes the reference scan |
| `RouteMeaning.RouteExactly` | crates/core/src/lib.rs:776-817 | a dialled address takes the first rule whose condition holds and looks nothing up; a name takes the first rule that says yes without an address before any asks, and after the first that asks, which looks it up once, the first whose condition holds with the answer; none means direct |
| `Routing.LazyIsEagerExactly` | crates/core/src/lib.rs:776-817 | for every rule list, resolving only when a rule asks takes the same rule as resolving up front, for every lookup result and any address conditions in place of one rule's own, if and only if the scan reaches no rule before its lookup that has a verdict while its condition without exemptions has none |
| `Routing.LazyLookupIsEager` | crates/core/src/lib.rs:776-817 | with no such rule reached, or when the lookup fails, both take the same rule and target |
| `Routing.UnexemptedIsSafe` | crates/core/src/lib.rs:776-817 | a rule none of whose address conditions is exempted is never such a rule |
| `Routing.ExemptRuleIsSkipped` | crates/core/src/lib.rs:776-817 | otherwise not: any single no-resolve network rule is passed over lazily and taken with the address known |
| `Routing.Audit` | crates/core/src/dns_leak.rs:189-202 | the reverse scan reports, ascending, exactly the rules that are not exempt, have an address or country condition outside every exemption, and send through a proxy or come before one that does |
| `Routing.AskedBefore` | crates/core/src/lib.rs:776-817 | a scan that looks a name up does so at a rule with an unexempted address condition, at or before the one taken |
| `Routing.AuditIsSound` | crates/core/src/dns_leak.rs:189-202 | every scan that looks a name up and ends at a proxy does so at a reported rule |
| `Groups.Visit` | crates/config/src/lib.rs:800-818 | the search terminates and succeeds exactly when every walk from the name stays known and never meets the path, which it leaves as it was |
| `Groups.AcceptanceIsAcyclic` | crates/config/src/lib.rs:800-821 | all searches succeed exactly when members are known and no group reaches itself |
| `Groups.CollectNames` | crates/config/src/lib.rs:777-785 | groups are well named exactly when the loop gets through, with their names and members collected |
| `Groups.ValidateGroups` | crates/config/src/lib.rs:777-821 | accepted exactly when well named, non-empty, members known and not GLOBAL, no cycle |
| `GroupRules.AcceptedExactly` | crates/config/src/lib.rs:777-821 | on the groups themselves: names of their own, at least one member and an interval, members that are taken names or groups and not GLOBAL, and no ring of groups each naming the next |
| `Groups.WalksAreShort` | crates/config/src/lib.rs:795-821 | in an accepted configuration no walk is longer than the groups |
| `Groups.EveryChoiceEnds` | crates/config/src/lib.rs:795-821 | following any choice of members reaches a known non-group within the number of groups |
| `Groups.Chain` | crates/core/src/lib.rs:827-847 | following the selections from the name, or for GLOBAL from the first group, else the first proxy, else DIRECT, never hits the cycle error and ends at a known non-group |
| `DnsCache.KeptFor` | crates/core/src/dns.rs:587-609 | a response may be kept n seconds exactly when n is at most an hour and, for a negative one, at most the lifetime and minimum of every start of authority, of which there is one, else at most the lifetime of every record |
| `DnsCache.CacheableExactly` | crates/core/src/dns.rs:587-609 | it is kept at all exactly when it is not truncated, no failure, and none of those is zero |
| `DnsCache.ElapsedExactly` | crates/core/src/dns.rs:569-582 | the elapsed seconds are the whole ones between the instants that fit 32 bits |
| `DnsCache.ServedTtls` | crates/core/src/dns.rs:573-582 | ageing lowers every lifetime by the elapsed seconds and changes nothing else, and all stay positive exactly when less than the shortest lifetime has elapsed |
| `DnsCache.OneInstantIsAlive` | crates/core/src/dns.rs:566-609 | read at one instant and stamped at one instant, an unexpired positive answer has only records still alive |
| `DnsCache.LateAgeing` | crates/core/src/dns.rs:569-582 | every positive answer the cap on lifetimes did not shorten has an instant at which it is checked as unexpired and served a nanosecond later with a record of lifetime zero |
| `DnsCache.Cache.Lookup` | crates/core/src/dns.rs:566-585 | serves exactly entries unexpired at the first clock read, every lifetime less the seconds elapsed at the second; all are positive exactly when those are fewer than the shortest lifetime, and for a positive answer whenever every insertion and this lookup read the clock once |
| `DnsCache.Cache.SumEntries` | crates/core/src/dns.rs:622-622 | the recorded size becomes the sum of the entry sizes |
| `DnsCache.Cache.MakeRoom` | crates/core/src/dns.rs:623-633 | drops oldest entries first, only as many as room needs, size never below zero |
| `DnsCache.Cache.Store` | crates/core/src/dns.rs:587-646 | keeps at most 4096 entries and 1 MiB with the size exact; drops expired, replaced and oldest entries only; stores unless too large alone; an insertion that reads the clock once keeps all entries stamped at one instant |
| `DnsCache.Cache.Clear` | crates/core/src/dns.rs:448-449 | an empty, valid cache |
| `DnsCache.SumWithout` | crates/core/src/dns.rs:622-632 | taking any entry out lowers the sum by its size |
| `Percent.PercentEncode` | crates/core/src/cos.rs:271-281 | the loop gives the encoded text |
| `Percent.PercentDecode` | crates/core/src/cos.rs:283-298 | the loop decodes every escape, and refuses cut ones, ones the number parser does not read, and ill-formed UTF-8 |
| `Percent.DecodeEncoded` | crates/core/src/cos.rs:271-298 | encoded text in front of any other decodes to the text, then the rest |
| `Percent.RoundTrip` | crates/core/src/cos.rs:271-298 | decoding undoes encoding on every well-formed UTF-8 string |
| `Percent.EncodedAlphabet` | crates/core/src/cos.rs:271-281 | encoded text holds only unreserved characters and percent signs |
| `Escapes.EncodedIsCanonical` | crates/core/src/cos.rs:271-281 | every unreserved byte is written as itself and every other as an escape of two upper-case digits |
| `Escapes.DecodedExactly` | crates/core/src/cos.rs:283-298 | a text decodes to bytes exactly when it consists of pieces that each stand for one: itself, or an escape in either case or with a plus sign |
| `Escapes.ValidExactly` | crates/core/src/cos.rs:283-298 | bytes are well-formed exactly when they are the UTF-8 of code points that are no surrogates |
| `CosUrl.PathIsEncoded` | crates/core/src/cos.rs:98-103 | encoding a key segment by segment encodes everything but the slashes |
| `CosUrl.FindCos` | crates/core/src/cos.rs:40-56 | a host is split at the end of its bucket |
| `CosUrl.UrlRoundTrip` | crates/core/src/cos.rs:40-104 | reading the URL of a valid target gives that target |
| `CosUrl.ReadIsCanonical` | crates/core/src/cos.rs:40-104 | whatever URL a target is read from, it is valid and its own URL reads back to it |
| `CosReading.TrimmedExactly` | crates/core/src/cos.rs:40-42 | trimming takes all white space off both ends and nothing else |
| `CosReading.SpaceExactly` | crates/core/src/cos.rs:40-42 | white space is the UTF-8 of exactly the code points with that property |
| `CosReading.ReadsExactly` | crates/core/src/cos.rs:40-61 | a URL names a target exactly when the target is valid and the trimmed URL is the scheme, its host in any case, a slash, a text that decodes to its key, and any query or fragment |
| `CosReading.BucketExactly` | crates/core/src/cos.rs:62-79 | a bucket is a name of lower-case letters, digits and inner dashes, a dash and a number |
| `CosReading.KeyExactly` | crates/core/src/cos.rs:84-95 | a key has no control characters and no segment between slashes that is empty, a dot or two dots |

## Left out

- FakeIpSpec.AllocateExact: a v6 fake-IP range with prefix length 0 is excluded here and in FakeIp.FakeMap.Allocate and every run; there the source's addition to the cursor can overflow (FakeIpImport.CursorOverflows), and what follows depends on how it was compiled.
- FakeIp.FakeMap.Allocate: excludes a v6 range with prefix length 0, as FakeIpSpec.AllocateExact does.
- FakeIp.FakeMap.Insert: asks for an unmapped name and address, which both callers have checked; what the private function would do otherwise is not modelled.
- FakeIpImport.RoundTrip: for names that are valid and already normalised, and at most 32768 of them, as an export of this resolver holds.
- SaveProfile.SkipIsFresh: does not say the file always holds the mappings of the generation read, because the code does not do that (SaveProfile.InexactSkip).
- SaveProfile.NextKeepsInv: the savers are steps on values, one per lock hold; the locks themselves and aliasing are not modelled.
- SaveProfile.RunInv: runs start after the profile was loaded; an import in the middle of a run, which sets the generation back, is not modelled, and neither are profiles that store no fake-IP mappings. A failed write leaves the file as it was.
- DnsCache.Cache.Lookup: does not say every served lifetime is positive, because the code does not do that (DnsCache.LateAgeing).
- Matcher.LazyIsSound: needs no address condition under a no-resolve exemption, or a failed lookup; an exempt condition is decided early on purpose (Matcher.ExemptIsNotSound), and Exemption.BareIsSound covers every condition.
- Routing.LazyIsEagerExactly: that it can fail is shown with other networks of the same shape, because whether some address answers the rule's own networks one way and not the other depends on those networks.
- Routing.LazyLookupIsEager: not for a scan that reaches an overturnable rule before a successful lookup, where it can fail (Routing.ExemptRuleIsSkipped, Routing.LazyIsEagerExactly).
- Provider.GroupingExact: for parsed entries of a classical list, valid networks and a lower-case host; lists of names only or networks only, the limit on their length and the check for nested lists are not modelled.
- GlobRegex.TextReadsBack: the escaping and the meaning of the few constructs that occur are those of the regex crate, written out here; the rest of its syntax is not modelled.
- Wrap-around of the 64-bit stamp and generation counters.
- DNS name syntax: a predicate says which names are valid.
- The range assembler of the smoltcp library is modelled as maximal runs with the number of runs as a parameter; its fixed array and its error values are not.
- DNS message encoding: a response is its code, record lifetimes and encoded length; the key is a byte string.
- Sorting and deduplication of the standard library are modelled by insertion; heap and hash-map layout not at all.
- User-written regular expressions and the keyed hash: arbitrary predicates and functions.
- Networking, sockets, TLS, timers, retries and the race between upstream servers.
- Ad blocking, modes and tracing texts around the rule scan, and the texts and truncation of the leak report.
- The rest of configuration validation, rule parsing and binding, and proxy chaining through other proxies.
- Signing, uploading and error texts of object storage.
- The desktop and mobile applications, the command line, the HTTP interface and inbound listeners: plumbing around the core.
