# LightIPAM: a verified model

LightIPAM keeps an inventory of subnets, addresses and devices and fills it from network
scans. This project models the parts of it where one step can break what another relies on,
and proves what those parts promise over all inputs, runs and interleavings.

| file | what it covers |
|---|---|
| `Prefix.dfy` | IPv4 prefixes: the shift tests and the address sets they decide |
| `Merge.dfy`, `MergeLaws.dfy` | the per-address merge of observations and its algebra |
| `Text.dfy`, `Notices.dfy` | the notice collector, the passes of the enrichment of one host |
| `NoticeLaws.dfy` | what the notices of a finished run say of the backends' answers |
| `Enrich.dfy`, `Combined.dfy` | the concurrent enrichment as a step system; a combined scan from end to end |
| `DeviceLinks.dfy` | hardware link groups |
| `DnsName.dfy`, `MdnsLookup.dfy` | the DNS name codec and the mDNS reverse lookup (RFC 1035, sections 3.1 and 4.1) |
| `Options.dfy`, `Subnets.dfy` | the subnet table, its CSV import, and the overlap check |
| `MacAddr.dfy`, `Discoveries.dfy`, `DiscoveryLaws.dfy`, `ImportLaws.dfy`, `RowLaws.dfy`, `DiscoveryStore.dfy` | the review queue: tables, invariants over runs, what an import promises, what is written column by column, the transactions |
| `Scope.dfy`, `Budget.dfy`, `Egress.dfy` | what a scan may touch, how long it may take, which interface it leaves by |
| `Sorted.dfy`, `ImportAll.dfy`, `ImportLoop.dfy` | the "import all" flow and its subnet prompts |
| `Scheduler.dfy` | firing windows and the scheduler tick |
| `Lockout.dfy` | login throttling |

Code that updates state is a class or a method with the program's loops, proved to end in
the state a specification function gives; the promises are lemmas about those functions.
Random tokens are fresh ids. Clocks, backends, devices, files and sites are parameters.

Where the code does less than its documentation or a first reading promises, the model
follows the code, a lemma gives an input that shows it, and another says exactly when the
promise holds:

- Auto-linking by chassis serial is documented never to link a same-subnet clone or what an
  operator declined (`internal/store/device_links.go:392-398`). It compares each match with
  the linked device only, and linking takes in the whole group of each. So two matches in
  one subnet are linked (`DeviceLinks.AutoLinkMayJoinOneSubnet`), as are a device and the
  same-subnet companion of a match (`DeviceLinks.AutoLinkMayJoinThroughGroup`) and a declined
  pair that both match a third device (`DeviceLinks.AutoLinkMayJoinDismissed`). Both
  promises hold exactly when they hold throughout the groups the call touches
  (`DeviceLinks.AutoLinkKeepsOnePerSubnet`, `DeviceLinks.AutoLinkKeepsDismissalsIff`).
- The name encoder writes any label length into one byte. A name comes back exactly when all
  labels are shorter than 192 bytes (`DnsName.RoundTripExactly`); one label of 192 is lost
  (`DnsName.LongLabelIsLost`). This concerns the encoder as a helper: its one caller passes
  names under in-addr.arpa, whose labels have at most 7 bytes, and those come back
  (`MdnsLookup.MdnsReverseRequest`).
- At most `MaxAttempts` failures per cooldown holds exactly when requests of a username or
  an address do not overlap; with `k` at once the bound is `MaxAttempts + k - 1`, and it is reached
  (`Lockout.LimitHoldsIff`, `Lockout.BoundIsReached`).
- The subnet prefilled in the import-all prompt can be refused (`ImportLoop.SuggestionMayBeRefused`,
  `ImportLoop.SuggestionAcceptedIff`).
- An import does not always make the next observation a match: at a deprecated address it is a
  conflict (`ImportLaws.ImportMayConflict`, `ImportLaws.ReobservationMatchesIff`); for a host
  seen for the first time it always is a match (`ImportLaws.FirstImportMatches`).

## Model

| member | source | states |
|---|---|---|
| Prefix.ContainsIsMembership | internal/ipam/ipam.go:47-57 | the network-bits test of a prefix, host bits in it or not, holds exactly for the addresses of the prefix |
| Prefix.MaskedDenotesTheSame | internal/ipam/ipam.go:9-19 | normalising a CIDR keeps its address set and gives a network address |
| Prefix.OverlapsIsIntersection | internal/store/ipam.go:335-350 | the overlap test of two CIDRs holds exactly when some address is in both |
| Prefix.NestedOrDisjoint | internal/scanner/agent/nmap.go:401-404 | two prefixes nest or share no address |
| Prefix.WithinIsSubset | internal/scanner/protocol.go:381-383 | containing the base address with a length no longer is being a superset |
| Merge.MergeServices | internal/scanner/agent/combined.go:364-380 | the loop returns the first list followed by the services of the second under new keys, each key once |
| Merge.MergeInto | internal/scanner/agent/combined.go:330-360 | the record behind the pointer becomes the join of the two, and nothing else changes |
| Merge.MergeObservations | internal/scanner/agent/combined.go:299-325 | the loop over a map of pointers returns, for each IP in first-seen order, the join of its observations |
| MergeLaws.ServiceUnionAssociative | internal/scanner/agent/combined.go:364-380 | the keyed union of services is associative |
| MergeLaws.JoinedAssociative | internal/scanner/agent/combined.go:330-360 | joining observations is associative in every field |
| MergeLaws.MergedInContext | internal/scanner/agent/combined.go:299-325 | merging a middle part first does not change the merge of the whole |
| MergeLaws.NestedMergeIsFlatMerge | internal/scanner/agent/combined.go:86 | however deep its inner merges nest, a result is the one flat merge of its raw lists |
| MergeLaws.OrderIsFirstSeen | internal/scanner/agent/combined.go:299-325 | of two reported IPs the one seen first comes first |
| MergeLaws.ScalarIsFirstSet | internal/scanner/agent/combined.go:330-360 | a field filled by joining is the first value that is set |
| MergeLaws.ListsAreConserved | internal/scanner/agent/combined.go:330-380 | evidence is the in-order concatenation and the service keys are the exact union; the first list is kept whole and every later service has a key of its own |
| MergeLaws.LeadingServiceWins | internal/scanner/agent/combined.go:364-380 | for every protocol and port the merged record has the service that was reported first |
| MergeLaws.GroupIs | internal/scanner/agent/combined.go:299-325 | the observations joined for an address are all those with that address, in their order |
| MergeLaws.MergeConservesContent | internal/scanner/agent/combined.go:299-380 | a merge reports the distinct non-empty IPs, and for each the first set scalars, all evidence and all service keys |
| Notices.NoticeCollector.NoteOneTarget | internal/scanner/agent/combined.go:202-209 | one more host is counted for the pass and nothing else changes; what the counts come to is `NoticeLaws.CountsAreTimes` |
| Notices.NoticeCollector.NoteWholePass | internal/scanner/agent/combined.go:212-219 | the message is kept under its NUL-joined key, once |
| Notices.NoticeCollector.Notices | internal/scanner/agent/combined.go:224-261 | the notices are the whole-pass messages in key order, then the counts in label order |
| Notices.WholeKeyInjective | internal/scanner/agent/combined.go:212-219 | labels without NUL never make two messages share a key |
| Notices.RenderingUnique | internal/scanner/agent/combined.go:224-261 | the rendered list depends on the collected content only, not on the map order |
| Notices.NotesCommute | internal/scanner/agent/combined.go:202-219 | two notes can be made in either order |
| Notices.RunPass | internal/scanner/agent/combined.go:166-188 | a pass yields the backend's observations and adds its notes, a failure being one whole-pass note |
| Notices.EnrichHost | internal/scanner/agent/combined.go:143-158 | one host's passes, ARP and neighbors only after the inventory answered |
| NoticeLaws.CountsAreTimes | internal/scanner/agent/combined.go:202-209 | over any list of notes the count of a pass is the number of its target notes, and a pass without one has no entry |
| NoticeLaws.MessagesAreNoted | internal/scanner/agent/combined.go:212-219 | over any list of notes the whole-pass conditions kept are exactly the label and message pairs noted |
| NoticeLaws.NoticesTellTheNotes | internal/scanner/agent/combined.go:224-261 | the notices list exactly the counts and the conditions noted |
| NoticeLaws.PassNotes | internal/scanner/agent/combined.go:166-188 | a pass notes one target per error that names a host, and a condition exactly for a failed pass or an error that names none |
| NoticeLaws.HostFindings | internal/scanner/agent/combined.go:143-158 | a host contributes inventory, ARP and neighbors (only when the inventory found something), names and DNS, in this order |
| NoticeLaws.NoticesTellTheAnswers | internal/scanner/agent/combined.go:94-136 | after any finished run the count listed for a pass is the number of host errors its backend returned, and a condition is listed exactly when the backend gave it for a pass it was asked for |
| NoticeLaws.NoHostsIsTold | internal/scanner/agent/combined.go:108-109 | the missing-hosts notice is given exactly when there was no host to enrich |
| Enrich.RunPreservesInv | internal/scanner/agent/combined.go:94-136 | every interleaving keeps the account of slots, wait counter, stored results and notes |
| Enrich.ScheduleIndependent | internal/scanner/agent/combined.go:94-136 | every interleaving that finishes ends with the observations and notices of the sequential host-order run |
| Enrich.InFlightBound | internal/scanner/agent/combined.go:18 | never more than 16 workers are in flight, 16 being the constant of the source |
| Enrich.NeverStuck | internal/scanner/agent/combined.go:94-136 | every reachable state that is not final has an enabled step |
| Enrich.RunsAreBounded | internal/scanner/agent/combined.go:94-136 | no run is longer than the work the plan holds |
| Enrich.MaximalRunsFinish | internal/scanner/agent/combined.go:94-136 | a run that cannot go on has finished |
| Combined.UnionHosts | internal/scanner/agent/combined.go:266-279 | the distinct non-blank hosts of both lists in first-seen order |
| Combined.HostsAre | internal/scanner/agent/combined.go:77-82 | the hosts enriched are those nmap found, then the listed ones it did not find, each once |
| Combined.CombinedScanIsDeterministic | internal/scanner/agent/combined.go:60-87 | whatever the interleaving, a combined scan reports the observations and lists the notices of the sequential run |
| Combined.CombinedScanIsOneMerge | internal/scanner/agent/nmap.go:206 | the merges inside nmap's and the neighbor source's results change nothing: the report is one merge of all raw findings |
| Combined.PartsAreTheWork | internal/scanner/agent/neighbors.go:136 | the enrichment with the neighbor source's inner merge and the raw one are the two readings of one nested result |
| DeviceLinks.DeviceTable.LinkDevices | internal/store/device_links.go:133-206 | accepted exactly for two or more distinct known devices; then all of them and the groups they were in share the least existing id or the fresh one |
| DeviceLinks.AcceptedIff | internal/store/device_links.go:133-176 | a call is accepted exactly when it names two different devices and no unknown one, blanks ignored |
| DeviceLinks.LinkedRows | internal/store/device_links.go:176-206 | named devices and their groups get the id that is first in byte order among theirs, or the fresh one when they had none; every other row keeps its own |
| DeviceLinks.DeviceTable.UnlinkDevice | internal/store/device_links.go:211-249 | the device leaves its group, and a group of one left over is dissolved |
| DeviceLinks.UnlinkedRows | internal/store/device_links.go:211-249 | the device and a companion left alone lose their group id; every other row is as it was |
| Text.LessIsLexicographic | internal/store/device_links.go:184-190 | the order that picks the surviving id is that of the first difference, a proper prefix first |
| DeviceLinks.DeviceTable.AutoLinkDeviceBySerial | internal/store/device_links.go:399-465 | a device with a serial and a subnet is linked with exactly the other devices of that serial that have a subnet, share none with it, were not declined with it and are not yet in its group; otherwise nothing changes |
| DeviceLinks.LinkJoinsTouchedClasses | internal/store/device_links.go:133-206 | a link call joins the classes it touches and leaves every other pair as it was |
| DeviceLinks.UnlinkIsolates | internal/store/device_links.go:211-249 | unlinking isolates exactly its device |
| DeviceLinks.RunKeepsNoSingletons | internal/store/device_links.go:133-249 | over every run of link and unlink calls each group has at least two members |
| DeviceLinks.GroupsAreConnectedComponents | internal/store/device_links.go:133-206 | after any run of link calls two devices share a group exactly when the successful calls connect them |
| DeviceLinks.LinkKeepsPairsIff | internal/store/device_links.go:133-206 | what holds of every linked pair still does after a link call exactly when it holds throughout the classes the call touches |
| DeviceLinks.AutoLinkKeepsOnePerSubnet | internal/store/device_links.go:399-465 | auto-linking keeps linked devices in different subnets exactly when the devices of all touched classes are in different subnets, grouped matches included |
| DeviceLinks.AutoLinkKeepsDismissalsIff | internal/store/device_links.go:392-398 | it keeps declined pairs apart exactly when no declined pair lies among the touched classes |
| DeviceLinks.AutoLinkMayJoinOneSubnet | internal/store/device_links.go:392-465 | two matches in one subnet end up linked |
| DeviceLinks.AutoLinkMayJoinThroughGroup | internal/store/device_links.go:392-465 | a single match brings its group along, and with it a device of the router's own subnet |
| DeviceLinks.AutoLinkMayJoinDismissed | internal/store/device_links.go:392-465 | a declined pair that both match a third device ends up linked |
| DnsName.ReadDNSName | internal/scanner/agent/names.go:465-504 | terminates on every buffer, cyclic pointers included, with the result of the recursive reading |
| DnsName.ReadIsDerivability | internal/scanner/agent/names.go:465-504 | a name is read exactly when a chain of labels and at most 16 pointers spells it; what a pointer and a length byte mean is `PointerReads` and `LabelReads` |
| DnsName.PointerReads | internal/scanner/agent/names.go:481-493 | the bytes 0xC0 + off/256, off%256 read as the name at off, ending two bytes on, and fail exactly when that name fails |
| DnsName.LabelReads | internal/scanner/agent/names.go:494-501 | a length byte below 0xC0 and as many bytes read as that label followed by what comes after |
| DnsName.SkipName | internal/scanner/agent/names.go:441-459 | the loop computes the recursive skip |
| DnsName.SkipAgreesWithRead | internal/scanner/agent/names.go:441-504 | whenever a name can be read it can be skipped, to the same offset |
| DnsName.AppendDNSName | internal/scanner/agent/names.go:365-374 | appends the encoding of the dot-separated parts |
| DnsName.RoundTrip | internal/scanner/agent/names.go:365-374 | an encoded name reads back as itself, in any buffer, at the old length, ending at the new one |
| DnsName.CompressedRoundTrip | internal/scanner/agent/names.go:461-504 | labels and a pointer to other labels written anywhere before 0x4000 read back as the joined name |
| DnsName.JoinSnoc | internal/scanner/agent/names.go:465-504 | one more label goes behind a dot |
| DnsName.RoundTripExactly | internal/scanner/agent/names.go:365-374 | the dotted name comes back exactly when every label is shorter than 192 bytes |
| DnsName.LongLabelIsLost | internal/scanner/agent/names.go:365-374 | the name of one 192-byte label is not read back, whatever stands around it |
| MdnsLookup.ParseMDNSPTRResponse | internal/scanner/agent/names.go:380-433 | the loops compute the record-by-record reading of a response, with its failures |
| MdnsLookup.ResponseNamesTheHost | internal/scanner/agent/names.go:380-433 | a well-formed message, compressed or not, yields the first PTR name that is not empty |
| MdnsLookup.FoundIsFirst | internal/scanner/agent/names.go:404-433 | the name found is that of a type 12 record without its trailing dot, and every such record before it names nothing |
| MdnsLookup.EncodedIsWellFormed | internal/scanner/agent/names.go:380-433 | every message of uncompressed records, written out, is well-formed |
| MdnsLookup.PlainAnswerIsRead | internal/scanner/agent/names.go:380-433 | a single uncompressed PTR answer is read back as its name |
| MdnsLookup.CompressedAnswerIsRead | internal/scanner/agent/names.go:380-504 | a PTR answer of labels and a pointer to the rest of the name is read back as the joined name |
| MdnsLookup.AnswerBytesAreRead | internal/scanner/agent/names.go:380-433 | the response with one question and one PTR record, given byte by byte, is read back as its name |
| MdnsLookup.MdnsReverseRequest | internal/scanner/agent/names.go:340-361 | the request is the header with one question, the four octets in reverse as decimal labels under in-addr.arpa, type PTR and class IN with the unicast bit; its name can be read back |
| Subnets.SubnetStore.EnsureNoSubnetOverlap | internal/store/ipam.go:335-350 | succeeds exactly when no other subnet shares an address with the CIDR |
| Subnets.SubnetStore.CreateSubnet | internal/store/ipam.go:170-184 | creates exactly when nothing overlaps, and keeps the subnets disjoint |
| Subnets.SubnetStore.UpdateSubnet | internal/store/ipam.go:186-201 | checks the other subnets before it looks for the row, and keeps the subnets disjoint |
| Subnets.SubnetStore.DeleteSubnet | internal/store/ipam.go:203-212 | removes the row or reports it missing |
| Subnets.SubnetStore.ImportSubnets | internal/store/portability.go:105-130 | one upsert keyed by CIDR per row |
| Subnets.SubnetStore.ImportFile | internal/app/portability.go:408-450 | a file with one bad row changes nothing; an applied one keeps the subnets disjoint |
| Subnets.ValidateSubnets | internal/app/portability.go:154-250 | verdict, counters and accepted rows of every row against the rows before it and the table |
| Subnets.ReportAddsUp | internal/app/portability.go:154-250 | the counters count the verdicts of their kind, and without an error every row is to be written |
| Subnets.RowIsJudged | internal/app/portability.go:154-250 | each row is judged against the rows accepted before it and the table |
| Subnets.WrongCellIs | internal/app/portability.go:170-201 | the first wrong cell of a row is the one reported: name, CIDR, VLAN, then site |
| Subnets.NetworkVerdictIs | internal/app/portability.go:202-226 | with the cells right a row is new exactly when it shares no address with an accepted row or a stored subnet, and an update exactly when its network is stored and meets no accepted row |
| Subnets.CleanFileIsWhole | internal/app/portability.go:154-250 | a file without an error asks for one subnet per row, column by column the one written there |
| Subnets.AcceptedAreDisjoint | internal/app/portability.go:154-250 | accepted rows are disjoint from each other and equal to or disjoint from every stored subnet |
| Subnets.UpsertKeepsValid | internal/store/portability.go:105-130 | upserting such rows keeps the subnets disjoint |
| Subnets.UpsertsWriteRows | internal/store/portability.go:105-130 | after an import every row is stored, a stored subnet has taken over the row of its network and kept its id, and nothing else changed |
| Subnets.FileIsWritten | internal/app/portability.go:408-450 | a file with a bad row leaves the table as it is; any other leaves exactly the subnets its rows ask for besides those stored before |
| Subnets.SubnetsStayDisjoint | internal/store/ipam.go:170-212 | over every run of create, update, delete and import the subnets stay pairwise disjoint |
| Subnets.ContainingSubnetUnique | internal/store/discoveries.go:379-387 | at most one subnet contains an address |
| Subnets.ContainingSubnet | internal/app/portability.go:56-68 | the longest-prefix scan finds a containing subnet when there is one, and the only one |
| Subnets.CidrsOverlapIsIntersection | internal/app/policy.go:202-204 | the two-sided containment test holds exactly when the address sets meet |
| Subnets.EvaluateOverlaps | internal/app/policy.go:167-197 | the findings are exactly the pairs that share an address, each once |
| Subnets.EvaluateStoredOverlaps | internal/app/policy.go:167-197 | there are none in a table the program wrote |
| DiscoveryStore.Store.ReconcileDiscovery | internal/store/discoveries.go:191-245 | new, match or conflict from the address, its device's MACs and the MAC's other addresses |
| DiscoveryStore.Store.UpsertDiscovery | internal/store/discoveries.go:117-185 | the whole new state of one recorded observation, and what it returns |
| DiscoveryStore.Store.FindContainingSubnet | internal/store/discoveries.go:379-387 | the longest containing prefix is the containing subnet |
| DiscoveryStore.Store.BackfillSubnetVLAN | internal/store/discoveries.go:527-537 | the VLAN reaches subnets without one that contain the address |
| DiscoveryStore.Store.ResolveImportDevice | internal/store/discoveries.go:618-639 | the device of the earlier import if it exists, else the owner of the MAC |
| DiscoveryStore.Store.AttachDiscoveryMAC | internal/store/discoveries.go:646-668 | a new MAC goes to the device with its private flag; a known one stays where it is, its empty vendor filled; the built-in table stands in for a vendor the scan lacks |
| DiscoveryStore.Store.ImportDiscoveryDevice | internal/store/discoveries.go:551-613 | the device is reused or created and stamped with the findings |
| DiscoveryStore.Store.ImportDiscovery | internal/store/discoveries.go:367-430 | the whole new state of an import, or an error that changes nothing |
| DiscoveryStore.Store.SyncImportedDiscovery | internal/store/discoveries.go:449-521 | the whole new state of a sync; what it writes is `RowLaws.SyncWrites` |
| DiscoveryStore.Store.DismissDiscovery | internal/store/discoveries.go:347-358 | dismisses anything not imported |
| DiscoveryStore.Store.MaybeAutoImport | internal/scanner/orchestrator/orchestrator.go:237-255 | imports exactly pending, unconflicted observations of a trusted agent that have a subnet |
| DiscoveryStore.Store.RecordDiscoveries | internal/scanner/orchestrator/orchestrator.go:187-231 | a scan's effect, observation by observation, and its audit counts: what was usable, what was pending and is imported, what was imported and agrees |
| DiscoveryStore.TallyAddsUp | internal/scanner/orchestrator/orchestrator.go:187-231 | every usable observation is counted as recorded, at most one of import and sync happens to it, and an untrusted agent imports nothing |
| DiscoveryStore.Store.DeleteAddress | internal/store/ipam.go:304-333 | the address goes, and the device that had no other |
| DiscoveryStore.Store.DeleteDevice | internal/store/devices.go:224-245 | the device goes with its addresses and MACs, or nothing changes |
| DiscoveryStore.Store.CreateAddress | internal/store/ipam.go:242-265 | the row is created exactly when the address is in the subnet and no constraint breaks |
| DiscoveryStore.Store.UpdateAddress | internal/store/ipam.go:282-302 | the edit is applied exactly when the address is in its subnet and no constraint breaks |
| RowLaws.ReconciledIs | internal/store/discoveries.go:191-245 | new exactly when no row has the IP and no address belongs to the MAC's device; match exactly when the row is not deprecated and the MAC is unseen, the device's own, or the device has none |
| RowLaws.ObservationWrites | internal/store/discoveries.go:117-185 | column by column the row an observation leaves: what was seen wins, what was not stays; the address seen gets the time, and no other table changes |
| RowLaws.ImportWrites | internal/store/discoveries.go:367-430 | column by column what an import writes to subnet, device, MAC, address and discovery, and that it writes nothing else |
| RowLaws.SyncWrites | internal/store/discoveries.go:449-521 | each non-empty fact of the row is the device's and each empty one leaves the device's; name kept, source set, MAC recorded, missing hostname and VLAN filled; otherwise nothing changes |
| RowLaws.ScanReachesDevice | internal/scanner/orchestrator/orchestrator.go:257-276 | what a scan saw of an imported host is on its device, and its MAC is recorded |
| RowLaws.TrustedScanManages | internal/scanner/orchestrator/orchestrator.go:233-255 | a trusted agent's unconflicted observation of a pending host in a subnet leaves it with an address row, a device and the link to both |
| RowLaws.PrivateBits | internal/macaddr/macaddr.go:44-68 | a MAC is private exactly when its first octet is 2 modulo 4: the local bit set, the group bit clear |
| RowLaws.VendorByOui | internal/macaddr/macaddr.go:44-68 | the vendor is looked up by the first three octets, and never for a private MAC |
| RowLaws.DeletingADevice | internal/store/devices.go:224-245 | exactly its addresses and its MACs go with a device, and references are cleared exactly where their row is gone |
| RowLaws.DeletingAnAddressClears | internal/store/ipam.go:304-333 | discoveries lose a reference exactly when its row is gone and are otherwise unchanged |
| RowLaws.SubnetWriteClears | internal/db/migrations.go:82-93 | a subnet write changes no other table, except that addresses of a deleted subnet stay without one |
| DiscoveryLaws.RunKeepsValid | internal/db/migrations.go:62-102 | every run of scans, imports, dismissals, created, edited and deleted addresses, deleted devices and subnet writes keeps uniqueness, foreign keys and disjoint subnets |
| DiscoveryLaws.ScanReviews | internal/scanner/orchestrator/orchestrator.go:187-255 | the status a scan leaves, in every case: dismissed stays; an import whose address row is gone is pending again when the IP is unmanaged and the MAC not bound elsewhere; what is pending is imported exactly for a trusted agent, without conflict and with a subnet |
| DiscoveryLaws.DismissedStays | internal/store/discoveries.go:347-358 | over a whole run only an operator's import ends a dismissal |
| DiscoveryLaws.ReopenedOnlyAfterDeletion | internal/store/discoveries.go:158-168 | over a whole run a discovery imported at an address returns to pending only once that address row is deleted |
| ImportLaws.BackfillWritesOneRow | internal/store/discoveries.go:523-537 | the backfill writes to the containing subnet only, and only over no VLAN |
| ImportLaws.UntrustedScansOnlyRefresh | internal/scanner/orchestrator/orchestrator.go:187-276 | the scans of an agent without auto-import create, delete and rename no subnet, address or device and move no MAC |
| ImportLaws.ConflictChangesNothingManaged | internal/scanner/orchestrator/orchestrator.go:237-276 | a conflicting observation changes nothing managed except the last-seen time at its address |
| ImportLaws.ReobservationMatchesIff | internal/store/discoveries.go:191-245 | after an import the same observation is a match exactly when the address was not deprecated and the MAC is free, the device's own, or the device has none; else a conflict |
| ImportLaws.ImportMayConflict | internal/store/discoveries.go:191-245 | a host imported at a deprecated address is a conflict when seen again |
| ImportLaws.FirstImportMatches | internal/store/discoveries.go:367-430 | a first-seen host without a conflict, imported, is a match when seen again |
| ImportLaws.ImportedHostIsOnlyRefreshed | internal/scanner/orchestrator/orchestrator.go:257-276 | seeing an imported host again creates no subnet, address, device or discovery, whoever reports it; at most its MAC is attached to its device |
| ImportLaws.ImportTouchesOneOfEach | internal/store/discoveries.go:367-430 | an import creates at most one address, device and MAC and leaves the other rows alone |
| ImportLaws.ImportIsIdempotent | internal/store/discoveries.go:539-550 | importing again reuses device and address and changes only the last-seen time |
| ImportLaws.ReimportCreatesNothing | internal/store/discoveries.go:539-550 | under another name it also renames that device; subnets, MACs and discoveries stay as they are and addresses change in the last-seen time only |
| ImportLaws.DeletingAnAddress | internal/store/ipam.go:304-333 | exactly the device without another address goes too, with exactly its MACs |
| ImportLaws.DeletedThenReopened | internal/store/discoveries.go:158-168 | after its address is deleted the next sighting reopens an import, unless the MAC answers elsewhere |
| Scope.ValidateAgentScope | internal/scanner/protocol.go:285-306 | accepts exactly the jobs whose allowlist lies in the agent's and whose targets each lie in one allowed prefix, and otherwise gives the first reason |
| Scope.AcceptedIff | internal/scanner/protocol.go:248-327 | a job is accepted exactly when it has none of the twelve faults, and the reason given is the first fault it has |
| Scope.ValidateTarget | internal/scanner/protocol.go:353-379 | a target passes exactly when one entry holds all its addresses |
| Scope.ParseAllowedPrefixes | internal/scanner/protocol.go:338-351 | parses exactly lists of IPv4 CIDRs, to their masked prefixes |
| Scope.AcceptedTargetsInside | internal/scanner/protocol.go:280-306 | every target of an accepted job lies inside one agent prefix |
| Scope.ParseScopePrefixes | internal/scanner/agent/snmp.go:849-859 | the filter prefixes hold exactly the allowed IPv4 addresses |
| Scope.ScopeFromTargets | internal/scanner/agent/dhcp.go:127-141 | the lease filter holds exactly the targets' addresses |
| Scope.Discover | internal/scanner/agent/snmp.go:180-283 | a source reports exactly the in-scope addresses of its answers, an inventory without one falling back to the queried host; each once, but the name and DNS sources once per target that names it |
| Scope.ReportedAre | internal/scanner/agent/snmp.go:180-283 | source by source which addresses are reported, told by targets, replies and leases alone |
| Scope.DiscoverForAgent | internal/scanner/agent/combined.go:166-188 | an accepted job, or a combined scan's pass of it, reports no address outside the agent's allowlist |
| Budget.EstimateTargetHosts | internal/scanner/budget.go:28-46 | for fewer than 2^31 IPv4 targets the 64-bit sum is the true one, at least 1 |
| Budget.TotalCovers | internal/scanner/budget.go:25-27 | the estimate bounds the number of distinct addresses the targets denote |
| Budget.TotalIsExact | internal/scanner/budget.go:25-46 | on prefixes and addresses that do not overlap the count is the number of addresses |
| Budget.DenotedSize | internal/scanner/budget.go:28-46 | an IPv4 prefix or address counts for exactly its addresses, a blank for none and any other string for one |
| Budget.ScanBudget | internal/scanner/budget.go:56-71 | the budget is min(4 h, per-host time hosts times + 150 s) in nanoseconds, without overflow |
| Budget.Deadlines | internal/scanner/orchestrator/orchestrator.go:145-150 | the app waits 60 s longer than the agent for every positive timeout |
| Egress.ClassificationIsExact | internal/scanner/agent/nmap.go:378-416 | local, straddling and routed are inside, strictly around and apart from the source subnet, also when it carries a host address |
| Egress.PlanEgress | internal/scanner/agent/nmap.go:330-367 | the sets and notices of each pin mode; in auto mode pinned sets leave by the interface and hold exactly the occurrences inside the source subnet, the others carry no pin and hold exactly the rest, and the notices are exactly the straddling ones |
| Egress.PlacesInOrder | internal/scanner/agent/nmap.go:342-358 | a set holds, in order, exactly the occurrences of its class |
| Egress.AutoPlanConserves | internal/scanner/agent/nmap.go:321-329 | every occurrence of a target is of exactly one class: pinned when it lies in the source subnet, noticed when it straddles it |
| ImportAll.ContainingTargetCIDR | internal/app/discoveries.go:461-483 | the loop keeps the first of the longest eligible networks |
| ImportAll.SuggestSubnetCIDR | internal/app/discoveries.go:442-454 | that network, else the /24 |
| ImportAll.BestIsMostSpecific | internal/app/discoveries.go:456-483 | the network found is scanned, holds the host, and lies inside every scanned network that does; none is found only when there is none |
| ImportAll.SuggestionCovers | internal/app/discoveries.go:433-454 | a suggestion always contains its host |
| ImportAll.SuggestionIs | internal/app/discoveries.go:433-483 | the smallest scanned network of more than one address that holds the host, or the /24 around it when there is none |
| ImportAll.MissingSubnetGroups | internal/app/discoveries.go:402-431 | one group per suggestion of a homeless target, in network order |
| ImportAll.GroupIsItsTargets | internal/app/discoveries.go:388-421 | there is a group exactly for the networks suggested for a homeless target; it counts these targets, the first represents it, and it has the first known VLAN |
| ImportAll.GroupsAddUp | internal/app/discoveries.go:402-431 | the counts add up to the homeless targets; no group means none |
| ImportLoop.SaveSubnet | internal/app/discoveries.go:184-223 | a save is accepted exactly when the CIDR covers the host, if the form names one, and overlaps nothing |
| ImportLoop.SaveShrinksHomeless | internal/app/discoveries.go:244-256 | an accepted save for a homeless host leaves strictly fewer |
| ImportLoop.LoopTerminates | internal/app/discoveries.go:147-262 | there are at most as many accepted saves as homeless hosts |
| ImportLoop.SomeSaveIsAccepted | internal/app/discoveries.go:206-220 | the /32 of a homeless host is always accepted |
| ImportLoop.SuggestionAcceptedIff | internal/app/discoveries.go:433-454 | the suggestion is accepted exactly when it overlaps no managed subnet |
| ImportLoop.SuggestionMayBeRefused | internal/app/discoveries.go:433-454 | beside a managed /25 the /24 suggested for a lone host is refused |
| ImportLoop.PromptsForHomeless | internal/app/discoveries.go:334-345 | each prompt is for a homeless host; there is none exactly when every host has a home |
| ImportLoop.ListPendingImportTargets | internal/store/discoveries.go:271-294 | exactly the pending, unconflicted discoveries, by address, with their containment |
| ImportLoop.ListingTells | internal/store/discoveries.go:271-294 | the listed targets are the pending, unconflicted discoveries with their columns, marked by whether a subnet holds them |
| ImportLoop.ImportTargets | internal/app/discoveries.go:266-284 | imports exactly the listed discoveries with a subnet, and counts them |
| ImportLoop.ImportEverything | internal/app/discoveries.go:147-182 | prompts without importing while a host is homeless, else imports every importable discovery and nothing else |
| Scheduler.WindowFromSchedule | internal/scanner/orchestrator/windows.go:61-85 | the resolved window allows exactly the listed weekdays and the arc of the clock from start to end |
| Scheduler.ArcIsInterval | internal/scanner/orchestrator/windows.go:46-54 | the two comparisons decide the arc, around midnight too |
| Scheduler.WindowIs | internal/scanner/orchestrator/windows.go:31-85 | a window in clock terms: a listed weekday, and from the start minute up to but not including the end minute, around midnight when it ends first |
| Scheduler.ScheduleTable.ListDueScanSchedules | internal/store/scans.go:491-516 | exactly the enabled schedules whose time has come, earliest first |
| Scheduler.ScheduleTable.MarkScanScheduleRan | internal/store/scans.go:590-598 | moves the next run one interval past the mark |
| Scheduler.ScheduleTable.UpdateScanSchedule | internal/store/scans.go:408-432 | an edit takes over every column of the form and leaves the run times alone |
| Scheduler.ScheduleTable.RunDueSchedules | internal/scanner/orchestrator/orchestrator.go:331-348 | fires and marks exactly the due schedules their window allows |
| Scheduler.FiresAreSpaced | internal/scanner/orchestrator/orchestrator.go:331-348 | two consecutive fires are at least the interval in force at the first apart, edits in between or not, and fall in the window |
| Scheduler.StaysDueUntilAllowed | internal/scanner/orchestrator/orchestrator.go:326-330 | a due schedule outside its window stays due and fires at the first tick the window allows |
| Lockout.LoginAttempts.RecentLoginFailures | internal/store/login_attempts.go:31-53 | count and latest of the failures in the window, for the username and for the address |
| Lockout.StatsCountRows | internal/store/login_attempts.go:31-53 | the failures counted for a key are its rows in the window, each once |
| Lockout.LoginAttempts.ClearLoginFailures | internal/store/login_attempts.go:56-61 | removes the username's rows and no other |
| Lockout.LoginAttempts.Throttled | internal/app/app.go:1095-1112 | a login is blocked exactly when one of its keys is locked |
| Lockout.LockedIff | internal/app/lockout.go:29-47 | locked means the limit is reached in the window and the latest failure is within the cooldown, for either key; the wait ends one cooldown after the latest failure, the later of the two keys |
| Lockout.FailuresBounded | internal/app/app.go:1095-1134 | in a span shorter than the cooldown whose failures no success deletes at most MaxAttempts + k - 1 failures are recorded for a username or an address with k of its requests at once |
| Lockout.BoundIsReached | internal/app/app.go:1095-1134 | for every policy, username or address, and k a run records that many |
| Lockout.LimitHoldsIff | internal/app/lockout.go:29-47 | MaxAttempts itself bounds every such span exactly when k is 1 |

## Left out

- HTTP handlers, sessions, templates, audit records, webhooks, custom fields, tags and the CLI.
- The backends themselves: nmap, SNMP, sockets, DNS servers and lease files are functions or parameters; a backend answers the same sub-job the same way.
- Text: parsing of CIDRs, addresses, CSV cells and host names, wording of messages, evidence and conflict notes, notes columns. Names and labels passed in are already trimmed.
- IPv6: allowlists, targets and the budget classify IPv6 strings; discoveries, subnets and addresses are IPv4.
- SQL: a statement or transaction is atomic and never fails for reasons outside the model; concurrent writers between statements are not modelled. Lists a query returns unordered come in any order.
- Cancellation of a running scan, which leaves a prefix of the hosts dispatched.
- Go slices are values: sharing of backing arrays is not expressible, so the copies `mergeObservations` takes to keep its inputs unmodified have no counterpart.
- Device suggestions (`goldHardwareCandidate`, `sameHardwareCandidate`) and the dismissal of a suggestion; the auto-link takes the dismissed pairs as a parameter.
- `DeleteDevice` and hardware groups: deleting a device does not dissolve a group of one, so the group invariant is stated for link and unlink calls. The group column is part of `DeviceLinks` only; the auto-link that follows an import or a sync writes nothing else.
- The agent's name is the one recorded with the observation; renaming or deleting an agent or a job is not modelled.
- VLANs are 0 to 4094, the range the database allows.
- Address and device CSV imports, and operator-created devices and operator edits of devices and MACs.
- The generated name `host-<ip>` is a parameter, and the order of groups with equal network address is any.
- The scan filter of `internal/scanner/agent/neighbors.go` is `NeighborTable` in `Scope`; its merge is in `Combined`. Passive mode reports nothing and is not modelled.
- Per-host timeouts are 32-bit, as the database stores them.
- Scheduler.ScheduleTable.RunDueSchedules: an edit between the listing of a schedule and its mark is not modelled, and marking never fails.
- Lockout: the check and the record read one clock, and database errors, after which the handler carries on without the throttle, are not modelled.
