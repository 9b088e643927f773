# dn42regsrv core, modelled in Dafny

This project models the logic of dn42regsrv, the DN42 registry server, and
of its two static pages:

- **Free-space explorer** (`StaticRoot/free.js`):
  - the IPv4 view: `parse4`, sorting the inetnum prefixes, the recursive
    `scanSubnets` that reports the free blocks, the 172.20.0.0/14
    statistics, and the random pick of free blocks by length;
  - the IPv6 view: `parse6` with its `::` expansion, the netspace counter,
    the `check6` covering test, and the generation of /48 candidates in
    fd00::/8;
  - the ASN view: the free numbers among AS4242420000 to AS4242423999.
- **Registry** (`registry.go`):
  - the column-format attribute parser;
  - schema parsing: types, keys and `lookup=` relations;
  - validation, `GetKey` and `GetSingleKey`;
  - the key index, backlinks, and decoration of attribute values with
    links.
- **ROA generator** (`roaapi.go`): filter-file parsing and ordering, the
  first-match filter, the max-length rule, one ROA per origin, the JSON
  metadata, and the BIRD statements.
- **DNS root zone** (`dnsapi.go`): NS, stub A/AAAA and DS records for the
  authoritative and forward zones, and the BIND line format.
- **Registry explorer page** (`StaticRoot/explorer.js`): splitting links,
  the line-break decoration, the case-insensitive object search, and the
  state the search page moves to.
- **Registry JSON API** (`regapi.go`): which types and objects a request
  selects, and the shape of the response.

How the source is carried into the model:

- **JavaScript numbers** are `int`/`nat`. `>>> 0` is an explicit
  `% 2^32`, and the bitwise operators are functions on naturals, proved
  equal to the arithmetic they stand for.
- **BigInt arithmetic** in `parse6` is exact, as in the source. The mask
  literal at free.js line 427 keeps its rounding to 2^64.
- **Go integer conversions** (`uint`, `uint8`, `uint32`) are written as
  reductions modulo 2^64, 2^8 and 2^32.
- **Objects the source updates in place are classes:** the three
  free-space views, registry attributes, objects and type schemas, the
  ROA data, the DNS zone and the search page. Their methods are proved
  against specification functions, and lemmas state what those functions
  promise.
- **Randomness** (`Math.random`) is a sequence of draws in [0, 1) given as
  a parameter.
- **The current time** (`time.Now`) is a parameter.
- **Go's map iteration order** is an order parameter whose contents are
  pinned down, or a nondeterministic enumeration of the map's keys.
- **The prefix parser** `net.ParseCIDR` is a parameter `parse`, and
  `IPNet.Contains` is a bit-prefix test on abstract networks.
- **Lookups in `roaapi.go` and `dnsapi.go`** that rely on registry
  functions outside `registry.go` (`GetObject`, `KeyIndex[..].Objects`,
  `Commit`) are maps and values given as parameters.

## Model

| member | source | states |
|---|---|---|
| `FreeIPv4.WithLength` | StaticRoot/free.js:100-109 | parse4 returns an object for every length. It is a prefix (subnet, mask 2^32 − 2^(32−plen), plen) exactly when the length is a number in 0..32. Otherwise it is a bad-length entry that keeps the address and the length. |
| `FreeIPv4.Parse4Format4` | StaticRoot/free.js:81-109 | Parsing the "a.b.c.d/len" text of any block gives that block back, with its mask. |
| `FreeIPv4.LengthInRange` | StaticRoot/free.js:100-102 | A length within 0..32 gives the subnet, the mask of that length, and the length. |
| `FreeIPv4.FormatSplits` | StaticRoot/free.js:82-88 | The printed form has no '_' to replace. It splits into exactly two '/' parts, and the address part splits into the four octet texts. |
| `FreeIPv4.OctetsRoundTrip` | StaticRoot/free.js:94-98 | The shifted sum of the four parsed octets of a 32-bit address is that address. |
| `FreeIPv4.BytesValue` | StaticRoot/free.js:94-98 | The shifted sum of the octets of a 32-bit address is the address. |
| `FreeIPv4.Scan` | StaticRoot/free.js:169-259 | A scan of a node consumes only entries nested in the node and leaves the cursor past it. Its blocks ascend without overlap inside the node's range. |
| `FreeIPv4.Bisect` | StaticRoot/free.js:238-258 | The descendant test splits the node in two when the cursor entry lies inside it, and otherwise emits the node. The result obeys the same bounds as a scan. |
| `FreeIPv4.Descendants` | StaticRoot/free.js:196-220 | The loop under a closed exact match consumes exactly the entries nested in the node. Its blocks lie between the first of them and the node's end. |
| `FreeIPv4.InsideIff` | StaticRoot/free.js:239-240 | `(x & mask) == subnet` holds exactly for the addresses of the block. |
| `FreeIPv4.Masked4` | StaticRoot/free.js:239-240 | The masked comparison computed with the bitwise AND and `>>> 0` is true exactly for the addresses inside the node. |
| `FreeIPv4.MaskStep` | StaticRoot/free.js:245 | The node's mask with the next bit set is the mask one bit longer. |
| `FreeIPv4.HalfBits` | StaticRoot/free.js:247-248 | Clearing the next bit keeps an aligned subnet, and setting it adds half the block size. |
| `FreeIPv4.NextBit` | StaticRoot/free.js:243-244 | `2 ** (32 - plen) >>> 0` after the increment is the size of a half, below 2^32. |
| `FreeIPv4.NextMask` | StaticRoot/free.js:245 | `(mask \| bit) >>> 0` is the mask of the halves. |
| `FreeIPv4.LowHalf` | StaticRoot/free.js:247 | `(subnet & ~bit) >>> 0` is the node's own subnet. |
| `FreeIPv4.HighHalf` | StaticRoot/free.js:248 | `(subnet \| bit) >>> 0` is the node's subnet plus half its size. |
| `FreeIPv4.Halves4` | StaticRoot/free.js:243-248 | The split step computes the mask one bit longer, the lower half (the node itself) and the upper half (the node plus half its size). |
| `FreeIPv4.InScopeIff` | StaticRoot/free.js:160-161 | `(subnet & 0xFFFC0000) >>> 0 == 0xAC140000` holds exactly for the addresses 172.20.0.0 to 172.23.255.255. |
| `FreeIPv4.ScanAllTiles` | StaticRoot/free.js:262-270 | The blocks of the root scan are well formed, aligned and ascending, and do not overlap, across the whole 32-bit space. |
| `FreeIPv4.ScanAllFree` | StaticRoot/free.js:169-270 | An address lies in an emitted block if and only if no entry covers it, or the longest entry covering it has policy "open". |
| `FreeIPv4.DecideFree` | StaticRoot/free.js:185-221 | Folding the sorted list so that the last covering entry decides gives exactly the free addresses. |
| `FreeIPv4.LaterCoverLonger` | StaticRoot/free.js:136-143 | Of two entries in sorted order that cover the same address, the later one is the longer. |
| `FreeIPv4.ScanNothing` | StaticRoot/free.js:172-179 | With no prefixes the scan emits exactly one block, 0.0.0.0/0 with mask 0. |
| `FreeIPv4.ScanClosedRoot` | StaticRoot/free.js:185-221 | A single non-open 0.0.0.0/0 entry leaves no free block. |
| `FreeIPv4.ScanExactClosed` | StaticRoot/free.js:191-221 | A closed exact match moves to the descendant loop after the entry. |
| `FreeIPv4.ScanExactOpen` | StaticRoot/free.js:223-236 | An open exact match is stepped over, and the node is then split or emitted. |
| `FreeIPv4.ScanOther` | StaticRoot/free.js:238-258 | A cursor entry that is not the node itself goes straight to the descendant test. |
| `FreeIPv4.BisectEmit` | StaticRoot/free.js:250-258 | An entry outside the node leaves the node free: it is emitted whole, and the cursor does not move. |
| `FreeIPv4.DescendStop` | StaticRoot/free.js:196-202 | The descendant loop stops at the first entry outside the node, or at the end of the list, and emits nothing. |
| `FreeIPv4.DescendOpen` | StaticRoot/free.js:205-210 | An open descendant is scanned as a node of its own, and the loop continues after it. |
| `FreeIPv4.DescendClosed` | StaticRoot/free.js:211-218 | A closed descendant is skipped without emitting anything. |
| `FreeIPv4.ScanAdvances` | StaticRoot/free.js:185-236 | Scanning a node that is itself the cursor entry consumes that entry. |
| `FreeIPv4.SplitPastHostAsWritten` | StaticRoot/free.js:238-248 | As written, at a node of length 32 or more, `bit` is 0. Both halves are then the node itself with the same mask, so the recursion does not end. |
| `Prefixes4.LastValueSpec` | StaticRoot/free.js:120-123 | `attrib[a[0]] = a[1]` yields None exactly when no attribute has the key. Otherwise it yields the value of the last attribute that has it. |
| `Prefixes4.Contribute` | StaticRoot/free.js:116-133 | A missing cidr aborts the processing. A cidr that is not a dotted quad with one '/' adds nothing. Any other cidr adds its entry, whatever its length, with the object's policy. |
| `Prefixes4.Collect` | StaticRoot/free.js:115-133 | There is at most one entry per object, and every good entry has a length within 0..32. |
| `Prefixes4.CollectCount` | StaticRoot/free.js:126-131 | The list has one entry per object whose cidr parses, bad lengths included. |
| `Prefixes4.CollectSucceeds` | StaticRoot/free.js:116-133 | Collecting succeeds exactly when every object has a cidr attribute. |
| `Prefixes4.CompareOrder` | StaticRoot/free.js:136-143 | The comparator is antisymmetric, orders by subnet and then by length, and is zero exactly on equal (subnet, plen). |
| `Prefixes4.SortPrefixesSpec` | StaticRoot/free.js:136-146 | After processIPv4, p4 is ordered by (subnet, plen) and is a permutation of the collected prefixes. |
| `Prefixes4.SortedWf` | StaticRoot/free.js:136-146 | A sorted list of well-formed prefixes without two equal (subnet, plen) keys is one the scan accepts. |
| `Prefixes4.OfLengthCount` | StaticRoot/free.js:276-282 | The filtered list keeps every free block of the selected length, as often as it occurs, and no other block. |
| `Prefixes4.RemoveCount` | StaticRoot/free.js:301 | `tlist.splice(ix, 1)` takes out exactly one occurrence of the picked block. |
| `Prefixes4.PicksSpec` | StaticRoot/free.js:287-302 | Ten blocks are drawn, or all of them when fewer are left. Every drawn block comes from the list, and none is drawn more often than it occurs there. |
| `Prefixes4.FilterPickAsWrittenOverruns` | StaticRoot/free.js:289-290 | As written, `Math.round(r * n)` can equal n for every non-empty list, so `tlist[ix]` is undefined. |
| `Prefixes4.TextsAppend` | StaticRoot/free.js:293-298 | Each picked block adds its own "a.b.c.d/len" text after the texts so far. |
| `FreeView4.Free4View.constructor` | StaticRoot/free.js:21-44 | The view starts invalid, with empty lists, zero counters and filter 27. |
| `FreeView4.Free4View.Reload` | StaticRoot/free.js:58-63 | reload empties p4 and shows "loading". free4 is not cleared. |
| `FreeView4.Free4View.ProcessIPv4` | StaticRoot/free.js:113-155 | The selected prefix length is kept on every path. A missing cidr leaves the view in error with the lists, the counters, the cursor and the filtered list unchanged. Otherwise p4 is the sorted prefix list and alloc its length, the scan is appended to free4, the cursor ends at the end of p4, the filter is applied, and the view is ready. |
| `FreeView4.Free4View.Rebuild` | StaticRoot/free.js:146-154 | Once the prefixes are sorted, p4 is replaced, the scan is appended, the cursor ends at the end of p4, the list is refiltered on the unchanged prefix length, and the view is ready. |
| `FreeView4.Free4View.Rescan` | StaticRoot/free.js:145-149 | p4 is replaced by the sorted prefixes, the scan of them is appended to free4, the counters describe that scan alone, and the cursor ends at the end of p4. |
| `FreeView4.Free4View.UpdateFree4` | StaticRoot/free.js:262-271 | The counters and the cursor are reset, and the root scan is appended to free4, which is not cleared. The cursor ends past every entry. |
| `FreeView4.Free4View.UpdatePrefixLen` | StaticRoot/free.js:309-329 | The selected length is stored and the free blocks are filtered again. |
| `FreeView4.Free4View.FilterFree` | StaticRoot/free.js:274-305 | ftotal counts the free blocks of the selected length. filtered holds the texts of the blocks drawn from them, up to ten. |
| `FreeView4.Free4View.Stats4` | StaticRoot/free.js:158-166 | nets grows by 1 and addr by 2^(32−plen) exactly for a block in 172.20.0.0/14. Otherwise neither changes. |
| `FreeView4.Free4View.Emit` | StaticRoot/free.js:173-178 | A free block is counted and appended to free4. |
| `FreeView4.Free4View.ScanSubnets` | StaticRoot/free.js:169-259 | The blocks of the node's scan are appended to free4 and counted. The cursor moves exactly past the entries nested in the node. |
| `FreeView4.Free4View.ScanExact` | StaticRoot/free.js:185-236 | When the cursor entry is the node itself, the method appends what Scan prescribes. |
| `FreeView4.Free4View.ScanPastOpen` | StaticRoot/free.js:223-236 | An open exact match is stepped over. The node is emitted if the list ends, and otherwise split or emitted as Scan prescribes. |
| `FreeView4.Free4View.SplitSubnet` | StaticRoot/free.js:238-258 | The descendant test: split the node when the cursor entry lies inside it, and otherwise emit the node whole. |
| `FreeView4.Free4View.ScanHalves` | StaticRoot/free.js:242-248 | The lower half is scanned, then the upper half from where the lower half left the cursor. |
| `FreeView4.Free4View.ScanChildren` | StaticRoot/free.js:194-220 | Under a closed exact match, open descendants are rescanned and closed ones are skipped, until an entry outside the node. |
| `FreeView4.Free4View.ScanChild` | StaticRoot/free.js:196-218 | One descendant is handled: the cursor strictly advances, and the loop's remaining result is unchanged. |
| `FreeView4.Free4View.RescanChild` | StaticRoot/free.js:205-210 | An open descendant is scanned as a node of its own. |
| `FreeIPv6.Parse6Spec` | StaticRoot/free.js:396-435 | A parsed network has a length of at most 64 and the mask the source computes for that length. |
| `FreeIPv6.Parse6` | StaticRoot/free.js:396-436 | The splice loop and the accumulator loop compute Parse6Spec: a length above 64 or NaN gives undefined, and a NaN group throws. |
| `FreeIPv6.ExpandQuads` | StaticRoot/free.js:410-415 | The groups after '::' expansion are the specified expansion. |
| `FreeIPv6.SpliceZeros` | StaticRoot/free.js:412-414 | `"0"` groups are inserted at the first empty group until there are eight. Eight or more groups are left alone. |
| `FreeIPv6.QuadsNumber` | StaticRoot/free.js:418-424 | The first four groups are accumulated base 65536. The result is None where `BigInt(NaN)` throws. |
| `FreeIPv6.QuadsValueNaN` | StaticRoot/free.js:420-424 | Once a group is NaN, every longer accumulation throws too. |
| `FreeIPv6.MaskedCandidate` | StaticRoot/free.js:427 | For an even number below 2^64 and a length under 64, `n & mask` with the rounded mask literal keeps the top plen bits. A /64 entry masks every such number to 0. |
| `FreeIPv6.BestUnique` | StaticRoot/free.js:497-517 | The entry check6 settles on is determined by the list and the candidate. |
| `FreeIPv6.Inside48Iff` | StaticRoot/free.js:494-511 | For a /48 network n, `obj.subnet & 0xFFFFFFFFFFFF0000` equals n exactly when the subnet lies in n..n+65535, that is inside n's /48. |
| `FreeIPv6.Check6AcceptsNestedAsWritten` | StaticRoot/free.js:498-517 | With fd00::/8 open and fd12:3456:7800:100::/56 closed, check6 as written settles on the open /8 and accepts fd12:3456:7800::/48 although the closed /56 lies inside it. |
| `FreeIPv6.VacantAllowed` | StaticRoot/free.js:509-521 | A vacant candidate (open cover and nothing registered inside its /48) is one check6 as written accepts too. |
| `FreeIPv6.NetspacePerm` | StaticRoot/free.js:442-466 | The netspace sum does not depend on the order of the registry's objects. |
| `FreeIPv6.NetspaceAppend` | StaticRoot/free.js:459-461 | The netspace of two runs of prefixes is the sum of their netspaces. |
| `FreeIPv6.Sort6Spec` | StaticRoot/free.js:470-481 | p6 is ordered by subnet and then by length, and is a permutation of the collected prefixes. |
| `FreeIPv6.Collect6Fails` | StaticRoot/free.js:445-464 | Once an object throws, so does every longer sequence of objects. |
| `FreeIPv6.Collect6Prefixes` | StaticRoot/free.js:453-462 | Every listed prefix has a length of at most 64 and the mask of that length. |
| `FreeIPv6.QuadsInUla` | StaticRoot/free.js:538-543 | Every candidate drawn is a /48 inside fd00::/8, with its three groups below 65536. |
| `FreeIPv6.QuadsAsWrittenLeaveUla` | StaticRoot/free.js:540-543 | As written, a draw can round to 65536: the text "fdff:10000:0::/48" stands for a network outside fd00::/8. |
| `FreeIPv6.ParseText48` | StaticRoot/free.js:545-559 | Parsing a candidate's text gives back its network number as a /48. |
| `FreeIPv6.QuadValueHex` | StaticRoot/free.js:548 | A group written with `toString(16)` reads back as its value. |
| `FreeIPv6.Free6View.constructor` | StaticRoot/free.js:355-368 | The view starts invalid, with empty lists and zero counters. |
| `FreeIPv6.Free6View.Reload` | StaticRoot/free.js:374-378 | reload empties p6 and shows "loading". |
| `FreeIPv6.Free6View.Check6` | StaticRoot/free.js:492-524 | The corrected check. It gives Some(true) exactly when no entry lies inside n's /48 and the last of the longest entries covering n is open. It gives None exactly when no entry lies inside the /48 and none covers n (the source dereferences a null match). |
| `FreeIPv6.Free6View.Check6AsWritten` | StaticRoot/free.js:492-524 | check6 as written, where the /48 test's `return false` only leaves the forEach callback: None exactly when no entry covers n, otherwise "open" of the last of the longest entries covering n. |
| `FreeIPv6.Free6View.Candidate` | StaticRoot/free.js:545-559 | A candidate's text is "q0:q1:q2::/48" in hexadecimal, and its number is the three groups shifted into the top 48 bits. |
| `FreeIPv6.Free6View.Attempt` | StaticRoot/free.js:535-562 | One draw: the candidate is vacant when the check gives Some(true), and a None comes with an address in fd00::/8 that nothing covers. It uses the corrected check of the free.js:510-515 finding. |
| `FreeIPv6.Free6View.Generate` | StaticRoot/free.js:527-571 | On success, plist is ten candidates, each vacant: an open entry covers it and no registered prefix lies inside its /48. On a throw, or when the draws are used up, plist is unchanged. A throw comes with an address in fd00::/8 that nothing covers. Candidates come through the corrected check of the free.js:510-515 finding. |
| `FreeIPv6.Free6View.ProcessIPv6` | StaticRoot/free.js:440-489 | A throw leaves the view in error. Otherwise p6 is sorted, alloc is its length and nets is netspace / 10^6. The view is ready exactly when generation succeeds, in error when check6 throws, and still loading when the draws are used up. Every generated prefix is vacant. Generation uses the corrected check of the free.js:510-515 finding. |
| `FreeIPv6.Free6View.AddPrefix` | StaticRoot/free.js:454-462 | Each listed prefix joins the list, and the netspace stays the sum of 2^(64−plen) over closed prefixes longer than /8. |
| `FreeIPv6.Free6View.CollectObjects` | StaticRoot/free.js:442-464 | The forEach collects the prefixes in object order with their netspace, and gives None where it throws. |
| `Asn.UsedNumsSpec` | StaticRoot/free.js:637-644 | A number is marked exactly when some name starting with "AS424242" reads as it. |
| `Asn.DnCountSpec` | StaticRoot/free.js:637-643 | The count added to stats.alloc is the number of positions holding a DN42 name, so a repeated name counts each time. |
| `Asn.FreeNumsSpec` | StaticRoot/free.js:647-657 | The free numbers are exactly the unmarked ones in [0, 4000), strictly ascending. |
| `Asn.FreeNumsCount` | StaticRoot/free.js:647-657 | The free list has 4000 entries minus the number of marked numbers in range. |
| `Asn.FreeNamesAt` | StaticRoot/free.js:648-655 | The names list the free numbers position by position, as "AS424242" and four zero-padded digits. |
| `Asn.ZeroPadValue` | StaticRoot/free.js:649-653 | Zero padding keeps the digits and their value, and makes a short number four digits long. |
| `Asn.NameRoundTrip` | StaticRoot/free.js:639-655 | A listed name is a DN42 name of four digits that reads back as its number. |
| `Asn.NamesDistinct` | StaticRoot/free.js:649-655 | Different numbers get different names. |
| `Asn.AsnPicks` | StaticRoot/free.js:667-677 | There are ten picks. Each is a free name when the list is non-empty, and nothing when it is empty. |
| `Asn.PickAsWrittenOverruns` | StaticRoot/free.js:672-673 | As written, `Math.round(r * n)` can index one past the end of any non-empty free list and push undefined. |
| `Asn.AsnView.constructor` | StaticRoot/free.js:594-607 | The view starts invalid, with an empty free list, zero alloc and no picks. |
| `Asn.AsnView.Reload` | StaticRoot/free.js:612-616 | reload empties the free list and shows "loading". alloc is not reset. |
| `Asn.AsnView.ProcessASN` | StaticRoot/free.js:633-663 | alloc grows by the DN42 names, the free names are appended to free, ten picks are drawn, and the view is ready. |
| `Asn.AsnView.MarkUsed` | StaticRoot/free.js:635-644 | The marked numbers are those of the DN42 names, and alloc counts the names. |
| `Asn.AsnView.AppendFree` | StaticRoot/free.js:647-657 | The zero-padded name of every unmarked number below 4000 is appended to free, in order. |
| `Asn.AsnView.Generate` | StaticRoot/free.js:667-678 | alist is replaced by the ten picks. |
| `Registry.MakePathSplit` | registry.go:76-78 | A '/'-free type name is read back from "t/o": the first '/' ends it, and the name follows. |
| `Registry.MakePathInjective` | registry.go:76-78 | Distinct (type, name) pairs give distinct references. |
| `Registry.RegAttribute.constructor` | registry.go:362-365 | A new attribute has its key and raw value, and an empty decorated value. |
| `Registry.RegAttribute.MatchRelation` | registry.go:519-548 | The match succeeds exactly when some relation holds an object named by the raw value. The value then becomes "[raw](ref)" for the first such object, which records the parent as a backlink. Otherwise the value is unchanged. |
| `Registry.RegObject.constructor` | registry.go:273-277 | A loaded object's reference is "type/filename", with the given data and no backlinks. |
| `Registry.RegObject.GetKey` | registry.go:87-97 | Returns the attributes whose key equals the argument, in file order. |
| `Registry.RegObject.GetSingleKey` | registry.go:100-113 | Returns an attribute exactly when one attribute has the key, and then it is that attribute. |
| `Registry.RegObject.AddBacklink` | registry.go:163-177 | The backlinks gain ref unless it is already recorded. |
| `Registry.RegType.constructor` | registry.go:404-407 | A new type has its name and the given objects. |
| `Registry.RegAttributeSchema.constructor` | registry.go:419-421 | A key schema has its fields and no relations. |
| `Registry.RegAttributeSchema.Link` | registry.go:432-468 | The first "lookup=" field's types, minus unknown names, become the key's relations. A key without one keeps its relations. |
| `Registry.RegTypeSchema.constructor` | registry.go:395-399 | A type schema has its name and keys, and an empty key index. |
| `Registry.RegTypeSchema.Validate` | registry.go:118-143 | Keeps, in order, the attributes whose key starts with "x-" or is in the schema. |
| `Registry.RegTypeSchema.LinkAttributes` | registry.go:432-470 | Every key with a "lookup=" field is linked to the types it names, and the other keys are unchanged. |
| `Registry.RegTypeSchema.AddKeyIndex` | registry.go:146-158 | The attribute is appended to KeyIndex[key][object], creating the entry if it is missing. Every other entry is unchanged. |
| `Registry.RegTypeSchema.DecorateAttribute` | registry.go:488-504 | The attribute is indexed and takes its decorated value. The object it links to, and only that object, gains the backlink. |
| `Registry.RegTypeSchema.DecorateObject` | registry.go:487-506 | Every attribute of the object is indexed and decorated, and every object they link to records the object. |
| `Registry.RegTypeSchema.DecorateNextAttribute` | registry.go:488-504 | One more attribute of the object is indexed, decorated and linked. |
| `Registry.RegTypeSchema.DecorateType` | registry.go:487-506 | Every object of the type is decorated, and the key index gains each object's attributes, whatever the map's order. |
| `Registry.RegTypeSchema.DecorateNext` | registry.go:487-506 | One more object of the type is decorated and indexed. |
| `Registry.Registry.constructor` | registry.go:187-197 | The registry starts with no schemas and only the "schema" type, which holds the schema objects. |
| `Registry.Registry.ParseSchema` | registry.go:377-474 | Succeeds exactly when no schema object with a single "ref" has a "key" value without words. Every such object then defines its type, created if missing. Every key is linked to the types its "lookup=" field names. |
| `Registry.Registry.Decorate` | registry.go:479-514 | Succeeds exactly when every type without a schema has no attributes. Every attribute then holds its decorated value, every key index gains exactly the attributes of its type's objects, and backlinks are added as the relations say. |
| `Registry.DecorateTypes` | registry.go:485-507 | The loop over the types establishes, for every type, the values, index entries and backlinks that Decorate promises. |
| `Registry.DecorateStep` | registry.go:485-507 | One more type of the loop keeps the loop's invariant. |
| `Registry.DecorateNextType` | registry.go:486-506 | One type is decorated with its own schema, and the key indexes of the other types are unchanged. |
| `Registry.LinkRelations` | registry.go:429-471 | After the second pass, every key of every type schema is linked, and no key index changes. |
| `Registry.DefineTypes` | registry.go:380-427 | The first pass succeeds exactly when no schema object with a single "ref" has a "key" value without words. It defines a fresh type, when missing, and a fresh unlinked schema for each named type, whatever the map's order. |
| `Registry.DefineType` | registry.go:382-425 | An object without a single "ref" defines nothing. Otherwise the type named after "dn42." is trimmed is created when missing, and gets a schema of its keys. The pass panics on a key value with no words. |
| `Registry.KeySchemas` | registry.go:411-422 | Each "key" value names a key by its first word and lists the rest as fields. A later value replaces an earlier one, and a value with no words fails. |
| `Registry.KeyAttrsSpec` | registry.go:87-97 | Exactly the attributes with the key are selected, in file order, and selection distributes over concatenation. |
| `Registry.ValidatedSpec` | registry.go:118-143 | An attribute survives validation exactly when its key starts with "x-" or is in the schema. The result is an order-preserving subsequence. |
| `Registry.WithLinkSpec` | registry.go:163-177 | Recording a backlink adds exactly ref. It is idempotent, only grows the list, and keeps it free of duplicates. |
| `Registry.FirstTargetSpec` | registry.go:527-547 | The search finds nothing exactly when no relation holds the raw value, and otherwise stops at the first relation that does. |
| `Registry.FirstTargetIn` | registry.go:528-531 | The object found belongs to one of the relations. |
| `Registry.AddKeySpec` | registry.go:146-158 | Adding a key registers it and changes one entry, which grows by the attribute. |
| `Registry.IndexAttrsSpec` | registry.go:488-492 | Indexing an object's attributes appends, under each key, that key's attributes in order, and changes no other object's entries. |
| `Registry.IndexObjectsLookup` | registry.go:485-492 | Indexing the objects of a type, each once, appends each object's attributes under their keys, whatever the order. |
| `Registry.IndexedLookups` | registry.go:485-492 | After the loop over the types, each lookup in each key index is its old value followed by the matching attributes of that object. |
| `Registry.TrimCrLf` | registry.go:315 | The trimmed line is a prefix of the line that ends in neither '\r' nor '\n'. |
| `Registry.ColonByte` | registry.go:327 | The byte offset of the first ':' is -1 exactly when there is none, and is never less than its character index. |
| `Registry.ClassifyWide` | registry.go:327-363 | With a non-ASCII character before ':', the byte offset is used as a character index: "ü:" gives the key "ü:", and "üüü:" panics. |
| `Registry.LoadAttributes` | registry.go:296-372 | Panics exactly where the line reading fails. That is an empty line, a continuation before any attribute, or a ':' whose byte offset lies past the line's end. Otherwise it gives one fresh attribute per parsed entry, with its key and raw value. |
| `Registry.ParseFromNone` | registry.go:319-322 | Once the loader has panicked, it stays panicked. |
| `Registry.FirstLineStarts` | registry.go:349-366 | A line "key:" padded to column 20 starts an attribute with that key and the value from column 20 on. |
| `Registry.MoreLineContinues` | registry.go:341-347 | A line with no early ':' and more than 20 characters continues the previous value with "\n" and its text from column 20 on. |
| `Registry.MoreKindsExtend` | registry.go:341-347 | The continuation lines rebuild the whole multi-line value. |
| `Registry.RenderRoundTrip` | registry.go:296-372 | Reading a file written in the registry's column format gives back exactly its attributes. |
| `Registry.KeyFieldMapKeys` | registry.go:411-422 | The key map exists exactly when every "key" value has a word, and its keys are those first words. |
| `Registry.KeyFieldMapLast` | registry.go:413-421 | Each key maps to the words after the last "key" value that names it. |
| `Registry.LookupFieldSpec` | registry.go:433-468 | The first "lookup=" field is the one used, and none is found when no field has the prefix. |
| `Registry.RelTypesSpec` | registry.go:437-461 | A relation is exactly a known type named in the lookup list, with "dn42." trimmed. Unknown names are skipped. |
| `Registry.ClampRefresh` | registry.go:626-634 | The refresh interval is at least ten minutes, and is the given one when it is longer. |
| `Roa.Uncommented` | roaapi.go:227-230 | The trimmed line is kept whole when it has no '#'. Otherwise the result is the part before its first '#'. |
| `Roa.LineFilter` | roaapi.go:225-262 | A line gives a filter exactly when it has at least five fields and field 3 parses as a prefix. Its fields then fill the filter: the number wrapped to 64 bits, and both lengths truncated to a byte. |
| `Roa.BadLengthKept` | roaapi.go:203-217 | As written, the inner `cerr` shadows the outer one, so a length that is not a number reads as 0 and the filter is kept. |
| `Roa.LengthTruncated` | roaapi.go:252-253 | `uint8(...)` keeps the low byte: 300 becomes 44 and -1 becomes 255. |
| `Roa.FileFiltersFrom` | roaapi.go:223-263 | A filter belongs to a file exactly when one of its lines defines it. |
| `Roa.SortByLength` | roaapi.go:274-279 | The filters are ordered by non-increasing prefix length, and the list is a permutation of the input. |
| `Roa.Match` | roaapi.go:289-301 | Gives the first filter, in list order, whose network contains the address, and None when no filter does. |
| `Roa.MaxLength` | roaapi.go:355-377 | The max-length never exceeds the filter's. It is the object's own value when that value parses as a byte strictly between the filter's lengths, and the filter's max-length otherwise. |
| `Roa.LocalMaxLength` | roaapi.go:362-374 | A decimal max-length strictly inside the filter's range is taken as it is. |
| `Roa.Announce` | roaapi.go:388-397 | There is one ROA per origin, in order, with the prefix and the max-length. |
| `Roa.ObjectRoasSpec` | roaapi.go:318-398 | A route object gives no ROA when it matches no filter, a deny filter, or has no origin. Otherwise it gives one ROA per origin, admitted by the filter. |
| `Roa.CompileMember` | roaapi.go:318-399 | A ROA is compiled exactly when one of the visited objects yields it. |
| `Roa.CompileSound` | roaapi.go:339-398 | Every ROA announces the route of an object that a permitting filter admits, from one of its origins, no longer than the filter allows. |
| `Roa.RoaData.constructor` | roaapi.go:141-144 | New ROA data has its time and commit, and no filters or ROAs. |
| `Roa.RoaData.LoadFilter` | roaapi.go:189-284 | An unreadable file fails and changes nothing. Otherwise the file's filters, ordered by non-increasing length, are appended after the existing filters. |
| `Roa.RoaData.MatchFilter` | roaapi.go:289-301 | Gives the first filter whose network contains the address. |
| `Roa.RoaData.CompileRoa` | roaapi.go:306-402 | The ROAs of the route objects, in the map's visiting order. |
| `Roa.RoaData.CompileObject` | roaapi.go:320-398 | The body of the loop for one route object. |
| `Roa.StampSpec` | roaapi.go:171-181 | generated is the time cut to 32 bits. valid is twelve hours later, wrapping past 2^32. counts is the number of ROAs. |
| `Roa.RoaApi.RoaUpdate` | roaapi.go:135-184 | If either filter file is unreadable, nothing changes. Otherwise new data holds both files' filters in order, and the ROAs of route and route6. The response lists the IPv4 and then the IPv6 ROAs, with their count and time stamps. |
| `Roa.BirdLineWords` | roaapi.go:109-127 | A statement is "verb prefix max len as N;" with N the ASN without its first two characters. |
| `Roa.BirdLineReads` | roaapi.go:127 | A statement reads back word by word: its prefix, its max-length and its AS number. |
| `Roa.BirdLines` | roaapi.go:126-128 | There is one statement per ROA, in order, and None where an ASN is shorter than two characters and the handler panics. |
| `Roa.RoaBird` | roaapi.go:102-130 | "route" for BIRD 2 and "roa" otherwise. The IPv4 ROAs come when ipv has a '4', then the IPv6 ROAs when it has a '6'. |
| `Dns.StubType` | dnsapi.go:177-184 | The stub type is "AAAA" exactly when the address has a ':', and "A" exactly when it has none. |
| `Dns.NsWithStub` | dnsapi.go:173-187 | "host addr" gives NS(name, host + ".") followed by the stub record (host, A or AAAA, addr). |
| `Dns.NsAlone` | dnsapi.go:189-192 | A value without a space gives a single NS record, with "." appended to the value. |
| `Dns.NsRecordsKinds` | dnsapi.go:170-194 | Every record of an nserver value carries the comment. It is an NS record of the zone or a stub record, and the first is an NS record. |
| `Dns.ObjectRecordsKinds` | dnsapi.go:170-199 | An object's records are NS and DS records of the zone, or stub records, all with the comment. |
| `Dns.DnsZone.constructor` | dnsapi.go:115-118 | A new zone has its commit and time, and no records. |
| `Dns.DnsZone.AddRecord` | dnsapi.go:143-152 | Exactly one record with the given fields is appended, and earlier records are unchanged. |
| `Dns.DnsZone.AddRecords` | dnsapi.go:157-201 | The object's records are appended: nothing when the object is missing, otherwise its nserver records and then one DS per ds-rdata, in order. |
| `Dns.DnsZone.AddNsRecords` | dnsapi.go:170-194 | The records of each nserver value are appended in order. |
| `Dns.DnsZone.AddDsRecords` | dnsapi.go:196-199 | One DS record per ds-rdata value is appended in order. |
| `Dns.DnsZone.AddNs` | dnsapi.go:172-192 | The records of one nserver value are appended. |
| `Dns.DnsZone.AddAuthZones` | dnsapi.go:121-123 | The records of every authoritative zone's object are appended, in the map's order. |
| `Dns.DnsZone.AddForwardZones` | dnsapi.go:126-135 | The records of every '.'-free domain that is not authoritative are appended. |
| `Dns.AuthZoneNamed` | dnsapi.go:131 | `DNSRootAuthZones[name] == ""` holds exactly for a name that is not an authoritative zone. |
| `Dns.ForwardOnly` | dnsapi.go:126-135 | Forward-zone NS and DS records are only for '.'-free names that are not authoritative. |
| `Dns.DnsApi.constructor` | dnsapi.go:44 | No zone exists before the first update. |
| `Dns.DnsApi.DnsUpdate` | dnsapi.go:110-138 | A new zone with the commit and time holds the authoritative zones' records, then the forward zones' records. |
| `Dns.BindFields` | dnsapi.go:206-217 | A record whose fields hold no tab splits back into name, "IN", type and content, plus "; comment" only when the comment is non-empty. |
| `Explorer.LinkSplit` | StaticRoot/explorer.js:29-36 | A link with a '/' is rtype, '/' and obj, and rtype holds no '/'. Without a '/', rtype is "" and obj is the whole link. |
| `Explorer.LinkOfPath` | StaticRoot/explorer.js:29-36 | The link of a reference "type/name" gives back the type and the name. |
| `Explorer.Breaks` | StaticRoot/explorer.js:72 | Replacing every "\n" with "<br/>" leaves no newline, and leaves text without one unchanged. |
| `Explorer.UnbreakBreaks` | StaticRoot/explorer.js:72 | Text without '<' is recovered from its line breaks: no newline is lost or invented. |
| `Explorer.DecoratedTrailing` | StaticRoot/explorer.js:59-72 | A value ending in "\n" ends in two line breaks. Any other value only has its newlines replaced. |
| `Explorer.FirstExact` | StaticRoot/explorer.js:235-245 | Gives the first object whose lower-cased name equals the term, or the list's length when none does. |
| `Explorer.Partial` | StaticRoot/explorer.js:240-247 | A hit is exactly an object of the type whose lower-cased name contains the term. |
| `Explorer.MatchesSound` | StaticRoot/explorer.js:231-251 | Every hit is an object of rtype whose lower-cased name contains the term. |
| `Explorer.MatchesExact` | StaticRoot/explorer.js:242-245 | An exact match returns that object alone, discarding earlier partial matches. |
| `Explorer.MatchesPartial` | StaticRoot/explorer.js:240-250 | Without an exact match, the hits are exactly the objects whose lower-cased name contains the term. |
| `Explorer.SearchTyped` | StaticRoot/explorer.js:263-274 | A search with '/' finds only objects of the type named before it, and nothing when that type is absent. |
| `Explorer.SearchAll` | StaticRoot/explorer.js:276-282 | Without '/', a hit is a match in one of the types. An exact match in one type does not suppress the others. |
| `Explorer.HitLink` | StaticRoot/explorer.js:307 | A hit over '/'-free type names is a link that splits back into its type and name. |
| `Explorer.MatchObjects` | StaticRoot/explorer.js:231-251 | The loop with its early return computes the hits that MatchesSound, MatchesExact and MatchesPartial describe. |
| `Explorer.SearchFilter` | StaticRoot/explorer.js:255-286 | The search computes the hits that SearchTyped and SearchAll describe. |
| `Explorer.AppSearch.constructor` | StaticRoot/explorer.js:176-183 | The page starts with no state, no result and no fetch. |
| `Explorer.AppSearch.DoSearch` | StaticRoot/explorer.js:289-326 | The search is announced. 0 results give "noresults"; 1 result gives "loading" and a fetch of "/api/registry/rtype/name"; more give "resultlist" with the results. |
| `RegApi.KeysOf` | regapi.go:123 | Ranging over a map visits each key exactly once. |
| `RegApi.Selection` | regapi.go:92-130 | Every selected name is a key of the map. |
| `RegApi.SelectionWidens` | regapi.go:102-130 | A substring request selects at least what the exact request does. |
| `RegApi.SelectFrom` | regapi.go:122-128 | The filter loop keeps exactly the keys that pass, with their values. |
| `RegApi.Select` | regapi.go:92-130 | Reports found exactly when the selection succeeds, and then returns exactly the selected keys, each with its value from the map. |
| `RegApi.RegRoot` | regapi.go:69-77 | Maps each type to its object count. |
| `RegApi.TypeResponse` | regapi.go:132-142 | Maps each selected type to the names of its objects, each once. |
| `RegApi.RegTypeHandler` | regapi.go:82-145 | A 404 "No types matching '…' found" exactly when the selection fails. Otherwise the selected types, each with its object names. |
| `RegApi.CopyValues` | regapi.go:225-228 | The decorated pairs are (Key, Value) in order. |
| `RegApi.CopyRawValues` | regapi.go:252-258 | The raw pairs are (Key, RawValue) in order. |
| `RegApi.CopyRefs` | regapi.go:231-234 | The backlinks are given by reference, in order. |
| `RegApi.AddObject` | regapi.go:237-240 | The object's entry is added under its reference, and every other entry is kept. |
| `RegApi.ObjectResponses` | regapi.go:217-262 | Every selected object is in the response under its reference, decorated or raw. |
| `RegApi.RegObjectHandler` | regapi.go:156-264 | A 404 for a missing type, or for an exact request naming no object. Otherwise the selected objects, decorated or raw. |

## Left out

- FreeView4.Free4View.ProcessIPv4 requires three things the source does not check. The source accepts lists that break them. It may then recurse for ever, or emit blocks longer than /32 (see Findings):
  - every parsed cidr has a length within 0..32;
  - every prefix is aligned to its length;
  - no two prefixes share a (subnet, plen) key.
- FreeView4.Free4View.FilterFree draws the index `floor(r * n)` where the source uses `Math.round`. The as-written overrun is a finding.
- Prefixes4.PicksSpec uses floor in place of `Math.round`, as FilterFree does.
- Asn.AsnPicks uses floor in place of `Math.round`. The as-written overrun is a finding.
- Asn.AsnView.Generate uses floor in place of `Math.round`, through AsnPicks.
- Asn.AsnView.ProcessASN uses floor in place of `Math.round`, through AsnPicks.
- FreeIPv6.QuadsInUla uses floor in place of `Math.round` for the three groups of a candidate. The as-written 65536 is a finding.
- FreeIPv6.Free6View.Attempt uses floor in place of `Math.round` for the three groups. It also uses the corrected Check6 of the free.js:510-515 finding: a /48 holding a registered prefix is rejected, where the check6 call in generate as written accepts it.
- FreeIPv6.Free6View.Generate uses floor in place of `Math.round`. It also bounds the source's unbounded retry loop by the draws supplied: when they are used up it reports OutOfDraws and leaves plist alone. Through Attempt it uses the corrected Check6 of the free.js:510-515 finding: a /48 holding a registered prefix is rejected and redrawn, where generate as written accepts it.
- FreeIPv6.Free6View.ProcessIPv6 stays "loading" when the draws are used up, where the source would keep drawing. Through Generate it uses the corrected Check6 of the free.js:510-515 finding: a /48 holding a registered prefix is rejected and redrawn, where processIPv6 as written can list it.
- RegApi.Selection: lower-casing is ASCII only. Go's `strings.ToLower` also folds other letters.
- RegApi.Select: lower-casing is ASCII only. Go's `strings.ToLower` also folds other letters.
- Explorer.FirstExact: lower-casing is ASCII only. JavaScript's `toLowerCase` also folds other letters.
- Explorer.Partial: lower-casing is ASCII only. JavaScript's `toLowerCase` also folds other letters.
- Explorer.SearchFilter: lower-casing is ASCII only. JavaScript's `toLowerCase` also folds other letters.
- Explorer.AppSearch.DoSearch records the single result's API query. It does not model the fetch, whose reply sets "result" or "error". The `$emit` of the search is recorded as Announced.
- Registry.LoadAttributes reads a sequence of lines. Opening the file, the bufio scanner and its 64 KiB line limit are not modelled.
- Roa.RoaData.LoadFilter receives the file as lines, or None when it cannot be read. The scanner's error path is that None.
- Roa.BirdLines cuts the first two characters off the ASN and panics when it has fewer than two. Go cuts two bytes. The two agree on ASCII ASNs, which is what registry origins are ("AS" and digits). For an ASN that starts with a non-ASCII character they differ, and the byte cut may split a character, which a string of characters cannot hold.
- Roa.RoaBird inherits the character cut of BirdLines.
- Roa.RoaBird gives the statements only. The comment header, which formats the time, and the HTTP writes are not part of this model.
- Dns.DnsApi.DnsUpdate requires the registry's "domain" type to exist; the source dereferences it.
- Prefix parsing and containment (`net.ParseCIDR`, `IPNet.Contains`) in roaapi.go are abstract: a parameter `parse` and a bit-prefix test.
- registry.GetObject, `registry.Commit` and `KeyIndex[..].Objects`, used by roaapi.go and dnsapi.go, are not defined in registry.go. They are maps and values given as parameters.
- Go map iteration order (registry.go, roaapi.go:318, dnsapi.go:121, dnsapi.go:127, regapi.go:123) is a parameter or a nondeterministic enumeration. Results are stated for every order.
- JavaScript `for … in` over the search index visits keys in an order given as a parameter. Prototype properties such as `index["constructor"]` are not modelled as present.
- The `anchorme` link decoration and the `isRegObject`/`objectLink` regular expressions (explorer.js:50-57, 75-79) are foreign code and are not modelled.
- The `freenets` computed value (free.js:576-578) is floating-point display and is not modelled.
- The Number conversion of netspace (free.js:467) is exact in the model.
- pretty4, `updateExample`, the button highlighting in `updatePrefixLen`, `debounceSearch`, `loadIndex`, `mounted` hooks, the router and component registration are display glue and are not modelled.
- HTTP, JSON and routing are not modelled: `responseJSON`, `ResponseJSON`, `http.Error` status writes, `InitRegAPI`, `InitDNSAPI`, `InitROAAPI`, `dnsRZoneHandler` and `roaJSONHandler`. The handlers' selection and response shaping are modelled.
- WriteBindFormat's header and time formatting are not modelled. Each record's line is modelled by `ToBindString`.
- Registry loading from disk is not modelled: `reloadRegistry`, `loadType` (including the "domain" → "dns" directory), and `loadObjects`' directory reading and dotfile filter. The object a file becomes is modelled by `Registry.RegObject.constructor`.
- getCommitHash, `refreshRegistry` (git), and the ticker goroutine and `Fatal` exits of `InitialiseRegistryData` are not modelled. Only the refresh clamp is.
- Logging, and decorate's attribute counters (cattribs and cmatched), are not modelled.
- dn42regsrv.go (main, flags, event bus) and static.go (file server) are not part of this model.

## Findings

| source | as written | input that shows it | evidently intended | confidence | as-written member | corrected member |
|---|---|---|---|---|---|---|
| StaticRoot/free.js:100-102 | parse4 keeps an object whose length is NaN or outside 0..32. For NaN or a negative length the exact-match test never holds, so scanSubnets may keep splitting past /32, where `bit` is 0 and the halves repeat the node. A length above 32 gets the mask 0xFFFFFFFF: its scan ends at that length, but first emits bogus blocks /33 and longer with fractional counts. | an inetnum with cidr "10.0.0.0/abc" or "10.0.0.0/-1" outside any closed parent | the entry is rejected and the scan ends | high (not executed) | `FreeIPv4.SplitPastHostAsWritten` | `FreeIPv4.ScanAllFree` |
| StaticRoot/free.js:238-248 | A prefix whose subnet has host bits set never matches a node exactly, so the descendant test holds down to /32 and beyond. Under a closed exact match it is skipped instead. | an inetnum with cidr "10.0.0.1/8" outside any closed parent | the scan ends and reports the free space | high (not executed) | `FreeIPv4.SplitPastHostAsWritten` | `FreeView4.Free4View.ProcessIPv4` |
| StaticRoot/free.js:223-248 | After an open exact match, a duplicate (subnet, plen) entry is the next cursor entry. It lies inside both the node and the lower half, so the split recurses past /32. | two inetnums with cidr "10.0.0.0/8", the first with policy open | duplicates are merged or ignored | high (not executed) | `FreeIPv4.SplitPastHostAsWritten` | `FreeIPv4.ScanAllTiles` |
| StaticRoot/free.js:289 | `Math.round(Math.random() * tlist.length)` can equal the length, so `tlist[ix]` is undefined and `obj.subnet` throws. | draw r = 1 − 1/(2n) on a list of n blocks | an index below the length | high (not executed) | `Prefixes4.FilterPickAsWrittenOverruns` | `Prefixes4.PicksSpec` |
| StaticRoot/free.js:672 | `Math.round(Math.random() * this.free.length)` can equal the length, and undefined is offered as an ASN. | draw r = 1 − 1/(2n) on a free list of n names | an index below the length | high (not executed) | `Asn.PickAsWrittenOverruns` | `Asn.AsnPicks` |
| StaticRoot/free.js:540 | `Math.round(Math.random()*65536)` can give 65536, whose text "10000" is not a group and whose value carries into the next group. | draws 255/65536, 1 − 1/131072, 0 give "fdff:10000:0::/48" | a group in 0..65535, so the candidate stays in fd00::/8 | high (not executed) | `FreeIPv6.QuadsAsWrittenLeaveUla` | `FreeIPv6.QuadsInUla` |
| StaticRoot/free.js:510-515 | The `return false` for an entry inside the candidate's /48 only ends the forEach callback for that entry, so the loop goes on and the result is the policy of the longest cover. The test also sits under the length guard. | fd00::/8 open and fd12:3456:7800:100::/56 closed; candidate fd12:3456:7800::/48 is accepted | a candidate holding a registered prefix in its /48 is rejected; Attempt, Generate and ProcessIPv6 use the corrected check | high (not executed) | `FreeIPv6.Check6AcceptsNestedAsWritten` | `FreeIPv6.Free6View.Check6` |
