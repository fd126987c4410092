# Verified models of the Squid 2.7 support libraries

A Dafny model of the cores of Squid's `lib` and `snmplib` directories, with proofs of what they
promise. `dafny verify dfyconfig.toml` checks the whole project.

* **Boundary-tag allocator** (`Malloc*.dfy`, `ChunkSums.dfy`): malloc, free, memalign and trim of
  `lib/dlmalloc.c` in its 32-bit configuration (SIZE_SZ 4, alignment 8, MINSIZE 16, pages of 4096).
  Header words, footers and fd/bk links are maps from addresses to words, because the fields of
  `struct malloc_chunk` overlay user memory; `UserWritesAreHarmless` covers that overlay. The
  ghost `w` is the layout of the arena, `b` the contents of the bins, and `Valid()` ties the words to both.
* **Radix tree** (`Radix*.dfy`): the trie of `lib/radix.c` for contiguous masks and keys of one
  length. `RadixTree` to `RadixRuns` state and prove the trie's own laws on values; `RadixSteps`,
  `RadixLinks` and `RadixHead` prove that the in-place relinking of nodes, parent links included,
  carries them out, `RadixPairs` that a deleted route's nodes can be freed, and `RadixLists` that the
  loops over duplicate-key chains and annotation lists do on linked records what those laws say.
* **SNMP codec** (`Asn1*.dfy`, `Snmp*.dfy`): builders into a packet buffer with false
  headers patched in place, the parsing loops, and the round trip of whole messages (clause 8 of ITU-T X.690,
  section 4 of RFC 1157, section 3 of RFC 1905). `SnmpWire` spells out the octets on both sides.
* **DNS** (`Dns*.dfy`): packing, decompression and query comparison of `lib/rfc1035.c` (sections 3.1,
  4.1.1 and 4.1.4 of RFC 1035).
* **Containers**: the top-down splay tree (`Splay*.dfy`), the hash table with its cursor
  (`Hash*.dfy`) and the indexed heap (`Heap*.dfy`), all on objects changed in place.
* **Bit and arithmetic cores**: the DES rounds (`Des*.dfy`, against the tables of FIPS 46-3), MD5 streaming and padding
  (`Md5*.dfy`, RFC 1321), the 48-bit generator (`Drand48.dfy`) and URL escaping (`Rfc1738.dfy`, section 2.2 of RFC 1738).
* `Options.dfy`, `Buffers.dfy`, `Powers.dfy` and `Bits.dfy` hold what several of these share.

Where the code differs from what its documentation or a reader would expect, the model follows the code and
says exactly when the expected property holds: requests close to 2^31 and above (`PaddedRequest`,
`HugeRequestIsNotHeld`), trimming with a pad that wraps the unsigned sum (`TrimExact`, `HugePadTakesAll`), aligned
blocks near 2^31 (`AlignmentServes`, `MemalignWraps`), lookup of a sentinel key (`MatchIsLongest`,
`SentinelShadowsPrefix`), names that fill the name buffer (`NameRoundTrip`, `TailIsLost`, `WellFormedComesBack`), object
identifiers that overrun a local buffer (`BuildObjid`, `LongOidOverruns`), a response without variables whose first
one is marked (`FixPdu`), what a new receiver sees of a message (`ComesBackWhole`), a community that fills its
buffer (`DecodeMessage`) and escaping an escaped string (`EscapeOwn`). A deletion in the radix tree without a
mask removes the most specific route of the key, whatever its mask.

Environment: MORECORE, system time and callers are parameters. MORECORE appends bytes to the arena or
fails, and it fails rather than let the arena reach 2^31 bytes. Octets a parser reads past the end of a packet
count as 0. Comparison, hash and key functions are parameters; DES key schedules and E tables are arbitrary;
the MD5 block transform is an arbitrary function; heap keys are reals.

## Model

| member | source | states |
|---|---|---|
| `MallocSizes.PaddedRequest` | HappyStream-squid-2.7.STABLE9/lib/dlmalloc.c:1219-1222 | the padded size is a multiple of 8, at least MINSIZE, and holds the request with its size word if and only if request + 11 stays below the sign bit |
| `MallocSizes.HugeRequestIsNotHeld` | HappyStream-squid-2.7.STABLE9/lib/dlmalloc.c:1219-1222 | a concrete request just under 2^32 is padded to a size that does not hold it |
| `MallocSizes.BinIndexMonotone` | HappyStream-squid-2.7.STABLE9/lib/dlmalloc.c:1427-1434 | bin_index never falls as sizes grow, and stays between 2 and 126 |
| `MallocSizes.BinIs` | HappyStream-squid-2.7.STABLE9/lib/dlmalloc.c:1427-1434 | bin i takes exactly the sizes from its start up to the start of the next, 64 bins 8 apart, then 32, 16, 8, 4 and 2 bins 64, 512, 4096, 32768 and 262144 apart |
| `MallocSizes.MarkAndClear` | HappyStream-squid-2.7.STABLE9/lib/dlmalloc.c:1470-1472 | marking a block sets its bit, clearing clears it, and neither touches another block's bit |
| `MallocSizes.NoBlockAbove` | HappyStream-squid-2.7.STABLE9/lib/dlmalloc.c:2149-2149 | when a block's bit exceeds the index word, no block from there on is marked |
| `MallocTiling.Disjoint` | HappyStream-squid-2.7.STABLE9/lib/dlmalloc.c:1527-1546 | two different chunks of a tiling never overlap |
| `MallocTiling.ReadTags` | HappyStream-squid-2.7.STABLE9/lib/dlmalloc.c:1581-1611 | in a well-formed heap the size word, the PREV_INUSE bit and the footer of a free predecessor say what the chunk layout says |
| `MallocTiling.TakeSplit` | HappyStream-squid-2.7.STABLE9/lib/dlmalloc.c:2182-2192 | splitting a free chunk with the words the code writes keeps tiling, alignment, tags and coalescing |
| `MallocTiling.CarveTags` | HappyStream-squid-2.7.STABLE9/lib/dlmalloc.c:2256-2259 | cutting a chunk off top keeps the heap well formed |
| `MallocTiling.ResizeTop` | HappyStream-squid-2.7.STABLE9/lib/dlmalloc.c:1898-1902 | rewriting the size of top keeps the heap well formed for every aligned size of at least MINSIZE |
| `MallocTiling.FreedTags` | HappyStream-squid-2.7.STABLE9/lib/dlmalloc.c:2346-2377 | after merging with free neighbours on either side the four words written make the heap well formed again, with no two adjacent free chunks |
| `MallocTiling.FreedShape` | HappyStream-squid-2.7.STABLE9/lib/dlmalloc.c:2346-2377 | the merged chunk starts at the free predecessor if there is one, and its size is the sum of the parts |
| `MallocTiling.AbsorbTags` | HappyStream-squid-2.7.STABLE9/lib/dlmalloc.c:2327-2344 | a chunk next to top merges into it with the heap well formed |
| `MallocTiling.FreedLive` | HappyStream-squid-2.7.STABLE9/lib/dlmalloc.c:2291-2380 | freeing takes exactly the freed chunk out of the set of used chunks and moves no other |
| `MallocBins.Unlinks` | HappyStream-squid-2.7.STABLE9/lib/dlmalloc.c:1700-1706 | unlink removes exactly the given chunk from its ring and leaves every other ring alone |
| `MallocBins.Links` | HappyStream-squid-2.7.STABLE9/lib/dlmalloc.c:1668-1695 | the four link assignments of frontlink insert the chunk at the spot found and nowhere else |
| `MallocBins.Remainders` | HappyStream-squid-2.7.STABLE9/lib/dlmalloc.c:1710-1714 | link_last_remainder makes the chunk the only member of its ring whatever was there |
| `MallocBins.SizesFall` | HappyStream-squid-2.7.STABLE9/lib/dlmalloc.c:1662-1665 | chunk sizes do not increase along a bin |
| `MallocArena.Arena.constructor` | HappyStream-squid-2.7.STABLE9/lib/dlmalloc.c:1396-1416 | the initial arena is well formed with every bin empty |
| `MallocArena.Arena.Unlink` | HappyStream-squid-2.7.STABLE9/lib/dlmalloc.c:1700-1706 | the arena's bins stay a partition of the binned free chunks, less the one taken off |
| `MallocArena.Arena.LinkLastRemainder` | HappyStream-squid-2.7.STABLE9/lib/dlmalloc.c:1710-1714 | the chunk becomes the last remainder and the previous one leaves the rings |
| `MallocArena.Arena.FindSpot` | HappyStream-squid-2.7.STABLE9/lib/dlmalloc.c:1685-1690 | the walk marks the block and ends between the last strictly larger chunk and the first that is not larger |
| `MallocArena.Arena.Frontlink` | HappyStream-squid-2.7.STABLE9/lib/dlmalloc.c:1668-1695 | a chunk is filed in the bin of its size, behind all larger chunks and ahead of all others, those of its own size among them, and its block is marked |
| `MallocArena.Arena.FindInBin` | HappyStream-squid-2.7.STABLE9/lib/dlmalloc.c:2177-2202 | scanning a bin from its small end finds a smallest chunk that fits, or shows that none does |
| `MallocArena.Arena.SkipBlocks` | HappyStream-squid-2.7.STABLE9/lib/dlmalloc.c:2154-2164 | skipping unmarked blocks skips empty bins only |
| `MallocArena.Arena.ClearEmptyBlock` | HappyStream-squid-2.7.STABLE9/lib/dlmalloc.c:2208-2219 | backtracking over a partial block clears its bit exactly when all four bins are empty, so a non-empty bin always has its bit set |
| `MallocArena.Arena.ScanBins` | HappyStream-squid-2.7.STABLE9/lib/dlmalloc.c:2149-2234 | the scan returns a smallest binned chunk that fits from the start index on, or 0 exactly when no binned chunk there fits |
| `MallocArena.Arena.ExactFit` | HappyStream-squid-2.7.STABLE9/lib/dlmalloc.c:2056-2110 | the first stage returns a fit with a remainder below MINSIZE or the index from which the scan finds all fits |
| `MallocArena.Arena.UseRemainder` | HappyStream-squid-2.7.STABLE9/lib/dlmalloc.c:2112-2142 | the last remainder is re-split, exhausted or filed, with the heap well formed in each case |
| `MallocArena.Arena.SplitChunk` | HappyStream-squid-2.7.STABLE9/lib/dlmalloc.c:2182-2192 | a binned chunk is split, its rest becomes the last remainder, and all invariants hold again |
| `MallocArena.Arena.ExtendTop` | HappyStream-squid-2.7.STABLE9/lib/dlmalloc.c:1862-1963 | when the system gives all that is asked for, a top that is set up grows by the least number of whole pages that holds request, pad and minimum, a first top starts at the break rounded up to 8 and reaches the page boundary behind what was asked for, and top then serves the request and ends on a page boundary; otherwise nothing changes; no other chunk changes |
| `MallocArena.Arena.UseTop` | HappyStream-squid-2.7.STABLE9/lib/dlmalloc.c:2237-2263 | a chunk is cut from top leaving at least MINSIZE; it fails, changing nothing, exactly when top is too small and the system gives no more |
| `MallocArena.Arena.Malloc` | HappyStream-squid-2.7.STABLE9/lib/dlmalloc.c:2034-2263 | every invariant is kept; it fails exactly when no free chunk fits, top is too small and the system gives no more, and then no chunk changes; otherwise the block is 8-aligned, its chunk size is in [nb, nb + MINSIZE), it holds the request (when that is below the sign bit), no other live block changes, and the chunk chosen is a smallest fit among the bins, the last remainder, or from top only when no binned chunk fits |
| `MallocArena.Arena.FreeIntoTop` | HappyStream-squid-2.7.STABLE9/lib/dlmalloc.c:2327-2344 | a block next to top and a free predecessor merge into top; exactly that block stops being live |
| `MallocArena.Arena.DetachNeighbours` | HappyStream-squid-2.7.STABLE9/lib/dlmalloc.c:2346-2373 | free neighbours leave their bins exactly when the merged chunk is not kept or re-entered as last remainder |
| `MallocArena.Arena.Free` | HappyStream-squid-2.7.STABLE9/lib/dlmalloc.c:2291-2380 | every invariant is kept, a top that has been set up stays so, and exactly the given block stops being live; a block that borders top merges into it, and top is trimmed exactly when it then reaches the threshold, by the amount of malloc_trim; free(0) changes nothing |
| `MallocArena.Arena.Trim` | HappyStream-squid-2.7.STABLE9/lib/dlmalloc.c:2865-2918 | every invariant and every block is kept and top keeps its minimum; memory is given back exactly when the amount is at least a page, top is set up and the system takes it, and then in whole pages, so that top keeps more than pad and minimum by at most a page (pads that do not wrap) |
| `MallocSums.TrimExact` | HappyStream-squid-2.7.STABLE9/lib/dlmalloc.c:2878-2880 | for every size of top and every pad: the amount is a multiple of the page size and within a page of what the pad leaves, the unsigned sum wrapping; giving it back leaves top its minimum if and only if the pad is below the size, up to a page, or the wrapped sum is below the size or reaches the sign bit |
| `MallocSums.TrimWraps` | HappyStream-squid-2.7.STABLE9/lib/dlmalloc.c:2878-2880 | an amount computed from a sum beyond the sign bit is negative, so that nothing is given back |
| `MallocArena.Arena.Memalign` | HappyStream-squid-2.7.STABLE9/lib/dlmalloc.c:2641-2733 | for every power of two whose sum stays below the sign bit, and for those up to 8 whatever the request: the block is a multiple of it, its chunk lies in [nb, nb + MINSIZE) and no other live block changes; it fails exactly when malloc would refuse the sum, and then no chunk changes |
| `MallocSums.AlignmentExact` | HappyStream-squid-2.7.STABLE9/lib/dlmalloc.c:2662-2667 | for every alignment from 16 and every request: the chunk malloc gives for the wrapped sum holds the sum if and only if the sum stays below the sign bit |
| `MallocSums.AlignmentServes` | HappyStream-squid-2.7.STABLE9/lib/dlmalloc.c:2655-2692 | for every alignment above 8 that fits a word and every request: all chunks that malloc may give for the wrapped sum hold the aligned block where the code puts it if and only if the sum stays below the sign bit |
| `MallocSums.HugePadTakesAll` | HappyStream-squid-2.7.STABLE9/lib/dlmalloc.c:2878-2880 | a concrete pad near 2^32 for which the amount is all of top |
| `MallocSums.MemalignWraps` | HappyStream-squid-2.7.STABLE9/lib/dlmalloc.c:2666-2667 | a concrete alignment and request for which the sum handed to malloc wraps to 8, and no chunk that malloc may choose for it is large enough |
| `MallocRuns.LiveBlocksDisjoint` | HappyStream-squid-2.7.STABLE9/lib/dlmalloc.c:1613-1636 | the payloads of two live blocks never overlap |
| `MallocRuns.LiveBlockInArena` | HappyStream-squid-2.7.STABLE9/lib/dlmalloc.c:1527-1546 | every live payload lies inside the arena, below top's own words |
| `MallocRuns.InPayloadIs` | HappyStream-squid-2.7.STABLE9/lib/dlmalloc.c:1080-1110 | the payload is every byte from 8 bytes into the chunk to 4 bytes into the next |
| `MallocRuns.UserWritesAreHarmless` | HappyStream-squid-2.7.STABLE9/lib/dlmalloc.c:1080-1110 | any words that lie in the payload of a live block may change to anything, overlaid links, the lent footer and stale size words among them; the heap and the bins stay well formed |
| `MallocRuns.BytesAreConserved` | HappyStream-squid-2.7.STABLE9/lib/dlmalloc.c:2960-2991 | the arena is exactly the used chunks, the free chunks and top |
| `MallocRuns.WalkBin` | HappyStream-squid-2.7.STABLE9/lib/dlmalloc.c:2974-2986 | walking a bin adds up the sizes of exactly its chunks |
| `MallocRuns.Mallinfo` | HappyStream-squid-2.7.STABLE9/lib/dlmalloc.c:2960-2991 | avail is top plus all free chunks, navail their number, and the rest of the arena is exactly the used chunks |
| `MallocRuns.Perform` | HappyStream-squid-2.7.STABLE9/lib/dlmalloc.c:2034-2380 | one malloc, free, memalign or trim of a user, requests of every size among them, does what `Step` says: it adds one separate, aligned and large enough block or fails exactly when refused, takes away exactly the one block, or gives back exactly the computed amount; a top that has been set up always has at least MINSIZE bytes |
| `MallocRuns.Run` | HappyStream-squid-2.7.STABLE9/lib/dlmalloc.c:2034-2380 | so does every call of every sequence of them, from an empty arena |
| `RadixMatch.ShortRoutesHangLeft` | HappyStream-squid-2.7.STABLE9/lib/radix.c:170-174 | a route whose index is not above a node's sits in the leftmost leaf of the subtree it applies to |
| `RadixMatch.LeafMatchBest` | HappyStream-squid-2.7.STABLE9/lib/radix.c:315-352 | what is found at the leaf is the most specific route of that leaf that matches |
| `RadixMatch.MkMatchBest` | HappyStream-squid-2.7.STABLE9/lib/radix.c:358-378 | what is found in an ancestor's list is the most specific of its routes that matches, including the default route's own path |
| `RadixMatch.MatchUpBest` | HappyStream-squid-2.7.STABLE9/lib/radix.c:283-381 | within every subtree the lookup returns the most specific matching route or shows that none matches |
| `RadixAdd.AddDupOk` | HappyStream-squid-2.7.STABLE9/lib/radix.c:615-663 | adding to a duplicate-key chain keeps the trie invariants and adds exactly the route, refusing an equal mask |
| `RadixAdd.PromoteOk` | HappyStream-squid-2.7.STABLE9/lib/radix.c:680-696 | the annotations promoted to a new node are exactly the ones that belong there, in order |
| `RadixAdd.NewPairOk` | HappyStream-squid-2.7.STABLE9/lib/radix.c:441-476 | linking in a new pair keeps the invariants and adds exactly the route |
| `RadixAdd.AddRouteOk` | HappyStream-squid-2.7.STABLE9/lib/radix.c:586-736 | addroute keeps every trie invariant; it fails exactly for a route that is there or a maskless sentinel, and otherwise the route set grows by the route |
| `RadixDelete.DemotedOk` | HappyStream-squid-2.7.STABLE9/lib/radix.c:871-890 | every annotation handed down finds its entry in the sibling's chain: the assertion that none is left never fails |
| `RadixDelete.DropDupOk` | HappyStream-squid-2.7.STABLE9/lib/radix.c:817-832 | removing one route of a chain keeps the invariants and takes out exactly it |
| `RadixDelete.DropLeafOk` | HappyStream-squid-2.7.STABLE9/lib/radix.c:853-891 | splicing out a leaf and its parent keeps the invariants and takes out exactly the last route |
| `RadixDelete.VictimOk` | HappyStream-squid-2.7.STABLE9/lib/radix.c:761-768 | the route a deletion names is the one with its mask, or without a mask the most specific of the key |
| `RadixDelete.DeleteOk` | HappyStream-squid-2.7.STABLE9/lib/radix.c:738-916 | delete keeps every trie invariant, fails exactly when there is nothing to delete, and removes exactly the named route |
| `RadixRuns.MatchIsLongest` | HappyStream-squid-2.7.STABLE9/lib/radix.c:283-381 | for every key the lookup equals a linear longest-prefix scan, and returns a sentinel leaf if and only if the key is a sentinel without a route of its own |
| `RadixRuns.SentinelShadowsPrefix` | HappyStream-squid-2.7.STABLE9/lib/radix.c:323-329 | a concrete trie in which the all-ones key gets the sentinel although a shorter prefix matches |
| `RadixRuns.RunOk` | HappyStream-squid-2.7.STABLE9/lib/radix.c:586-916 | after any run of additions and deletions the invariants hold and the stored routes are those of a plain set |
| `RadixRuns.MatchAfterAnyRun` | HappyStream-squid-2.7.STABLE9/lib/radix.c:283-381 | after any run the lookup answers every key as the linear scan of the routes then stored would |
| `RadixSteps.AddDupSteps` | HappyStream-squid-2.7.STABLE9/lib/radix.c:615-735 | adding to a chain is one change at the leaf and one at a single ancestor |
| `RadixSteps.NewPairSteps` | HappyStream-squid-2.7.STABLE9/lib/radix.c:441-735 | adding a new key is a relinking with promotion, then a lift to a single ancestor |
| `RadixSteps.DropLeafSteps` | HappyStream-squid-2.7.STABLE9/lib/radix.c:759-891 | deleting a last route is one annotation removal, then a splice |
| `RadixLinks.LiftRep` | HappyStream-squid-2.7.STABLE9/lib/radix.c:698-735 | inserting into the list of the highest ancestor in range, and nothing else, turns linked nodes for a trie into nodes for the lifted trie |
| `RadixLinks.PairRep` | HappyStream-squid-2.7.STABLE9/lib/radix.c:441-476 | the link assignments of an insertion turn nodes for a trie into nodes for the trie with the new pair, parents included |
| `RadixLinks.SpliceRep` | HappyStream-squid-2.7.STABLE9/lib/radix.c:853-862 | the link assignments of a deletion turn nodes for a trie into nodes for the spliced trie |
| `RadixPairs.MoveRep` | HappyStream-squid-2.7.STABLE9/lib/radix.c:834-850 | the link assignments of a copied internal node leave nodes for the same trie, wherever it stands |
| `RadixPairs.OwnHandOver` | HappyStream-squid-2.7.STABLE9/lib/radix.c:834-851 | of the routes of one key exactly one has its internal node in use, so that any other can take over when that one goes |
| `RadixPairs.OwnLast` | HappyStream-squid-2.7.STABLE9/lib/radix.c:895-911 | the last route of a key has its internal node in use; without it all others are still owned |
| `RadixLists.AddToChain` | HappyStream-squid-2.7.STABLE9/lib/radix.c:615-652 | on linked records: the loop over a duplicate-key chain and its links insert the leaf where the sorted chain has it, or refuse an equal mask and change nothing |
| `RadixLists.RemoveFromChain` | HappyStream-squid-2.7.STABLE9/lib/radix.c:817-832 | on linked records: exactly the leaf of the route leaves the chain, also at its head |
| `RadixLists.Annotate` | HappyStream-squid-2.7.STABLE9/lib/radix.c:713-735 | on linked records: an annotation is entered by index, and not beside one of equal index |
| `RadixLists.Deannotate` | HappyStream-squid-2.7.STABLE9/lib/radix.c:792-802 | on linked records: the annotation is taken out, or is found not to be there |
| `RadixLists.SplitMasks` | HappyStream-squid-2.7.STABLE9/lib/radix.c:688-695 | on linked records: the list is cut where the annotations of the new node begin |
| `RadixLists.AppendMasks` | HappyStream-squid-2.7.STABLE9/lib/radix.c:866-870 | on linked records: the list of the node spliced out goes behind that of the sibling |
| `RadixHead.RadixTop.constructor` | HappyStream-squid-2.7.STABLE9/lib/radix.c:954-982 | a new head holds the empty trie over its two sentinel leaves |
| `RadixHead.RadixTop.Search` | HappyStream-squid-2.7.STABLE9/lib/radix.c:187-200 | the loop ends at the leaf of the key, whose parent link leads to the parent |
| `RadixHead.RadixTop.Climb` | HappyStream-squid-2.7.STABLE9/lib/radix.c:702-705 | the climb along parent links ends at the highest ancestor whose index is not below the route's |
| `RadixHead.RadixTop.InsertPoint` | HappyStream-squid-2.7.STABLE9/lib/radix.c:441-450 | the descent stops at the link where the first differing bit belongs |
| `RadixHead.RadixTop.AddRoute` | HappyStream-squid-2.7.STABLE9/lib/radix.c:586-736 | in place: the nodes hold a well-formed trie again, false exactly when the route is there or is a maskless sentinel, the stored routes grow by exactly the route, and of the routes of a key exactly one has the internal node of its pair in use, of a sentinel's none |
| `RadixHead.RadixTop.Delete` | HappyStream-squid-2.7.STABLE9/lib/radix.c:738-916 | in place: the nodes hold the trie after deletion, NULL exactly when there is nothing to delete, the stored routes change as a plain set would, and the internal node of the deleted route's pair is no longer among the nodes, so that it may be freed |
| `RadixHead.RadixTop.Relocate` | HappyStream-squid-2.7.STABLE9/lib/radix.c:895-911 | in place: copying an internal node and turning its parent's and children's links leaves the same trie on the nodes, the copy in the place of the original |
| `RadixHead.RadixTop.FreeDuplicate` | HappyStream-squid-2.7.STABLE9/lib/radix.c:817-852 | when one of several routes of a key goes, an internal node of its pair that is in use moves into the pair of the first of the others, which has it in reserve |
| `RadixHead.RadixTop.FreeLast` | HappyStream-squid-2.7.STABLE9/lib/radix.c:893-915 | when the last route of a key goes, its internal node is the one spliced out or moves into that one |
| `RadixHead.RadixTop.Match` | HappyStream-squid-2.7.STABLE9/lib/radix.c:283-381 | on the linked nodes: the result is the longest matching stored route, or none matches, or the key is a sentinel without a route |
| `RadixHead.Run` | HappyStream-squid-2.7.STABLE9/lib/radix.c:586-916 | after any run on a new head the linked nodes are well formed and hold the routes a plain set would, and every internal node in use came with a route still stored |
| `Asn1.LengthRoundTrip` | HappyStream-squid-2.7.STABLE9/snmplib/asn1.c:572-656 | a length written in any of the forms, true or placeholder, is read back |
| `Asn1.HeaderRoundTrip` | HappyStream-squid-2.7.STABLE9/snmplib/asn1.c:466-525 | a header is read back with its type and length whatever the form of the length |
| `Asn1.MinLenFits` | HappyStream-squid-2.7.STABLE9/snmplib/asn1.c:261-274 | the encoded length is the least number of octets that holds the number in two's complement |
| `Asn1.NumberRoundTrip` | HappyStream-squid-2.7.STABLE9/snmplib/asn1.c:109-368 | every 32-bit signed number and every 32-bit unsigned one decodes to itself, with the octets left reduced by what was read |
| `Asn1Oid.StringRoundTrip` | HappyStream-squid-2.7.STABLE9/snmplib/asn1.c:382-454 | an octet string decodes to itself when the receiver has room |
| `Asn1Oid.SubIdRoundTrip` | HappyStream-squid-2.7.STABLE9/snmplib/asn1.c:708-716 | every 32-bit sub-identifier decodes to itself |
| `Asn1Oid.ObjidRoundTrip` | HappyStream-squid-2.7.STABLE9/snmplib/asn1.c:671-824 | every object identifier whose first two arcs share an octet below 128 (first arc at most 2, second below 40 among them) decodes to itself |
| `Bits.AndField` | HappyStream-squid-2.7.STABLE9/snmplib/asn1.c:792-811 | a mask of adjacent bits selects the field it covers |
| `Asn1Build.BuildLength` | HappyStream-squid-2.7.STABLE9/snmplib/asn1.c:603-656 | the length is written and counted, or the buffer left alone, exactly when it fits |
| `Asn1Build.BuildHeader` | HappyStream-squid-2.7.STABLE9/snmplib/asn1.c:509-525 | a header is written exactly when it fits; octets written plus octets left are conserved |
| `Asn1Build.TopBits` | HappyStream-squid-2.7.STABLE9/snmplib/asn1.c:267-274 | the test of the nine top bits finds exactly when one octet fewer will do |
| `Asn1Build.BuildInt` | HappyStream-squid-2.7.STABLE9/snmplib/asn1.c:240-294 | the loops write the shortest two's complement encoding exactly when it fits, change nothing else and conserve the octet count |
| `Asn1Build.BuildUnsigned` | HappyStream-squid-2.7.STABLE9/snmplib/asn1.c:306-368 | the same for unsigned numbers, with a null octet when the top bit is set |
| `Asn1Build.BuildString` | HappyStream-squid-2.7.STABLE9/snmplib/asn1.c:428-454 | an octet string is written exactly when it fits |
| `Asn1Build.TopGroup` | HappyStream-squid-2.7.STABLE9/snmplib/asn1.c:792-801 | the loop over shifted masks, the last one truncated, finds the highest group with a bit set |
| `Asn1Build.EmitSubId` | HappyStream-squid-2.7.STABLE9/snmplib/asn1.c:788-811 | the mask loop with its correction writes the groups of seven bits of every 32-bit sub-identifier, most significant first |
| `Asn1Build.BuildObjid` | HappyStream-squid-2.7.STABLE9/snmplib/asn1.c:757-824 | the local buffer is overrun exactly when the contents take more than 128 octets; otherwise the identifier is written exactly when it fits |
| `Asn1Build.LongOidOverruns` | HappyStream-squid-2.7.STABLE9/snmplib/asn1.c:771-813 | an identifier of n arcs of 32 bits behind its first two takes 1 + 5n octets: from 26 arcs on it overruns the buffer, although the decoder accepts 62 |
| `SnmpRoundTrip.ValueRoundTrip` | HappyStream-squid-2.7.STABLE9/snmplib/snmp_vars.c:453-560 | a value of every supported type is read back with its type |
| `SnmpRoundTrip.VarsRoundTrip` | HappyStream-squid-2.7.STABLE9/snmplib/snmp_vars.c:405-572 | any number of bindings is read back in order, although the count runs by header lengths and the position by values |
| `SnmpRoundTrip.PduRoundTrip` | HappyStream-squid-2.7.STABLE9/snmplib/snmp_pdu.c:484-633 | the fields of either kind of PDU are read back and the other fields of the receiving PDU stay |
| `SnmpRoundTrip.MessageRoundTrip` | HappyStream-squid-2.7.STABLE9/snmplib/snmp_msg.c:246-298 | decoding an encoded message, whatever follows it, gives version, community, PDU fields and all variables back, SNMPv1 exceptions folded into noSuchObject |
| `SnmpRoundTrip.ComesBackWhole` | HappyStream-squid-2.7.STABLE9/snmplib/snmp_msg.c:127-298 | for every version: so if and only if, besides, no exception of a variable is one that SNMPv1 replaces |
| `SnmpRoundTrip.FullCommunity` | HappyStream-squid-2.7.STABLE9/snmplib/snmp_msg.c:266-275 | every encoded message hands its community to the receiver, so that one as long as the receiver's buffer makes the null octet fall outside |
| `SnmpRoundTrip.VersionTwoExact` | HappyStream-squid-2.7.STABLE9/snmplib/snmp_msg.c:127-298 | except under SNMPv1, a receiver with a PDU as snmp_pdu_create makes it gets exactly the message sent if and only if the two fields that are not transmitted have the values that function sets |
| `SnmpEncode.Patched` | HappyStream-squid-2.7.STABLE9/snmplib/snmp_msg.c:207-238 | overwriting a header by one of the same size leaves the octets around it alone |
| `SnmpEncode.EncodeVar` | HappyStream-squid-2.7.STABLE9/snmplib/snmp_vars.c:276-352 | one binding is written with a false header that is then patched, exactly when its type is supported, its identifiers do not overrun and it fits; the counter for rebuilt headers never runs out first |
| `SnmpEncode.EncodeVars` | HappyStream-squid-2.7.STABLE9/snmplib/snmp_vars.c:260-359 | the bindings are written exactly when all types are supported, no identifier overruns and all fit |
| `SnmpEncode.EncodePduFields` | HappyStream-squid-2.7.STABLE9/snmplib/snmp_pdu.c:348-474 | request id and the two numbers of the PDU's kind are written exactly when they fit |
| `SnmpEncode.PatchHeaders` | HappyStream-squid-2.7.STABLE9/snmplib/snmp_msg.c:207-238 | patching the three headers in the code's order yields the encoding with true lengths |
| `SnmpEncode.EncodeMessage` | HappyStream-squid-2.7.STABLE9/snmplib/snmp_msg.c:127-242 | the buffer holds exactly the octets of the message as spelled out by `WireMessage`, success exactly when all types are supported, no identifier overruns and it fits; among messages otherwise encodable the overrun happens exactly for those with an identifier of more than 128 octets; nothing beyond the given length is touched |
| `SnmpWire.MessageOnWire` | HappyStream-squid-2.7.STABLE9/snmplib/snmp_msg.c:127-242 | every message is sent with the tags 0x30, 0x02, 0x04, its command, 0x02 three times and 0x30, each with its definite length, four octets of header where the code patches them |
| `SnmpWire.FirstTags` | HappyStream-squid-2.7.STABLE9/snmplib/snmp_msg.c:143-160 | octets 0 and 4 are 0x30 and 0x02, and the community starts with 0x04 behind the version |
| `SnmpWire.ValueOnWire` | HappyStream-squid-2.7.STABLE9/snmplib/snmp_vars.c:291-340 | each kind of value has its tag, 0x02, 0x04, 0x06 or its own, and the supported ones are those of the listed tags |
| `SnmpWire.NumberOnWire` | HappyStream-squid-2.7.STABLE9/snmplib/asn1.c:240-368 | integers are sent in two's complement, most significant octet first, and their first nine bits are not all the same |
| `SnmpWire.SubIdOnWire` | HappyStream-squid-2.7.STABLE9/snmplib/asn1.c:783-811 | sub-identifiers are sent seven bits an octet, bit 8 set in all but the last, and do not start with 0x80 |
| `SnmpWire.ObjidOnWire` | HappyStream-squid-2.7.STABLE9/snmplib/asn1.c:775-813 | 40 times the first arc plus the second stands in one octet, the other arcs follow one by one |
| `SnmpWire.LengthRead` | HappyStream-squid-2.7.STABLE9/snmplib/asn1.c:572-601 | a length is read from one octet up to 127 or from the one to four octets that 0x81 to 0x84 announce, and refused else |
| `SnmpWire.StartsRight` | HappyStream-squid-2.7.STABLE9/snmplib/asn1.c:572-601 | every length read is below 2^32 and its contents start two to six octets behind the tag |
| `SnmpWire.NoLength` | HappyStream-squid-2.7.STABLE9/snmplib/asn1.c:109-742 | without a length no header, number, string or identifier is read |
| `SnmpWire.HeaderRead` | HappyStream-squid-2.7.STABLE9/snmplib/asn1.c:466-495 | a header is read exactly if its tag has one octet and its length is at most 524288 and what is left |
| `SnmpWire.NumberRead` | HappyStream-squid-2.7.STABLE9/snmplib/asn1.c:109-207 | a number is read exactly if it is all there and has at most four octets, or five of which the first is 0 for an unsigned one, and has the value of its two's complement |
| `SnmpWire.StringRead` | HappyStream-squid-2.7.STABLE9/snmplib/asn1.c:382-417 | a string is read exactly if it is all there and the receiver has room, and is its octets |
| `SnmpWire.SubIdRead` | HappyStream-squid-2.7.STABLE9/snmplib/asn1.c:708-716 | any number of octets with bit 8 set and one without give their seven-bit groups modulo 2^32 |
| `SnmpWire.ArcsRead` | HappyStream-squid-2.7.STABLE9/snmplib/asn1.c:718-738 | the first sub-identifier gives the arcs by division by 40, and 43 always 1.3 |
| `SnmpWire.ObjidRead` | HappyStream-squid-2.7.STABLE9/snmplib/asn1.c:671-742 | an identifier is read exactly if it is all there, from the sub-identifiers its receiver has room for |
| `SnmpWire.ValueRead` | HappyStream-squid-2.7.STABLE9/snmplib/snmp_vars.c:453-560 | a value is read by its literal tag as a number, string, identifier or null of that tag, and refused for any other |
| `SnmpWire.BindingsRead` | HappyStream-squid-2.7.STABLE9/snmplib/snmp_vars.c:385-450 | lists and bindings start with 0x30 and names with 0x06 |
| `SnmpWire.PduRead` | HappyStream-squid-2.7.STABLE9/snmplib/snmp_pdu.c:484-633 | the tag of a PDU is its command, and that of GetBulk, 0xA5, decides where the second and third number go |
| `SnmpWire.MessageRead` | HappyStream-squid-2.7.STABLE9/snmplib/snmp_msg.c:246-262 | a message starts with 0x30 |
| `SnmpDecode.DecodeNumber` | HappyStream-squid-2.7.STABLE9/snmplib/asn1.c:109-207 | the 32-bit shift loop computes the specified number or fails exactly as specified |
| `SnmpDecode.DecodeObjid` | HappyStream-squid-2.7.STABLE9/snmplib/asn1.c:671-742 | the nested loops compute the specified identifier within the given number of sub-identifiers |
| `SnmpDecode.DecodeVars` | HappyStream-squid-2.7.STABLE9/snmplib/snmp_vars.c:372-574 | the loop over bindings computes the specified list, or fails exactly as specified |
| `SnmpDecode.DecodePdu` | HappyStream-squid-2.7.STABLE9/snmplib/snmp_pdu.c:484-633 | the fields are filled as specified |
| `SnmpDecode.DecodeMessage` | HappyStream-squid-2.7.STABLE9/snmplib/snmp_msg.c:246-298 | the decoder computes the specified message or fails exactly as specified; the community stands in its buffer with a null octet behind it and nothing else there changes, but for a community that fills the buffer: exactly then that octet is written outside it |
| `SnmpFix.FixPdu` | HappyStream-squid-2.7.STABLE9/snmplib/snmp_pdu.c:182-266 | a copy without the marked variable is made if and only if the PDU has the tag of a response, 0xA2, and an error in one of at least two variables; NULL is dereferenced if and only if such a response without variables has its first one marked |
| `SnmpFix.FixedFields` | HappyStream-squid-2.7.STABLE9/snmplib/snmp_pdu.c:202-206 | the copy has the command asked for, request id 0 and error fields -1, and keeps the rest |
| `SnmpFix.FixedVariables` | HappyStream-squid-2.7.STABLE9/snmplib/snmp_pdu.c:214-252 | every other variable is there, in order, and only the marked one is not |
| `SplayShape.RotateRight` | HappyStream-squid-2.7.STABLE9/lib/splay.c:69-72 | a right rotation keeps the in-order sequence |
| `SplayShape.LinkRight` | HappyStream-squid-2.7.STABLE9/lib/splay.c:76-78 | linking right moves top and what follows it to the right spine, in order |
| `SplayShape.Assemble` | HappyStream-squid-2.7.STABLE9/lib/splay.c:97-100 | the four final assignments, done in the code's order on shared links, give one tree over the same in-order sequence |
| `Splay.SplayTo` | HappyStream-squid-2.7.STABLE9/lib/splay.c:49-102 | the in-order sequence of nodes is unchanged for any comparison; splayLastResult is the comparison with the new root; in an ordered tree everything before the root is less and everything after is greater, so the key is at the root if it is present |
| `Splay.StepRight` | HappyStream-squid-2.7.STABLE9/lib/splay.c:80-94 | a round to the right goes down two links by a rotation exactly when the key lies beyond the child too, and one link otherwise |
| `Splay.StepLeft` | HappyStream-squid-2.7.STABLE9/lib/splay.c:65-79 | a round to the left does the same |
| `Splay.Insert` | HappyStream-squid-2.7.STABLE9/lib/splay.c:22-47 | a sorted tree stays sorted; a key that is present changes nothing in order, any other is added exactly once with the new node at the root |
| `Splay.Walk` | HappyStream-squid-2.7.STABLE9/lib/splay.c:117-125 | the walk visits the data in order |
| `Splay.InsertAll` | HappyStream-squid-2.7.STABLE9/lib/splay.c:22-47 | any run of insertions gives a sorted tree of exactly the keys inserted, duplicates once |
| `DnsName.NameRoundTrip` | HappyStream-squid-2.7.STABLE9/lib/rfc1035.c:141-339 | unpacking a packed name gives its normal form (empty labels dropped, labels cut to 63) exactly when it leaves room for a terminator; with just that room the null label is left unread; a longer name is refused unless a dot falls on the last place, and then its tail is lost |
| `DnsName.TailIsLost` | HappyStream-squid-2.7.STABLE9/lib/rfc1035.c:281-339 | into the 256 octets every caller passes, four labels of 63 octets unpack without an error and any tail behind them is dropped |
| `DnsName.PackedByLabels` | HappyStream-squid-2.7.STABLE9/lib/rfc1035.c:141-182 | a name is packed label by label between its dots, each behind its length and cut to 63 octets, with the null label at the end |
| `DnsName.PointerLeads` | HappyStream-squid-2.7.STABLE9/lib/rfc1035.c:294-310 | two octets 0xC0 + p / 256 and p % 256 go on at offset p, for every p below 16384 inside the message, up to 65 deep |
| `DnsName.CompressedName` | HappyStream-squid-2.7.STABLE9/lib/rfc1035.c:281-339 | labels followed by a pointer to a packed name unpack to the labels and that name's normal form |
| `DnsName.PointerLoop` | HappyStream-squid-2.7.STABLE9/lib/rfc1035.c:294-310 | pointers that lead only to one another are refused |
| `DnsCodec.LabelPack` | HappyStream-squid-2.7.STABLE9/lib/rfc1035.c:141-157 | one octet of length and at most 63 octets of label are written, nothing else |
| `DnsCodec.NamePack` | HappyStream-squid-2.7.STABLE9/lib/rfc1035.c:166-182 | the octets written are the labels strtok finds and the null label, nothing else |
| `DnsCodec.ReadLabels` | HappyStream-squid-2.7.STABLE9/lib/rfc1035.c:288-330 | the label loop reaches the end, a pointer or an error as specified and writes only inside the name buffer |
| `DnsCodec.NameUnpack` | HappyStream-squid-2.7.STABLE9/lib/rfc1035.c:281-339 | decompression terminates on every message, writes only inside name[0..ns), succeeds exactly as specified and leaves a null-terminated name |
| `DnsQuery.HeaderRoundTrip` | HappyStream-squid-2.7.STABLE9/lib/rfc1035.c:96-262 | every header unpacks to itself |
| `DnsQuery.HeaderOctets` | HappyStream-squid-2.7.STABLE9/lib/rfc1035.c:96-131 | the twelve octets of a header field by field |
| `DnsQuery.QueryCompare` | HappyStream-squid-2.7.STABLE9/lib/rfc1035.c:525-548 | the loops decide equality up to letter case, and up to trailing dots when the lengths differ |
| `DnsQuery.SameQueryIs` | HappyStream-squid-2.7.STABLE9/lib/rfc1035.c:525-548 | queries are the same exactly if type and class are and the names agree but for letter case and, when one is longer, but for dots at their ends |
| `DnsQuery.LowerIs` | HappyStream-squid-2.7.STABLE9/lib/rfc1035.c:548-548 | letter case is that of the 26 letters |
| `DnsQuery.QuestionUnpacks` | HappyStream-squid-2.7.STABLE9/lib/rfc1035.c:483-504 | the question of a built query unpacks to the normal form of its name, type A and class IN if that has at most 254 octets, and otherwise never to an A query |
| `DnsQuery.ComesBackIff` | HappyStream-squid-2.7.STABLE9/lib/rfc1035.c:525-663 | for every hostname: the query comes back equal if and only if its normal form has at most 254 octets and equals the recorded name up to letter case and trailing dots |
| `DnsQuery.WellFormedComesBack` | HappyStream-squid-2.7.STABLE9/lib/rfc1035.c:525-663 | a hostname of at most 255 octets comes back equal if and only if, trailing dots apart, it is empty or labels of 1 to 63 octets with single dots, and has at most 254 octets |
| `DnsBuild.HeaderPack` | HappyStream-squid-2.7.STABLE9/lib/rfc1035.c:96-131 | twelve octets in network order are written, nothing else |
| `DnsBuild.BuildAQuery` | HappyStream-squid-2.7.STABLE9/lib/rfc1035.c:639-663 | the buffer starts with exactly the query message and the recorded query holds the hostname |
| `DnsQuery.AQueryOctets` | HappyStream-squid-2.7.STABLE9/lib/rfc1035.c:639-663 | a query is its id, the octets 1 0 0 1 0 0 0 0 0 0, the packed name and 0 1 0 1: recursion desired, one question, type A, class IN |
| `HashChains.RestRemove` | HappyStream-squid-2.7.STABLE9/lib/hash.c:264-275 | removing a link other than the cursor's takes exactly it out of what is still to be visited |
| `HashChains.RestRemoveHere` | HappyStream-squid-2.7.STABLE9/lib/hash.c:269-273 | removing the cursor's link leaves exactly what lies behind it |
| `HashTable.Table.NextBucket` | HappyStream-squid-2.7.STABLE9/lib/hash.c:199-204 | the cursor moves to the first link of the next non-empty bucket |
| `HashTable.Table.First` | HappyStream-squid-2.7.STABLE9/lib/hash.c:210-218 | a traversal starts with every link of the table pending |
| `HashTable.Table.Next` | HappyStream-squid-2.7.STABLE9/lib/hash.c:226-236 | the first pending link is returned and is no longer pending |
| `HashTable.Table.Lookup` | HappyStream-squid-2.7.STABLE9/lib/hash.c:181-197 | the link found is the first of its bucket with an equal key; NULL means that no link of the key's bucket has one |
| `HashTable.Table.RemoveLink` | HappyStream-squid-2.7.STABLE9/lib/hash.c:258-278 | exactly the link goes, from the table and from what is pending, also when the cursor is at it; every other link stays |
| `HashTable.Table.Join` | HappyStream-squid-2.7.STABLE9/lib/hash.c:166-174 | exactly the link is added, at the head of the chain of its key, and nothing pending is lost |
| `HashTable.Table.ContentsDistinct` | HappyStream-squid-2.7.STABLE9/lib/hash.c:166-174 | no link is in the table twice |
| `HashRuns.ExactlyOnce` | HappyStream-squid-2.7.STABLE9/lib/hash.c:199-278 | under any interleaving of steps and removals every link is returned, removed before its turn, or still pending, and that exactly once |
| `HashRuns.NeverReturned` | HappyStream-squid-2.7.STABLE9/lib/hash.c:199-278 | a removed link is never returned afterwards |
| `HashRuns.CompleteTraversal` | HappyStream-squid-2.7.STABLE9/lib/hash.c:199-278 | when nothing is pending, every link nobody removed has been returned exactly once |
| `HashRuns.Traverse` | HappyStream-squid-2.7.STABLE9/lib/hash.c:199-278 | the table's cursor under any interleaving returns exactly what the specification says |
| `HeapOrder.Replace` | HappyStream-squid-2.7.STABLE9/lib/heap.c:187-190 | a key put anywhere into an ordered heap is out of order upwards or downwards but not both |
| `HeapOrder.RootLeast` | HappyStream-squid-2.7.STABLE9/lib/heap.c:216-232 | the root has the least key |
| `Heap.Heap.SwapElement` | HappyStream-squid-2.7.STABLE9/lib/heap.c:406-414 | two elements change places and indices, no other moves |
| `Heap.Heap.IfyUp` | HappyStream-squid-2.7.STABLE9/lib/heap.c:389-399 | a heap out of order only above an element is put in order |
| `Heap.Heap.IfyDown` | HappyStream-squid-2.7.STABLE9/lib/heap.c:355-383 | a heap out of order only below an element is put in order |
| `Heap.Heap.Insert` | HappyStream-squid-2.7.STABLE9/lib/heap.c:143-161 | order and nodes[i]->id == i are kept and exactly the new node is added |
| `Heap.Heap.Delete` | HappyStream-squid-2.7.STABLE9/lib/heap.c:169-193 | order and indices are kept and exactly the given node goes |
| `Heap.Heap.ExtractMin` | HappyStream-squid-2.7.STABLE9/lib/heap.c:216-232 | the node that goes has a least key |
| `Heap.Heap.Update` | HappyStream-squid-2.7.STABLE9/lib/heap.c:258-272 | order and indices are kept, the set of nodes is unchanged and the node has its new key and data |
| `Heap.Heap.VerifyHeapProperty` | HappyStream-squid-2.7.STABLE9/lib/heap.c:498-519 | the result is 1 exactly when heap order holds |
| `Heap.Heap.Drain` | HappyStream-squid-2.7.STABLE9/lib/heap.c:216-232 | repeated extraction gives every node once, by non-decreasing key |
| `HeapRuns.Run` | HappyStream-squid-2.7.STABLE9/lib/heap.c:143-272 | under any sequence of insert, delete, update and extractmin, with changes of the age between them, every call does what it would do on a priority queue, and the heap holds exactly the nodes still in that queue |
| `HeapRuns.Conserved` | HappyStream-squid-2.7.STABLE9/lib/heap.c:143-272 | at every point of such a run the data put in is, with repetition, the data in the heap and the data handed out |
| `DesTables.IpTable` | HappyStream-squid-2.7.STABLE9/lib/encrypt.c:56-66 | the table IP in closed form |
| `DesTables.EpTable` | HappyStream-squid-2.7.STABLE9/lib/encrypt.c:69-79 | the table EP in closed form |
| `DesStandard.BoxIs` | HappyStream-squid-2.7.STABLE9/lib/encrypt.c:105-155 | entry v of an S-box is that of FIPS 46-3 in the row of its first and last bit and the column of the other four |
| `DesStandard.RowsArePermutations` | HappyStream-squid-2.7.STABLE9/lib/encrypt.c:105-155 | each row of each box holds every number from 0 to 15 |
| `DesStandard.PermIs` | HappyStream-squid-2.7.STABLE9/lib/encrypt.c:96-102 | PERM is P of FIPS 46-3, counted from 0 |
| `DesStandard.RoundFunction` | HappyStream-squid-2.7.STABLE9/lib/encrypt.c:167-190 | every bit of the round function, for every half, key and E table, is the bit P names of the box output for the six mixed bits |
| `DesStandard.ZeroRound` | HappyStream-squid-2.7.STABLE9/lib/encrypt.c:167-190 | a half and a key of zeros give D8D8DBBC |
| `Des.HalfSwap` | HappyStream-squid-2.7.STABLE9/lib/encrypt.c:56-79 | IP after EP is the swap of the halves, and undoes it again |
| `Des.RoundsBack` | HappyStream-squid-2.7.STABLE9/lib/encrypt.c:201-212 | for every key list the rounds with the keys reversed undo the rounds, with the halves swapped |
| `Des.CryptUndoes` | HappyStream-squid-2.7.STABLE9/lib/encrypt.c:192-215 | for every key schedule, E table and block, encrypt with decr undoes encrypt without, and the other way round |
| `Des.CryptMain` | HappyStream-squid-2.7.STABLE9/lib/encrypt.c:167-190 | in place: the left half takes in the round function of the right half and key, the right half stays |
| `Des.Encrypt` | HappyStream-squid-2.7.STABLE9/lib/encrypt.c:192-215 | in place: the block becomes the specified permutation, sixteen half-rounds with keys in the direction of decr, and permutation |
| `Md5Blocks.BlocksAppend` | HappyStream-squid-2.7.STABLE9/lib/md5.c:89-123 | folding the transform over a concatenation is folding it over the parts, with the incomplete block carried over |
| `Md5.Context.Update` | HappyStream-squid-2.7.STABLE9/lib/md5.c:89-123 | the context depends only on the concatenation of all octets fed; the two-word count carries |
| `Md5.BitCount` | HappyStream-squid-2.7.STABLE9/lib/md5.c:151-153 | the two words with the number of bits are the eight octets of the 64-bit count |
| `Md5.Context.Final` | HappyStream-squid-2.7.STABLE9/lib/md5.c:130-159 | the digest is the transform folded over the message padded as in section 3 of RFC 1321, extra block included, and that is whole blocks |
| `Md5.Digest` | HappyStream-squid-2.7.STABLE9/lib/md5.c:72-159 | so for every way of splitting a message into calls |
| `Drand48.Generator.Next` | HappyStream-squid-2.7.STABLE9/lib/drand48.c:40-55 | the limb arithmetic computes (0x5DEECE66D X + 0xB) mod 2^48 and keeps each limb in 16 bits |
| `Drand48.Run` | HappyStream-squid-2.7.STABLE9/lib/drand48.c:40-55 | after n calls the state is the n-th iterate from the initial state |
| `Rfc1738.UnescapeUndoes` | HappyStream-squid-2.7.STABLE9/lib/rfc1738.c:88-223 | unescaping undoes rfc1738_escape and rfc1738_escape_part on every string without a null octet |
| `Rfc1738.UnescapeSpelled` | HappyStream-squid-2.7.STABLE9/lib/rfc1738.c:182-223 | a percent sign and two hexadecimal digits, upper or lower case, become the octet they spell |
| `Rfc1738.UnescapeStays` | HappyStream-squid-2.7.STABLE9/lib/rfc1738.c:195-223 | two percent signs become one, and every other character stays |
| `Rfc1738.EscapedAre` | HappyStream-squid-2.7.STABLE9/lib/rfc1738.c:49-84 | which characters each mode escapes, spelled out |
| `Rfc1738.EscapeSpells` | HappyStream-squid-2.7.STABLE9/lib/rfc1738.c:103-145 | an escaped character becomes a percent sign and two upper-case digits, any other itself |
| `Rfc1738.EscapeUnescapedIdempotent` | HappyStream-squid-2.7.STABLE9/lib/rfc1738.c:163-167 | rfc1738_escape_unescaped is idempotent |
| `Rfc1738.Escaper.DoEscape` | HappyStream-squid-2.7.STABLE9/lib/rfc1738.c:88-147 | the output is the specified one, at most three times as long as the input, and fits the static buffer over any sequence of calls; the buffer is replaced exactly when it has fewer than three octets per character |
| `Rfc1738.Escaper.EscapeOwn` | HappyStream-squid-2.7.STABLE9/lib/rfc1738.c:88-147 | handed its own static buffer, the function frees it first if and only if three times the length exceeds its size, and otherwise returns the string unchanged if no character needs escaping and runs past the end of the buffer if any does |
| `Rfc1738.UnescapeInPlace` | HappyStream-squid-2.7.STABLE9/lib/rfc1738.c:195-223 | rewriting the string in place gives the unescaped string and its terminator |

## Left out

- MallocArena.Arena.ExtendTop: does not model memory that a foreign sbrk call put between the arena and new memory, nor the fenceposts for it, because that is operating-system interaction; `topPad` is below 2^30.
- MallocArena.Arena.Trim: asks for a pad that is safe in the sense of `TrimExact` if top is set up and the system takes memory, because any other leaves top less than its minimum; a failed MORECORE leaves the arena as it was.
- MallocArena.Arena.Memalign: asks that the sum handed to malloc stay below the sign bit for alignments above 8, because for any other malloc may give a chunk that is too small (`AlignmentServes`).
- MallocRuns.Perform: users do not make the calls that the two lines above exclude.
- dlmalloc: mmap, realloc, calloc, mallopt and the printing of statistics.
- RadixHead.RadixTop.AddRoute: entries of one duplicate-key chain and of one annotation list are sequences in their node; that the loops and links on records of their own compute these sequences is proved apart, in `RadixLists`. Reference counts, which only non-contiguous masks use, are not modelled.
- RadixHead.RadixTop.Delete: one node stands for the leaves of a whole chain, so that only the internal nodes of the pairs are told apart.
- radix: non-contiguous masks, interning of masks (equal masks are equal values), tree walking.
- Asn1Build.BuildObjid: an overrun of the local buffer is reported, what it overwrites is not modelled.
- SNMP: MIB files, traps of version 1 (compiled out), memory of cloned variables, error codes.
- DNS: resource records, answers and PTR queries, because they would only add straight-line parsing; `rdlength` counting.
- Splay.Insert: asks for a lawful comparison; `SplayTo` keeps the in-order sequence for any.
- HashTable.Table.Lookup: keys are never NULL.
- hash: the hash functions, `hashFreeItems` and the choice of primes.
- heap: skew statistics and NaN keys.
- HeapRuns.Run: users do not name a node that has left the heap, because its memory has been freed.
- encrypt: `setkey` and `crypt`, which only prepare the tables that the proofs hold for in general.
- Rfc1738.Escaper.EscapeOwn: reports a freed or an overrun buffer; what is read or overwritten then is not modelled.
- md5: the block transform itself and the clearing of the context after Final.
- GNUregex, base64, date, string and Windows helpers, the Squid daemon and the Android client.
