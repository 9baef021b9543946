# A verified model of the FFS block allocator

This project models the cylinder-group allocator of the Fast File System, the code that sets up and searches
its maps, and a few neighbouring algorithms, and proves what they keep.

In each cylinder group one bitmap of free fragments is the truth. Everything else is a redundant summary that
separate functions update step by step: the counts of free blocks and fragments in the group, in `fs_cs` and in
`fs_cstotal`; the histogram `cg_frsum` of partial runs; the cluster map, its capped histogram `cg_clustersum`
and `fs_maxcluster`. The invariant (`CylGroup.Valid`, `FileSystem.Valid`) defines each summary as a recount of the
map, and says that every fragment is free, metadata, or owned by a caller. One hold of the group's buffer lock is
one atomic call.

The main results:

- **Accounting over whole runs.** Every allocate, extend, cluster and free operation keeps every summary equal to a
  recount. `Workload.Serve` puts them together: any sequence of lock holds, so any interleaving of threads,
  refines a step relation on the maps, the owners and the extents held, which says exactly when each step succeeds and
  what it changes. All along the extents callers hold are what the groups count as owned, pairwise disjoint, not
  free, no metadata and never at address 0, and free plus held fragments are conserved. newfs produces the states
  where such runs begin (`Newfs.MkFs`); module `Begin` joins it to each of them.
- **Searches cannot fail, summaries never lie.** The table-driven map search finds a run whenever the summary says
  there is one, the early exits turn nothing away, and the panics behind them are unreachable. Which extent it is follows
  from the maps, the rotors and the preference: the first group that can, in an order stated as a sequence
  of its own, there the preferred block if it is free, else the first fit in wrapped address order (module `Preference`).
  Run with nobody in between, `ffs_hashalloc` returns 0 exactly when no group can meet the request. It drops the lock between two tries,
  so among other threads that is false (`Interleave.ZeroTooLate`): a 0 then says that each group could not give the
  extent at the moment it was tried, and that none can now if nobody freed anything meanwhile (`Interleave.Search`,
  `OnlyByFree`, `ZeroNow`).
- **Order does not matter.** Returning fragments in any order and any split reaches the same map and summaries
  (`Release.FreeBoth`), and allocating and then freeing restores them (`Release.AllocThenFreeAll`).
- **The user-level pair.** In libufs `cgballoc` changes the loaded copy of a group and `cgbfree` works on the copy it
  reads from the disk, without any test. Allocating and freeing restores the group if and only if the two copies are
  the same at the free (`Libufs.RestoredIff`, `Libufs.AllocFree`). A `cgwrite` in between makes them so; without one, on
  a disk that was up to date, the count of free blocks always ends one too high (`Libufs.StaleNeverRestores`).
- **Lazy inode initialisation** is safe under every interleaving, and the mark of the initialised inodes moves exactly
  as far as the inode handed out needs. The literal wish that no block is zeroed after one
  of its inodes was handed out is false of the code: `InodeInit.LateRun` builds the run, `NeverLateIffAlone` gives the
  exact condition, on every group, and `ZeroLosesNothing` with `RunSafe` says why no owner loses data all the same.
- **TRIM consolidation** loses no block and duplicates none. Blocks passed under one key, each next to those before it,
  go out as exactly one unmap, whatever else goes on (`TrimRange.OneUnmap`). Each completion frees the blocks of one request, after an
  unmap that was sent for that request and has served no other. Over the allocator (`TrimRun`) a released block stays
  in use until then, so nobody gets it before its own unmap was sent. The extent sent has an offset in device blocks and a
  length in bytes; `Trim.ExtentAsMeant`, `ExtentInBytes` and `ExtentInBlocks` say for each reading of these
  units whether it covers the blocks.
- **Indirect blocks.** `ufs_getlbns` finds the one path to each logical block, names of indirect blocks never
  clash, and `ffs_balloc_ufs2` either fills exactly the missing slots of its path or leaves everything as it was. The old
  pointers decide what it has to ask for, and it does the former exactly when all of that is granted and `fs_cstotal`
  counts enough free blocks; when it panics instead of undoing its work is stated exactly, too. The blocks come from the
  allocator above, so everything includes the maps, the owners and the summaries of the filesystem.
- **CRC32c**: bit by bit, byte by byte and eight bytes at a time agree, for every alignment. The polynomial is
  0x1EDC6F41, the CRC32c of Appendix A of RFC 9260, without the final complement.
- **Sorting**: introsort with the bottom-up heapsort fallback yields a sorted permutation, with or without heapsort's
  buffer, and nests at most log2(n) calls. With the buffer its partitions go over at most 2 n (log2(n) + 1) elements,
  however bad the pivots are.

`dafny verify dfyconfig.toml` checks the whole project.

The modules, from the bottom up: `Arith`, `Bitmap`, `FragTables`, `Runs`, `Recount`, `FragSearch`, `Clusters`,
`CgCounts`, `Geometry`, `Allocator` (one group), `Filesystem` (all groups), `Workload` (whole runs), `Interleave`
(searches among other threads), `Preference` (which group and which extent), `Release` (order of frees), `BlockPool` (whole blocks), `Libufs`, `Newfs`, `CgLayout`,
`Prefer`; `WordScan`, `Inodes`, `InodeFs`, `InodeInit`; `Trim`, `TrimRange`, `TrimRun`; `Lbns`, `IndirTree`, `Balloc`;
`Crc32cTables`, `Crc32cLinear`, `Crc32c`; `Heapsort`, `Introsort`; `Begin` (from newfs on).

What the model asks of its callers: `fs_frag` is 1, 2, 4 or 8; `fs_fpg` is a multiple of it, or there is one group;
`fs_ipg` is a multiple of INOPB, which is a multiple of 8; at most 2^31 groups where all of them are searched
(`Geo.Searchable`, with `Filesystem.RehashEnds`); callers free and extend only what they own; the kernel's reads of cylinder groups succeed. The device,
the clock, random numbers and the outcome of memory requests are parameters or arbitrary choices; for `Balloc` the answers
to its requests and the addresses its placement policy prefers are functions of the call and the request, given in advance.

## Model

| member | source | states |
|---|---|---|
| `Bitmap.BitUpdates` | ufsX/ufs/ffs/ffs_alloc.c:1782-1783 | setting or clearing one bit of the stored bytes changes exactly that element of the map they stand for |
| `Bitmap.BlockTests` | ufsX/ufs/ffs/ffs_subr.c:432-480 | ffs_isblock and ffs_isfreeblock hold exactly when all, or none, of the block's fragments are free, for every fragment size |
| `Bitmap.BlockUpdates` | ufsX/ufs/ffs/ffs_subr.c:486-536 | ffs_setblock and ffs_clrblock fill exactly the fragments of the block |
| `Bitmap.BlkMapBits` | ufsX/ufs/ffs/fs.h:672-674 | bit j of blkmap is fragment loc + j of the block, and zero above the block |
| `FragTables.MatchIsRun` | ufsX/ufs/ffs/ffs_tables.c:42-52 | the around/inside mask test recognises exactly the maximal free runs of the given size at the given place |
| `FragTables.TableFinds` | ufsX/ufs/ffs/ffs_tables.c:54-140 | the bit of fragtbl for a size is set in the entry of a byte exactly when some block in the byte has a maximal free run of that size, for fs_frag 1, 2, 4 and 8 |
| `FragSearch.FragAcct` | ufsX/ufs/ffs/ffs_subr.c:400-424 | adds cnt to each histogram slot once per maximal run of that length in the block; a whole block and other slots are left alone |
| `FragSearch.Scanc` | ufsX/freebsd/compat/scanc.c:39-50 | stops at the first table hit, or says that there is none |
| `FragSearch.ByteHit` | ufsX/ufs/ffs/ffs_tables.c:54-140 | a byte of the map hits the table exactly when one of its blocks has a run of the size |
| `FragSearch.Sift` | ufsX/ufs/ffs/ffs_alloc.c:2854-2871 | in a byte that hit the table the sifting loop finds the lowest maximal run of exactly the size; the panic after it is unreachable |
| `FragSearch.MapSearch` | ufsX/ufs/ffs/ffs_alloc.c:2819-2873 | if some block has such a run, the two wrapped passes return the first one in address order, from the start byte to the end of the map and then from its beginning; both panics are unreachable |
| `Recount.RecountTake` | ufsX/ufs/ffs/ffs_alloc.c:1653-1717 | how each recount (whole blocks, loose fragments, runs of k) moves when the front of a maximal run is taken |
| `Recount.RecountUpdate` | ufsX/ufs/ffs/ffs_alloc.c:2187-2312 | a change inside one block moves each recount by the change of that block alone |
| `Recount.RecountedSplit` | ufsX/ufs/ffs/fs.h:281-294 | whole blocks times fs_frag plus loose fragments is the number of set bits of the map |
| `Clusters.CappedFlip` | ufsX/ufs/ffs/ffs_subr.c:544-625 | freeing a block takes the runs on its two sides out of the capped histogram and puts the joined run in, for any map, block and cap |
| `Clusters.ScanForward` | ufsX/ufs/ffs/ffs_subr.c:563-583 | the forward scan measures the run after the block, capped |
| `Clusters.ScanBackward` | ufsX/ufs/ffs/ffs_subr.c:584-604 | the backward scan measures the run before the block, capped |
| `Clusters.LargestSlot` | ufsX/ufs/ffs/ffs_subr.c:617-624 | the largest slot in use is the capped length of the longest free run |
| `Clusters.ClusterAcct` | ufsX/ufs/ffs/ffs_subr.c:544-625 | after the local scans the whole histogram counts the maximal runs by capped length, the maximum is exact, and slot 0 is untouched |
| `Clusters.AcctSlots` | ufsX/ufs/ffs/ffs_subr.c:544-625 | what the function does to a map and histogram that need not agree: the bit, the slots of the two neighbouring runs and of the joined one, and the largest slot in use |
| `Allocator.CylGroup.constructor` | newfs_ufs/mkfs.c:698-707 | the zeroed group that initcg starts from |
| `Allocator.CylGroup.SlotHasRun` | ufsX/ufs/ffs/ffs_alloc.c:1760-1762 | a cg_frsum slot is non-zero exactly when the map has a run of that length |
| `Allocator.CylGroup.NbfreeExact` | ufsX/ufs/ffs/ffs_alloc.c:1768-1769 | cs_nbfree is non-zero exactly when some block is wholly free |
| `Allocator.CylGroup.NoBlocks` | ufsX/ufs/ffs/ffs_alloc.c:1739-1744 | the early exit on cs_nbfree never turns away a whole-block request that could be met |
| `Allocator.CylGroup.TooFewFrags` | ufsX/ufs/ffs/ffs_alloc.c:1667-1668 | the early exit on cs_nffree never turns away an extension that could be met |
| `Allocator.CylGroup.SmallestFit` | ufsX/ufs/ffs/ffs_alloc.c:1759-1763 | the smallest run length in use that suffices, or fs_frag when no partial run does |
| `Allocator.CylGroup.FindBlock` | ufsX/ufs/ffs/ffs_alloc.c:1833-1856 | the wanted block if it is free, otherwise the first wholly free one from the byte of the wanted place on, counted around; the map search cannot fail, and the rotor moves exactly when the block found is in the data zone |
| `Allocator.CylGroup.WantedIs` | ufsX/ufs/ffs/ffs_alloc.c:1833-1845 | where the wanted address lies in the group: after the rotor without a preference, at the preferred fragment if it is in the group, else at the beginning of the zone, metadata or data, that the preferred one is in in its own group |
| `Allocator.CylGroup.NextBlock` | ufsX/ufs/ffs/ffs_alloc.c:1848-1856 | the next wholly free block in wrapped address order; the block rotor follows exactly into the data zone, the fragment rotor always |
| `Allocator.CylGroup.TakeBlock` | ufsX/ufs/ffs/ffs_alloc.c:1857-1880 | the map, every summary and the owners after the first fragments of a whole block are taken |
| `Allocator.CylGroup.AllocCgBlk` | ufsX/ufs/ffs/ffs_alloc.c:1818-1887 | takes the block asked for if it is wholly free, else the first one from there on; keeps the first size fragments, returns the rest; every summary still recounts the map |
| `Allocator.CylGroup.TakeFrags` | ufsX/ufs/ffs/ffs_alloc.c:1782-1792 | takes the front of a partial run; map, counts and histogram move together |
| `Allocator.CylGroup.AllocCg` | ufsX/ufs/ffs/ffs_alloc.c:1726-1804 | succeeds exactly when the group can meet the request, from the smallest sufficient run, splitting a whole block only when no partial run will do; which extent it is and where the rotors are afterwards follow from map, rotors and preference; every summary still recounts the map |
| `Allocator.CylGroup.SearchFrags` | ufsX/ufs/ffs/ffs_alloc.c:2830-2853 | the first run of the size from the preferred byte or the fragment rotor on, counted around; the rotor then marks its byte |
| `Allocator.CylGroup.FreeTail` | ufsX/ufs/ffs/ffs_alloc.c:1680-1691 | the two scans decide whether the extra fragments are free and find the end of their run |
| `Allocator.CylGroup.FragExtend` | ufsX/ufs/ffs/ffs_alloc.c:1653-1717 | succeeds exactly when the extra fragments are free and in the same block, and then takes them; otherwise nothing changes |
| `Allocator.CylGroup.FreeWhole` | ufsX/ufs/ffs/ffs_alloc.c:2244-2261 | the whole-block branch; "freeing free block" is unreachable for owned blocks |
| `Allocator.CylGroup.FreeFrags` | ufsX/ufs/ffs/ffs_alloc.c:2262-2303 | the fragment branch, with reassembly of a block that becomes whole; "freeing free frag" is unreachable |
| `Allocator.CylGroup.BlkFree` | ufsX/ufs/ffs/ffs_alloc.c:2241-2303 | returns exactly the given fragments to the map, keeps every summary a recount of it, and takes them from their owner |
| `Allocator.CylGroup.FindCluster` | ufsX/ufs/ffs/ffs_alloc.c:1954-1981 | finds the first row of len free blocks from the start position, no earlier position having one, or there is none |
| `Allocator.CylGroup.SummaryAllows` | ufsX/ufs/ffs/ffs_alloc.c:1911-1939 | the summary tests say yes exactly when a cluster of that length exists somewhere in the group; fs_maxcluster is made exact if it promised one that is nowhere, and is left alone otherwise |
| `Allocator.CylGroup.TakeCluster` | ufsX/ufs/ffs/ffs_alloc.c:1985-1996 | asks for each block by name and gets it: exactly the blocks of the row are taken, and every summary still recounts the map |
| `Allocator.CylGroup.CheckCluster` | ufsX/ufs/ffs/ffs_alloc.c:1985-1990 | the address of the row lies in the group; the tests behind "map mismatch" and "allocated out of group" are made and cannot fail |
| `Allocator.CylGroup.TakeNamed` | ufsX/ufs/ffs/ffs_alloc.c:1993-1995 | a wholly free block asked for by name is the one returned; "lost block" is unreachable |
| `Allocator.CylGroup.ClusterRows` | ufsX/ufs/ffs/ffs_alloc.c:1954-1981 | the cluster map has a run of len at a position exactly when the block map has len wholly free blocks there |
| `Allocator.ClusterFromMeans` | ufsX/ufs/ffs/ffs_alloc.c:1954-1958 | the search for a cluster begins at the block that holds the preferred fragment or, for a preference in another group, at the first block of the data zone |
| `Allocator.CylGroup.ClusterAlloc` | ufsX/ufs/ffs/ffs_alloc.c:1897-2001 | succeeds exactly when a cluster of that length exists at or after the preferred position, and takes exactly the first one; on failure nothing changes but fs_maxcluster, and that exactly when it was too high |
| `Allocator.CylGroup.OwnedInside` | ufsX/ufs/ffs/ffs_alloc.c:1593-1887 | what was handed out lies inside the group, is no metadata, and never has address 0 |
| `Allocator.CylGroup.FreeSpace` | ufsX/ufs/ffs/fs.h:281-286 | cs_nbfree times fs_frag plus cs_nffree is the number of free fragments of the group |
| `Allocator.AddressInGroup` | ufsX/ufs/ffs/fs.h:638-666 | dtog and dtogd take an address apart into its group and offset; block alignment survives |
| `Filesystem.FileSystem.Settle` | ufsX/ufs/ffs/ffs_alloc.c:1788-1791 | the matching updates of fs_cs(cg) and fs_cstotal restore the three-level agreement |
| `Filesystem.FileSystem.AllocCg` | ufsX/ufs/ffs/ffs_alloc.c:1726-1804 | returns 0 exactly when the group cannot meet the request, and then changes nothing; otherwise the extent was free, in one block, unowned, no metadata, and the one that map, rotors and preference pick; totals stay the sums over groups |
| `Filesystem.FileSystem.HashAlloc` | ufsX/ufs/ffs/ffs_alloc.c:1594-1644 | run with nobody in between: ends, returns 0 exactly when no group can meet the request, and otherwise takes the extent from the first group that can, in the order icg, icg + 1, icg + 3, icg + 7 and so on, then icg + 2, icg + 3 and so on, counted around; the preferred address counts in icg alone, and the other groups are left alone |
| `Filesystem.OrderCovers` | ufsX/ufs/ffs/ffs_alloc.c:1631-1643 | every group is in that order |
| `Preference.RehashAt` | ufsX/ufs/ffs/ffs_alloc.c:1621-1630 | turn k of the rehash tries the group 2^(k+1) - 1 after the first, counted around |
| `Preference.RehashLength` | ufsX/ufs/ffs/ffs_alloc.c:1621-1630 | it has as many turns as there are powers of two below the number of groups |
| `Preference.SearchIsTry` | ufsX/ufs/ffs/ffs_alloc.c:1594-1644 | a search that finds something does what one try does in the first group of the order that can give it: the preferred group if it can |
| `Preference.TakesPreferred` | ufsX/ufs/ffs/ffs_alloc.c:1842-1847 | a request met from a whole block takes the block of the preferred address, if it lies in the group and is wholly free, and leaves the rotors alone |
| `Preference.TakesNext` | ufsX/ufs/ffs/ffs_alloc.c:1833-1834 | without a preference it takes the block after the rotor, if that is wholly free |
| `Preference.TakesZone` | ufsX/ufs/ffs/ffs_alloc.c:1835-1841 | with a preference in another group it takes the first block of the same zone, metadata or data, if that is wholly free |
| `Preference.TakesFragments` | ufsX/ufs/ffs/ffs_alloc.c:2830-2853 | a request met from a partial run takes the first run of the shortest sufficient length from the byte of the preferred fragment on or, without a preference, from the fragment rotor on |
| `Filesystem.RehashEnds` | ufsX/ufs/ffs/ffs_alloc.c:1621-1630 | the doubling step, a u_int, reaches the number of groups if and only if there are at most 2^31 of them; with more it wraps around to 0 first |
| `Filesystem.FileSystem.FragExtend` | ufsX/ufs/ffs/ffs_alloc.c:1653-1717 | extends in place exactly when the extra fragments are free and in the block, with the summary test made first |
| `Filesystem.FileSystem.BlkFree` | ufsX/ufs/ffs/ffs_alloc.c:2187-2312 | returns the fragments to their group; other groups are unchanged and all three levels of counts agree |
| `Filesystem.FileSystem.ClusterAlloc` | ufsX/ufs/ffs/ffs_alloc.c:1897-2001 | 0 exactly when the group has no row of that many whole blocks from the preferred position on; otherwise the first such row is taken, nothing else changes, and all three levels of counts agree |
| `Filesystem.FileSystem.TotalSpace` | ufsX/ufs/ffs/fs.h:281-294 | fs_cstotal gives the number of free fragments in all maps together |
| `Workload.DoAlloc` | ufsX/ufs/ffs/ffs_alloc.c:1594-1644 | the request is refused exactly when no group can give it; otherwise the one change to maps and owners is the new extent, in the first group of the search order that can, where map, rotors and preference pick it, apart from all extents held |
| `Workload.DoTry` | ufsX/ufs/ffs/ffs_alloc.c:1726-1804 | one try in a named group, the work of one lock hold: refused exactly when this group cannot give the extent; otherwise the one change to maps and owners is the new extent, which map, rotors and preference pick |
| `Workload.DoExtend` | ufsX/ufs/ffs/ffs_alloc.c:1653-1717 | an extent grows in place exactly when the fragments after it are free and in its block, and then they are the one change; what is free or held in all stays the same |
| `Workload.DoCluster` | ufsX/ufs/ffs/ffs_alloc.c:1897-2001 | the blocks of the first row from the preferred position on become extents of their own, or nothing changes because there is no such row |
| `Workload.DoFree` | ufsX/ufs/ffs/ffs_alloc.c:2187-2303 | exactly the extent, or its tail, goes back; what is free or held in all stays the same |
| `Workload.Serve` | ufsX/ufs/ffs/ffs_alloc.c:1593-2312 | over any sequence of lock holds (tries in one group, clusters, extensions, frees, and whole searches) there is a history, from the old state to the new, in which each changed maps, owners and extents exactly as its step relation says and returned the address it says; at every point the extents held are what the groups count as owned, pairwise disjoint and not free; the summaries end exact, and free plus held fragments are conserved |
| `Interleave.RefusedThen` | ufsX/ufs/ffs/ffs_alloc.c:1739-1769 | a refused try says that the group could not give the extent at that moment |
| `Interleave.NoneInLess` | ufsX/ufs/ffs/ffs_alloc.c:1759-1769 | a map that loses free fragments cannot come to offer an extent it did not offer |
| `Interleave.OnlyByFree` | ufsX/ufs/ffs/ffs_alloc.c:1594-1644 | if a group can give the extent at the end of a run in which it was refused, then fragments were freed in it after that try |
| `Interleave.ZeroNow` | ufsX/ufs/ffs/ffs_alloc.c:1594-1644 | after a search that was refused everywhere and during which nobody freed anything, no group can give the extent |
| `Interleave.ZeroTooLate` | ufsX/ufs/ffs/ffs_alloc.c:1594-1644 | a run of two groups in the order of the code in which every try is refused, a free comes between the tries, and the first group can give the extent at the end |
| `Interleave.Search` | ufsX/ufs/ffs/ffs_alloc.c:1594-1644 | the search with any acts of other threads after each of its tries: 0 means that the groups were tried in the order of the code and every one was refused when it was tried, and that none can give the extent now if nobody freed anything; otherwise the groups tried follow that order and the last step of the run is its own successful try |
| `Workload.SessionSafe` | ufsX/ufs/ffs/ffs_alloc.c:1593-2312 | a fragment held by one caller is held by no other, is not free, holds no metadata and has no address 0 |
| `Workload.FreshSession` | newfs_ufs/mkfs.c:474-487 | a filesystem with nothing handed out, such as newfs leaves, is the start of such a run |
| `Release.FreeAll` | ufsX/ufs/ffs/ffs_alloc.c:2244-2303 | returning owned disjoint pieces one by one reaches the map with all of them returned |
| `Release.SameCoverSameMap` | ufsX/ufs/ffs/ffs_alloc.c:2244-2303 | two lists of pieces that cover the same fragments reach the same map |
| `Release.MapDecides` | ufsX/ufs/ffs/ffs_alloc.c:2244-2303 | in a group that meets the invariant the counts, the fragment histogram, the cluster map and the cluster sums are functions of the block map |
| `Release.FreeBoth` | ufsX/ufs/ffs/ffs_alloc.c:2244-2303 | two groups with equal maps, freed in two lists of pieces that cover the same fragments, in any order and split, end with the same map, counts, histograms and cluster map |
| `Release.AllocThenFree` | ufsX/ufs/ffs/ffs_alloc.c:2244-2303 | clearing a free extent and returning it in any pieces gives the map back |
| `Release.AllocThenFreeAll` | ufsX/ufs/ffs/ffs_alloc.c:1726-1804 | allocating from a group and freeing the extent again in any pieces restores the map, the owners and every summary of the group |
| `Libufs.ValidSound` | newfs_ufs/mkfs.c:675-808 | a group that meets the kernel's invariant is a sound copy for libufs |
| `Libufs.BallocSound` | libufs/cgroup.c:55-77 | taking a wholly free block keeps every summary of the loaded copy a recount of its map |
| `Libufs.BfreeSound` | libufs/cgroup.c:96-103 | returning a block in use keeps the copy on which it is done sound |
| `Libufs.FfreeSound` | libufs/cgroup.c:104-136 | so does returning fragments in use, also those after the last whole block of a short group |
| `Libufs.FreedSound` | libufs/cgroup.c:80-138 | data fragments in use meet what cgbfree asks of its caller, and both its branches keep the copy sound |
| `Libufs.RoundTrip` | libufs/cgroup.c:55-103 | what cgballoc does to a copy and what cgbfree does to that copy cancel out in every field |
| `Libufs.RestoredIff` | libufs/cgroup.c:55-138 | allocating in the loaded copy and freeing in the disk copy restores the group if and only if the disk copy is the loaded copy |
| `Libufs.StaleNeverRestores` | libufs/cgroup.c:80-103 | without a write in between, on a disk that was up to date, the map comes back, the count of free blocks is one too high, and the group is no longer sound |
| `Libufs.StaleExample` | libufs/cgroup.c:80-103 | that failure at a group of two blocks, with concrete numbers |
| `Libufs.Uufsd.constructor` | libufs/cgroup.c:198-222 | the disk as it is found, with its first group loaded, and the summaries of the superblock |
| `Libufs.Uufsd.CgRead1` | libufs/cgroup.c:198-222 | the loaded copy becomes the disk copy of the group asked for |
| `Libufs.Uufsd.CgWrite` | libufs/cgroup.c:260-295 | the disk copy of the loaded group, and of no other, becomes the loaded copy, or nothing is written and -1 is returned |
| `Libufs.Uufsd.CgBalloc` | libufs/cgroup.c:54-77 | returns 0 exactly when no block is free; otherwise the address of the first wholly free block, which leaves the loaded copy, fs_cs and fs_cstotal; the disk is not touched |
| `Libufs.Uufsd.CgBFree` | libufs/cgroup.c:79-138 | whatever was loaded, the group of the address is read from the disk, gets the fragments back and is written; fs_cs and fs_cstotal move by what its counts gained, and fs_maxcluster is the largest slot in use after a block became whole; if the read fails, disk and superblock are untouched |
| `Libufs.AllocFree` | libufs/cgroup.c:54-138 | cgballoc, a cgwrite or none, then cgbfree: fs_cs and fs_cstotal come back in any case; map, counts, histograms and cluster map of the group come back exactly when the disk copy is the loaded copy at the free, which a write ensures, and fs_maxcluster with them |
| `Newfs.CountClusters` | newfs_ufs/mkfs.c:780-808 | the one-pass count gives the same capped histogram that ffs_clusteracct maintains |
| `Newfs.AddBlock` | newfs_ufs/mkfs.c:750-772 | each step of the block loops keeps the partly built group counted |
| `Newfs.AddFrags` | newfs_ufs/mkfs.c:758-779 | so does a stretch of single fragments before the first or after the last whole block |
| `Newfs.InitCg` | newfs_ufs/mkfs.c:675-808 | the group satisfies the accounting invariant, with everything but the metadata free and the stated counts |
| `Newfs.TotalsAgree` | newfs_ufs/mkfs.c:474-483 | the closed-form free-block and free-fragment totals are the sums over what initcg builds, for every layout, a short last group included |
| `Newfs.DataSizeIsFree` | newfs_ufs/mkfs.c:475-487 | fs_dsize, with the summary area taken out, is the free space of the new filesystem |
| `Newfs.InodesAgree` | newfs_ufs/mkfs.c:484-485 | the closed-form free-inode total is the sum over the groups |
| `Newfs.MkFs` | newfs_ufs/mkfs.c:474-487 | newfs produces a new filesystem in the invariant that the allocator keeps, with nothing handed out and the stated counts in every group |
| `Begin.NewfsAndServe` | newfs_ufs/mkfs.c:474-487 | newfs and then any sequence of requests: the run begins with nothing held, and what is free or held is always the data size that newfs computed |
| `Begin.NewfsAndRecycle` | newfs_ufs/mkfs.c:474-487 | the same with releases through the TRIM queue and completions in any order |
| `Begin.NewfsAndBalloc` | ufsX/ufs/ffs/ffs_balloc.c:829-1161 | newfs and then a block of a new file: allocated exactly if every request of the whole path is granted and the free blocks of newfs suffice for its levels; otherwise maps, owners and summaries are as newfs left them, and there is no panic |
| `Begin.NewfsAndLibufs` | libufs/cgroup.c:54-138 | newfs and then cgballoc, a cgwrite or none, and cgbfree on its disk: with the write everything is as newfs left it, without it the group counts one block too many |
| `Begin.Open` | libufs/cgroup.c:198-222 | every group of a filesystem in order is a sound image, and the summaries are those of its superblock |
| `Begin.MkInodes` | newfs_ufs/mkfs.c:484-485 | newfs leaves an inode system in order with ncg * ipg - 2 free inodes; exactly the inodes below the root are in use |
| `CgLayout.Fits` | newfs_ufs/mkfs.c:724-738 | "cylinder group too big" is unreachable |
| `CgLayout.PartsDisjoint` | newfs_ufs/mkfs.c:708-734 | inode map, block map, cluster sums 1 to C and cluster map follow one another without overlap |
| `CgLayout.SlotZeroAliases` | newfs_ufs/mkfs.c:727-731 | slot 0 of the cluster sums shares bytes with the end of the block map |
| `Prefer.SomeAverage` | ufsX/ufs/ffs/ffs_alloc.c:1562-1573 | since totals are sums, some group has at least the average |
| `Prefer.AverageBelow` | ufsX/ufs/ffs/ffs_alloc.c:1562-1562 | the average computed in 32 bits is never above the true one, and equals it while the total is below 2^32 |
| `Prefer.BlockSweep` | ufsX/ufs/ffs/ffs_alloc.c:1557-1575 | the sweep finds the first group at or above the average, from the start group and then from the beginning, for the average as the 32-bit arithmetic computes it; the final return of 0 is unreachable |
| `Prefer.DirBackstop` | ufsX/ufs/ffs/ffs_alloc.c:1328-1336 | the backstop lands on the first group, from the preferred one on and then from the beginning, with at least the average number of free inodes |
| `Inodes.InodeGroup.constructor` | newfs_ufs/mkfs.c:703-744 | the inode half of a new group: count exact, the inodes below the root in use, the first two inode blocks initialised and no other |
| `WordScan.LoadEqual` | ufsX/freebsd/compat/memcchr.c:60-116 | a word equals the repeated byte exactly when all its bytes do |
| `WordScan.Memcchr` | ufsX/freebsd/compat/memcchr.c:60-116 | the first byte that differs, or none, whatever lies outside the range in the words read |
| `Inodes.InodeGroup.FindClear` | ufsX/ufs/ffs/ffs_alloc.c:2066-2081 | with a clear bit in the map the wrapped scan finds the first one, from the byte of the rotor on; the panic is unreachable |
| `Inodes.FirstOfByte` | ufsX/ufs/ffs/ffs_alloc.c:2066-2081 | the lowest clear bit of the first byte that is not full is the first clear bit in wrapped order |
| `Inodes.InodeGroup.Prepare` | ufsX/ufs/ffs/ffs_alloc.c:2083-2156 | cg_initediblk ends at the least multiple of INOPB that is INOPB beyond the inode, or at the end of the group, and stays if it was there already; exactly the inodes between the old mark and the new one are written |
| `Inodes.InodeGroup.InitBlock` | ufsX/ufs/ffs/ffs_alloc.c:2119-2125 | each inode of the block gets a non-zero generation number, and no other is touched |
| `Inodes.InodeGroup.NodeAlloc` | ufsX/ufs/ffs/ffs_alloc.c:2054-2176 | hands out a free inode of the group exactly when there is one: the preferred one if free, else the first from the rotor on; below the initialised mark every inode has been written, and the mark moves exactly as far as the choice needs; the counts of free inodes and of directories stay exact; the restart loop terminates |
| `Inodes.InodeGroup.FreeFile` | ufsX/ufs/ffs/ffs_alloc.c:2756-2775 | the inode goes back, the counts and the rotor follow |
| `InodeFs.InodeSystem.NodeAlloc` | ufsX/ufs/ffs/ffs_alloc.c:2046-2176 | over all groups: 0 exactly when the group has no free inode; otherwise a number of that group that was free, the preferred one if it was, else the first from the rotor on; the other groups are unchanged, and the counts of free inodes and directories agree in the group, fs_cs and fs_cstotal |
| `InodeFs.InodeSystem.FreeFile` | ufsX/ufs/ffs/ffs_alloc.c:2756-2775 | the inode of the number goes back to its group, no other changes, and the three levels of counts agree |
| `InodeFs.InodeSystem.HandleAccepted` | ufsX/ufs/ffs/ffs_vfsops.c:1879-1893 | of the inodes in use the range tests of ffs_fhtovp reject exactly those below the root |
| `InodeInit.StepInv` | ufsX/ufs/ffs/ffs_alloc.c:2083-2152 | every step of every thread keeps: used inodes below cg_initediblk, blocks below it initialised, locks and program counters consistent |
| `InodeInit.RunSafe` | ufsX/ufs/ffs/ffs_alloc.c:2046-2176 | over every interleaving that invariant holds and what an owner wrote into its inode survives |
| `InodeInit.ZeroLosesNothing` | ufsX/ufs/ffs/ffs_alloc.c:2119-2125 | zeroing a block never erases anything an owner wrote |
| `InodeInit.OneZeroer` | ufsX/ufs/ffs/ffs_alloc.c:2103-2118 | two threads never zero the same block at once |
| `InodeInit.AllocSlack` | ufsX/ufs/ffs/ffs_alloc.c:2083-2088 | an inode may be handed out exactly when cg_initediblk is at least INOPB beyond it or at the end of the group; otherwise a block has to be initialised first |
| `InodeInit.RunSlack` | ufsX/ufs/ffs/ffs_alloc.c:2083-2088 | so over every interleaving each inode in use keeps that distance from the mark |
| `InodeInit.WindowOpen` | ufsX/ufs/ffs/ffs_alloc.c:2083-2152 | a block being zeroed may have an inode handed out exactly when cg_initediblk has already moved past it |
| `InodeInit.LateRun` | ufsX/ufs/ffs/ffs_alloc.c:2083-2152 | a run of two threads in which a block is zeroed after one of its inodes was handed out |
| `InodeInit.NeverLateIffAlone` | ufsX/ufs/ffs/ffs_alloc.c:2083-2152 | no block is zeroed after one of its inodes was handed out exactly when at most one thread allocates in the group, or newfs has initialised all its inode blocks |
| `InodeInit.ZeroAfterHandOut` | ufsX/ufs/ffs/ffs_alloc.c:2083-2152 | the smallest such case, with concrete numbers |
| `Trim.TilesInside` | ufsX/ufs/ffs/ffs_alloc.c:2605-2649 | every block of a request lies in the range that is unmapped |
| `Trim.NextKeeps` | ufsX/ufs/ffs/ffs_alloc.c:2378-2649 | every call keeps: each unmap issued is one waiting or completed, with multiplicity; the blocks freed are those never trimmed and those of completed requests; every block passed in is held once or freed |
| `Trim.RunKeeps` | ufsX/ufs/ffs/ffs_alloc.c:2378-2649 | so does every sequence of calls |
| `Trim.FreedAfterItsUnmap` | ufsX/ufs/ffs/ffs_alloc.c:2466-2487 | when the completion of a request frees its blocks, an unmap of its own was issued for it and had not been completed before |
| `Trim.AllFreed` | ufsX/ufs/ffs/ffs_alloc.c:2378-2649 | with nothing gathered and nothing waiting, the unmaps issued cover what was trimmed, block for block |
| `Trim.ExtentAsMeant` | ufsX/ufs/ffs/ffs_alloc.c:2473-2477 | read as an offset in device blocks and a length in bytes the extent is exactly the range of the request |
| `Trim.ExtentInBytes` | ufsX/ufs/ffs/ffs_alloc.c:2473-2477 | read in bytes throughout it contains the range exactly when the range begins at address 0 or device blocks are single bytes |
| `Trim.ExtentInBlocks` | ufsX/ufs/ffs/ffs_alloc.c:2473-2477 | read in device blocks throughout it contains the range, and more than it unless device blocks are single bytes |
| `Trim.ExtentElsewhere` | ufsX/ufs/ffs/ffs_alloc.c:2473-2477 | the failure of the reading in bytes at 512-byte device blocks and 4096-byte fragments |
| `Trim.TrimQueue.Start` | ufsX/ufs/ffs/ffs_alloc.c:2493-2505 | a fresh key with an empty request, or the singleton key |
| `Trim.TrimQueue.SendTrim` | ufsX/ufs/ffs/ffs_alloc.c:2460-2487 | one request is counted, told to the device as an extent with its own two units, and queued for its completion |
| `Trim.TrimQueue.BlkFree` | ufsX/ufs/ffs/ffs_alloc.c:2557-2649 | the block is freed at once, sent alone as its own request, or gathered under its key; no block is lost or duplicated |
| `Trim.TrimQueue.Collect` | ufsX/ufs/ffs/ffs_alloc.c:2605-2649 | what one block passed under a key does to the requests, as the lemmas of TrimRange describe it: next to the range it joins it, otherwise the old range is sent and a new one begins |
| `TrimRange.Started` | ufsX/ufs/ffs/ffs_alloc.c:2493-2505 | a start makes a new key that collects nothing yet |
| `TrimRange.FreeNextTo` | ufsX/ufs/ffs/ffs_alloc.c:2614-2645 | a block that ends where the range of its key begins, or begins where it ends, sends nothing, and afterwards the one request of the key covers both |
| `TrimRange.FreeApart` | ufsX/ufs/ffs/ffs_alloc.c:2646-2648 | any other block makes the range so far go to the device, as one unmap, and begins a new range |
| `TrimRange.FreeSingly` | ufsX/ufs/ffs/ffs_alloc.c:2593-2603 | a block with the singleton key is sent alone |
| `TrimRange.FreeAtOnce` | ufsX/ufs/ffs/ffs_alloc.c:2574-2582 | a block is freed at once, with no unmap, exactly when TRIM is not in use |
| `TrimRange.FinishSends` | ufsX/ufs/ffs/ffs_alloc.c:2511-2547 | a finish sends the range of the key as one unmap, unless it is empty, and the key is gone |
| `TrimRange.Foreign` | ufsX/ufs/ffs/ffs_alloc.c:2378-2649 | calls for other keys, and completions, change neither the range of a key nor the unmaps sent for it |
| `TrimRange.NothingSent` | ufsX/ufs/ffs/ffs_alloc.c:2605-2649 | while blocks are passed under a key each next to those before it, among any other calls, nothing is sent for it |
| `TrimRange.OneUnmap` | ufsX/ufs/ffs/ffs_alloc.c:2493-2649 | blocks passed under one key, each next to those before it, among any other calls, and then a finish: exactly one unmap is sent for the key, that of the whole range |
| `TrimRange.TwoAsOne` | ufsX/ufs/ffs/ffs_alloc.c:2636-2645 | two adjacent blocks, with concrete numbers, go out as one unmap |
| `Trim.TrimQueue.Finish` | ufsX/ufs/ffs/ffs_alloc.c:2511-2547 | exactly the request of the key leaves the list, and is sent unless it is empty |
| `Trim.TrimQueue.Drive` | ufsX/ufs/ffs/ffs_alloc.c:2378-2649 | any sequence of start, free and finish calls and completions in any order changes hash, tasks, unmaps, counters and freed blocks exactly as the step function says, call by call, and returns the keys it says |
| `Trim.TrimQueue.Drained` | ufsX/ufs/ffs/ffs_alloc.c:2378-2649 | when all keys are finished and all completions have run, exactly the blocks passed in have been freed, each unmap has had its completion, and the counters are zero |
| `Trim.TrimQueue.RunTask` | ufsX/ufs/ffs/ffs_alloc.c:2378-2398 | one queued request, and only that, completes: its blocks are freed once and the in-flight counters stay exact |
| `TrimRun.ActKeeps` | ufsX/ufs/ffs/ffs_alloc.c:2378-2649 | over a filesystem and its TRIM queue every request, release and completion keeps the blocks that wait for their completion among the extents in use |
| `TrimRun.WaitingTaken` | ufsX/ufs/ffs/ffs_alloc.c:2466-2470 | a block that was passed to ffs_blkfree and waits is owned in its group, and its map does not offer it |
| `TrimRun.StillWaiting` | ufsX/ufs/ffs/ffs_alloc.c:2378-2398 | only the completion of a request that the block is in ends its wait |
| `TrimRun.ReuseAfterUnmap` | ufsX/ufs/ffs/ffs_alloc.c:2466-2470 | if the map offers a fragment of a block that was waiting earlier, then in between a request with that block was completed, for which an unmap had been sent that no other completion had used |
| `TrimRun.HandedOutAfterUnmap` | ufsX/ufs/ffs/ffs_alloc.c:2466-2470 | so whoever gets a fragment of the block from the allocator gets it after that unmap |
| `TrimRun.CutHeld` | ufsX/ufs/ffs/ffs_alloc.c:2187-2303 | releasing the tail of an extent cuts it in two and changes nothing about what is held |
| `TrimRun.Recycle` | ufsX/ufs/ffs/ffs_alloc.c:2378-2649 | any sequence of allocator requests, releases and completions does what its step relation says, act by act, with waiting blocks in use at every point; the summaries end exact and no fragment is lost |
| `Crc32c.TableIsPoly` | ufsX/freebsd/compat/crc32c.c:99-164 | the table entry of a byte is its division by the polynomial, bit by bit |
| `Crc32c.CrcIsBitCrc` | ufsX/freebsd/compat/crc32c.c:166-176 | the bytewise table form computes the bit-by-bit CRC |
| `Crc32c.CrcConcat` | ufsX/freebsd/compat/crc32c.c:166-176 | checksumming a and then b is checksumming their concatenation |
| `Crc32c.EightUpdates` | ufsX/freebsd/compat/crc32c.c:655-688 | one turn of the slicing loop is eight byte updates |
| `Crc32c.SingleTable` | ufsX/freebsd/compat/crc32c.c:166-176 | the loop computes the bytewise CRC of the buffer |
| `Crc32c.SliceBy8` | ufsX/freebsd/compat/crc32c.c:638-693 | slicing by eight computes the bytewise CRC, whatever the head length |
| `Crc32c.MultiTable` | ufsX/freebsd/compat/crc32c.c:695-707 | so it does with the head chosen from the address |
| `Crc32c.CalculateCrc32c` | ufsX/freebsd/compat/crc32c.c:709-718 | for every seed, buffer, length and alignment the result is the bit-by-bit CRC of the bytes |
| `Heapsort.Create` | ufsX/freebsd/compat/heapsort.c:73-86 | sifting an item down extends the heap order to it and only rearranges |
| `Heapsort.Select` | ufsX/freebsd/compat/heapsort.c:105-126 | the displaced item finds its place from the bottom; the heap order holds and no element is lost |
| `Heapsort.RootIsLargest` | ufsX/freebsd/compat/heapsort.c:66-72 | the root of a heap is its largest item |
| `Heapsort.HeapSort` | ufsX/freebsd/compat/heapsort.c:135-176 | sorts the range by rearranging it; without its buffer it reports failure and moves nothing |
| `Introsort.Med3IsMedian` | ufsX/freebsd/compat/qsort.c:119-125 | med3 names an element between the other two |
| `Introsort.PivotInside` | ufsX/freebsd/compat/qsort.c:147-160 | in a range of more than seven the pivot lies between the elements of two other places |
| `Introsort.InsertionSort` | ufsX/freebsd/compat/qsort.c:135-141 | sorts a short range by rearranging it |
| `Introsort.Scan` | ufsX/freebsd/compat/qsort.c:160-182 | the two scans leave the zones equal, less, greater, equal |
| `Introsort.VecSwap` | ufsX/freebsd/compat/qsort.c:117-117 | exchanges two blocks element by element |
| `Introsort.BlocksTrade` | ufsX/freebsd/compat/qsort.c:184-188 | exchanging as many elements as the shorter of two adjacent blocks has swaps the blocks |
| `Introsort.Partition` | ufsX/freebsd/compat/qsort.c:147-194 | the range is rearranged into less than, equal to and greater than the pivot, which is the median of three or the pseudo-median of nine of the range as it was |
| `Introsort.DepthDown` | ufsX/freebsd/compat/qsort.c:146-146 | the depth counter wraps around when it is decremented at zero |
| `Introsort.Fallback` | ufsX/freebsd/compat/qsort.c:142-145 | heapsort finishes the range exactly when the depth has run out and the buffer is there; otherwise nothing has moved |
| `Introsort.IntroSort` | ufsX/freebsd/compat/qsort.c:127-217 | sorts the range by rearranging it, whether or not heapsort gets its buffer, and nests at most log2(n) calls of itself; if heapsort always gets its buffer, the partitions together go over at most n * maxdepth elements |
| `Introsort.MaxDepth` | ufsX/freebsd/compat/qsort.c:225-228 | twice the number of binary digits of n |
| `Introsort.Qsort` | ufsX/freebsd/compat/qsort.c:219-239 | for every array and consistent comparison the result is a sorted permutation, by calls that nest at most log2(n) deep; if heapsort always gets its buffer, the partitions together go over at most 2 n (log2(n) + 1) elements, however bad the pivots are |
| `Lbns.NamesDiffer` | ufsX/ufs/ufs/ufs_bmap.c:523-552 | different indirect blocks of a file have different negative names |
| `Lbns.HoldsUnique` | ufsX/ufs/ufs/ufs_bmap.c:508-552 | at most one place of each depth lies above a logical block |
| `Lbns.GetLbns` | ufsX/ufs/ufs/ufs_bmap.c:489-556 | the path leads to exactly the block asked for, or, for a name, to the indirect block that bears it; EFBIG exactly outside the range |
| `IndirTree.AlteredFrame` | ufsX/ufs/ffs/ffs_balloc.c:956-958 | changing slots of one indirect block changes only what is reached through these slots |
| `IndirTree.GrowStep` | ufsX/ufs/ffs/ffs_balloc.c:932-958 | linking a blank block into an empty slot on the path adds that pointer and no other |
| `IndirTree.Unlink` | ufsX/ufs/ffs/ffs_balloc.c:1108-1131 | emptying the first slot that was filled gives the old pointer tree back |
| `Balloc.File.constructor` | ufsX/ufs/ffs/ffs_balloc.c:841-850 | the file state the path starts from, over a filesystem in order |
| `Balloc.File.Alloc` | ufsX/ufs/ffs/ffs_alloc.c:174-202 | one of the free blocks of the filesystem, the one around the address wanted if it is free, which the count of the file follows; none exactly when it is refused or none is free |
| `Balloc.File.LinkNew` | ufsX/ufs/ffs/ffs_balloc.c:845-879 | asks for, records, blanks, writes and links one missing indirect block, or fails with nothing linked, because one of these two requests was refused or no block is free |
| `Balloc.File.Look` | ufsX/ufs/ffs/ffs_balloc.c:885-894 | an indirect block is read, then its pointer is checked; it fails exactly when one of the two is refused |
| `Balloc.File.Walk` | ufsX/ufs/ffs/ffs_balloc.c:883-970 | reaches the last indirect block with every missing one filled, after exactly the requests of the path; or fails with a record of what to undo |
| `Balloc.File.DataBlock` | ufsX/ufs/ffs/ffs_balloc.c:978-1066 | the data block is found, or taken and linked |
| `Balloc.MissingIs` | ufsX/ufs/ffs/ffs_balloc.c:883-1066 | the slots to fill are those from the first empty one on, since below an empty slot everything is empty |
| `BlockPool.Space.Take` | ufsX/ufs/ffs/ffs_alloc.c:182-192 | ffs_alloc of a whole block, by way of the search over all groups: 0 exactly when no block is wholly free, otherwise one of the free blocks, the one around the address wanted if it is among them, and its taking is the only change to maps and owners |
| `BlockPool.TakesWanted` | ufsX/ufs/ffs/ffs_alloc.c:182-192 | the search over all groups takes the block around the wanted address, if it is wholly free |
| `BlockPool.Space.Give` | ufsX/ufs/ffs/ffs_alloc.c:2187-2312 | ffs_blkfree of a block that was taken: it is free again, and nothing else changes |
| `BlockPool.PoolSize` | ufsX/ufs/ffs/fs.h:281-294 | fs_cstotal.cs_nbfree is the number of wholly free blocks of all groups |
| `BlockPool.Changed` | ufsX/ufs/ffs/ffs_alloc.c:182-192 | the blocks that left the pool between two states are the one difference in maps and owners; if none left there is none |
| `BlockPool.MapsDecide` | ufsX/ufs/ffs/fs.h:281-294 | the maps decide the summaries of all groups, their copies and the totals |
| `Balloc.File.Fail` | ufsX/ufs/ffs/ffs_balloc.c:1067-1161 | undoes a partial path: the pointer tree, the block count and the free blocks of the filesystem are as before, each taken block given back once, in order, and no buffer of theirs is left; it panics exactly when a slot of an indirect block has to be emptied that cannot be read |
| `Balloc.File.Balloc` | ufsX/ufs/ffs/ffs_balloc.c:829-1161 | all or nothing, and which: it succeeds exactly when the block number is in range, every request of the path is granted and fs_cstotal.cs_nbfree is at least the number of slots missing on it. The requests are a function of the old pointers: for each missing indirect block an allocation and a write, for each step a read and a pointer check, then the data block. Success makes exactly these, in order, and fills exactly the missing slots with distinct blocks, each at the address wanted if that was free; their taking is the one change to maps and owners. Failure restores the file, the maps, the owners and every summary. When the unwinding panics is stated exactly, too |

## Left out

- Byte sizes: requests are given in fragments, as after `numfrags`; UFS1's rotated `cgstart` is taken as `cgbase`.
- Integer width of the counters and of rotors: unbounded integers stand for 32- and 64-bit fields; the depth counter of introsort, the average of `ffs_blkpref` and the rehash step of `ffs_hashalloc` wrap in the model.
- FragTables.MatchIsRun: the masks are shifted afresh at each position, in 16 bits, where the code shifts them step by step in an int.
- Clusters.ScanForward: the scan looks bits up by index, where the code moves a byte pointer and a mask; the byte read past the end of the map and never used is not read.
- Clusters.ScanBackward: the same, in the other direction.
- Allocator.CylGroup.FindCluster: the same, for the cluster search.
- `fs_maxcluster[cg]` is a field of the group object in `Allocator`, where the code has an array beside the superblock.
- Filesystem.FileSystem.BlkFree: the range test that drops an address past the end of the filesystem is not modelled, because an owned extent lies inside it.
- Soft updates, snapshots (the hook declines), the buffer cache, quotas, `fs_active` and `fs_fmod`.
- Crc32c.MultiTable: asks for a buffer at least as long as its unaligned head, because the code would run past a shorter one; its only caller takes the single-table path for those.
- Crc32c.SliceBy8: the little-endian branch is the one modelled.
- Trim.TrimQueue.Start: the key counter is unbounded, so keys are never reused; hash buckets are one list; the counter of secondary writes is not kept.
- Trim.TrimQueue.SendTrim: which units the device reads the extent in is decided outside the repository; each reading has its lemma, and the results on the order of unmap and free speak of the request the extent was made from. The running totals of requests and blocks are not kept.
- Trim.TrimQueue.RunTask: queued completions are a collection whose members run in any order.
- TrimRun.Recycle: callers leave alone what they have released, and use a key only between its start and its finish; acts that do not are skipped.
- Libufs.Uufsd.CgBFree: after a read that failed nothing is said of the loaded copy; the `ufs1_daddr_t` cast of the address, which changes it from 2^31 on, the checksum and the magic number of the group are not modelled, and `cgialloc` is not either.
- Newfs.MkFs: starts from a layout with room for metadata and the summary area; the choice of that layout from the command line, the root directory and the writing of superblock copies are not modelled.
- CgLayout.Fits: uses the field offsets of struct cg with eight-byte time stamps.
- Prefer.DirBackstop: only the last two sweeps of `ffs_dirpref`, the ones that must not fail; the earlier sweeps choose a group by directory size and depth, and nothing depends on their choice but locality.
- Balloc.File.Balloc: the allocator behind it is the search over all groups with nobody in between; quotas and the reserve of free space are among the reasons for which a request may be refused; the answers, and the addresses that `ffs_blkpref_ufs2` would prefer, are given in advance as functions of the call and the request. Error numbers, the retry of soft updates and the fragment promotion before it are not modelled. A failed read while undoing is a panic, and then nothing more is claimed than that no block was freed.
- The direct-block path of `ffs_balloc`, the relocation of `ffs_realloccg` and `ffs_reallocblks`: they move data between buffers and call the allocator, extender and releaser modelled here; the buffers are not part of the model.
- Truncation (`ffs_truncate`, `ffs_indirtrunc`), extended attributes, write suspension, the inode lock and critical-section helpers, mounting, ioctls and device input and output.
- Introsort.VecSwap: exchanges whole elements; the choice of word or byte copies by alignment is not modelled.
- Heapsort.HeapSort: elements have a positive size, so the EINVAL case for size zero does not arise.
