# aNFS verification

aNFS is an NFS version 2 client for AmigaOS (RFC 1094 over the RPC of RFC 1057
and the XDR of RFC 4506). This Dafny project models its stateful parts and proves
what they are for. One module per part, each with the specification as values and
lemmas, and beside it the imperative code - classes over arrays and lists, loops
that change them in place - proved against that specification.

- `DirtyTable`, `WriteHeader`, `BufferPool`, `PoolSharing`, `WriteBehind`,
  `WriteStep`, `WriteCache`, `WriteReplay` - the write-behind cache. Each buffer header has a table of dirty
  ranges that is merged in place; a cluster is a sorted list of such buffers; a
  flush stores the ranges. The main theorem (`WriteCache.Cluster.Session`): any run
  of seeks and writes followed by a flush leaves the file that direct writes would
  have left. The clause about writes over several blocks is an if-and-only-if:
  `WriteCache.Loses` says, before the call, whether the write leaves the current
  buffer unusable for its next block. What the code does then is a step on values
  (`WriteStep`), and `WriteReplay.StrayExactly` says when the file is still right.
- `ServerFile`, `NfsTransfer` - the file on the server and the synchronous
  chunked transfers.
- `RpcSlots`, `LossyNetwork`, `RpcClient`, `AsyncTransfer`, `AsyncFlush` - the
  asynchronous RPC client: slots, transaction ids, a network that loses,
  duplicates, delays and reorders, the windowed transfers on top, and the flush of
  the write cache through them.
- `FtHash`, `ExpiringMap`, `HashCache`, `AttrCache` - the timed, locked hash cache,
  the expiring map that it refines, and the attribute records kept in it.
- `PathName` - the path normaliser and the translation of the Amiga's `//`.
- `XdrFormat`, `XdrStream` - the two-way XDR filters for READDIR results.
- `ReadAhead` - reading and writing at the position of one handle.
- `ExAll` - paged directory scanning.
- `Locks`, `LockList` - the shared and exclusive locks of a volume.

`dafny verify dfyconfig.toml` checks everything.

Where the code and its own comments differ, the model follows the code:

- A write over several blocks does not re-establish what `WBufWrite` requires of
  PosData (src/wbuf.c:620-626). `WriteReplay.LostWriteGoesWrong` is a write after
  which the file gets a stale byte; `WriteReplay.StrayExactly` has the condition.
- `fn_PathUnify` drops a dot at the end of a component (src/fn.c:477-481), which its
  comment does not mention; see `PathName.DocumentedExactly`.
- `nfs_MAWrite` leaves requests in their slots when a send fails
  (src/nfs.c:698-703); see `AsyncTransfer.FailedSendLeavesSlots`.
- `act_FINDOUTPUT` stores the file mode where the access of the lock belongs, so the
  file can be opened a second time for reading; see `Locks.NewFileAdmits`.
- `act_CHANGE_MODE` refuses every lock (src/object.c:251); see
  `Locks.ChangeLockRefused`.
- An ExAll record with owner data puts the name over the group id; see
  `ExAll.FieldsBeforeName`.
- In `nfs_MARead` the comparison with `UpperOffs` is unsigned, so that -1 is the
  largest offset.
- After a failed write the length kept in a handle may be behind the file, and a
  read at the old end finds nothing; see `ReadAhead.FailedWriteStale`.
- The check at the end of `fn_PathUnify` (src/fn.c:505-513) looks for a leading ".."
  at the end of the input instead of the start of the result, so it never applies:
  "..." gives "..", which is refused when it is given itself. See
  `PathName.ParentSlipsThrough`, and `PathName.LeadingParentExactly` for when.

## Model

| member | source | states |
|---|---|---|
| DirtyTable.MergedIsUnion | src/wbuf.c:391-503 | after an update the table is canonical again (sorted, non-empty entries, a gap between neighbours) and covers exactly the old bytes and the new range |
| DirtyTable.CanonicalUnique | src/wbuf.c:841-845 | a canonical table is determined by the bytes it covers, so the union fixes the result of every update |
| DirtyTable.MergedMelts | src/wbuf.c:354-389 | the entry that a melt makes of all touched entries is the merged table |
| DirtyTable.MergedSize | src/wbuf.c:425-503 | an update adds at most one entry, and none that starts at byte 0 beside one that is there |
| DirtyTable.RoomyUpdate | src/wbuf.c:699-709 | from at most 57 entries (or 58 with the first at byte 0) one update never overflows the 59, and one at byte 0 stays within the bound |
| WriteHeader.WBufHdr.DoMelt | src/wbuf.c:354-389 | the in-place melt with its memmove gives the melted table |
| WriteHeader.WBufHdr.UpdateInfo | src/wbuf.c:425-503 | the in-place update through every overlap case gives the merged table |
| WriteHeader.WBufHdr.Fill | src/wbuf.c:679-697 | the bytes and the table after one write into a buffer |
| BufferPool.Pool.AllocMoreMBufs | src/mbuf.c:78-107 | all new buffers are fresh and distinct, or the old free list and counters are restored |
| BufferPool.Pool.FreeSomeMBufs | src/mbuf.c:46-65 | takes exactly the asked number off the free list and both counters |
| BufferPool.Pool.ObtainWBuf | src/wbuf.c:157-180 | a header and a data buffer, or neither and both free lists unchanged |
| BufferPool.Pool.ReleaseWBuf | src/wbuf.c:182-197 | both go back on their free lists, counters equal list lengths |
| PoolSharing.EachConserves | src/mbuf.c:118-147 | with any number of owners of one pool, the conservation that each of them relies on holds for it |
| PoolSharing.HandsApart | src/mbuf.c:118-147 | no two owners hold the same buffer, and none holds a free one |
| PoolSharing.RunShares | src/mbuf.c:118-147 | whatever owners act in whatever order, each conserving what it sees, all buffers stay with one owner or free, once |
| WriteBehind.ShowsUnique | src/wbuf.c:811-894 | the server's file and the buffers determine the overlaid file |
| WriteBehind.FillShows | src/wbuf.c:679-697 | filling a buffer changes the overlaid file exactly as writing through would |
| WriteBehind.StoreShows | src/wbuf.c:835-866 | storing one dirty range and taking it off the table leaves the overlaid file unchanged |
| WriteBehind.InsertShows | src/wbuf.c:577-610 | a new empty buffer leaves the overlaid file unchanged |
| WriteCache.Cluster.constructor | src/wbuf.c:67-88 | the invariant holds of a new cluster, and the file as written directly is the server's |
| WriteCache.Cluster.FlushCache | src/wbuf.c:811-894 | on success the server alone has the overlaid file; in every case the list is empty, and every header and data buffer is on its free list once; fails only if a write is lost |
| WriteCache.Cluster.NewBuffer | src/wbuf.c:577-610 | flush-or-extend allocation keeps order, alignment, conservation and the number of buffers allowed; no memory only with an empty cache and nothing free |
| WriteCache.Cluster.SeekAndPrepare | src/wbuf.c:515-611 | PosData meets the requirement of WBufWrite for the new position |
| WriteCache.Cluster.WBufWrite | src/wbuf.c:631-712 | takes one block's part of the write, which is as if written through; never reports "no mem"; says exactly when the requirement holds for the next block, and that PosData is gone or was passed over otherwise; without a flush it is the step of WriteStep |
| WriteCache.Cluster.FlushAndWrite | src/wbuf.c:204-257 | flush and direct write, and the file length kept is the length of the file |
| WriteCache.Cluster.Bypasses | src/wbuf.c:743-758 | a write goes past the cache exactly if it is over the limit, or does not fit into the buffers allowed, or those held and free |
| WriteCache.Cluster.WriteBuffered | src/wbuf.c:764-796 | the whole write is as if written through; otherwise a server write was lost, or the requirement on PosData failed, which happens if and only if Loses held before the call: then the blocks so far are as if written through, and the cache was flushed or PosData is the buffer before the one filled last |
| WriteCache.Cluster.WriteThroughCache | src/wbuf.c:723-799 | either branch keeps the overlaid file equal to direct writing and the length kept right |
| WriteCache.Cluster.Session | src/wbuf.c:723-894 | any run of seeks and writes and a final flush: the server has the file of the same calls without a cache; a run of single-block writes never loses PosData, and nothing fails unless a server write does |
| WriteReplay.ReplayIsOverlay | src/wbuf.c:811-894 | the replay in list and table order yields the overlaid file, whatever the server's file |
| WriteReplay.EmptyCacheNeverLoses | src/wbuf.c:764-788 | a write of any length into an empty cache meets the requirement throughout |
| WriteStep.StraySteps | src/wbuf.c:647-676 | once PosData was passed over, every further block gets a new buffer right behind it, also a block that is buffered already |
| WriteReplay.ReplayShows | src/wbuf.c:811-894 | every sorted list has an overlay over every file, and the replay is it |
| WriteReplay.StrayExactly | src/wbuf.c:647-709 | the file after the rest of such a write, with or without a flush on the way, is right if and only if every byte put into a second buffer is the byte buffered before |
| WriteReplay.LostWriteGoesWrong | src/wbuf.c:647-656 | a two-block write over three buffered blocks: the steps from PosData as the seek leaves it give the third block two buffers, and a flush stores the stale byte last |
| ServerFile.WriteSplit | src/nfs.c:570-600 | storing a range in two consecutive pieces is storing it at once |
| NfsTransfer.MWrite | src/nfs.c:553-600 | success: the file with the data stored and its length; failure: one lost request, and a prefix stored; no request is longer than negotiated |
| NfsTransfer.MRead | src/nfs.c:295-354 | success returns exactly the bytes from the offset to the end of the range or the file, for any chunking of replies; no request is longer than negotiated |
| RpcSlots.SameXid | src/rpc/clnt_audp.c:625-632 | two messages have the same id exactly when a multiple of 65536 messages lies between them |
| RpcSlots.LowerHalfStays | src/rpc/clnt_audp.c:625-632 | only the upper half of the id is counted |
| RpcSlots.CountBounds | src/rpc/clnt_audp.c:591-604 | the number of free slots is zero exactly when the search fails, and all exactly when no slot is in use |
| RpcSlots.SendExactly | src/rpc/clnt_audp.c:573-680 | a send is refused exactly if all slots are in use or one is in use for another procedure, and otherwise accepted exactly if it goes out |
| RpcSlots.TickExactly | src/rpc/clnt_audp.c:808-842 | a silent interval ends the wait exactly if every request has spent its time; otherwise the first with time left is sent again, and exactly the slots in use up to it have waited longer |
| RpcSlots.RefreshedTwice | src/rpc/clnt_audp.c:915-933 | a message keeps its slot for two rejections with refreshed credentials; the third, and one that cannot be helped, ends it |
| RpcSlots.SendKeeps | src/rpc/clnt_audp.c:573-680 | a send, accepted or failed, keeps the invariant, of which the free counter is a part |
| RpcSlots.PacketKeeps | src/rpc/clnt_audp.c:871-948 | so does the arrival of any reply |
| RpcSlots.AbortKeeps | src/rpc/clnt_audp.c:979-995 | an abort leaves all slots free and counted |
| RpcSlots.CallKeeps | src/rpc/clnt_audp.c:408-428 | a synchronous call keeps the invariant if and only if slot 0 is idle |
| RpcSlots.ReplyMatches | src/rpc/clnt_audp.c:871-948 | a reply to message k completes message k with what was passed to its send if k is awaited, and is ignored otherwise |
| RpcSlots.NeverAgain | src/rpc/clnt_audp.c:871-888 | over any run a message that is no longer awaited is never awaited again |
| RpcSlots.LateReplyIgnored | src/rpc/clnt_audp.c:871-888 | so at the end of any run every reply to a message that was completed, or aborted, is ignored |
| RpcSlots.RunKeeps | src/rpc/clnt_audp.c:573-995 | the invariant over any run of sends, replies, timeouts, aborts and calls while slot 0 is idle |
| RpcSlots.RunMatches | src/rpc/clnt_audp.c:573-995 | over any run of at most 65536 messages every delivery hands back the data of exactly the send with the reply's id, and each send completes at most once |
| RpcSlots.CallStealsSlot | src/rpc/clnt_audp.c:408-428 | without the proviso: the reply to the waiting send is ignored and the call's reply completes it |
| RpcClient.Client.constructor | src/rpc/clnt_audp.c:186-342 | a new handle satisfies the invariant with all slots free |
| RpcClient.Client.SendSb | src/rpc/clnt_audp.c:573-680 | the slot search and bookkeeping in place is the send step |
| RpcClient.Client.Packet | src/rpc/clnt_audp.c:871-948 | the search by id and release in place is the reply step |
| RpcClient.Client.Tick | src/rpc/clnt_audp.c:808-842 | the scan of waiting times in place is the timeout step |
| RpcClient.Client.AbortAll | src/rpc/clnt_audp.c:979-995 | the release of all slots in place is the abort step |
| RpcClient.Client.Wait | src/rpc/clnt_audp.c:707-948 | success is the first good reply to an awaited message, with that message's own user data and an answer the server gave after carrying it out; a failure is for a bad reply, a failed select() or resend, or when every request has spent its time |
| LossyNetwork.SettledExactly | src/nfs.c:608-714 | the requests under way can change the file no more, whatever their order and number, if and only if the file shows the effect of each |
| LossyNetwork.Network.Poll | src/rpc/clnt_audp.c:798-870 | requests under way are carried out any number of times in any order; good answers exist only for those carried out |
| AsyncTransfer.PiecesAreConsecutive | src/nfs.c:685-710 | requests are non-empty, of at most MaxWrite bytes and consecutive, from the offset to the end of the range |
| AsyncTransfer.PiecesCover | src/nfs.c:685-710 | together they carry exactly the buffer |
| AsyncTransfer.PiecesSettle | src/nfs.c:608-714 | once every piece shows in the file, the whole write does |
| AsyncTransfer.CarryPartial | src/nfs.c:608-714 | whatever requests that show in the file to result are carried out, how often and in whatever order, every byte stays an old or a new one, and no request undoes another |
| AsyncTransfer.MAWrite | src/nfs.c:608-714 | success equals nfs_MWrite: the file, its length, all slots free, and every request that may still be under way, also of earlier transfers, shows in the file; at most NumRPCs under way; on failure, which needs a failed send, a timeout, an error or a bad answer, every byte is an old or a new one, and slots stay in use only after a failed send |
| AsyncFlush.Flush | src/wbuf.c:847-856 | a flush through nfs_MAWrite: success leaves the overlaid file and nothing under way that could change it; failure leaves old and new bytes only |
| AsyncFlush.FlushRange | src/wbuf.c:847-866 | one dirty range after others whose requests may still arrive late: none of them undoes it or a later one |
| AsyncTransfer.FailedSendLeavesSlots | src/nfs.c:698-703 | after a failed send slot 0 is in use, and the next synchronous call breaks the invariant |
| AsyncTransfer.FreeEntry | src/nfs.c:472-481 | the wrapping search ends, at an entry that is not in use |
| AsyncTransfer.WaitRead | src/nfs.c:413-465 | the user data of a reply names an entry in use, which becomes free while all others stay |
| AsyncTransfer.ReadsAreConsecutive | src/nfs.c:470-512 | the requests of a read are bounded and consecutive, over exactly the range |
| AsyncTransfer.MARead | src/nfs.c:374-519 | what is sent are these requests in this order, all of them unless a reply is short; every way out leaves all slots free; at most NumRPCs are under way |
| FtHash.UnLockEvicts | src/common/fthash.c:309-371 | leaves at most MaxEntries, removing exactly the excess, free entries first, and in every bucket keeps the most recently used |
| FtHash.WindowIsTotal | src/common/fthash.c:346-367 | a round of the wrapping search sees every entry, from any start |
| FtHash.StepKeeps | src/common/fthash.c:251-599 | every operation keeps: NumEntries is buckets, free and locked entries together and at most MaxEntries + 10; every value is stored, freed or given back exactly once; buckets are in order of use |
| FtHash.RunKeeps | src/common/fthash.c:251-599 | the same over any run |
| FtHash.LockedRunFreesNothing | src/common/fthash.c:251-299 | over any run without unlocking and immediate removal, a locked table frees nothing |
| FtHash.ValueLives | src/common/fthash.c:251-299 | a value returned by a lookup stays stored until the next unlocking, even if it expires or is marked as removed |
| FtHash.RemoveFreesReturned | src/common/fthash.c:457-502 | fthash_Remove frees it at once |
| FtHash.LockHolds | src/common/fthash.c:251-299 | a locked table keeps every value until the next unlocking |
| FtHash.NewestFirst | src/common/fthash.c:251-299 | what was found or inserted last is first in its bucket and the most recently used of the table |
| FtHash.SetMaxExactly | src/common/fthash.c:581-599 | the limit is as set and met at once when lowered; a higher one drops nothing |
| FtHash.FlushExactly | src/common/fthash.c:377-395 | all free entries go, and nothing else |
| ExpiringMap.LookupAgrees | src/common/fthash.c:251-299 | a hit is the value last inserted, not removed, not expired; a miss is for a key without such a value, or one that was evicted |
| ExpiringMap.InsertExactly | src/common/fthash.c:524-577 | an insertion is refused exactly if there is no free entry and the table is full or memory short, and then changes nothing; otherwise the value is found until it expires |
| ExpiringMap.RemoveAgrees | src/common/fthash.c:457-502 | the three removals give back, free or keep the very value the map has, or report that there is none |
| ExpiringMap.StepRefines | src/common/fthash.c:251-599 | every operation keeps the refinement, with no key twice in a bucket, if an inserted key is absent |
| ExpiringMap.RunRefines | src/common/fthash.c:251-599 | the same over any run in which inserts are of absent keys |
| ExpiringMap.FetchRefines | src/lock.c:103-132 | a lookup followed by an insert only after a miss keeps the refinement, and the key then has the value returned; there is none exactly if the lookup missed and there is no room |
| ExpiringMap.DuplicateResurfaces | src/common/fthash.c:555-577 | without the proviso a removed key comes back with a replaced value |
| HashCache.Cache.constructor | src/common/fthash.c:137-180 | a new table satisfies the invariants and refines the empty map |
| HashCache.Cache.Lookup2 | src/common/fthash.c:251-299 | the search, move to the front or retirement in place is the lookup step, and frees the value the step frees |
| HashCache.Cache.Remove3 | src/common/fthash.c:457-502 | the three removals in place are the removal step, with the value freed or given back |
| HashCache.Cache.Bury | src/common/fthash.c:412-451 | the walk over all buckets removes exactly the expired entries and frees their values |
| HashCache.Cache.Insert | src/common/fthash.c:524-577 | insertion in place is the insertion step, refused at MaxEntries + 10 |
| HashCache.Cache.Evict | src/common/fthash.c:346-368 | the wrapping eviction loop ends, equals one sweep around the buckets, and frees exactly the values that leave the table |
| HashCache.Cache.UnLockAll | src/common/fthash.c:309-371 | unlocking in place is the unlocking step, with the values of locked and evicted entries freed once each |
| HashCache.Cache.SetMaxEntries | src/common/fthash.c:581-599 | lowering the limit unlocks and evicts |
| AttrCache.AttrTable.Update | src/attrs.c:103-153 | lookup, and insert only after a miss, in place; the record found or inserted gets the new attributes |
| AttrCache.UpdateExactly | src/attrs.c:103-153 | afterwards the key has the new attributes, and every other key in the table those it had: records are never shared |
| PathName.PathUnify | src/fn.c:362-516 | for every path the in-place scan equals the stack fold with trimmed components, with the same errors, fits a buffer of the length of the path, and reports exactly whether a "//" stripped a directory |
| PathName.DocumentedExactly | src/fn.c:339-361 | it equals the documented fold if and only if no component that remains ends in a dot |
| PathName.UndottedPath | src/fn.c:362-516 | in particular for every path in which no component but "." and ".." ends in a dot |
| PathName.RefusedExactly | src/fn.c:380-388 | a path is refused exactly when a component is dropped that is not there |
| PathName.NormalForm | src/fn.c:339-361 | for every path accepted: the result splits into the remaining components without their last dots, none of them empty or "."; none is ".." if and only if none was "..."; no "/" leads |
| PathName.FixedPointExactly | src/fn.c:339-361 | the result is a fixed point if and only if no remaining component loses a second dot |
| PathName.LeadingParentExactly | src/fn.c:505-513 | the result is itself refused if and only if the first remaining component is "..." |
| PathName.ParentSlipsThrough | src/fn.c:505-513 | the input "..." gives "..", which is refused |
| PathName.DotIsLost | src/fn.c:477-481 | every word with a dot at its end is such a difference |
| PathName.AM2UN | src/fn.c:57-97 | the two passes agree: the text fits the length counted |
| PathName.TranslationPreserves | src/fn.c:57-97 | normalising the translated path gives the same path, or the same error, for every path |
| PathName.UnixReads | src/fn.c:57-97 | a Unix server takes the translated path for what the path means on the Amiga |
| PathName.ExpandExactly | src/fn.c:57-97 | the translation leaves no "//", and changes nothing where there is none |
| XdrFormat.RoundTrip | src/ch_nfs_prot_xdr.c:1186-1201 | decoding undoes encoding for lists of any length and consumes exactly the encoded bytes |
| XdrFormat.LayoutExactly | src/ch_nfs_prot_xdr.c:1152-1201 | the encoding is the one byte sequence with the big-endian status, the list flags, file ids, lengths, names, zero padding, cookies and the end flag at their places |
| XdrFormat.LaidOutIsRead | src/ch_nfs_prot_xdr.c:1152-1201 | whatever is laid out like this is decoded as it |
| XdrFormat.ReaderIsLenient | src/ch_nfs_prot_xdr.c:261-303 | the padding is not looked at, and every number but 0 is true |
| XdrFormat.Aligned | src/ch_nfs_prot_xdr.c:261-303 | an encoded result is a multiple of four bytes long |
| XdrFormat.OverLongRejected | src/ch_nfs_prot_xdr.c:396-398 | a string whose announced length is over the limit is rejected |
| XdrFormat.ParsedIsBounded | src/ch_nfs_prot_xdr.c:1152-1168 | every decoded list has bounded NUL-free names and cookies of four bytes |
| XdrFormat.NulCutsName | src/ch_nfs_prot_xdr.c:403-421 | a name with a NUL comes back cut off there |
| XdrStream.Stream.ULong | src/ch_nfs_prot_xdr.c:85-149 | big-endian words in both directions, within the bytes left |
| XdrStream.Stream.Opaque | src/ch_nfs_prot_xdr.c:261-303 | bytes and padding in both directions |
| XdrStream.Stream.String | src/ch_nfs_prot_xdr.c:375-430 | counted strings in both directions, over-long ones refused |
| XdrStream.Stream.Pointer | src/ch_nfs_prot_xdr.c:444-518 | the recursive optional tail in both directions |
| XdrStream.Stream.ReadDirResult | src/ch_nfs_prot_xdr.c:1152-1201 | encoding writes exactly the encoded bytes if they fit and every name is short enough, decoding accepts exactly what parses |
| XdrStream.Transfer | src/ch_nfs_prot_xdr.c:1186-1201 | one stream decodes from a buffer what another encoded into it; both end at the same place, a multiple of four |
| ReadAhead.Handle.ReadBuf | src/rbuf.c:128-231 | returns exactly the bytes of the file at the position and advances it; a buffer held shows the file; the length kept is the file's unless the buffer had everything; each buffer is held or free once |
| ReadAhead.Handle.Read | src/read.c:56-117 | the same through the end-of-file shortcut, which finds nothing at a position equal to the length kept |
| ReadAhead.ReadsExactly | src/read.c:70-75 | a read returns the bytes at the position if and only if that is not taken for the end although it is not |
| ReadAhead.CurrentExactly | src/write.c:60-93 | the length kept goes wrong by a failed write that made the file longer, and by nothing else |
| ReadAhead.FailedWriteStale | src/write.c:60-93 | a failed write makes the next read wrong exactly if it stored something at the end of a file that is not empty; that read returns nothing, though there is something |
| ReadAhead.Handle.Write | src/write.c:60-93 | drops the buffer, stores at the position and advances it |
| ReadAhead.Handle.ObtainData | src/rbuf.c:82-99 | a data buffer moves from the free list to the handle |
| ReadAhead.Handle.ReleaseData | src/rbuf.c:101-117 | and back |
| ReadAhead.Session | src/rbuf.c:128-231 | any run of seeks, reads and writes, failed ones among them, does what direct access does, apart from that shortcut; there are as many errors as calls lost or refused |
| ReadAhead.RightWithoutFailedWrite | src/rbuf.c:128-231 | a run without failed writes, from a length that is unset or right, is direct access throughout |
| ExAll.LeadingAreHidden | src/examine.c:603-612 | of a reply exactly the leading entries are hidden that are ".", ".." or too long |
| ExAll.NamesExactly | src/examine.c:788-873 | a name is listed exactly if it is that of an entry which passes the pattern and the hook |
| ExAll.FieldsBeforeName | src/examine.c:652-670 | the name starts right behind the fields that are filled in, but for ED_OWNER on the last of them |
| ExAll.PackedApart | src/examine.c:674-714 | packed records lie in the buffer, do not overlap, and hold their names with the NUL |
| ExAll.Scan.GetNextEntries | src/examine.c:575-648 | fetches until there is an entry that is not skipped, and reports the end only when the whole directory was seen and emitted |
| ExAll.Scan.ExamineAll | src/examine.c:716-887 | emits exactly the names in its records, packed and linked; stops only at an entry that does not fit, at the end, or at a failure |
| ExAll.ScanAll | src/examine.c:716-887 | over any sequence of buffers the names are every reply minus its leading skippable entries, filtered, once and in order, and the replies are the whole directory; the scan is cut short only by a failure outside |
| Locks.InsertExactly | src/locks.c:113-121 | a new lock keeps the exclusion exactly if the file is unlocked, or neither it nor the first lock of the file is exclusive |
| Locks.FirstTells | src/locks.c:144-161 | under the invariant the first lock of a file tells whether any is exclusive |
| Locks.ChangeKeeps | src/object.c:245-345 | changing the mode keeps the exclusion |
| Locks.StepKeeps | src/lock.c:718-944 | every operation keeps: an exclusive lock is the only lock for its file, and the root is never locked exclusively |
| Locks.ReachableExcludes | src/lock.c:718-944 | the same in every state a new volume can reach, with a server whose ids can be trusted |
| Locks.ServedAsAsked | src/lock.c:718-944 | whoever is served has one new lock for the file and with the access asked for, and all others stay |
| Locks.RefusedChangesNothing | src/lock.c:718-944 | whoever is not served changes nothing |
| Locks.UnlockedIsServed | src/find.c:243-305 | a file without a lock is served to everyone |
| Locks.SharedIsJoined | src/find.c:243-305 | a file with shared locks only is served for reading and to nobody else |
| Locks.NeverServed | src/lock.c:718-880 | unknown modes, soft links, other objects than files, and the root for oneself are refused, each with its error |
| Locks.EndGivesUp | src/find.c:552-618 | closing a handle gives up its lock and the handle, and nothing else |
| Locks.FreeGivesUp | src/lock.c:906-924 | freeing a lock gives up that lock, and nothing else |
| Locks.GivingUpUndoes | src/find.c:552-618 | giving up what was just got leads back to where it began |
| Locks.HandleTakesLock | src/find.c:348-398 | a handle made from a lock takes the lock with it |
| Locks.UnknownIsReported | src/lock.c:906-924 | an unknown handle or lock is reported, and no other |
| Locks.ChangeExactly | src/object.c:245-345 | the mode changes exactly if it is the file's only lock or has the access already; the lock then has the access asked for, and all others stay |
| Locks.ExclusiveRefuses | src/find.c:261-270 | whoever asks for an exclusively locked file is refused |
| Locks.NewFileAdmits | src/find.c:471-521 | of a file opened for output, a second open succeeds exactly for reading |
| Locks.FirstMatchNotEnough | src/find.c:261-270 | outside the invariant the check of the first lock is not enough |
| Locks.RootNeedsTrust | src/lock.c:819-823 | a name that leads to the root's id breaks the exclusion |
| Locks.NewIdNeedsTrust | src/object.c:135-151 | a new directory keeps it exactly if its id is unlocked |
| LockList.Volume.NumLocksFromKey | src/locks.c:163-180 | counts the locks of a file |
| LockList.Volume.Remove | src/locks.c:199-219 | bends the link that leads to the lock past it, at the head or inside, and leaves all others, if it is in the list |
| LockList.Volume.LocateAndLock | src/lock.c:718-880 | the walk and insertion are the locate step |
| LockList.Volume.LocateRootLock | src/lock.c:819-823 | the locate step for the root, without a look at the list |
| LockList.Volume.CopyDir | src/lock.c:926-944 | the copy step |
| LockList.Volume.OpenReadWrite | src/find.c:243-305 | the step of opening for update or input |
| LockList.Volume.OpenOutput | src/find.c:445-527 | the step of opening for output |
| LockList.Volume.OpenFromLock | src/find.c:348-398 | the step of opening a handle for a lock held |
| LockList.Volume.ChangeHandleMode | src/object.c:240-345 | the step of changing the mode |
| LockList.Volume.Close | src/find.c:549-618 | the step of closing a handle |
| LockList.Volume.FreeLock | src/lock.c:906-924 | the step of freeing a lock |

## Left out

- WriteCache.Cluster.WriteBuffered: stops with `LOST` once PosData no longer meets the requirement of `WBufWrite`. What follows is modelled on values for a PosData that was passed over (`WriteStep`, `WriteReplay.StrayExactly`). A PosData whose list was flushed by the check of its table (src/wbuf.c:704-709) is a released header, and what is done with that is left out.
- WriteCache.Cluster.Session: ends at `LOST`; later calls on a list that is out of order are left out.
- WriteCache.Cluster.FlushCache: stores through `nfs_MWrite`; the same flush through `nfs_MAWrite` is `AsyncFlush.Flush`, over the values of the buffers.
- The assertion in `iwc_FlushCache` against empty buffers, and `IGNORE_EMPTY_BUFS`, which only switches it off.
- The fall back at src/wbuf.c:783-784, which would write the rest of a write at its start: `WBufWrite` never reports "no mem".
- Seeking relative to the position or the end: seeks are to a position, within the file where the source checks that.
- Handles with both a write cache and reads, and `act_SET_FILE_SIZE`; reading is not allowed in the mode that gets a write cache.
- RpcClient.Client.Wait: a wait without an end, say under an endless stream of foreign replies, is given up after `patience` rounds, since the loop of the source has no bound.
- The data block of a scatter/gather write is not sent again on a timeout (src/rpc/clnt_audp.c:645); the model repeats the message.
- A reply with an id that was never sent, or whose id was given out more than 65536 messages ago.
- Sockets, authentication, the contents of RPC headers, the portmapper and the waiting of `clntaudp_call` itself, of which only its use of slot 0 is modelled.
- AsyncTransfer.MAWrite: assumes that earlier requests still under way show in the file that is to result; by `LossyNetwork.SettledExactly` a late one could otherwise change it, and the source has nothing against that.
- AsyncTransfer.MARead: the data read and its end-of-file rules, since its caller is compiled out (src/read.c:79-80).
- Linked lists are sequences, except for the lock list: the relinking of nodes by Remove and AddHead is not modelled elsewhere, only the order that results.
- FtHash.StepKeeps: a value is a number given by the caller; what memory it is, and reuse of freed memory, are left out.
- Hash functions and key comparison: any function from keys to numbers, and equality.
- `fn_ScanPath` and the helpers of src/fn.c that only wrap others; failing allocation in `fn_PathUnify` and `fn_AM2UN`.
- XDR on values: a filter returns the value instead of filling structures through pointers; XDR_FREE and failing allocation are left out.
- XdrFormat.RoundTrip: is about READDIR results; the other filters are made of the same parts.
- A failing allocation of the read-ahead header, after which `rb_ReadBuf` would use a null pointer.
- Replies to READDIR without entries before the end, which end the scan early; section 2.2.17 of RFC 1094 does not foresee them.
- ExAll.Scan.GetNextEntries: errors above 1000 are reported as the end of the list (src/examine.c:640-641), so that the caller cannot tell them apart; the result `atEnd` of the model does.
- Protection bits, dates, owners and the other fields of a record.
- A lock that is freed while a handle refers to it: closing or changing the handle then has no effect on the list.
- 32-bit wrap-around of offsets and lengths, apart from transaction ids; positions are assumed to stay within a signed 32-bit range.
- `act_EXAMINE_NEXT`, `act_MORE_CACHE`, the directory cache, links, credentials, ARexx and the packet loop: plumbing, or more of the same.
