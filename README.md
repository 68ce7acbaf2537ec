# ffmpeg-concat playlist core, modelled in Dafny

This project models the playlist and concatenation core of an FFmpeg fork.
That core presents several media files as one continuous demuxer. The model covers:

- **The playlist catalog** (`libavformat/avplaylist.c`, `avplaylist.h`). Four parallel arrays hold, per item, the path, the cached format context, the running total of durations and the running total of stream counts. Insert and remove shift all four arrays in place. Close removes items from the tail (`avplaylist.dfy`, module `AvPlaylist`, class `PlaylistContext`).
- **The concatenating read loop** (`libavformat/concatgen.c`). A packet is rebased by the time offset of its stream. A failed read adds the finished item's stream durations to the offsets, advances the stream's cursor and reads again. A seek is forwarded to the first stream's item (`concatgen.dfy`, module `ConcatGen`, class `PlaylistC`).
- **The playlist demuxer's text scanning** (`libavformat/playlist.c`). This covers the buffer prefix test, the file-extension test, the probe, the comment-stripping line splitter and the loop that counts the listed items (`playlist.dfy`, module `Playlist`).
- **The M3U demuxer** (`libavformat/m3u.c`). This covers its probe, its item listing and its read loop, which falls through to the next item on failure (`m3u.dfy`, module `M3u`, class `PlaylistD`).
- **The INI data-node tree and string list** (`libavformat/datanode.c`, `datanode.h`). The parser builds a tree of named and valued nodes. The logical successor walks the tree in preorder. The filters collect names or values into a string list (`datanode.dfy`, module `DataNode`, classes `StringList` and `DataTree`).
- **The fish-detector frame hook's integer logic** (`vhook/fish.c`). This covers RGB to HSV conversion, range clamping, and the throttle and threshold gating of `Process` (`fish.dfy`, module `Fish`, class `FishContext`).

`common.dfy` holds the shared byte type, `Option`, and the library constants. Their values are `AVPROBE_SCORE_MAX = 100`, `AVERROR_NOMEM = -12` and `AVERROR_INVALIDDATA = -22`.

How the model represents the C code:

- Heap objects that the C code updates in place are Dafny classes whose `seq` fields the methods reassign.
- A pointer link in the data-node tree is the index of the node it points to. The nodes are kept in the order they were made.
- Calls into libavformat are function parameters. These include opening an item, an item's `read_packet`, stream durations, time-base conversion and B-frame flags.
- Integers are unbounded. C's truncating division is written out as `Fish.CDiv` where a dividend can be negative.

Behaviour of the code worth noting:

- A stream without B-frames gets `pts = dts + 1`.
- Both read loops switch on any negative read result, not only at end of file.
- The M3U read loop keeps moving to the next item until an item answers or the last item fails.
- The concatenating read loop always reads from the first stream's item, but a failure advances the cursor of the failed packet's stream. It gives up as soon as that stream's cursor is on the last item, even when the item being read is an earlier one.
- A seek is handed on without translating the time.
- Durations and stream counts are recorded when an item is inserted, not when it is first read.
- Removal past the end answers `AVERROR_INVALIDDATA`.
- The fish hook's plane pointers start at the first byte of each plane (vhook/fish.c:222-224). The configured inset only bounds the loop counters and shortens the loops; the top rows and left columns are not skipped. After each row pair the luma pointer has moved `2 * linesize - 4 * w_end` bytes, so the pixels analysed drift left from row pair to row pair.

## Model

| member | source | states |
|---|---|---|
| Playlist.CompareBufs | libavformat/playlist.c:262-273 | answers 1 exactly when the NUL-terminated reference is a prefix of the buffer, else 0 |
| Playlist.ExtnScanStep | libavformat/playlist.c:238-256 | one character of the extension scan: a completed match is a dot followed by the extension; otherwise the scan state (match count since the last dot, no complete match before the frontier) is kept |
| Playlist.ExtnScanDone | libavformat/playlist.c:238-259 | a scan that ends without a match has seen no dot followed by the extension |
| Playlist.CheckFileExtn | libavformat/playlist.c:217-260 | NULL or empty name gives 0; for a non-empty, dot-free extension the answer is 1 exactly when some dot in the name is followed by the whole extension (trailing characters allowed) |
| Playlist.PlaylistProbe | libavformat/playlist.c:275-289 | maximum score exactly when a buffer of at least 7 bytes starts with `#EXTM3U` or the file name has an `m3u` extension, else 0 |
| Playlist.UntilNul | libavformat/playlist.c:312-315 | the scanned text is the prefix of the buffer before its first NUL |
| Playlist.SplitLinesBytes | libavformat/playlist.c:321-329 | no line of the split holds a newline, and every byte of a line comes from the text |
| Playlist.StripComment | libavformat/playlist.c:316-320 | what is kept of a line is everything before its first `#`: a prefix holding no `#`, followed in the line by a `#` when it is shorter, and the whole line when it has no `#` |
| Playlist.ScanOfIsListing | libavformat/playlist.c:312-335 | the byte-by-byte scan (hashed_out flag, row being filled) agrees with the line-by-line listing: completed entries are the non-empty stripped terminated lines, the current row is the stripped last line |
| Playlist.ListFiles | libavformat/playlist.c:298-337 | the loop's entries and leftover row equal the listing of the text before the first NUL within `buffer_size` bytes |
| Playlist.ListingEntriesClean | libavformat/playlist.c:316-334 | every listed entry is non-empty and holds no `#`, newline or NUL; the leftover holds no `#` or newline |
| Playlist.TerminatedTextLeavesNothing | libavformat/playlist.c:321-329 | text that ends in a newline leaves no unterminated row |
| Playlist.ListingAddLine | libavformat/playlist.c:321-334 | a further terminated line adds exactly one entry, its stripped text, unless nothing survives the comment |
| Playlist.LinesOfTextPlusLine | libavformat/playlist.c:321-334 | appending a newline-free line to terminated text only fills the last line |
| Playlist.KeptEntriesClean | libavformat/playlist.c:316-334 | kept entries of newline- and NUL-free lines are non-empty and free of `#`, newline and NUL |
| Playlist.CountItems | libavformat/playlist.c:137-149 | the item count is the index of the first NULL or empty row, every earlier row is a non-empty string, and the cursor starts at item 0 |
| Playlist.ListedTable | libavformat/playlist.c:300-310 | the table handed on has 512 rows |
| Playlist.PlaylistCountsTrailingLine | libavformat/playlist.c:298-336 | counting the table the splitter returns gives the number of entries plus one when the unterminated last line kept any character |
| M3u.M3uProbe | libavformat/m3u.c:121-134 | with a buffer of at least 7 bytes: maximum score exactly for `#EXTM3U`, else 0 (the name is not consulted); otherwise half the maximum exactly for an `m3u` extension, else 0 |
| M3u.M3uListFiles | libavformat/m3u.c:136-175 | entries and leftover are the listing of the text; the count stored is the number of completed entries, all clean |
| M3u.PlaylistD.ReadPacket | libavformat/m3u.c:197-215 | the result is what the current item answers; every item skipped failed; a failure is returned only from the last item; the cursor never moves back and does not move when the first read succeeds |
| M3u.PlaylistD.constructor | libavformat/playlist.c:137-157 | a new playlist of `size` items has its current item at 0 |
| AvPlaylist.InsertAt | libavformat/avplaylist.h:57-64 | the new entry occupies `pos`, entries below keep their index, entries from `pos` move up by one |
| AvPlaylist.RemoveAt | libavformat/avplaylist.h:76-82 | entries below `pos` keep their index, later entries move down by one, the length drops by one |
| AvPlaylist.ShiftUp | libavformat/avplaylist.c:78-83 | the grown array equals the old one below `pos`, the old one from `pos` on one slot further, and the slot at `pos` still holds the old entry there |
| AvPlaylist.FillOpenedSlot | libavformat/avplaylist.c:84-91 | filling the slot the shift opened gives the insertion of the new entry |
| AvPlaylist.ShiftDown | libavformat/avplaylist.c:139-140 | the shift-down loop over the shrunk size yields the array without entry `pos` |
| AvPlaylist.InsertShiftWritesPastEnd | libavformat/avplaylist.c:78-79 | the insertion loop's first write is at index `pelist_size` of an array of that many slots |
| AvPlaylist.RemoveShiftReadsPastEnd | libavformat/avplaylist.c:131-132 | the path shift's last read is at index `pelist_size` of an array of that many slots |
| AvPlaylist.NewEntry | libavformat/avplaylist.c:97-103 | the new running total is the item's amount plus the entry before it, or the amount alone at position 0 |
| AvPlaylist.SumAppend | libavformat/avplaylist.h:47-48 | the sum of two runs of amounts is the sum of their sums |
| AvPlaylist.InsertKeepsTotalsUpTo | libavformat/avplaylist.c:97-103 | after an insertion every running total up to and including the new entry is the sum of the items up to it |
| AvPlaylist.AppendKeepsTotals | libavformat/avplaylist.c:97-103 | appending at the end keeps the whole running-total table right |
| AvPlaylist.InsertLeavesLaterTotalsStale | libavformat/avplaylist.c:78-103 | inserting an item of amount b before a single item of amount a leaves totals b, a where the running sums are b, a + b (wrong whenever b is not 0) |
| AvPlaylist.RemoveLeavesLaterTotalsStale | libavformat/avplaylist.c:139-140 | removing the front item of amounts a and b leaves the total a + b where the remaining item sums to b (wrong whenever a is not 0) |
| AvPlaylist.AddFrom | libavformat/avplaylist.h:47-48 | adds a delta to every total from an index on and leaves the earlier ones unchanged |
| AvPlaylist.ResummedInsertKeepsTotals | libavformat/avplaylist.h:47-48 | inserting and then adding the new amount to every later entry gives exactly the running totals of the new item list |
| AvPlaylist.RemoveKeepsTotalsBefore | libavformat/avplaylist.c:139-140 | a removal keeps every running total before `pos` right |
| AvPlaylist.ResummedRemoveKeepsTotals | libavformat/avplaylist.h:47-48 | removing and then subtracting the removed amount from every later entry gives exactly the running totals of the new item list |
| AvPlaylist.Attempted | libavformat/avplaylist.c:111-118 | the number of items insertion attempts: all before the last attempted one opened, and it stops right after the first that fails |
| AvPlaylist.AttemptedStopsAt | libavformat/avplaylist.c:112-116 | when item `i` is the first that fails, `i + 1` items are attempted |
| AvPlaylist.AttemptedAll | libavformat/avplaylist.c:111-118 | when every item opens, all are attempted |
| AvPlaylist.PlaylistContext.constructor | libavformat/avplaylist.c:38-41 | a new playlist is empty, with no arrays allocated and the cursor at 0 |
| AvPlaylist.PlaylistContext.InsertItem | libavformat/avplaylist.c:43-106 | size grows by one; path and NULL context are inserted at `pos` in their arrays; an item that opens gets the running totals of `NewEntry` at `pos` and the later totals are moved, not re-summed; one that fails returns `AVERROR_NOMEM` with the item already in place |
| AvPlaylist.PlaylistContext.InsertPlaylist | libavformat/avplaylist.c:108-119 | returns 0 exactly when every item of the other playlist opens; the inserted segment is the other playlist's paths in order, up to and including the first that fails, each with an empty context slot; the cursor, the closed contexts and the totals before `pos` are unchanged |
| AvPlaylist.PlaylistContext.RemoveItem | libavformat/avplaylist.c:121-173 | past the end or with no arrays: `AVERROR_INVALIDDATA` and nothing changes; otherwise every array loses entry `pos`, the size drops by one, and the entry's cached context, if any, is closed |
| AvPlaylist.PlaylistContext.Close | libavformat/avplaylist.c:175-191 | returns 0 with every array empty, having closed the cached contexts from the last item to the first |
| AvPlaylist.ClosedFromTail | libavformat/avplaylist.c:178-184 | every context closed is one the table held, and no more are closed than there are entries |
| AvPlaylist.ClosedFromTailCons | libavformat/avplaylist.c:178-184 | closing from the tail meets the first entry last |
| AvPlaylist.ClosedFromTailStep | libavformat/avplaylist.c:178-184 | removing the last remaining item appends its context to those closed so far |
| ConcatGen.Rebase | libavformat/concatgen.c:41-47 | the decoding time gains exactly the converted offset; a stream with B-frames keeps its `pts`, one without gets the new `dts` plus one |
| ConcatGen.RebaseKeepsOrder | libavformat/concatgen.c:43-46 | rebasing keeps the decoding order of one stream's packets, and a stream without B-frames presents each packet after it is decoded |
| ConcatGen.AddedDurations | libavformat/concatgen.c:59-61 | offset `i` gains the finished item's stream-`i` duration for `i` below both the stream count and the number of offsets; other offsets are unchanged |
| ConcatGen.AddDurations | libavformat/concatgen.c:59-61 | the stream-by-stream loop computes exactly `AddedDurations` |
| ConcatGen.SwitchAt | libavformat/concatgen.c:51-62 | a failed read whose packet names stream `si` adds the finished item's durations to the offsets and moves exactly that stream's cursor on by one |
| ConcatGen.SwitchesKeepOffsetsRising | libavformat/concatgen.c:59-61 | with durations never negative, no number of switches lowers any time offset |
| ConcatGen.Switch | libavformat/concatgen.c:51-62 | one more read that failed and switches leads from where `k` switches led to where `k + 1` lead, adds that read to the failed ones, and uses up one switch |
| ConcatGen.FirstReadFailed | libavformat/concatgen.c:37-51 | once any switch was made, the first read of the call had failed |
| ConcatGen.ReadOnce | libavformat/concatgen.c:33-62 | one pass of the loop: a success, or a failure on the packet stream's last item, stops with the read's answer and changes nothing; any other failure is one more failed read and one switch |
| ConcatGen.ReadLoop | libavformat/concatgen.c:24-74 | the loop ends where its switches lead by `AfterSwitches`, and every read before the last one failed, so a successful first read ends the loop with no switch; it answers the last read, rebased on success, and fails only when the packet's stream is on the last item; the caller's packet is the first read's |
| ConcatGen.GapStep | libavformat/concatgen.c:51-62 | advancing one cursor below the last item uses up exactly one of the switches left |
| ConcatGen.AdvanceCursor | libavformat/concatgen.c:51-62 | advancing a stream's cursor that is not on the last item keeps every cursor on an item, leaves no cursor behind where it started and uses up one switch |
| ConcatGen.PlaylistC.ReadPacket | libavformat/concatgen.c:24-74 | reads go to the first stream's item; the new cursors and offsets are those of `AfterSwitches`, so each switch moved the failed packet's stream cursor on by one and added the finished item's durations to the offsets; every read before the last one failed, so a successful first read makes no switch; the number of switches equals the cursor advance; success returns the packet rebased by the new offset; failure is returned only when the packet's stream is on the last item; with no switch nothing changes; after a switch the caller's packet keeps what the first read left |
| ConcatGen.PlaylistC.ReadSeek | libavformat/concatgen.c:76-86 | the seek goes to the first stream's item with stream index, time and flags unchanged |
| ConcatGen.PlaylistC.constructor | libavformat/pls.c:61-76 | a demuxer's state starts with every stream's cursor on item 0, and `offsetsSize` time offsets all at 0 |
| DataNode.AddChild | libavformat/datanode.c:24-31 | one node with no strings and no links but its parent `o` is added at the end; `o`'s child link points to it, and every other node is unchanged |
| DataNode.AddNext | libavformat/datanode.c:33-41 | one node with no strings, `o` as its previous sibling and `o`'s parent as its parent is added at the end; `o`'s next link points to it, and every other node is unchanged |
| DataNode.UpNextReads | libavformat/datanode.c:123-128 | the climb to the nearest next sibling reads only the parent and next links of the nodes it passes |
| DataNode.NextUpdateKeeps | libavformat/datanode.c:123-128 | giving a sibling-less ancestor a next sibling changes no successor already found |
| DataNode.AddChildKeepsPreorder | libavformat/datanode.c:88-93 | a child of the newest node keeps making order equal to preorder |
| DataNode.AddNextKeepsPreorder | libavformat/datanode.c:76-81 | a next sibling of the newest node or of its parent keeps making order equal to preorder |
| DataNode.SameLinksKeepPreorder | libavformat/datanode.c:94-106 | changing only names and values keeps the preorder |
| DataNode.AddChildKeepsShape | libavformat/datanode.c:88-93 | `]` keeps the tree's shape: parents first, links agreeing, preorder, values only on named nodes, no syntax in strings |
| DataNode.AddNextKeepsShape | libavformat/datanode.c:61-81 | a newline or `[` keeps the tree's shape |
| DataNode.SetStringsKeepsShape | libavformat/datanode.c:94-106 | storing clean strings, with a value only beside a name, keeps the tree's shape |
| DataNode.DepthOfLinks | libavformat/datanode.c:149-155 | a child is one level deeper than its parent, a next sibling is level with its predecessor |
| DataNode.ValuesNamed | libavformat/datanode.c:140-147 | every value collected is free of syntax |
| DataNode.NamesValued | libavformat/datanode.c:131-138 | every name collected is free of syntax |
| DataNode.ValuesNamedMembers | libavformat/datanode.c:143-146 | a string is collected exactly when a node from the start on holds it as value and has a name starting with the prefix |
| DataNode.NamesValuedMembers | libavformat/datanode.c:134-137 | a string is collected exactly when a node from the start on holds it as name and has a value starting with the prefix |
| DataNode.StringsOf | libavformat/datanode.h:44-47 | a list whose head holds no string has none; otherwise its strings are those of its nodes, in order |
| DataNode.LenCountsHead | libavformat/datanode.c:219-225 | the node count equals the number of strings except for a fresh list, which counts its empty head |
| DataNode.StringList.constructor | libavformat/datanode.c:178-183 | a new list is one zeroed node holding no string |
| DataNode.StringList.Append | libavformat/datanode.c:185-194 | the strings become the old ones plus the new one; a fresh head is filled, otherwise a node is added at the end |
| DataNode.StringList.Len | libavformat/datanode.c:219-225 | answers the number of nodes, which is the number of strings or 1 for a fresh list |
| DataNode.StringList.At | libavformat/datanode.c:196-201 | a non-positive index gives the head's string; index `i` gives the `i`-th string |
| DataNode.StringList.Export | libavformat/datanode.c:203-217 | one entry per node in list order, then a NULL, with the node count |
| DataNode.DataTree.MkChild | libavformat/datanode.c:24-31 | the tree gains one node, the child of `o`, which points back to `o` |
| DataNode.DataTree.MkNext | libavformat/datanode.c:33-41 | the tree gains one node, the next sibling of `o`, sharing its parent and pointing back to it |
| DataNode.DataTree.GetLogNext | libavformat/datanode.c:118-129 | answers the child, else the next sibling, else that of the nearest ancestor that has one; in a parsed tree this is the next node made |
| DataNode.DataTree.GetDepth | libavformat/datanode.c:149-155 | answers the number of parent links up to the root |
| DataNode.DataTree.FilterValuesByName | libavformat/datanode.c:140-147 | appends, in preorder from `d`, the value of every valued node whose name starts with the prefix |
| DataNode.DataTree.FilterNamesByValue | libavformat/datanode.c:131-138 | appends, in preorder from `d`, the name of every node whose value starts with the prefix |
| DataNode.DataTree.constructor | libavformat/datanode.c:51-53 | the parser starts from a tree of one zeroed node |
| DataNode.TreeFromIni | libavformat/datanode.c:43-110 | the tree the parser returns has parents made first, agreeing links, preorder making order, values only on named nodes and no syntax byte in any string |
| Fish.CDivRemainder | vhook/fish.c:181 | C division for a positive divisor: the remainder has the sign of the dividend and is below the divisor in size |
| Fish.SixtiethsBounded | vhook/fish.c:181 | `60 * f / d` with `abs(f) <= d` lies in -60..60 and has the sign of `f` |
| Fish.SpreadOverValue | vhook/fish.c:185 | `255 * (max - min) / max` lies in 1..255 when the components differ |
| Fish.GetHsv | vhook/fish.c:152-189 | the value is the largest component, a grey has hue and saturation 0, the hue lies in 0..359 and the saturation in 0..255 |
| Fish.HueSector | vhook/fish.c:170-183 | the hue lies within 60 degrees of the sector of the largest component, ties preferring red, then green |
| Fish.SaturationZeroIffGrey | vhook/fish.c:163-185 | the saturation is 0 exactly when all three components are equal |
| Fish.DoRange | vhook/fish.c:76-83 | each bound, parsed or kept, is lowered to the maximum if above it and otherwise unchanged; no lower clamp |
| Fish.DoRangeIdempotent | vhook/fish.c:79-82 | clamping clamped bounds again changes nothing |
| Fish.InRangeCols | vhook/fish.c:229-261 | no more pixels of a row are in range than the columns visited |
| Fish.InRangeRowsBound | vhook/fish.c:226-266 | no more pixels are in range than the loops visit |
| Fish.WindowOf | vhook/fish.c:214-218 | the loop-counter bounds: the row counter runs from the height down to a lower bound that is even and is `inset` percent of the height rounded down to even, and the column counter runs from the half width down to `inset` percent of the half width rounded down; the upper bounds are the height and half width less those lower bounds |
| Fish.OneRowFrameCountsNothing | vhook/fish.c:220 | for a 640 by 1 frame the count as written is 0 while 256 pixels are visited |
| Fish.OddHeightUndercounts | vhook/fish.c:220-226 | for a 640 by 3 frame the count as written is 256 while 512 pixels are visited, a share of 2000 per mille |
| Fish.SharePerMilleAtMost | vhook/fish.c:268 | with the visited count, the in-range share is at most 1000 per mille |
| Fish.HighThresholdSelectsNothing | vhook/fish.c:268 | a threshold above 1000 per mille selects no frame |
| Fish.CountRow | vhook/fish.c:229-256 | the column loop of one row counts exactly that row's visited pixels whose colour is in range |
| Fish.CountInRange | vhook/fish.c:226-266 | the nested loops count exactly the visited pixels whose colour is in range, at most the visited count |
| Fish.FishContext.Process | vhook/fish.c:191-326 | a frame before `next_pts` or narrower than `min_width` changes nothing; any other moves `next_pts` one second on; a YUV 4:2:0 frame is selected exactly when it has visited pixels, its share reaches the threshold and fewer than `file_limit` images were found, which sets `next_pts` to `pts + min_interval` |
| Fish.FishContext.constructor | vhook/fish.c:86-99 | the context holds the configured ranges, threshold, limits and minimum width, with `next_pts` at 0 as `av_mallocz` leaves it |

## Left out

- Memory allocation failure: every `av_malloc`/`av_realloc` is taken to succeed, so their `AVERROR_NOMEM` returns in insertion and removal and the half-grown arrays a failed reallocation leaves are not modelled. The reallocation of the arrays to size 0 when the last item is removed is not modelled either.
- Opening, probing, reading and closing items (`ff_playlist_alloc_formatcontext`, `av_close_input_file`, `read_packet`, `read_seek`, `ff_conv_stream_time`, `ff_get_duration`, `ff_playlist_populate_context`) are outside the model. They come in as function parameters. Only the cached contexts that removal closes are recorded, in a ghost list; the probe context that insertion opens and closes again (`libavformat/avplaylist.c:104`) is not.
- AvPlaylist.PlaylistContext.InsertItem: when the item cannot be opened, its two running-total slots keep whatever the shift left there, and the model says only that the other slots are shifted.
- AvPlaylist.PlaylistContext.InsertItem requires `0 <= pos <= pelistSize`, the range `avplaylist.h` documents for `pos`; the C code does not check it, and an out-of-range `pos` would index outside the arrays.
- AvPlaylist.PlaylistContext.InsertPlaylist requires the other playlist to be a different object; inserting a playlist into itself, where the loop bound grows with the insertion, is not modelled.
- AvPlaylist.PlaylistContext.RemoveItem requires a non-negative position whenever the guard would pass it; the C code has no lower-bound check and would free `flist[pos]` for a negative `pos`.
- `pe_curidx` of the catalog is never adjusted by insertion or removal; the model keeps it unchanged and states no bound on it.
- ConcatGen.PlaylistC.ReadSeek: the C function returns no value; the model returns the call it forwards and states no result code.
- ConcatGen.PlaylistC.constructor requires at least one item and one stream; the state it builds is the one `ff_playlist_make_context` and the demuxers' header readers set up, and `ff_playlist_make_context` is not part of this model.
- M3u.PlaylistD.constructor requires at least one item; `av_make_playlistd` also builds an empty playlist, whose first read would index an empty item list.
- ConcatGen.PlaylistC.ReadPacket assumes every packet's stream index names a cursor and an offset (`StreamsBelow`), which the C code does not check.
- ConcatGen.ReadLoop makes the same assumption (`StreamsBelow`) for the cursors and offsets it starts from.
- The thin delegations of `concatgen.c` (`read_timestamp`, `read_close`, `read_play`, `read_pause`) and `concat.c`, `pls.c` and `xspf.c` are demuxer wiring and are not part of this model.
- Playlist.CheckFileExtn takes a file name as the characters before its terminating NUL. A name that holds a NUL character has no C counterpart, and the model would match past that character where the C code stops.
- The fixed 512 rows of 512 bytes of the line splitters are a precondition (`FitsTable`); overflowing them is not modelled, nor is `playlist_list_files` returning the address of its own stack array.
- The playlist demuxer's `av_make_playelem`/`av_alloc_playelem` (which reads an uninitialised pointer) and the muxers' header writers are not part of this model.
- DataNode strings are unbounded sequences: the growth of the name and value buffers by `DATANODE_STR_BUFSIZE` bytes through `av_realloc` is not modelled, and the list stores string values where the C list shares the node's buffers.
- DataNode.TreeFromIni states the tree's shape, not the exact tree a given text produces. Its parser keeps its own cursor over the text and switches between name, value and section states byte by byte, so an exact statement would need a second parser as the reference; the per-byte steps (`AddChild`, `AddNext`) are stated exactly instead, and the shape is what the demuxers reading the tree rely on.
- `ff_datanode_tree_from_xml` (a stub), `ff_datanode_visualize` and `ff_stringlist_print` (printing only) are not part of this model.
- Fish: `Configure` (option parsing, `atof`, floating-point threshold and interval) is left out; the constructor takes the configured values.
- Fish: the YUV to RGB conversion through the crop table and the walk of the plane pointers are a parameter giving the colour at each pair of loop counters; the zapping writes to the picture are not modelled.
- Fish: the directory scan every 20 frames (a `static` counter) and the PPM writing are left out; `Process` takes the count of images last found.
- Integer widths: durations, offsets and presentation times are unbounded; the 64-bit and 32-bit wrap-around of the C types is not modelled.
- Logging and `printf` output are left out throughout.

## Findings

| source | as written | input that shows it | evidently intended | confidence | as-written member | corrected member |
|---|---|---|---|---|---|---|
| libavformat/avplaylist.c:78-83 | the shift loop starts at `i = pelist_size`, the size after growing, and writes one slot past the end of all four arrays | any insertion, e.g. inserting at 0 into a one-item playlist first writes index 2 of the grown 2-slot arrays | start at `pelist_size - 1` so only slots of the grown arrays are written | not executed | AvPlaylist.InsertShiftWritesPastEnd | AvPlaylist.ShiftUp |
| libavformat/avplaylist.c:131-132 | the path shift runs while `i < pelist_size` before the size is decreased, reading `flist[pelist_size]`, one past the end | removing any item, e.g. position 0 of one item reads `flist[1]` | shift over the shrunk size, as the other three arrays' loops do | not executed | AvPlaylist.RemoveShiftReadsPastEnd | AvPlaylist.ShiftDown |
| libavformat/avplaylist.c:97-103 | insertion gives the new entry its running total but only moves the later entries, which no longer include the new item | items of duration 10, insert 5 at 0: totals 5, 10 instead of 5, 15 | add the new amount to every later running total | not executed | AvPlaylist.InsertLeavesLaterTotalsStale | AvPlaylist.ResummedInsertKeepsTotals |
| libavformat/avplaylist.c:139-140 | removal moves the later running totals down without subtracting the removed item | items 10 and 5, remove position 0: total 15 instead of 5 | subtract the removed amount from every later running total | not executed | AvPlaylist.RemoveLeavesLaterTotalsStale | AvPlaylist.ResummedRemoveKeepsTotals |
| vhook/fish.c:220 | `pixcnt` is 0 for a one-row frame, and the threshold test at line 268 divides by it | a 640 by 1 frame: the row counter runs from 1 down to above 0, `pixcnt` 0, 256 pixels visited | count the visited pixels and apply no threshold when none were visited | not executed | Fish.OneRowFrameCountsNothing | Fish.FishContext.Process |
| vhook/fish.c:220-226 | `pixcnt` rounds the row count down while the loop visits half the row span rounded up | a 640 by 3 frame: `pixcnt` 256, 512 pixels visited, an all-in-range frame scores 2000 per mille | count the rows the loop visits, so the share is at most 1000 per mille | not executed | Fish.OddHeightUndercounts | Fish.SharePerMilleAtMost |

The catalog methods keep the running totals as the code computes them: the stale entries are defined behaviour, and the model reports them rather than changing them. The corrected re-summing is stated and proved in `AvPlaylist.ResummedInsertKeepsTotals` and `AvPlaylist.ResummedRemoveKeepsTotals`. The catalog's shifts use the in-bounds loops, and `Process` uses the visited-pixel count.
