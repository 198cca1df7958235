# Verification of the data structures and protocols of the YMS media server

A Dafny model of the parts of the repository where a mistake is easy to make and hard to see: the
red-black tree and the timer queue on top of it, the JSON parser, printers and minifier, the block
cache, recorder and playlists of the live stream, the pool allocator and its intrusive list, and the
asynchronous query machine with the request that fans out over it. `dafny verify dfyconfig.toml`
checks all of it.

Code that works in place is modelled in place: tree nodes, list links, buffers, the printer's growing
buffer, blocks, GOPs and contexts are objects and arrays, and each method's contract ties the new
state to the old one through a value (a tree and a path, a sequence, a text, a byte stream). What the
source promises is then proved of those values.

## The model, file by file

| files | what they model |
|---|---|
| `RbtShape`, `RbtHeap` | the node record, the mathematical tree and the path (zipper) to the node a loop is at, and how the heap shows them |
| `RbtRotate`, `RbtInsert`, `RbtAdd` | rotations, the repair after insertion, stable insertion of equal keys |
| `RbtErase`, `RbtDelete`, `RbtReplace` | the repair after erasing, the splice cases, erasing and replacing a node |
| `RbtSearch`, `RbtWalk` | exact, floor and ceiling search; in-order and post-order walks |
| `TimerQueue`, `Timers` | the timer queue as a sequence, and the two trees that implement it |
| `JsonText`, `JsonParse`, `JsonRoundTrip` | values and their text, the parser as functions, parsing after printing |
| `JsonBits`, `JsonStrings`, `JsonParser` | the parser's loops, with the decoding of escapes |
| `JsonPrinter`, `JsonPow2`, `JsonBuffer` | the allocating printer and the one with a growing buffer |
| `JsonGrammar` | the grammar of RFC 8259, with the meaning of its texts; parsing gives it, or the place where a text leaves the grammar |
| `JsonMinify`, `JsonMinified`, `JsonMeaning` | the minifier in place, and what it keeps |
| `JsonLaws` | what printed text consists of and what the minifier drops, by characters |
| `LiveCache`, `LiveChannel` | recorded files, and the cache of blocks over them |
| `LiveGops`, `LivePoll` | GOPs, playlists and served fragments; polling the upstream playlist |
| `ListHead`, `Mpool` | the circular list and the pool of blocks |
| `MysqlQuery`, `FanOut` | one asynchronous query; a request over many |
| `Common` | an option, powers of two, and what else the others share |

## What the proofs found

- A `\u` high surrogate that is followed by another `\u` escape takes it along, whatever it is:
  `"\uD800\u0041"` loses its letter (`JsonStrings.SwallowsALetter`). Decoding is that of UTF-16
  exactly when no such pair occurs (`JsonStrings.DecodesUtf16`).
- In `/*/` the star that opens a comment also closes it, and the minifier drops all three characters
  (`JsonLaws.CommentDropped`).
- A query that the server refuses with a positive code reports `done` when it was never suspended and
  `error` when it was. Suspension does not matter exactly for queries that are not refused
  (`MysqlQuery.SuspensionDoesNotMatter`).
- A request is answered exactly when all its queries have ended and each one that a row asked for, with
  a connection there for it, could be started (`FanOut.AnsweredExactly`); one that cannot be started
  leaves the request without an answer for good (`FanOut.FailedStartHangs`), as a run of two events
  shows (`FanOut.HangsWithoutQueries`).
- The playlist's alignment is content with as many GOPs as the playlist names; its creation wants one
  more and fails without it, so a playlist is built exactly when there are more whole groups than
  segments (`LiveGops.Live.Build`).
- When no GOP comes after the last whole group, the playlist names a last fragment that is still
  growing: its last GOP counts for a second, and what a request for it gets can change. It can then,
  and only then (`LiveGops.LastSegment`); all other fragments named are final (`LiveGops.NamedIsServed`).
- What a request attaches to its answer are places in the blocks, and blocks are written anew while the
  transport still sends. A slice always reads as the stream at the key that its block has when it is
  sent (`LiveChannel.Channel.SliceReads`). On a reliable run that is its own place exactly as long as it
  is within the reach of the pool then (`LiveChannel.Channel.OutOfReach`,
  `LiveChannel.Channel.SentLater`); a client that is slower is sent other bytes under the right length
  (`LiveChannel.SentTooLate`).
- When attaching a piece fails, the answer goes on without it, and is shorter than the length in front
  says (`LiveGops.Live.LengthMet`).
- The first poll of an upstream playlist takes its first segment as known, and no poll ever queues it
  (`LivePoll.FirstNeverQueued`). Over a run of polls, what is queued is exactly what comes after that
  one and after all segments named before (`LivePoll.QueuedExactly`).
- The pool never asks whether its header leaves room for blocks, and computes the header's size in 32
  bits. When that does not wrap, as for all blocks of more than 16 bytes
  (`Mpool.HeaderWrapsOnlyForSmallBlocks`), the layout is sound exactly when a header with a link for
  every block fits (`Mpool.SoundExactlyWhenHeaderFits`); the condition for every region accepted is
  `Mpool.SoundExactly`.

## Model

| member | source | states |
|---|---|---|
| RbtRotate.TurnRight | lib_src/util/rns_rbt.c:19-27 | a rotation at the end of a path, with the parent and the root relinked, shows exactly the rotated tree |
| RbtRotate.TurnLeft | lib_src/util/rns_rbt.c:19-27 | the mirror image |
| RbtInsert.Cases2And3Left | lib_src/util/rns_rbt.c:79-109 | inner rotation, outer rotation and recolouring in a row give the tree with the middle node on top |
| RbtInsert.Cases2And3Right | lib_src/util/rns_rbt.c:122-150 | the mirror image |
| RbtInsert.InsertColor | lib_src/util/rns_rbt.c:29-154 | climbing from a red node under a possibly red parent, the loop ends in a red-black tree with the same in-order sequence |
| RbtAdd.Descend | lib_src/util/rns_rbt.c:565-580 | the place found lies after all keys not greater and before all greater ones |
| RbtAdd.InsertInt | lib_src/util/rns_rbt.c:565-585 | the tree stays red-black and the node enters the sequence just after the last key not greater, so equal keys keep their order |
| RbtErase.BlackSiblingLeft | lib_src/util/rns_rbt.c:204-260 | with a black sibling, each case either restores the black height or passes the shortage to the parent |
| RbtErase.BlackSiblingRight | lib_src/util/rns_rbt.c:277-336 | the mirror image |
| RbtErase.EraseColor | lib_src/util/rns_rbt.c:160-341 | the loop, climbing toward the root, turns a tree one black node short in one place into a red-black tree with the same sequence |
| RbtDelete.PullUp | lib_src/util/rns_rbt.h:144-170 | a node with one child or none is replaced by the child, which takes its parent and colour |
| RbtDelete.DetachMin | lib_src/util/rns_rbt.h:171-215 | the successor leaves its place to its right child, and the right subtree hangs below it |
| RbtDelete.EraseAugmented | lib_src/util/rns_rbt.h:136-238 | the splice takes one node out of the sequence, and says where, if anywhere, a black node is missing |
| RbtDelete.Erase | lib_src/util/rns_rbt.c:370-376 | erasing any node keeps the tree red-black, and its sequence is the old one without exactly that node |
| RbtReplace.Replace | lib_src/util/rns_rbt.c:477-491 | the replacement stands in the sequence where the victim stood, with its key, in a valid tree |
| RbtHeap.Root.ChangeChild | lib_src/util/rns_rbt.h:74-85 | the link above a node, of its parent or of the root, leads to the new child and nothing else changes |
| RbtSearch.HeightLogarithmic | lib_src/util/rns_rbt.c:623-651 | a red-black tree of n nodes has height h with 2^h at most (n + 1)^2 |
| RbtSearch.SearchInt | lib_src/util/rns_rbt.c:623-651 | a node with the key is found exactly when there is one, in logarithmically many steps |
| RbtSearch.LSearchInt | lib_src/util/rns_rbt.c:683-713 | a match if any, else the nearest smaller key, or nothing exactly when all keys are greater |
| RbtSearch.GSearchInt | lib_src/util/rns_rbt.c:748-778 | a match if any, else the nearest greater key, or nothing exactly when all keys are smaller |
| RbtWalk.First | lib_src/util/rns_rbt.c:394-404 | the first node of the sequence |
| RbtWalk.Last | lib_src/util/rns_rbt.c:406-416 | the last node of the sequence |
| RbtWalk.Next | lib_src/util/rns_rbt.c:418-447 | the node after the given one in the sequence |
| RbtWalk.Prev | lib_src/util/rns_rbt.c:449-475 | the node before the given one, so that it undoes the step forward |
| RbtWalk.ForEach | lib_src/util/rns_rbt.h:109-111 | first and then next visit the whole sequence once, in order |
| RbtWalk.Delete | lib_src/util/rns_rbt.c:812-822 | the node leaves the sequence, and the one that was after it is returned and stands in its place |
| RbtWalk.ChildrenFirst | lib_src/util/rns_rbt.c:505-531 | in post-order every node comes after all nodes below it |
| RbtWalk.PostorderSameNodes | lib_src/util/rns_rbt.c:505-531 | post-order lists each node exactly once |
| RbtWalk.FirstPostorder | lib_src/util/rns_rbt.c:523-531 | the first node in post-order |
| RbtWalk.NextPostorder | lib_src/util/rns_rbt.c:505-521 | the node after the given one in post-order |
| TimerQueue.ApplyAllGood | lib_src/util/rns_epoll.c:137-199 | any calls of add, delete and delay keep the queue ordered by deadline with one entry an id |
| TimerQueue.AddLaw | lib_src/util/rns_epoll.c:137-160 | armed under a free id, a timer is due its delay after the clock reading, behind all not due later, and all others stay; with no delay or under an id in use nothing changes |
| TimerQueue.DeleteLaw | lib_src/util/rns_epoll.c:162-177 | a timer deleted is armed no more, and all others stay as they are |
| TimerQueue.DelayLaw | lib_src/util/rns_epoll.c:179-199 | delayed, a timer is due its new delay after the clock reading, behind all not due later, and all others keep deadline and order; with no delay or an unknown id nothing changes |
| TimerQueue.ExpireLeavesNoneDue | lib_src/util/rns_epoll.c:67-79 | when every callback deletes or delays its own timer and arms nothing already due, the loop ends with no timer due |
| TimerQueue.ExpireInOrder | lib_src/util/rns_epoll.c:67-79 | timers fire in the order of their deadlines, equal deadlines first come first |
| TimerQueue.FiresExactly | lib_src/util/rns_epoll.c:67-79 | a timer fires exactly when it was due as the run began and no callback before it deleted or delayed it |
| TimerQueue.OneShotExpiry | lib_src/util/rns_epoll.c:67-79 | when every callback deletes its own timer, exactly the due timers fire and exactly the others stay |
| Timers.Epoll.TreesAgree | lib_src/util/rns_epoll.c:137-199 | the deadline tree and the id tree hold the same timers |
| Timers.Epoll.TimerAdd | lib_src/util/rns_epoll.c:137-160 | the timer enters both trees and the queue behind equal deadlines, under an id not in use |
| Timers.Epoll.TimerDelete | lib_src/util/rns_epoll.c:162-177 | the timer leaves both trees; an unknown id changes nothing |
| Timers.Epoll.TimerDelay | lib_src/util/rns_epoll.c:179-199 | the timer moves to its new place in the queue; an unknown id changes nothing |
| Timers.Epoll.RunExpired | lib_src/util/rns_epoll.c:67-79 | over the real trees, the loop fires and leaves exactly what the queue of values does |
| JsonRoundTrip.NumberRoundTrip | lib_src/info/cJSON.c:96-115 | a printed integer parses to itself, and to the end of its digits |
| JsonRoundTrip.StringRoundTrip | lib_src/info/cJSON.c:192-307 | a printed string, escapes and all, parses to itself |
| JsonRoundTrip.ValueRoundTrip | lib_src/info/cJSON.c:357-658 | the text of any value, formatted or not and at any depth, parses to the value and leaves what follows |
| JsonRoundTrip.RoundTrip | lib_src/info/cJSON.c:323-343 | parsing the whole printed text gives the value back and uses all of it |
| JsonStrings.ParseHex4 | lib_src/info/cJSON.c:177-189 | four hexadecimal digits of either case as a number, and zero when one is missing |
| JsonStrings.WriteUtf8 | lib_src/info/cJSON.c:229-236 | the bit operations store a code point as section 3 of RFC 3629 has it |
| JsonStrings.NeverMoreThanCounted | lib_src/info/cJSON.c:197-202 | the bytes decoded from a well-formed literal are never more than the first pass counts |
| JsonStrings.DecodeUnit | lib_src/info/cJSON.c:215-238 | an escape or a surrogate pair gives the bytes and takes the text that the decoding of units says |
| JsonStrings.ParseText | lib_src/info/cJSON.c:192-249 | within the memory counted, a literal is decoded as the function says, and the text after it is left |
| JsonStrings.DecodesUtf16 | lib_src/info/cJSON.c:215-228 | decoding is UTF-16 without unpaired surrogates and zeros exactly when no high surrogate swallows the escape after it |
| JsonStrings.SwallowsALetter | lib_src/info/cJSON.c:220-226 | a text of two escapes that parses to nothing although it writes a letter |
| JsonParser.SkipText | lib_src/info/cJSON.c:320-320 | everything up to 32 is passed over |
| JsonParser.ParseNumberText | lib_src/info/cJSON.c:96-115 | one number scaled at the end is the sign, whole part, fraction and exponent that the text writes |
| JsonParser.ParseValueText | lib_src/info/cJSON.c:357-369 | the value, or the place of the error |
| JsonParser.ParseArrayText | lib_src/info/cJSON.c:406-431 | the loop gives all elements in order, or the place of the error |
| JsonParser.ParseObjectText | lib_src/info/cJSON.c:514-547 | the loop gives all members in order, or the place of the error |
| JsonParser.ParseWithOpts | lib_src/info/cJSON.c:323-337 | as a whole, with text left over an error when none may be |
| JsonParser.PrintIsTidy | lib_src/info/cJSON.c:342-343 | every printed text meets what the parser's loops require |
| JsonGrammar.GrammarParses | lib_src/info/cJSON.c:323-337 | every text of the grammar of RFC 8259, its surrogates in pairs and no escaped zero, with spaces around it parses to what it means; text left over is an error at its place where none may be |
| JsonGrammar.TextRead | lib_src/info/cJSON.c:357-547 | so it does in front of anything that does not go on with a number, whatever spaces stand between the tokens |
| JsonGrammar.NumberRead | lib_src/info/cJSON.c:96-115 | sign, digits by their places, fraction and exponent of a number of the grammar |
| JsonGrammar.QuotedRead | lib_src/info/cJSON.c:192-249 | characters, the escapes by a table of letters and codes, code units and surrogate pairs of a string, each as what it stands for |
| JsonGrammar.Utf8Law | lib_src/info/cJSON.c:229-236 | the octets of a code point decode to it, with the marks of section 3 of RFC 3629, and are as few as there can be |
| JsonGrammar.NoValue | lib_src/info/cJSON.c:357-369 | where no value starts, that is the place of the error |
| JsonGrammar.ArrayErrors | lib_src/info/cJSON.c:406-431 | an array is refused where neither a comma nor the bracket follows an item, or where an item is refused |
| JsonGrammar.FirstItemError | lib_src/info/cJSON.c:406-418 | the same for its first item |
| JsonGrammar.ObjectErrors | lib_src/info/cJSON.c:514-547 | an object is refused where neither a comma nor the brace follows an entry, or where an entry is refused |
| JsonGrammar.FirstEntryError | lib_src/info/cJSON.c:514-528 | the same for its first entry |
| JsonGrammar.EntryErrors | lib_src/info/cJSON.c:524-543 | an entry is refused where its name does not start, where its colon is missing, or where its value is refused |
| JsonPrinter.IntegersFit | lib_src/info/cJSON.c:157-162 | no 32-bit integer needs more than 11 of the 21 characters allocated |
| JsonLaws.CharWritten | lib_src/info/cJSON.c:252-306 | a character with a letter in the table is printed as a backslash and that letter, a quote and a backslash behind one, any other control character as four hexadecimal digits, and everything else as itself |
| JsonLaws.QuoteJoins | lib_src/info/cJSON.c:252-307 | a printed string is its printed characters one after the other, between quotes |
| JsonLaws.DecimalWritten | lib_src/info/cJSON.c:147-163 | a printed integer is its sign and decimal digits that weigh what it is, with no zero in front |
| JsonLaws.WordsWritten | lib_src/info/cJSON.c:372-403 | what is printed of the words, and of an object without members with the tabs of its depth less one |
| JsonLaws.ArrayWritten | lib_src/info/cJSON.c:434-511 | a printed array is its printed items with a comma between each two, and a space behind it when formatted |
| JsonLaws.ObjectWritten | lib_src/info/cJSON.c:550-658 | a printed object is its members with a comma between each two; formatted, each on a line of its own with a tab for each level, the name, a colon and a tab in front |
| JsonPrinter.PrintString | lib_src/info/cJSON.c:252-307 | exactly as long as measured, the string is quoted with its escapes, or copied when it has none |
| JsonPrinter.PrintArray | lib_src/info/cJSON.c:434-511 | the length added up suffices, and the memory holds the elements between brackets |
| JsonPrinter.PrintObject | lib_src/info/cJSON.c:550-658 | the length added up suffices, and the memory holds the members, formatted or not |
| JsonPrinter.PrintValue | lib_src/info/cJSON.c:372-403 | fresh memory holds the text of the value |
| JsonPow2.Pow2GtIsLeast | lib_src/info/cJSON.c:117-117 | up to 2^30 the result is the least power of two that is not less |
| JsonBuffer.PrintBuffer.Ensure | lib_src/info/cJSON.c:121-136 | there is room for what is needed, what was written stays, and a new buffer has a power of two as its size |
| JsonBuffer.PrintBuffer.Update | lib_src/info/cJSON.c:138-144 | the offset of the terminator |
| JsonBuffer.PrintBuffer.PrintValue | lib_src/info/cJSON.c:372-403 | behind what the buffer holds already comes exactly the text of the value |
| JsonBuffer.PrintBuffer.PrintArray | lib_src/info/cJSON.c:453-468 | the same for an array |
| JsonBuffer.PrintBuffer.PrintObject | lib_src/info/cJSON.c:570-607 | the same for an object |
| JsonBuffer.PrintBuffered | lib_src/info/cJSON.c:345-353 | whatever the first size, the text of the allocating printer |
| JsonMinify.MinifyInPlace | lib_src/info/cJSON.c:737-752 | reading never falls behind writing, and the memory ends up holding the minified text |
| JsonLaws.OneMinified | lib_src/info/cJSON.c:743-750 | space, tab, carriage return and newline are dropped; any other character that starts neither string nor comment is kept |
| JsonLaws.LineDropped | lib_src/info/cJSON.c:747-747 | a comment of two slashes goes with its line, be that the last |
| JsonLaws.CommentDropped | lib_src/info/cJSON.c:748-748 | a comment of slash and star goes with the first star that has a slash behind it, which may be the one that opens it |
| JsonLaws.StringKept | lib_src/info/cJSON.c:749-749 | a string is kept as it is, blanks, slashes and escapes in it too |
| JsonMinified.PrintMinified | lib_src/info/cJSON.c:640-655 | in front of any text, minifying turns the formatted text of a value into its unformatted text |
| JsonMinified.MinifiedIsUnformatted | lib_src/info/cJSON.c:342-343 | minifying what the formatted printer gives is what the unformatted printer gives |
| JsonMeaning.ValueKept | lib_src/info/cJSON.c:737-752 | a value at the front of any text parses the same after minifying, with the minified rest left over |
| JsonMeaning.MinifyKeepsMeaning | lib_src/info/cJSON.c:737-752 | every text that parses as a whole parses to the same value after minifying |
| LiveCache.MaskAligns | src/main/yms_comm.h:17-20 | the mask rounds an offset down to a multiple of the block size |
| LiveCache.Recorder.Search | lib_src/util/rns_fmgr.c:159-174 | the file with the greatest name not greater than the offset |
| LiveCache.Recorder.Add | lib_src/util/rns_fmgr.c:87-146 | an emptied file of that name, entered into the index unless a call fails |
| LiveCache.Recorder.Record | src/main/yms_live.c:12-41 | a block reported as written is in a file; no other file loses anything; on a reliable run the files go on tiling the recording in files of the size set |
| LiveCache.NextFile | src/main/yms_live.c:12-41 | appended to the last file while that is no longer than the size set, or put into a file of its own when it is, a block at the end keeps the files a tiling in which all but the last are longer than that size and none is longer than it by more than a block |
| LiveChannel.Channel.FileLengths | src/main/yms_live.c:17-17 | so on a reliable run, with size and block together below 2^31, every file but the last is longer than the size set and none longer than it by more than a block |
| LiveChannel.RecordKeeps | src/main/yms_live.c:58-67 | writing out the last block, and emptying a file for it, loses no other block |
| LiveChannel.Channel.RecordLast | src/main/yms_live.c:58-67 | the full last block is saved or stays resident, and nothing is lost |
| LiveChannel.Channel.NewBlock | src/main/yms_live.c:69-111 | a buffer from the pool, or that of the first block on disk, and of no other; nothing is lost |
| LiveChannel.Channel.FreshBlock | src/main/yms_live.c:95-110 | a buffer of the pool is taken, and stays taken when the record of the block cannot be allocated |
| LiveChannel.Channel.ResidentExactly | src/main/yms_live.c:58-111 | on a reliable run the resident blocks are exactly the last ones of the stream, as many as the pool gives out |
| LiveChannel.Channel.GopWrite | src/main/yms_live.c:43-130 | the stream grows by the bytes accepted, all of them on a reliable run; resident blocks hold what the stream holds; files tile it |
| LiveChannel.Channel.EveryByteIsKept | src/main/yms_live.c:43-130 | every accepted byte is in the resident block it belongs to or in a file |
| LiveChannel.Channel.AttachBuffer | src/main/yms_live.c:959-983 | with its blocks resident, it ends and attaches slices of them that cover the GOP piece by piece, but for those whose attaching fails, of which a reliable run has none |
| LiveChannel.Channel.SliceReads | src/main/yms_live.c:959-983 | whenever it is sent, a slice reads as the stream at the key of its block, which is its own place exactly while its stretch is resident |
| LiveChannel.Channel.ReadsStretch | src/main/yms_live.c:959-983 | while all blocks are resident, what is attached of a stretch reads as exactly its bytes |
| LiveChannel.Channel.OutOfReach | src/main/yms_live.c:86-91 | on a reliable run a block is still at the place attached exactly while that is within the reach of the pool |
| LiveChannel.Channel.SentLater | src/main/yms_live.c:959-983 | on a reliable run, what was attached of a stretch and is sent later, within reach then, is the stretch as it was |
| LiveChannel.SentTooLate | src/main/yms_live.c:86-91 | a run on which a byte attached as 0 is sent as 1 |
| LiveChannel.TakenAll | src/main/yms_live.c:974-980 | all pieces are attached exactly when the lengths attached sum to all |
| LiveGops.Live.StartGop | src/main/yms_live.c:359-395 | a GOP starts where the last one ends, with the tables in front, at the clock of its key frame; the one before it is as long as from its clock to that one |
| LiveGops.Live.RecvPackets | src/main/yms_live.c:322-404 | GOPs tile the stream and are numbered in order; on a reliable run the stream grows by what the packets make, and there is a GOP for each key frame, starting at its clock |
| LiveGops.KeyClocksExactly | src/main/yms_live.c:359-374 | the clocks at which GOPs start are those of the key frames of the packets, in order, divided by 90000 |
| LiveGops.SumByClocks | src/main/yms_live.c:374-376 | GOPs that others follow last from the clock of the first to that of the one after them, and a second more for each that takes no time |
| LiveGops.SegmentByClocks | src/main/yms_live.c:231-247 | a published segment that a GOP follows lasts from the key frame that starts its group to the one that starts the next |
| LiveGops.StreamBeforeKeyFrame | src/main/yms_live.c:396-399 | before the first key frame nothing is written |
| LiveGops.StreamOfKeyFrame | src/main/yms_live.c:359-395 | a key frame is written behind the last tables that came, and with it |
| LiveGops.Live.GopAlign | src/main/yms_live.c:265-299 | the last GOP of a whole group, unless there are too few before it |
| LiveGops.Live.M3u8Create | src/main/yms_live.c:211-263 | segment i is named by its group, media sequence + i, with the durations of that group; exactly when there is a GOP before them |
| LiveGops.Live.Build | src/main/yms_live.c:408-424 | a playlist of the last whole groups is built exactly when there are more groups than segments |
| LiveGops.Live.RecvTs | src/main/yms_live.c:310-437 | GOPs are added behind the stream with the clocks of the key frames, the stream only grows, and the playlist published is one that was built of what there was then |
| LiveGops.NamedIsServed | src/main/yms_live.c:1007-1076 | segment i names fragment media sequence + i (section 4.3.3.2 of RFC 8216); the answer to a request for it, as it is at any later request, is the stretch of the stream from the start of the GOPs summed into it, with its length in front; the same stretch and durations for good unless it is the last segment and no GOP came after it |
| LiveGops.Live.PublishedIsServed | src/main/yms_live.c:408-431 | so it is, in every state, for the playlist that is published |
| LiveGops.FinalExactly | src/main/yms_live.c:1007-1042 | the answer for a complete group can no longer change exactly when a GOP comes after it |
| LiveGops.ContinuedChanges | src/main/yms_live.c:396-399 | any packet without table or key frame changes the answer for a group that no GOP comes after |
| LiveGops.Live.DeliverPlain | src/main/yms_live.c:322-404 | receiving such a packet on a reliable run is that change |
| LiveGops.LastSegment | src/main/yms_live.c:231-247 | the last segment can change exactly when the GOPs fill whole groups, and then its last GOP counts for a second |
| LiveGops.Live.GroupResidentExactly | src/main/yms_live.c:959-983 | on a reliable run a group is servable exactly when it starts within the reach of the pool |
| LiveGops.Live.ServeFragment | src/main/yms_live.c:1007-1076 | the pieces to attach read, at the request, as the stretch of the stream under the group, and its length is in front; an answer exactly when no GOP is missing |
| LiveGops.Live.LengthMet | src/main/yms_live.c:1027-1058 | what is attached is as long as the length in front exactly when attaching never failed |
| LivePoll.StrCompare | src/main/yms_live.c:439-456 | zero exactly for equal texts |
| LivePoll.ComesFirst | src/main/yms_live.c:439-456 | the shorter text comes first; of equally long ones the first character in which they differ decides |
| LivePoll.BeforeIsOrder | src/main/yms_live.c:439-456 | the order is strict and total |
| LivePoll.NewsInOrder | src/main/yms_live.c:535-555 | what a poll queues is increasing and comes after all that was known, and nothing in the poll comes after its last |
| LivePoll.NewsExactly | src/main/yms_live.c:535-555 | a poll queues exactly the segments that come after what was known and after all in front of them |
| LivePoll.NewsOfIncreasing | src/main/yms_live.c:535-555 | of a playlist in order, exactly everything after what was known |
| LivePoll.Poller.CopyId | src/main/yms_live.c:530-544 | copied without a terminator, the text ends where it should, since it never gets shorter |
| LivePoll.Poller.Poll | src/main/yms_live.c:516-580 | all that was ever queued is what the run of polls queues, and grows by exactly the news |
| LivePoll.Poller.Request | src/main/yms_live.c:458-514 | fragments are taken in the order in which they were queued |
| LivePoll.RunIsOnePoll | src/main/yms_live.c:530-555 | a run of polls queues what one poll of all their segments in a row would |
| LivePoll.QueuedExactly | src/main/yms_live.c:530-555 | over any run, exactly the segments that come after the skipped one and after all named before them |
| LivePoll.QueuedOnce | src/main/yms_live.c:530-555 | over any run nothing is queued twice, and all in order |
| LivePoll.FirstNeverQueued | src/main/yms_live.c:530-533 | the first segment of the first poll is queued by no poll |
| ListHead.List.Add | lib_src/util/list_head.h:28-31 | the link comes last |
| ListHead.List.AddFirst | lib_src/util/list_head.h:34-37 | the link comes first |
| ListHead.List.Delete | lib_src/util/list_head.h:41-52 | exactly the entry leaves, and is free afterwards |
| ListHead.List.DeleteSafe | lib_src/util/list_head.h:54-62 | a link in no list is left alone |
| ListHead.List.AddSafe | lib_src/util/list_head.h:64-68 | the link comes last, from wherever it was |
| ListHead.List.Next | lib_src/util/list_head.h:106-107 | the item after it, or none |
| ListHead.List.Prev | lib_src/util/list_head.h:103-104 | the item before it, or none |
| ListHead.List.Drain | lib_src/util/list_head.h:90-92 | walking while unlinking visits every item once, in order |
| Mpool.SoundExactly | lib_src/util/rns_mpool.c:6-36 | for every region accepted, header, links and blocks keep apart and fill it exactly when the blocks set aside for the header are among those of the region and would hold all links with a link's room more each |
| Mpool.SoundExactlyWhenHeaderFits | lib_src/util/rns_mpool.c:6-36 | when the size of a header with all links does not wrap in 32 bits, exactly when that header fits |
| Mpool.HeaderWrapsOnlyForSmallBlocks | lib_src/util/rns_mpool.c:19-19 | it never wraps for blocks of more than 16 bytes |
| Mpool.WrappedHeaderCanBeSound | lib_src/util/rns_mpool.c:19-33 | a region whose header size wraps and that is sound although a header with all links does not fit |
| Mpool.SmallBlocksOverrun | lib_src/util/rns_mpool.c:8-11 | a region that is accepted although they do not |
| Mpool.PartsApart | lib_src/util/rns_mpool.c:19-43 | no two links, no two blocks, and no link and block share a byte |
| Mpool.IndexOfBlock | lib_src/util/rns_mpool.c:55-68 | the index computations of allocating and freeing undo the address computations |
| Mpool.Init | lib_src/util/rns_mpool.c:6-46 | refused exactly under the four conditions on the region; else all blocks are free, in order, and the pool is valid when the layout is sound |
| Mpool.Pool.Alloc | lib_src/util/rns_mpool.c:48-60 | nothing exactly when at most one block is free, else the block freed last |
| Mpool.Pool.Free | lib_src/util/rns_mpool.c:62-71 | the block is the next to be handed out |
| Mpool.Pool.Partition | lib_src/util/rns_mpool.c:48-71 | every block is live or free and never both, and live blocks share no byte |
| MysqlQuery.SuspensionDoesNotMatter | lib_src/db/rns_mysql.c:403-483 | all completing schedules show the same callbacks exactly when the server does not refuse the query |
| MysqlQuery.WorksInOrder | lib_src/db/rns_mysql.c:444-468 | one row callback a row, in the order of the rows |
| MysqlQuery.CallbacksExactly | lib_src/db/rns_mysql.c:403-483 | under any schedule, exactly which callbacks a refusal of either sign, a query without a result and one with rows show, by the calls that have completed |
| MysqlQuery.EndsWhere | lib_src/db/rns_mysql.c:403-483 | which query is dropped with -1, where a query that is through leaves the connection, and how many rows it counts |
| MysqlQuery.Mysql.Query | lib_src/db/rns_mysql.c:403-442 | runs to the next suspension or the end; the code is -1 exactly for a query refused at once with a negative code |
| MysqlQuery.Mysql.Resume | lib_src/db/rns_mysql.c:21-55 | the state leads to the call that is due |
| MysqlQuery.Mysql.FetchRows | lib_src/db/rns_mysql.c:444-468 | rows are reported one by one until a suspension or the end |
| MysqlQuery.Mysql.Run | lib_src/db/rns_mysql.c:152-217 | under any schedule, callbacks, row count and state depend only on how many calls complete |
| FanOut.EveryRun | src/trs/event.c:2245-2567 | over every interleaving there is at most one answer, there exactly when all queries have ended and none could not be started; no connection is lost |
| FanOut.AnswerCarriesEveryRow | src/trs/event.c:2284-2325 | the last query to end brings the answer: every row delivered, once and in order, if it is a leaf that succeeds, and an error otherwise |
| FanOut.StepOpens | src/trs/event.c:2327-2466 | a row that parses and whose start succeeds opens exactly one query of the next level, on the connection idle for longest; an end or a failure closes exactly its own |
| FanOut.InFlightExactly | src/trs/event.c:2245-2567 | over every run, the queries in flight at a level are those asked for there, less those that ended or failed there |
| FanOut.FirstQuery | src/trs/event.c:2494-2567 | the first query starts on the connection idle for longest, or the request is refused |
| FanOut.NothingAfterTheAnswer | src/trs/event.c:1812-1833 | once answered, nothing of the request happens any more |
| FanOut.AnsweredExactly | src/trs/event.c:2245-2567 | there is an answer exactly when all queries have ended and every start asked for, with a connection there, succeeded |
| FanOut.FailedStartHangs | src/trs/event.c:2373-2380 | after a nested query that cannot be started no answer comes, whatever follows |
| FanOut.HangsWithoutQueries | src/trs/event.c:2453-2460 | a run of two events that ends with no query in flight and no answer |
| FanOut.DbPool.Get | lib_src/db/rns_dbpool.c:138-148 | the connection idle for longest, or none |
| FanOut.DbPool.Free | lib_src/db/rns_dbpool.c:150-162 | the connection joins the end of the idle ones |
| FanOut.Server.PhoneMarkGet | src/trs/event.c:2494-2567 | the counter starts with one query, or the request is refused |
| FanOut.Server.StbGet | src/trs/event.c:2415-2466 | a row of the first level starts a query of the second, on the counter that only counts |
| FanOut.Server.PhoneGet | src/trs/event.c:2327-2385 | a row of the second level starts a query of the third |
| FanOut.Server.PhoneMarkGetWork | src/trs/event.c:2245-2281 | a row of the last level joins the result |
| FanOut.Server.GetDone | src/trs/event.c:2388-2413 | the counter at zero is the end of the last query |
| FanOut.Server.PhoneMarkGetDone | src/trs/event.c:2284-2325 | the same for a leaf, with all rows as the answer |
| FanOut.Server.ThirdError | src/trs/event.c:1812-1833 | the same for a failure |
| FanOut.Server.Serve | src/trs/event.c:2245-2567 | a whole request under any interleaving, without touching the context after it is destroyed |

## Left out

- RbtWalk.Delete: only for a node of the tree; `rbt_delete` erases whatever node it is given, and with one of no tree the root pointer is lost.
- Strings as tree keys (`rbt_insert_str`, `rbt_search_str` and their floor and ceiling variants): the same loops over another order.
- Augmented trees: the callbacks that the plain tree passes do nothing.
- Timers.Epoll.TimerAdd: deadlines are unbounded naturals, the wrap of a 64-bit clock is not modelled; an id that is an address in use stands for a failed allocation.
- Timers.Epoll.RunExpired: callbacks are given by the timer calls they make; waiting and the dispatch of descriptors are not modelled.
- JSON values are values: the `prev` and `next` pointers of a cJSON child list, references and the functions that edit values are not modelled.
- JsonPrinter.PrintNumber: only for numbers that are 32-bit integers; other numbers rest on the C library's formatting.
- JsonParser.ParseNumberText: numbers are exact, rounding of doubles and overflow of the exponent are not modelled.
- JsonParser.ParseValueText: requires well-formed escapes in all string literals, as the strings do.
- JsonParser.ParseArrayText: the same.
- JsonParser.ParseObjectText: the same.
- JsonParser.ParseWithOpts: the same.
- JsonGrammar.QuotedRead: unpaired surrogates and an escaped zero are not among the characters of its strings; what becomes of them `JsonStrings.DecodesUtf16` says.
- JsonStrings.ParseText: requires well-formed escapes; on others the source reads and writes past the end.
- JsonMinify.MinifyInPlace: requires that comments and literals end before the text does, for the same reason.
- Allocation failures in the JSON code, whose paths free and give up.
- LiveChannel.Channel.GopWrite: the tree of blocks is its in-order sequence and the pool a count of free blocks; the tree and the pool are verified by themselves.
- LiveCache.Recorder.Record: a file is its content under the offset that names it; directories, descriptors and the index file's own bytes are not modelled, nor a restart over old files.
- LiveChannel.Channel.AttachBuffer: requires the blocks to be resident; without them the source waits for ever. When the transport sends which part of a slice is left open.
- LiveGops.Live.RecvPackets: what a packet is (`is_pat`, `is_pid`, `is_idr`) and its clock are given with it; the GOP index file and 32-bit wrap of GOP numbers are not modelled.
- LiveGops.Live.M3u8Create: a segment carries its fragment number instead of the formatted name, and the playlist its segments instead of text; a playlist of no segments is not modelled.
- LivePoll.Poller.Poll: requires a playlist with a segment, names shorter than the buffer, and allocations that succeed.
- Mpool.Pool.Free: the zeroing of a freed block's bytes is not modelled.
- Mpool.Init: links and blocks are apart in the model even when the layout is not sound; what the source then overwrites is not modelled.
- MysqlQuery.Mysql.Run: connecting and reconnecting are not modelled, nor a callback that starts another query on its own connection.
- FanOut.Server.StbGet: a search that starts and at once runs to its end is the same as its events coming next; the 32-bit wrap of a counter raised by failed starts is not modelled.
- The set-top-box variants of the fan-out, which answer differently.
- HTTP, sockets, logging, ffmpeg, transport-stream and FLV parsing, locks and thread pools, XML and SQL building, configuration.
