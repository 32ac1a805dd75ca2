# Verification of the autopatcher, RPC3 and Lobby2 cores

This project models three parts of the MafiaNet networking library in Dafny 4.11 and proves what
they are for. `dafny verify dfyconfig.toml` checks everything.

**The binary differ and patcher.** `CreatePatch.cpp` sorts the suffixes of an old file in place
(`SuffixSort`, `QSufSort`), searches them for matches (`Matching`), scans the new file for triples
(`Extensions`, `Differ`) and packs three compressed sections behind a 32-byte header (`OffT`,
`PatchFormat`). `ApplyPatch.cpp` interprets such a patch (`Patcher`). The arrays `I`, `V`, the
buckets, `db`, `eb` and the output are Dafny arrays that the methods overwrite. The end result is
`Differ.CreatePatch`: the patch is the packed form of triples that come from the scan over the suffix
array of the old file and describe the new one; applying it gives the new file back whenever that has
at most 585677102 bytes. For all files below 2^60 bytes a patch is written exactly when its size fits
the 32-bit counters of the compressor, which is given no more of a block than 32 bits can say, and a
written patch is applied back exactly when the decompressed sections fit the 32-bit counters of
`ApplyPatch`. Where these wrap, `Differ.Attempt` and `Patcher.Outcome` are Undefined by definition.
The sort is correct for every file (`QSufSort.QSufSort`).

**RPC3.** `TagRing` is the ring of pointer tags, proved to be a finite map. `BitBuffers` is the bit
stream on its array of bytes: the loops of `WriteBits` and `ReadBits` with their shifts and masks, for
any cursor and any number of bits. `BitStreams`, `BitCodes` and `BitLists` are the same stream seen as
bits, with its two cursors and its compressed numbers; `BitRefinement` proves the two alike over any
calls. `ParamFraming` says which bits a parameter list is and what a receiver makes of them, and
proves that the receiver always ends where the sender did, whichever of the objects it knows;
`ParamIO` has the writers, with the length that is put in afterwards, and the readers. `Signals` has
slot registration and dispatch on top of `OrderedList`, the library's binary search.

**Server state machines.** `Admission` is the autopatcher's list of users: a state machine whose
steps are those of the plugin thread, the workers and the file transfer, in any order. `CachedReply`
is the decision between cache and database. `Lobby` is the sorted user table under logins, logoffs
and closed connections. `Lists` has the two ways of removing from a list.

Foreign code and the surroundings are parameters: the block compressor and its inverse
(`Differ.IsCodec`), the stream operators of the parameter types (`ParamFraming.Matches`, which
`Codecs` shows of bytes and of aligned byte arrays), and what callbacks do during a dispatch
(`Signals.World`). One decompressor runs through the three sections of a patch, so what a section
gives may depend on those before it (`Patcher.Codec`). `off_t` is a 64-bit signed number
(`OffT.Offset`), bytes wrap at 256, and cursors and counters of the patcher that do not fit their
width are Undefined.

Six things the code does that its comments do not say are stated as results. The search for a
match is a longest one exactly when no comparison on its way is cut short by the end of the old file
(`Matching.SearchMayFallShort`, `Matching.SearchIsLongestExactly`). The limit on concurrent users
holds exactly as long as the cache does not answer while it is reached
(`Admission.CacheIgnoresTheLimit`, `Admission.WithinUnlessOversent`). A connection that closes while a
worker or a transfer is busy for it frees a place before that work has ended
(`Admission.ClosingFreesAPlaceEarly`, `Admission.ExactWhilePatient`); from then on the limit need not
bound the work, and from an idle plugin it does so, however things go on without cached answers and
further places given up, exactly when no client has less places than work
(`Admission.WorkLimitedExactly`). After 2^32 registrations a slot can be lost or come out of order
(`Signals.LostAfterAllCounts`, `Signals.WrappedRegistrationFirst`). In the lobby a closed connection
leaves its GUID behind, so that a later login with it under a new name is refused
(`Lobby.StaleGuidRefused`, and from an empty table `Lobby.StaleGuidRun`). A byte array written with a
limit of zero is read back at another cursor unless no alignment was needed (`Codecs.ZeroLimit`).

## Model

| member | source | states |
|---|---|---|
| Lexicographic.HeadDecides | DependentExtensions/Autopatcher/CreatePatch.cpp:97-156 | the order of the suffixes by their first bytes: the empty one is least, the smaller first byte decides, and behind equal ones what follows |
| SuffixOrder.Joined | DependentExtensions/Autopatcher/CreatePatch.cpp:177 | suffixes that share h bytes and whose suffixes h further on share g bytes share h + g: why the step h may double |
| SuffixOrder.DecidedAfter | DependentExtensions/Autopatcher/CreatePatch.cpp:97-156 | of two suffixes that share h bytes one comes first exactly if its suffix h further on does, provided that both go on that far |
| SuffixOrder.SuffixArrayUnique | DependentExtensions/Autopatcher/CreatePatch.cpp:158-195 | the suffix array is determined by the file, so what the sort gives does not depend on how groups are arranged |
| SuffixSort.RankGroup | DependentExtensions/Autopatcher/CreatePatch.cpp:114-115 | giving the front of a group its last index as rank, in place, keeps ranks in true suffix order and equal ranks alike |
| SuffixSort.SelectLeast | DependentExtensions/Autopatcher/CreatePatch.cpp:103-113 | the selection moves exactly the suffixes with the least key to the front |
| SuffixSort.SplitShort | DependentExtensions/Autopatcher/CreatePatch.cpp:101-118 | short groups: every read is in range, the group becomes sorted into groups that share 2h bytes, singles are marked, nothing else changes |
| SuffixSort.PlaceLow | DependentExtensions/Autopatcher/CreatePatch.cpp:128-139 | the first swap loop ends, stays inside the group and leaves only smaller keys in front of jj |
| SuffixSort.PlaceMiddle | DependentExtensions/Autopatcher/CreatePatch.cpp:141-148 | the second swap loop ends, stays inside the group and leaves only equal keys between jj and kk |
| SuffixSort.Partition | DependentExtensions/Autopatcher/CreatePatch.cpp:120-148 | the counted partition permutes the group into keys smaller than, equal to and greater than x, which is the key of its middle element |
| SuffixSort.KeysDecide | DependentExtensions/Autopatcher/CreatePatch.cpp:97-156 | within a group a smaller key means a smaller suffix, and equal keys at least 2h shared bytes |
| SuffixSort.Split | DependentExtensions/Autopatcher/CreatePatch.cpp:97-156 | every group is sorted into groups that share 2h bytes while V is read and overwritten; it terminates and changes nothing outside |
| QSufSort.CountsToEnds | DependentExtensions/Autopatcher/CreatePatch.cpp:166 | the counts become, for every byte value, the number of bytes up to it |
| QSufSort.PlaceByFirstByte | DependentExtensions/Autopatcher/CreatePatch.cpp:170-171 | every suffix lands in the slot that its first byte and its position give it, and the buckets end at the last slots |
| QSufSort.MarkSingles | DependentExtensions/Autopatcher/CreatePatch.cpp:174-175 | only groups of one are marked, so that markers and groups tile the array; a single zero byte may stay unmarked |
| QSufSort.BucketStart | DependentExtensions/Autopatcher/CreatePatch.cpp:164-175 | before the first pass the suffixes are ranked by their first byte, and markers and groups tile the array |
| QSufSort.Pass | DependentExtensions/Autopatcher/CreatePatch.cpp:178-191 | a pass over runs and groups doubles the shared prefix, keeps the tiling, and merges all runs when only runs are left |
| QSufSort.LongStepsLeaveRuns | DependentExtensions/Autopatcher/CreatePatch.cpp:177 | once h exceeds the file size only runs are left, so one merging pass ends the loop |
| QSufSort.QSufSort | DependentExtensions/Autopatcher/CreatePatch.cpp:158-195 | for every file the sort ends with I its suffix array in strict lexicographic order, and V the inverse |
| Matching.MatchLen | DependentExtensions/Autopatcher/CreatePatch.cpp:197-205 | the length of the longest common prefix of two stretches |
| Matching.Search | DependentExtensions/Autopatcher/CreatePatch.cpp:207-231 | for any I in range: a genuine match at a suffix position in the searched range that cannot be extended there |
| Matching.FoundAtEnds | DependentExtensions/Autopatcher/CreatePatch.cpp:212-223 | at the end of the halving the longer of two matches is taken, and the upper one when they are equally long |
| Matching.SearchIsLongestExactly | DependentExtensions/Autopatcher/CreatePatch.cpp:207-231 | with a sorted I no position matches longer if and only if no comparison on the path of the halving is cut short by the end of the file while a longer match exists |
| Matching.SearchIsLongest | DependentExtensions/Autopatcher/CreatePatch.cpp:207-231 | so none does when no suffix of the old file is a proper prefix of what is searched |
| Matching.SearchMayFallShort | DependentExtensions/Autopatcher/CreatePatch.cpp:226-230 | a concrete search that returns length 1 although length 2 exists |
| OffT.OffTOut | DependentExtensions/Autopatcher/CreatePatch.cpp:233-261 | writes the eight bytes of a number and no others |
| OffT.OffTIn | DependentExtensions/Autopatcher/ApplyPatch.cpp:88-104 | the number that eight bytes stand for |
| OffT.DecodeMeans | DependentExtensions/Autopatcher/ApplyPatch.cpp:88-104 | which number that is: little-endian in 63 bits, with the top bit for the sign |
| OffT.DecodeEncode | DependentExtensions/Autopatcher/ApplyPatch.cpp:88-104 | reading undoes writing for every number of absolute value below 2^63 |
| OffT.EncodeDecode | DependentExtensions/Autopatcher/CreatePatch.cpp:233-261 | writing undoes reading for every eight bytes but the negative zero, and only for those |
| Extensions.ForwardExtent | DependentExtensions/Autopatcher/CreatePatch.cpp:390-395 | of all lengths that end before scan and before the end of the old file, the shortest that maximises twice the matches less the length |
| Extensions.BackwardExtent | DependentExtensions/Autopatcher/CreatePatch.cpp:397-404 | of all lengths that start behind lastscan and in the old file, the shortest that maximises twice the matches less the length |
| Extensions.CutOverlap | DependentExtensions/Autopatcher/CreatePatch.cpp:406-415 | the smallest cut of an overlap that maximises the matches kept on both sides |
| Extensions.SameCounts | DependentExtensions/Autopatcher/CreatePatch.cpp:392 | the matches of an extension are the number of places where the two files are equal |
| Extensions.SameBackCounts | DependentExtensions/Autopatcher/CreatePatch.cpp:401 | and so backwards from the next match |
| PatchFormat.Conserved | DependentExtensions/Autopatcher/CreatePatch.cpp:426-427 | difference and extra bytes together always make up what is covered of the new file |
| PatchFormat.DescribesMore | DependentExtensions/Autopatcher/CreatePatch.cpp:421-467 | one more triple that produces its stretch extends a description of the new file |
| Differ.ExtendScore | DependentExtensions/Autopatcher/CreatePatch.cpp:376-379 | the score becomes the number of bytes up to the furthest match that agree at the last offset |
| Differ.FindNext | DependentExtensions/Autopatcher/CreatePatch.cpp:372-387 | the inner scan ends at the first place where the match equals or clearly beats the score, where it is not empty, or at the end |
| Differ.StopsExactly | DependentExtensions/Autopatcher/CreatePatch.cpp:372-387 | where that is, from the matches alone: with n bytes up to the furthest match end that the last distance gives anyway, a match that is not empty has n bytes, or it has more than eight more |
| Differ.Divide | DependentExtensions/Autopatcher/CreatePatch.cpp:390-419 | the stretch between two matches is divided into best extensions over all lengths there is room for, cut where they overlap, within all bounds |
| Differ.WriteDiff | DependentExtensions/Autopatcher/CreatePatch.cpp:421-422 | difference bytes that give the new bytes back when the old ones are added modulo 256 |
| Differ.Emit | DependentExtensions/Autopatcher/CreatePatch.cpp:389-467 | an emission covers exactly the new bytes up to the match, and describes them |
| Differ.Turn | DependentExtensions/Autopatcher/CreatePatch.cpp:369-469 | one turn of the outer loop advances the scan and keeps description and trace; the trace fixes scan, length and position also for the turn that reaches the end |
| Differ.TurnExactly | DependentExtensions/Autopatcher/CreatePatch.cpp:369-469 | the last turn of a trace in the fields of those before: it starts behind the match before, compares at the distance of the last turn that emitted, and emits exactly if the match is not what that distance gives or the file ends; its triple ends where the backward extension begins |
| Differ.Scan | DependentExtensions/Autopatcher/CreatePatch.cpp:367-469 | the loop terminates, its triples describe the whole new file, conserve its length, and are at most one per nine bytes plus one |
| Differ.WriteHeader | DependentExtensions/Autopatcher/CreatePatch.cpp:350-353 | magic and three sizes, written into the header in place |
| Differ.PackBlocks | DependentExtensions/Autopatcher/CreatePatch.cpp:478-556 | the header holds the sizes of the first two compressed sections, which follow it in order; the compressor is given block lengths modulo 2^32, and where the size of the patch does not fit 32 bits nothing is claimed |
| Differ.CreatePatch | DependentExtensions/Autopatcher/CreatePatch.cpp:308-556 | for all files below 2^60 bytes the patch packs triples that trace the scan over the suffix array and describe the new file; it is written exactly if its size fits 32 bits, applied back exactly if the decompressed sections do too, and always up to 585677102 bytes |
| Differ.PatchFits | DependentExtensions/Autopatcher/CreatePatch.cpp:480-556 | from the length of the new file alone: up to 585677102 bytes nothing is cut off and the sizes fit 32 bits; up to 130150144 bytes twice the patch, and four times the patch with the decompressed sections, do so as well |
| Differ.WrittenApplies | DependentExtensions/Autopatcher/CreatePatch.cpp:480-556 | a written patch is applied back exactly if the decompressed sections fit 32 bits, which a block that was cut off never does |
| Patcher.ReplayInPlace | DependentExtensions/Autopatcher/ApplyPatch.cpp:213-271 | the interpreter loop over the output buffer computes the replay of the triples, with its rejections |
| Patcher.ApplyPatch | DependentExtensions/Autopatcher/ApplyPatch.cpp:109-271 | header checks, section boundaries, decompression in one session and loop together are the function Apply on every byte string, Undefined where a counter wraps or a buffer is left |
| Patcher.Refused | DependentExtensions/Autopatcher/ApplyPatch.cpp:156-166 | a file whose first eight bytes do not spell BSDIFF40 is turned down, and one whose header gives a section a negative length |
| Patcher.HeaderTaken | DependentExtensions/Autopatcher/ApplyPatch.cpp:166-213 | any other header with room for its sections leads to them: the file is turned down if one does not decompress, and otherwise replayed from its first triple |
| Patcher.TurnBuilds | DependentExtensions/Autopatcher/ApplyPatch.cpp:229-268 | a triple appends difference bytes, each with the old byte at its place added modulo 256 if there is one, and extra bytes, and moves the three cursors and the old position |
| Patcher.TurnTooLong | DependentExtensions/Autopatcher/ApplyPatch.cpp:232-254 | a triple that would make the file longer than its size is turned down |
| Patcher.ReadHeader | DependentExtensions/Autopatcher/ApplyPatch.cpp:161-203 | the section boundaries that are read are those that were written |
| Patcher.ReplayWhole | DependentExtensions/Autopatcher/ApplyPatch.cpp:215-271 | replaying triples that describe a file gives that file |
| Patcher.RoundTrip | DependentExtensions/Autopatcher/ApplyPatch.cpp:156-271 | a packed description is applied back to its file exactly when patch and sections fit 32-bit counters |
| TagRing.MarksCommute | DependentExtensions/RPC3/RPC3_Boost.h:172-184 | Deref and PtrToArray on one pointer give the same tag in either order |
| TagRing.AddedMeaning | DependentExtensions/RPC3/RPC3_Boost.h:122-143 | adding a tag updates the map at that pointer only, keeps live pointers distinct, and fails exactly when the ring is full |
| TagRing.AddedNull | DependentExtensions/RPC3/RPC3_Boost.h:122-143 | tagging the null pointer leaves the map alone, but on an empty ring leaves a dead tail |
| TagRing.ClearedMeaning | DependentExtensions/RPC3/RPC3_Boost.h:144-170 | clearing returns the pointer's tag, or one without flags and count 1, and removes it from the map |
| TagRing.ClearedSays | DependentExtensions/RPC3/RPC3_Boost.h:122-184 | over every run within capacity the tag returned for a pointer, in terms of the calls since it was last cleared: with deref if there was a Deref, an array if there was a PtrToArray, with the count of the last one or 1 |
| TagRing.RingRefinesMap | DependentExtensions/RPC3/RPC3_Boost.h:117-170 | over every run within capacity the ring answers as a finite map does |
| TagRing.FewTagsFit | DependentExtensions/RPC3/RPC3_Boost.h:117-143 | a run is within capacity if it passes no null pointer and tags less often than there are free slots |
| TagRing.ClearedOnce | DependentExtensions/RPC3/RPC3_Boost.h:154-170 | a tag is returned once: until it is set again, later clears find nothing |
| TagRing.Ring.AddHead | DependentExtensions/RPC3/RPC3_Boost.h:122-143 | the loop around the ring adds or merges as the window's function says |
| TagRing.Ring.ClearTail | DependentExtensions/RPC3/RPC3_Boost.h:144-153 | exactly the holes at the tail go |
| TagRing.Ring.ClearPtr | DependentExtensions/RPC3/RPC3_Boost.h:154-170 | the found pointer becomes a hole and is returned, for any pointer including null |
| BitCodes.CompressedRoundTrip | Source/src/bit_stream.cpp:624-693 | reading a compressed number, unsigned or signed, gives its bytes back and stops behind it |
| BitCodes.CompressedExactly | Source/src/bit_stream.cpp:492-549 | the code of a number from its bytes: a set bit for each byte above the highest that is not left out, then all bytes up to it, or four or eight bits of the last |
| BitCodes.CountLength | Source/src/bit_stream.cpp:492-549 | a 32-bit count takes 33, 26, 19, 12 or 8 bits, by the lowest of its bytes that is not zero |
| BitCodes.ByteBitAt | Source/src/bit_stream.cpp:429-482 | bytes are written in order, each from its most significant bit on |
| BitStreams.BitStream.WriteCompressed | Source/src/bit_stream.cpp:492-549 | the loop from the last byte down writes the compressed form, leaving out zero bytes or, for signed data, bytes of ones |
| BitStreams.BitStream.ReadCompressed | Source/src/bit_stream.cpp:624-693 | the loop reads what the decoding function says, or fails where the stream ends |
| BitStreams.Padding | Source/include/mafianet/bit_stream.h:609 | fewer than eight bits that lead to a byte boundary |
| BitBuffers.BitBuffer.WriteBits | Source/src/bit_stream.cpp:429-482 | for every cursor, number of bits and alignment of a partial byte: the exact effect on every bit and byte of the buffer, with what or-ing keeps and what spills behind |
| BitBuffers.WroteMeans | Source/src/bit_stream.cpp:429-482 | what that leaves at each bit: what was in front of the cursor, the bits of the input, behind them those of a last byte aligned left, or-ed only into the byte the cursor is inside of |
| BitBuffers.HeldMeans | Source/src/bit_stream.cpp:453-463 | which bits a caller holds: in each byte from the most significant on, and at the low end of a partial byte aligned right |
| BitBuffers.WrittenExactly | Source/src/bit_stream.cpp:455-469 | the bits written are those of the input if and only if no set bit behind the cursor in its byte meets a zero |
| BitBuffers.StaysClear | Source/src/bit_stream.cpp:449-469 | the byte stays clear behind the cursor exactly if no bit spills, which only a partial byte aligned left can do |
| BitBuffers.WriteAppends | Source/src/bit_stream.cpp:429-482 | seen as bits, a write behind which the byte is clear appends the bits of the input |
| BitBuffers.WriteReplaces | Source/src/bit_stream.cpp:436-441 | seen as bits, a write of whole bytes on a byte boundary replaces them and keeps what lies behind |
| BitBuffers.BitBuffer.ReadBits | Source/src/bit_stream.cpp:559-621 | reads exactly the bits at the cursor, each into its place, with all other bits of a partial byte, or fails and changes nothing |
| BitBuffers.BitBuffer.WriteBit | Source/src/bit_stream.cpp:296-320 | writing a 0 or a 1 is writing one bit aligned right |
| BitBuffers.ReadsBack | Source/src/bit_stream.cpp:429-621 | bits written at any cursor are read back as the caller held them, as long as they are still there |
| BitRefinement.CallShown | Source/src/bit_stream.cpp:296-621 | a call on a buffer that shows a stream of bits leaves it showing the stream after that call, with zeros passed over in aligning, and a read gives the bits, bytes and number that the stream reads there |
| BitRefinement.RunShown | Source/src/bit_stream.cpp:296-621 | so over any sequence of writes, reads, alignments and moves of the cursors that the stream allows, the bytes show the bits and every read agrees |
| ParamFraming.RunsKeepTagsOk | DependentExtensions/RPC3/RPC3_Boost.h:115-184 | over every run a tag that is no array counts one, which reader and writer rely on |
| ParamFraming.TagsUsedUp | DependentExtensions/RPC3/RPC3_Boost.h:563-644 | only the first parameter with a pointer is written with its tag |
| ParamFraming.PassableSendable | DependentExtensions/RPC3/RPC3_Boost.h:563-644 | whatever was tagged, what a caller can pass can be written |
| ParamFraming.SizedBodyRead | DependentExtensions/RPC3/RPC3_Boost.h:296-309 | the length in front of a body is what reading the body takes, so skipping equals reading |
| ParamFraming.CopiesRead | DependentExtensions/RPC3/RPC3_Boost.h:282-312 | all copies of an object are read or skipped, and only a known object is changed |
| ParamFraming.ArgRead | DependentExtensions/RPC3/RPC3_Boost.h:258-364 | every kind of parameter is read back as meant, ending where the writer ended |
| ParamFraming.ArgGiven | DependentExtensions/RPC3/RPC3_Boost.h:258-364 | what a receiver is given for one parameter, element by element: for an array pointer as many elements as its tag counts, each the sender's at its place; and which object has changed to which state |
| ParamFraming.ArgsRead | DependentExtensions/RPC3/RPC3_Boost.h:463-511 | a whole list is read back as meant for every table of known objects |
| ParamFraming.ArgsGiven | DependentExtensions/RPC3/RPC3_Boost.h:463-511 | and so for each parameter of a whole list, in terms of what was passed and tagged |
| ParamFraming.FlagsFirst | DependentExtensions/RPC3/RPC3_Boost.h:564-644 | a pointer begins with a bit that says whether it is null, an object then has its deref bit and any pointer its array bit |
| ParamFraming.ItemsInOrder | DependentExtensions/RPC3/RPC3_Boost.h:634-643 | array elements are written behind one another in order |
| ParamFraming.CursorsAgree | DependentExtensions/RPC3/RPC3_Boost.h:258-364 | after each parameter the reader's cursor is the writer's, whichever objects are known |
| ParamFraming.SameObjectsKnown | DependentExtensions/RPC3/RPC3_Boost.h:282-312 | no parameter makes an unknown object known |
| Codecs.TextRead | Source/src/bit_stream.cpp:351-401 | an aligned byte array is read back, cut at the limit, from any cursor, and reading ends where writing did |
| Codecs.ZeroLimit | Source/src/bit_stream.cpp:351-401 | with a limit of zero reading ends elsewhere, unless no alignment was needed |
| Codecs.TextMatches | Source/src/bit_stream.cpp:351-401 | aligned byte arrays are parameters that read back what they write, at every cursor |
| Codecs.ByteMatches | Source/include/mafianet/bit_stream.h:974-975 | so are single bytes |
| ParamIO.WriteSizedBody | DependentExtensions/RPC3/RPC3_Boost.h:588-602 | going back to put the length in gives the length followed by the body, and nothing else changes |
| ParamIO.WriteWithNetworkIDPtr | DependentExtensions/RPC3/RPC3_Boost.h:564-606 | writes the framed object and uses up its tag |
| ParamIO.WriteWithoutNetworkIDPtr | DependentExtensions/RPC3/RPC3_Boost.h:616-644 | writes the framed pointer and uses up its tag |
| ParamIO.WriteArgs | DependentExtensions/RPC3/RPC3_Boost.h:647-657 | all parameters in order, each with the tags the ones before have left |
| ParamIO.ReadWithNetworkIDPtr | DependentExtensions/RPC3/RPC3_Boost.h:259-314 | reads an object parameter as the decoding function says, with cursor and objects |
| ParamIO.ReadWithoutNetworkIDPtr | DependentExtensions/RPC3/RPC3_Boost.h:317-355 | reads any other pointer as the decoding function says |
| ParamIO.ReadAllArgs | DependentExtensions/RPC3/RPC3_Boost.h:463-511 | all parameters in order, as the decoding function says |
| OrderedList.GetIndexFromKey | Source/include/mafianet/ds_ordered_list.h:128-178 | the halving search terminates and finds the key, or the one place that keeps the order |
| OrderedList.HasIffEqual | Source/include/mafianet/ds_ordered_list.h:128-178 | the key is reported exactly when some element compares equal |
| OrderedList.Insert | Source/include/mafianet/ds_ordered_list.h:180-205 | inserts at that place, and not at all beside an equal element |
| Signals.InsertOrdered | DependentExtensions/RPC3/RPC3.h:152-169 | registration keeps the slots in order, with exactly the new one added unless its count is taken |
| Signals.LastOfItsPriority | DependentExtensions/RPC3/RPC3.h:156 | a new slot comes behind all of its priority if and only if its count is above theirs, which a wrapped count is not |
| Signals.EveryRunAccounted | DependentExtensions/RPC3/RPC3.h:152-169 | over every run of up to 2^32 registrations and any signals, each list is its registrations without the removed ones, by priority and then by age |
| Signals.EveryRunInOrder | DependentExtensions/RPC3/RPC3.cpp:32-46 | over every run the slots of an identifier, and those a signal calls and keeps, have falling priorities, and rising counts where these are equal |
| Signals.WrappedRegistrationLost | DependentExtensions/RPC3/RPC3.h:152-169 | once 2^32 registrations have been made, the next is lost beside a slot of its count and priority |
| Signals.WrappedRegistrationFirst | DependentExtensions/RPC3/RPC3.h:152-169 | or comes in front of all slots of its priority |
| Signals.LostAfterAllCounts | DependentExtensions/RPC3/RPC3.h:156 | a run in which a registration is lost exists for every function and priority |
| Signals.DispatchCallsTheLive | DependentExtensions/RPC3/RPC3.cpp:437-491 | whatever callbacks do to objects: exactly the slots that live when they are looked at are called in order, up to the first interrupt or empty function, and exactly the dead ones looked at are removed |
| Signals.CalledObjectsThere | DependentExtensions/RPC3/RPC3.cpp:454-487 | a slot that is called belongs to no object, or to one that is there at the time |
| Signals.RemovedObjectsGone | DependentExtensions/RPC3/RPC3.cpp:454-487 | a slot that a dispatch removes belongs to an object that was gone after some of the calls |
| Signals.DispatchInAFixedWorld | DependentExtensions/RPC3/RPC3.cpp:437-491 | where no object comes or goes these are the live slots up to the first interrupt |
| Signals.OutcomeOrdered | DependentExtensions/RPC3/RPC3.cpp:454-487 | calls and remaining slots are in order, and only slots that belong to an object are removed |
| Signals.CallSlots | DependentExtensions/RPC3/RPC3.cpp:454-487 | the loop with removals computes the dispatch |
| Signals.Rpc3.RegisterSlot | DependentExtensions/RPC3/RPC3.h:152-169 | gives the slot the next 32-bit count and inserts it in its identifier's list |
| Signals.Rpc3.InvokeSignal | DependentExtensions/RPC3/RPC3.cpp:437-491 | dispatches, and puts the incoming address back except where it stops at an empty function |
| Admission.PatchingUsers.DecrementPatchingUserCount | DependentExtensions/Autopatcher/AutopatcherServer.cpp:772-787 | one occurrence of the address goes, if there is one |
| Admission.PatchingUsers.RemoveAll | DependentExtensions/Autopatcher/AutopatcherServer.cpp:248-257 | removing by moving the last user in removes every occurrence and nobody else |
| Admission.UsersBounded | DependentExtensions/Autopatcher/AutopatcherServer.cpp:451-476 | over every interleaving, users and the place of a checked request never exceed the limit by more than the cached answers sent |
| Admission.UsersBoundedBySending | DependentExtensions/Autopatcher/AutopatcherServer.cpp:451-476 | at any moment users exceed the limit at most by those a transfer is still going on for |
| Admission.WithinUnlessOversent | DependentExtensions/Autopatcher/AutopatcherServer.cpp:451-690 | the users stay within the limit all along a run if and only if the cache never answers while the limit is reached |
| Admission.LimitHolds | DependentExtensions/Autopatcher/AutopatcherServer.cpp:176-193 | so without cached answers the users never exceed the limit |
| Admission.CacheIgnoresTheLimit | DependentExtensions/Autopatcher/AutopatcherServer.cpp:675-690 | with cached answers any number of users is reached |
| Admission.EveryUserBacked | DependentExtensions/Autopatcher/AutopatcherServer.cpp:696-770 | over every run a client holds at most as many places as there is work for it, and a closing connection has no input among those looked at |
| Admission.CloseExact | DependentExtensions/Autopatcher/AutopatcherServer.cpp:240-266 | a closing step keeps one place for each piece of work exactly if no worker or transfer is busy for the client whose users go |
| Admission.StepExact | DependentExtensions/Autopatcher/AutopatcherServer.cpp:240-794 | so does every step of plugin, workers and transfers |
| Admission.ExactWhilePatient | DependentExtensions/Autopatcher/AutopatcherServer.cpp:240-794 | all along a run places and work agree for every client if and only if no step gives a place up early |
| Admission.WorkLimited | DependentExtensions/Autopatcher/AutopatcherServer.cpp:788-794 | where no place is given up early, and without cached answers, the limit bounds all inputs, workers and transfers together, also when connections close |
| Admission.WorkLimitedExactly | DependentExtensions/Autopatcher/AutopatcherServer.cpp:176-193 | from an idle plugin the limit bounds the work of every further run without cached answers and places given up, if and only if no client has less places than work |
| Admission.ClosingFreesAPlaceEarly | DependentExtensions/Autopatcher/AutopatcherServer.cpp:240-266 | a run without cache in which a closed connection lets more work happen than the limit |
| Admission.FirstComeFirstServed | DependentExtensions/Autopatcher/AutopatcherServer.cpp:451-476 | over every run the requests of any clients that stay are taken up in the order they came to wait, and all others of theirs are still waiting |
| Admission.FirstGivenFirstBegun | DependentExtensions/Autopatcher/AutopatcherServer.cpp:788-794 | and the requests given to the workers are begun in that order, and all others are still among the inputs |
| Admission.UnreadableDropped | DependentExtensions/Autopatcher/AutopatcherServer.cpp:696-794 | over every run no worker is given a patch request whose list cannot be read |
| Admission.ClosedLosesAll | DependentExtensions/Autopatcher/AutopatcherServer.cpp:240-266 | a closed connection loses all its inputs, then all its places, then all it has waiting |
| CachedReply.AddedMeaning | Source/src/file_list.cpp:173-232 | adding a file leaves one entry of its name, with its lengths, unless the name is too long |
| CachedReply.AddFile | Source/src/file_list.cpp:173-232 | the loop over the list computes that |
| CachedReply.CollectedMeaning | DependentExtensions/Autopatcher/AutopatcherServer.cpp:609-664 | what is sent: one entry for each name asked for, found for it, with the lengths of the last request |
| CachedReply.AllOrNothing | DependentExtensions/Autopatcher/AutopatcherServer.cpp:583-690 | the cache answers if and only if it is asked for a readable list of which every file is found by its first match, and then with all of it |
| CachedReply.AnsweredExactly | DependentExtensions/Autopatcher/AutopatcherServer.cpp:583-690 | in the fields of cache and request: exactly if the request is for this application and dated behind the cache, for every file with a hash the first patched entry of its name begins with that hash's four bytes, for every other file there is an added entry of its name, and some name is not too long |
| CachedReply.DroppedExactly | DependentExtensions/Autopatcher/AutopatcherServer.cpp:609-672 | it is dropped exactly if its list is unreadable or empty, or a hash that is not of four bytes comes before any file that is missing |
| CachedReply.SentExactly | DependentExtensions/Autopatcher/AutopatcherServer.cpp:609-690 | what is sent has each name once, only names asked for, and for the last request of a name the lengths of that first entry |
| CachedReply.FirstProblemDecides | DependentExtensions/Autopatcher/AutopatcherServer.cpp:614-672 | the first file that fails drops the request for a malformed hash and passes it to the database otherwise |
| CachedReply.LookUp | DependentExtensions/Autopatcher/AutopatcherServer.cpp:611-664 | the loops over the cache resolve one file by its first name match |
| CachedReply.OnGetPatch | DependentExtensions/Autopatcher/AutopatcherServer.cpp:570-693 | the nested loops give the reply |
| Lobby.StrCmpIsOrder | DependentExtensions/Lobby2/Lobby2Server.cpp:28-35 | the sign of the comparison is the lexicographic order, and zero is equality |
| Lobby.PlaceMeaning | DependentExtensions/Lobby2/Lobby2Server.cpp:658-666 | the binary search finds a name exactly when it is listed, and otherwise the place between its neighbours |
| Lobby.LoginMeaning | DependentExtensions/Lobby2/Lobby2Server.cpp:450-516 | what a login does to every name: entered, added to, refused, and who is pushed out |
| Lobby.KnownNameLogin | DependentExtensions/Lobby2/Lobby2Server.cpp:450-476 | the table after a login under a listed name, in the fields of its user: replaced, given one more address and GUID, or, if the address is there already, left as it was |
| Lobby.NewNameEntered | DependentExtensions/Lobby2/Lobby2Server.cpp:477-516 | a login under a new name whose GUID and address nobody has adds its user and changes nobody |
| Lobby.NewNameInTheWay | DependentExtensions/Lobby2/Lobby2Server.cpp:477-516 | if the first user with its GUID, or only if there is none the first with its address, allows several logins the table stays as it was; otherwise the new user comes in that one's stead |
| Lobby.LogoffMeaning | DependentExtensions/Lobby2/Lobby2Server.cpp:532-545 | a logoff takes away its user and nobody else |
| Lobby.ClosedMeaning | DependentExtensions/Lobby2/Lobby2Server.cpp:185-222 | a closed connection takes one address from the first user who has it, and the user with its last |
| Lobby.ClosedExactly | DependentExtensions/Lobby2/Lobby2Server.cpp:185-222 | the table after that, in the fields: the last address of the user takes the place of the lost one |
| Lobby.EveryRunValid | DependentExtensions/Lobby2/Lobby2Server.cpp:437-545 | over every run the table is strictly sorted by name, and every user has an address, none twice, unless one login lists an address twice |
| Lobby.NewNameRefused | DependentExtensions/Lobby2/Lobby2Server.cpp:477-499 | a login under a new name is refused if and only if its GUID, or else its address, belongs to a user who allows several logins |
| Lobby.ClosedConnectionKeepsGuid | DependentExtensions/Lobby2/Lobby2Server.cpp:185-222 | adding a connection and closing it again leaves the table as it was, but for the GUID that stays |
| Lobby.StaleGuidRefused | DependentExtensions/Lobby2/Lobby2Server.cpp:477-486 | so a login with that GUID under a new name is refused, unless a user further up has the GUID too |
| Lobby.StaleGuidRun | DependentExtensions/Lobby2/Lobby2Server.cpp:450-516 | a run from the empty table in which this happens |
| Lobby.GetUserIndexBySystemAddress | DependentExtensions/Lobby2/Lobby2Server.cpp:632-644 | the first user who has the address |
| Lobby.GetUserIndexByGUID | DependentExtensions/Lobby2/Lobby2Server.cpp:645-657 | the first user who has the GUID |
| Lobby.Lobby2Server.OnLogin | DependentExtensions/Lobby2/Lobby2Server.cpp:450-516 | changes the table in place as the login function says, and keeps it valid |
| Lobby.Lobby2Server.OnLogoff | DependentExtensions/Lobby2/Lobby2Server.cpp:588-594 | changes the table in place as the logoff function says, and keeps it valid |
| Lobby.Lobby2Server.OnClosedConnection | DependentExtensions/Lobby2/Lobby2Server.cpp:185-222 | changes the table in place as the closing function says, and keeps it valid |

## Left out

- Differ.CreatePatch: does not model allocations that fail, a compressor that reports failure, or the growth of the compressor's buffer, whose allocated size is doubled in 32 bits and can wrap before the counters do when a patch exceeds 2^31 bytes; takes files below 2^60 bytes. The compressor is a function with an inverse that expands a block to at most twice its length plus 600 bytes.
- Patcher.ApplyPatch: gives Undefined where the C++ reads or copies outside its buffers, where 32-bit counters wrap, or where a cursor leaves 64 bits; nothing is claimed about such patches. The decompressor's buffer is taken to grow as needed; in 32 bits its allocated size, which grows by four times a section, can wrap before the output reaches 2^32 bytes. Up to 130150144 bytes of new file twice the patch, and four times the patch with the output, stay below 2^32 (Differ.PatchFits).
- Signals.DispatchCallsTheLive: has callbacks that make objects come and go, but none that registers or removes slots of the list being dispatched.
- Signals.EveryRunAccounted: stops at 2^32 registrations. What can happen beyond is Signals.WrappedRegistrationLost and Signals.WrappedRegistrationFirst; Signals.LastOfItsPriority says when one registration still goes where it should.
- BitBuffers.BitBuffer.WriteBits: takes an input that is not the buffer itself, and positions and sizes that do not wrap at 2^32; the loop bodies of WriteBits and ReadBits are methods of their own. ReadBit, which tests one bit with a mask, is only there as ReadBool of BitStreams.
- ParamFraming.ArgsRead: needs a stream below 2^32 bits, the width of its cursors, and reads whole lists; streams that end early give no result, where the C++ goes on with unset values.
- CachedReply.OnGetPatch: leaves out the replies themselves and the clock; dates are real numbers, and patched files in the cache are taken to begin with a hash of four bytes.
- Lobby.Lobby2Server.OnLogin: takes commands that carry an address and a GUID; notifications, rooms, presence and the database command of a closed connection are left out.
- In `split`, `qsufsort`, `CreatePatchInternal` and `ApplyPatch` one C function is several methods here, one for each loop or section; the suffix positions that markers overwrite in `I` are kept in a ghost sequence.
- User objects, slots and parameters are values in lists; that the C++ keeps pointers to some of them is not modelled. Type-directed selection of readers and writers is a match on the kind of a parameter.
- The admission state machine counts users, workers and transfers by client address, and treats one critical section as one step.
- The cached reply to a request for a changelist, `GetFilePart`, and the contents of messages to clients.
- `OnChangeHandle`, which renames a user in place without keeping the order.
- bzip2 and the compressor classes, the file versions `DIFF_main` and `PATCH_main`, and the SQL plugins.
- Lobby2 messages and their serializers, samples, benchmarks and tools.
