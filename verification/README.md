# Verification of ensc-lib

This project models the C building blocks of ensc-lib in Dafny and proves what they promise:
intrusive circular lists, the serialization format and its readers, framed strings over file
descriptors, the growable buffer, the ownership pool, the integer-safety macros, and two text
transformations. `dafny verify dfyconfig.toml` checks everything.

## The parts

- **Lists** (`list.h`). `Rings` is the theory: a heap is two pointer maps (`Ptrs`), `World(p, m)`
  says that the pointers `p` form exactly the pairwise disjoint rings of `m`, a map from roots to the
  nodes behind them. `ListOps` holds the operations as methods on `ListHead` objects; each is proved
  to perform exactly the stores of a function on `Ptrs`. `ListRings` and `ListRuns` prove what these
  stores do to the rings, alone and in any run; `ListLoops` is `list_foreach_save` with any body
  that takes the current node out, also to other lists; `ListValidate` is the debug check on arbitrary pointers, and the equivalence of
  local links with global rings.
- **Wire format** (`serialize.h`, `unserialize.h`). `Wire` defines encoding and decoding on byte
  sequences and proves that they are inverse to each other in both directions, with truncation
  detection and unique decodability as consequences. `Serialize` is the growing stream,
  `Unserialize` the decoders over memory, sockets and descriptors.
- **Descriptors** (`io.c`). `Kernel` is read(2) and write(2) driven by an arbitrary schedule of short
  counts, interruptions, EAGAIN and errors. `Io` holds the retry loops and string frames on top.
  `Channel` is a step machine of one writer and one reader for all interleavings of their system
  calls, with its invariant; `ChannelRuns` says when a read call can end inside a frame,
  `ChannelProgress` that runs end with everything delivered, and `ChannelSides` that the steps of one
  side alone are the calls that `Io` proves.
  `Interop` reads the frames of either writer with either reader.
- **Buffers and pools.** `StrBuf` (`strbuf.h`) and `MgmMem` (`mgmmem.c`), with allocation
  (`Memory`) that either succeeds or ends the run, as `alloc_error` does.
- **Integers.** `TypeUtils` (`type-utils.h`) for every width and signedness, `SafeCalloc`
  (`safe_calloc.h`) on top of it.
- **Text.** `IpAddress` (`ipaddress.c`) and `LdapEscape` (`ldap.c`).

## Where the code does not do what it is for

These properties are false of the code as it stands. The code is modelled as it is, and the exact
condition under which it is right is proved.

- `list_move_tail(head, root)` destroys the rings when `head` is the last node before `root` already
  (and not alone in its ring), instead of leaving it there; the same holds for `list_move(head, head)`:
  `MoveTailIntactIff`, `MoveIntactIff`. Example: a list of one element, `MoveTailBreaksPair`.
- `serialize_buf` sends only the low 32 bits of the length: `BufReadBackIff`. Example: 2^32 zero
  bytes, `LongBufferIsLost`.
- `read_stra` computes the size of its block in 32 bits, which wraps to 0 for a length of 2^32 - 1. It
  stores behind the block exactly if a byte of the payload arrives: `ReadStra`. Example:
  `ReadStraOverruns`.
- `read_str` leaves the payload of a frame that does not fit in the input, and the next call takes it
  for a frame. So the calls on a channel return the strings sent, one after the other, as long as every
  non-empty string fits in the buffers used (`FittingRun`), and a reader can stand inside a frame
  exactly if one does not: `InsideIff`, `TornIff`. Example: a string that was never sent is received,
  `OversizeMisleads`.
- `read_eof` refuses input that fills the buffer exactly: `ReadEof`. Example: `ReadEofRefusesExactFit`.
- `integer_safe_assign` accepts some values that it changes when source and destination differ in
  signedness: `ChangedIff`. Example: -1, `MinusOneChanges`.
- `ldap_escape_query` does not rewind its input pointer between the two passes (ldap.c:27-30), so the
  second pass escapes what lies behind the input: `AsWrittenIff`, `AsWrittenStringsIff`. Example: the
  query "a", `AsWrittenFailsOnA`. The intended function, as the comments on the passes describe it, is
  `EscapeQueryRewound`.

The claim of the comment at strbuf.h:83-85, that only `l * 3` can overflow, is true: `Allocate` computes
every size modulo SIZE_MAX + 1 and proves that none wraps.

## Model

| member | source | states |
|---|---|---|
| Rings.RingUnique | list.h:36-39 | a ring is determined by its first node: following the pointers gives one sequence only |
| ListOps.ListInit | list.h:95-99 | the stores of list_init, all other pointers unchanged |
| ListOps.ListAdd | list.h:108-127 | the stores of list_add in the presence of any aliasing between node, root and neighbour |
| ListOps.ListAddTail | list.h:133-143 | the stores of list_add behind the previous node |
| ListOps.ListDel | list.h:147-162 | the stores of list_del; the removed node keeps its own pointers |
| ListOps.ListDelInit | list.h:164-168 | the stores of list_del followed by list_init |
| ListOps.ListMove | list.h:170-175 | the stores of list_del followed by list_add, also when node and target coincide |
| ListOps.ListMoveTail | list.h:177-183 | the same with the node that preceded the root before the call |
| ListOps.ListSplice | list.h:185-200 | the stores of list_splice for any two nodes, also of the same ring |
| ListOps.ListSpliceTail | list.h:202-206 | the same behind the node before the root |
| ListRings.InitWorld | list.h:95-99 | initializing a node outside all rings adds an empty list and leaves every ring as it was |
| ListRings.AddWorld | list.h:108-127 | adding keeps all rings well-formed and disjoint and puts the node directly behind the target |
| ListRings.DelWorld | list.h:147-162 | deleting keeps all rings well-formed and disjoint and removes exactly that node, root or not |
| ListRings.MoveWorld | list.h:170-175 | moving to another node, of the same ring or another, a neighbour or not, takes the node out and puts it directly behind the target; no node is lost |
| ListRings.MoveAfterSelf | list.h:170-175 | moving a node behind itself does nothing to a lone node and breaks any longer ring |
| ListRings.MoveIntactIff | list.h:170-175 | list_move leaves mutually linked nodes if and only if the node is not moved behind itself or is alone |
| ListRings.SpliceWorld | list.h:185-200 | splicing keeps a world of disjoint rings for all pairs of nodes: another ring is extended at the target, the own ring is split there, and the spliced root ends empty |
| ListRings.WorldLinked | list.h:33-39 | in disjoint rings next and prev are mutually inverse at every node |
| ListValidate.Decompose | list.h:33-39 | conversely, mutually inverse pointers on a set of nodes form disjoint rings that cover it |
| ListValidate.WorldUnique | list.h:33-39 | the pointers determine the list of every root |
| ListValidate.MoveTailIntactIff | list.h:177-183 | after list_move_tail some disjoint rings over the same nodes exist if and only if the node was not the last one before the root, or was alone |
| ListValidate.MoveTailBreaksPair | list.h:177-183 | moving the only element of a list to its end leaves no disjoint rings over the two nodes |
| ListRuns.AddMember | list.h:104-143 | list_add prepends to the list of a root, list_add_tail appends to it |
| ListRuns.DelMember | list.h:145-162 | list_del removes the element at its position and no other |
| ListRuns.DelRoot | list.h:145-162 | list_del of a root leaves the rest of its list as a ring led by the first element |
| ListRuns.MoveMember | list.h:170-183 | list_move and list_move_tail take an element from any list to the front or end of any list, including its own |
| ListRuns.SpliceLists | list.h:185-206 | list_splice and list_splice_tail prepend or append one list to another and empty it |
| ListRuns.SpliceOwnList | list.h:185-200 | splicing a list behind one of its own nodes cuts it there into two rings and empties the root |
| ListRuns.AddSteps | list.h:95-143 | in the specification of runs too, list_init is legal and makes an empty list, list_add prepends to the list of a root, list_add_tail appends |
| ListRuns.ElementSteps | list.h:145-183 | list_del and list_del_init remove the element at one position, list_move prepends it to the list of any root, list_move_tail appends it |
| ListRuns.SpliceSteps | list.h:185-206 | list_splice prepends one list to another, list_splice_tail appends it, and the first is empty |
| ListRuns.QueriesMean | list.h:69-91 | list_empty is emptiness, list_singular is "at most one element", list_is_last (lines 208-220) is being the last node |
| ListRuns.Exec | list.h:95-206 | any single legal operation on the heap has the effect on the rings that its specification says |
| ListRuns.Run | list.h:95-206 | any run of legal operations leaves disjoint well-formed rings, namely those computed on sequences |
| ListLoops.ForeachSave | list.h:250-252 | the loop visits the original elements once each in order, whichever of keep, list_del, list_del_init, list_move and list_move_tail the body applies to each, with a destination of its own; the kept ones stay in order, every other list grows at its front and end by those sent there, and the re-initialized ones are empty lists |
| ListLoops.EmptiedIff | list.h:250-252 | the list ends empty exactly when the body leaves no element in it |
| ListLoops.MidwayNext | list.h:250-252 | one turn of the loop, with any of these actions, leads from the lists after i elements to those after i + 1 |
| ListLoops.TurnMeans | list.h:147-183 | each action of the loop body takes the element out at its position and puts it nowhere, into a list of its own, or at the front or end of the destination |
| ListValidate.RevisitIsHead | list.h:50-60 | with the backward link checked, the first node met twice is the head |
| ListValidate.ListValidate | list.h:44-64 | on arbitrary pointers, with poison values, the check terminates, and it passes if and only if the head lies on a ring of mutually linked nodes |
| ListValidate.EveryNodeValidates | list.h:44-64 | every node of a world of rings heads a ring, which is what list_validate checks |
| ListValidate.AddValidates | list.h:126-142 | after the stores of list_add and list_add_tail the checks of target and root pass |
| ListValidate.DelValidates | list.h:147-156 | after the stores of list_del the checks of both neighbours pass, also when a lone node is deleted |
| TypeUtils.Limits | type-utils.h:47-146 | least and greatest values of the types of 8, 16, 32 and 64 bits, in figures |
| TypeUtils.ConvertIs | type-utils.h:151-154 | a conversion is the only value of the type that is congruent to its operand |
| TypeUtils.SurvivesIffImage | type-utils.h:151-152 | the there-and-back test holds exactly for the values that some destination value converts to, for all widths and signs |
| TypeUtils.SurvivesIffFits | type-utils.h:151-152 | with equal signedness it holds exactly for the values of the destination type |
| TypeUtils.ChangedIff | type-utils.h:148-156 | exactly which values are accepted although they change |
| TypeUtils.MinusOneChanges | type-utils.h:148-156 | a signed 8-bit -1 is accepted into an unsigned 8-bit variable, as 255 |
| TypeUtils.SafeAssign | type-utils.h:148-156 | acceptance if and only if the value is an image; stored value and untouched destination; representability for equal signs |
| TypeUtils.MulOverflow | type-utils.h:162-185 | overflow is reported if and only if the product exceeds the maximum; otherwise the exact product is stored, also for types promoted to int |
| TypeUtils.AddOverflow | type-utils.h:192-212 | for signed and unsigned operands on which the test is defined, overflow is reported if and only if the sum is no value of the type; otherwise the exact sum is stored |
| TypeUtils.AddDefinedIff | type-utils.h:205-207 | difference and sum are computed without signed overflow exactly if the type is unsigned, narrower than int, or the first operand is not negative |
| SafeCalloc.SizeofFlexarr | safe_calloc.h:61-74 | succeeds if and only if sz0 + cnt * sz1 is a size_t value, and returns it |
| StrBuf.StrBuf.ExtraExact | strbuf.h:79-95 | no intermediate of l * 3 / 2 + 8 wraps behind the guard, for every SIZE_MAX above 17 |
| StrBuf.StrBuf.Allocate | strbuf.h:77-103 | ends the run exactly on the stated overflows; otherwise there is room for l more bytes and the content is kept |
| StrBuf.StrBuf.ShrinkTo | strbuf.h:61-70 | gives back what is not needed, keeps the content and the bytes up to the new capacity |
| StrBuf.StrBuf.Shrink | strbuf.h:72-75 | the capacity is the length, the content is kept |
| StrBuf.StrBuf.Clear | strbuf.h:124-127 | the content is empty |
| StrBuf.StrBuf.AppendChar | strbuf.h:129-135 | the content grows by one byte |
| StrBuf.StrBuf.AppendBuf | strbuf.h:137-146 | the content grows by the given bytes, also by bytes of the buffer itself if it need not grow for them |
| StrBuf.StrBuf.AppendStr | strbuf.h:148-151 | the content grows by the bytes before the first NUL |
| StrBuf.StrBuf.AppendStrBuf | strbuf.h:153-157 | the content grows by the content of the other buffer, or by its own if it need not grow for that |
| StrBuf.StrBuf.ToStr | strbuf.h:159-168 | a NUL follows the content and is not part of it; optimized, the block is one byte longer than the content |
| StrBuf.StrBuf.Xfer | strbuf.h:105-117 | the block goes to the caller and the buffer is empty; an empty buffer yields a fresh block |
| StrBuf.RunEdits | strbuf.h:61-168 | any run of edits that does not abort has the content of the same edits on a plain sequence |
| StrBuf.EditsMean | strbuf.h:72-168 | on the plain sequence, the appending edits append to what the run before them has left, clearing empties it, the others change nothing |
| Memory.Xrealloc | xalloc.h:14-24 | a fresh block with the old prefix, or the end of the run |
| Wire.BigEndianAt | serialize.h:54-64 | byte i of an n-byte integer is the one with the weight 256^(n - 1 - i) |
| Wire.Word32Bytes | serialize.h:54-58 | the four bytes of htobe32, in figures |
| Wire.Word64Bytes | serialize.h:60-64 | the eight bytes of htobe64, in figures |
| Wire.Word16Value | unserialize.h:234-241 | the value that be16toh gives two bytes, in figures |
| Wire.Word32Value | unserialize.h:243-250 | the value that be32toh gives four bytes, in figures |
| Wire.Word64Value | unserialize.h:252-259 | the value that be64toh gives eight bytes, in figures |
| Wire.FromBigEndianOf | serialize.h:54-64 | reading the bytes of a value gives that value back |
| Wire.BigEndianOf | unserialize.h:234-259 | writing the value of some bytes gives these bytes back |
| Wire.TimeRoundTrip | serialize.h:66-69 | every signed 64-bit time survives the unsigned conversion and back |
| Wire.TimeBytes | serialize.h:66-69 | the eight bytes of a time, also of one before 1970, in figures |
| Wire.TimeValue | unserialize.h:261-271 | the time that eight bytes stand for, negative if the sign bit is set |
| Wire.DecodeOf | unserialize.h:234-339 | one record is read back and exactly its bytes are consumed, whatever follows |
| Wire.RoundTrip | serialize.h:54-85 | every list of records is read back by its schema from the stream and any trailing bytes, leaving exactly these |
| Wire.OnlyEncodingsDecode | unserialize.h:243-299 | whatever decodes had been encoded: the consumed bytes are the encoding of the result, and the result fits the destinations |
| Wire.FrameBytes | serialize.h:71-76 | a frame byte by byte: the low 32 bits of the length, most significant first, and the payload |
| Wire.DecodeBufIff | unserialize.h:273-285 | a buffer decodes if and only if the input begins with such a frame of a buffer that fits |
| Wire.EncodeAllSnoc | serialize.h:54-85 | a further record is encoded behind the others |
| Wire.UniquelyDecodable | serialize.h:71-76 | equal streams with arbitrary tails have equal records and equal tails |
| Wire.TruncationFails | unserialize.h:83-97 | no strict prefix of an encoded list decodes |
| Wire.BufReadBackIff | serialize.h:71-76 | a buffer is read back if and only if its length fits in 32 bits |
| Wire.LongBufferIsLost | serialize.h:71-76 | a buffer of 2^32 bytes is read back as the empty one, with its bytes still in the input |
| Wire.ReadCallDecodes | io.c:63-82 | what a read call returns is what decoding gives for a buffer with one byte less |
| Wire.ReadCallIff | io.c:63-119 | a read call returns a string if and only if the input begins with its frame and it fits, and refuses it exactly if the length in the header is not less than the size |
| Serialize.SerializeStream.Allocate | serialize.h:25-33 | there is room for len more bytes exactly if the sum is a size_t value; grown to the exact size, content kept; a sum that wraps has no effect |
| Serialize.SerializeStream.Cpy | serialize.h:46-52 | the stream grows by the bytes |
| Serialize.SerializeStream.U32 | serialize.h:54-58 | the stream grows by the four bytes of the value, most significant first |
| Serialize.SerializeStream.U64 | serialize.h:60-64 | the stream grows by the eight bytes of the value, most significant first |
| Serialize.SerializeStream.TimeT | serialize.h:66-69 | the stream grows by the eight bytes of the two's complement of the time |
| Serialize.SerializeStream.Buffer | serialize.h:71-76 | the stream grows by the low 32 bits of the length, byte by byte, and the payload |
| Serialize.SerializeStream.Text | serialize.h:78-85 | the stream grows by the frame of the C string, NULL being empty |
| Serialize.SerializeStream.PutAll | serialize.h:54-85 | any run of calls appends the encoding of the list |
| Unserialize.MemSource.Cpy | unserialize.h:83-97 | all or nothing; success if and only if enough bytes are left |
| Unserialize.CpyDescriptor | unserialize.h:101-166 | for every schedule of short counts, EINTR and EAGAIN the loop ends and succeeds if and only if enough input is pending, with the same bytes as the memory source |
| Unserialize.Cpy | unserialize.h:180-203 | the same contract for all source types; what a failure leaves behind |
| Unserialize.IsAvailable | unserialize.h:205-232 | exact for the bytes pending in memory, always true for descriptors; a refusal means that fewer bytes are pending |
| Unserialize.UInt | unserialize.h:234-259 | the value of two, four or eight bytes, most significant first, from any source, exactly when they are there; a memory source keeps its bytes on failure, a descriptor is drained |
| Unserialize.TimeT | unserialize.h:261-271 | the signed time that the next eight bytes stand for, from any source |
| Unserialize.Buffer | unserialize.h:273-285 | reads a frame that fits; destination behind it, length, and the input after each kind of failure: untouched or drained without a header, without the header only if the length exceeds the room, and that or drained if the payload is short |
| Unserialize.Text | unserialize.h:287-299 | decodes a frame that fits with its NUL, and stores the NUL |
| Unserialize.FillBuffer | unserialize.h:310-316 | the payload replaces the content of the buffer |
| Unserialize.BufferAlloc | unserialize.h:301-322 | decodes a frame of any length into a growable buffer |
| Unserialize.IntoString | unserialize.h:334-335 | terminated, shrunk and handed over: exactly one byte more than the content |
| Unserialize.TextAlloc | unserialize.h:324-339 | yields a block of exactly len + 1 bytes, the payload and NUL, for every length including 0 |
| Unserialize.GetAll | unserialize.h:243-339 | a whole schema read from any source gives what decoding the pending bytes gives |
| Unserialize.ReadBack | unserialize.h:180-339 | what was serialized is read back through the code, over every schedule, and the bytes behind it stay |
| Io.ReadAll | io.c:41-61 | as the descriptor source, but EAGAIN is an error |
| Io.ReadEof | io.c:17-39 | the whole input if it is shorter than the buffer, and a failure otherwise, also for the exact size |
| Io.ReadEofRefusesExactFit | io.c:17-39 | one byte of input into a buffer of one byte is refused |
| Io.WriteAll | io.c:121-141 | sends a prefix, and all of it exactly on success |
| Io.WriteStr | io.c:143-154 | sends the very frame that serialize_buf appends, of the given bytes, of the bytes before the first NUL, or of nothing for NULL; a strict prefix of it on failure |
| Kernel.CalmIff | io.c:46-58 | the schedules over which transfers are shown to succeed: no error, no early end, and no EAGAIN where it is not retried |
| Io.ReadStr | io.c:63-82 | reads a frame that fits with its NUL, for the same inputs as unserialize_str; a frame that is too long costs its header and leaves its payload, and input that is too short is consumed |
| Io.ReadLength | io.c:67-70 | the header of a frame |
| Io.ReadStra | io.c:84-119 | if malloc succeeds, reads a frame exactly if it is complete and shorter than 2^32 - 1 bytes, NULL for the empty string; stores behind its block exactly if the input begins with four bytes 255 and another byte follows; a failure has consumed the input |
| Io.ReadBeyond | io.c:41-61 | into a block of no bytes the transfer loop stores exactly if input is pending |
| Io.ReadStraOverruns | io.c:98-111 | a header of four 255 and one more byte make it store behind its block |
| Interop.StraReadsFrame | io.c:84-119 | read_stra returns the string of any frame shorter than 2^32 - 1 bytes, made by write_str or serialize_buf, NULL for the empty one |
| Interop.UnserializeReadsFrame | unserialize.h:324-339 | unserialize_stra returns the same string and length for the same frames, the empty one in a block of its own |
| Channel.StepKeepsInv | io.c:41-154 | every step of either side, also a failing one and those of later calls, keeps the invariant of the channel |
| Channel.RunKeepsInv | io.c:41-154 | so does every run from any state that satisfies it |
| Channel.EveryRun | io.c:41-154 | in every reachable state the bytes written are those consumed and those in flight; as long as no call has ended inside a frame, the outcomes of the read calls, each with its own buffer size, are exactly the first strings sent, or a failure for those that do not fit |
| ChannelRuns.FittingRun | io.c:63-119 | with buffers that take every non-empty string, no call ends inside a frame, and the outcomes are exactly the next strings in every run without errors |
| ChannelRuns.TornIsInside | io.c:72-76 | the step that ends a call inside a frame leaves the reader between calls at no boundary of the stream |
| ChannelRuns.TornIff | io.c:63-82 | some run without errors has a call end inside a frame if and only if some non-empty string does not fit in some buffer |
| ChannelRuns.InsideIff | io.c:63-82 | a reader between calls stands inside a frame in some reachable state if and only if some non-empty string does not fit in some buffer |
| ChannelRuns.OversizeMisleads | io.c:72-76 | after a string of five bytes did not fit, the next call returns a string that was never sent |
| ChannelRuns.EmptyMeansBoundary | io.c:63-119 | an empty channel behind an idle writer finds the reader between two frames, with one outcome for every string sent |
| ChannelProgress.StepDecreases | io.c:41-154 | every step with an effect, except a failing read, decreases the work that is left |
| ChannelProgress.EffectiveRunsEnd | io.c:41-154 | so a run has no more such steps than there is work at its start |
| ChannelProgress.StuckMeansDone | io.c:41-154 | neither side can go on if and only if nothing is in flight or under way, nothing is left to be written unless the writer has closed, and the reader waits or has seen the end |
| ChannelProgress.EffectiveIff | io.c:41-154 | the runs that are counted are those in which every action changes the state and no read fails |
| ChannelProgress.CompleteRun | io.c:41-154 | without errors and with buffers that take every string, the number of effective steps is bounded, and when neither side can go on every string has been received |
| ChannelSides.ReaderAlone | io.c:63-119 | the steps of one read call on a fixed input end as ReadStr and ReadStra do: the frame, the failure with the payload left, waiting for more on input that is too short, or the overrun |
| ChannelSides.WriterAlone | io.c:143-154 | the steps of one write call send a prefix of the frame that WriteStr sends, and are over exactly when it is out |
| MgmMem.Pool.Recalloc | safe_calloc.h:49-59 | a grown copy of the entries, or the end of the run, exactly on size overflow or without memory |
| MgmMem.Pool.NewCountFits | mgmmem.c:41-44 | the next capacity does not wrap behind the guard, and is the entries and half of them and two |
| MgmMem.Pool.Xfer | mgmmem.c:30-62 | the pointer is owned and the others still are; a full pool grows to num * 3 / 2 + 2 entries or the run ends if that many are no size_t value, any other keeps its capacity; NULL is only noted; it never returns false, the branch that frees the pointer being dead |
| MgmMem.Pool.Destroy | mgmmem.c:20-28 | the i-th pointer freed is the i-th last one owned |
| MgmMem.FreedAsOften | mgmmem.c:20-62 | every non-null pointer is freed as often as it was handed over, NULL never |
| MgmMem.Life | mgmmem.c:20-62 | over a whole life: reverse release of everything handed over, and exactly the copied entries of Growth, at most three per transfer |
| MgmMem.GrowthIsLinear | mgmmem.c:39-48 | the capacities that this growth runs through hold the entries and make all copying linear |
| IpAddress.StrChr | ipaddress.c:53-53 | the first occurrence in the C string, if there is one |
| IpAddress.CutAt | ipaddress.c:87-89 | the C string ends before the character, the part behind it is a C string too |
| IpAddress.CutService | ipaddress.c:69-75 | node and service are separated at the first ':' |
| IpAddress.CutSlashes | ipaddress.c:86-96 | both end at the first '/' |
| IpAddress.CutHost | ipaddress.c:65-96 | node and service of an internet address as disjoint terminated slices |
| IpAddress.CutBracket | ipaddress.c:49-63 | the node in brackets and the service behind them, failing exactly without a ']' |
| IpAddress.ParseHost | ipaddress.c:49-96 | both forms of an internet address; it fails exactly if the family is AF_INET6 and a '[' has no ']' behind it |
| IpAddress.FamilyOf | ipaddress.c:31-63 | a URI is refused exactly if it begins with none of ip4://, ip6://, ip://, unix://, or with ip6://[ and has no ']' behind that; the prefix decides the family |
| IpAddress.PlainMeans | ipaddress.c:65-96 | without a bracket the node ends at the first ':' or '/' |
| IpAddress.BracketMeans | ipaddress.c:49-96 | in brackets the node ends at the first ']' or '/', and the service is searched behind the bracket |
| IpAddress.ServiceMeans | ipaddress.c:69-96 | the service is what follows the first ':' up to a '/' |
| IpAddress.UnixMeans | ipaddress.c:40-42 | behind unix:// everything is the node |
| IpAddress.Parse | ipaddress.c:18-103 | the results are disjoint terminated slices of the one duplicate that hold what the grammar says; family and place of the node for each of the four prefixes; failure exactly on another prefix or an unterminated ip6://[ |
| IpAddress.PrintParseIff | ipaddress.c:31-96 | a printed address is parsed back if and only if node and service are free of the delimiters of their form |
| LdapEscape.UnescapeOf | ldap.c:32-58 | unescaping recovers every byte string |
| LdapEscape.EscapeIsSafe | ldap.c:32-47 | no raw '*', '(', ')' or NUL is left |
| LdapEscape.EscapeOne | ldap.c:14-52 | these four and the backslash become a backslash and two digits of 0123456789abcdef, every other byte is itself |
| LdapEscape.EscapeConcat | ldap.c:29-55 | a string is escaped byte by byte |
| LdapEscape.CountPass | ldap.c:43-55 | the size counted by the first pass is the size of the escaped input |
| LdapEscape.WritePass | ldap.c:38-52 | the second pass writes the escaped bytes, exactly if they fit |
| LdapEscape.EscapeQueryRewound | ldap.c:16-68 | with both passes on the input: a block of exactly the right size with the escaped input and NUL |
| LdapEscape.EscapeQuery | ldap.c:16-68 | what the function does as written, for all inputs and surroundings |
| LdapEscape.AsWrittenMeans | ldap.c:27-59 | as written it returns the escape of the bytes behind the input, unless these are not readable or their escape is longer than the block |
| LdapEscape.AsWrittenIff | ldap.c:27-59 | as written it escapes its input if and only if a copy of the input follows it in memory |
| LdapEscape.AsWrittenStringsIff | ldap.c:18-59 | for C strings this means the empty string only |
| LdapEscape.AsWrittenFailsOnA | ldap.c:18-59 | for the query "a" it returns no escaped copy of it |

## Left out

- ListOps.ListAdd: the assertions of debug builds on root and head are not part of it; that list_validate passes is AddValidates.
- ListOps.ListAddTail: likewise without the assertions of debug builds.
- ListOps.ListDel: without the poison values that debug builds store into the removed node, which keeps its pointers here; that list_validate passes is DelValidates, and list_validate itself is modelled with poison values.
- list.h: container_of, list_entry and the entry variants of the loops; a list head is an object of its own.
- ListLoops.ForeachSave: the body acts on the current node only, and does not move it to the end of the list being walked, where the loop would meet it again without end.
- TypeUtils.AddOverflow: signed operands for which the source's own test overflows (AddDefinedIff), which C leaves undefined; _mul_overflow gives no result for signed types, and its model has unsigned ones.
- StrBuf.StrBuf.AppendStrBuf: a buffer appended to itself when it has to grow, since the source is released before it is copied; the same for AppendBuf and AppendStr with bytes of the buffer.
- Serialize.SerializeStream.Cpy: a total size beyond SIZE_MAX, which serialize.h does not check and for which Allocate makes no room; the sources of memcpy are byte sequences, so that overlap with the stream is not expressed.
- serialize_destroy, strbuf_destroy and free: the release of blocks is modelled in mgmmem.c only.
- Host byte order: htobe32 followed by memcpy, and memcpy followed by be32toh, are modelled as big-endian writing and reading.
- strbuf_init with a size hint, strbuf_assign_buf, strbuf_assign_str, strbuf_const: they only set fields.
- Unserialize.Cpy: without the generic source, whose callback is unknown.
- Unserialize.IsAvailable: likewise without the generic source.
- select(): a source that would block is asked again.
- Descriptor: its input is complete when it is read; waiting for a writer is modelled in Channel.
- Channel.EveryRun: after a write_str that failed inside its frame, and after a read call that ended inside one, only the conservation of bytes is stated; the strings received then depend on the bytes of the payload, as OversizeMisleads shows.
- mgmmem_printf, com_err messages, errno values that no branch tests.
- Memory.Xrealloc: the contents of the new part of a block are arbitrary, and running out of memory is a free choice.
- IpAddress.Parse: memcmp may look behind a URI that is shorter than the scheme; the comparison here stops at its end. strdup failing is not modelled.
- The builtin overflow tests of the compiler, and the fallback of variable_is_signed without C11.
- logging, sd-notify, sd-listen, iniparser, ldap-open, http-i18n: output, environment and library plumbing.
