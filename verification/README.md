# Decoders, filters and converters of VFSPP, verified

This project models the parts of VFSPP that read untrusted bytes: the 7-Zip decoder in `lib/7z` and the UTF-8
converter in `lib/utf8`. Each part is given twice. First as functions on values that say what it is to do; the laws
the code relies on are proved about these. Then in the form of the source, as methods that change arrays and fields
in place; each is proved to do what its function says.

`dafny verify dfyconfig.toml` checks all of it.

| files | part |
|---|---|
| `Words.dfy` | bytes, 32-bit words, division |
| `RangeCoder.dfy`, `LzmaSymbol.dfy`, `LzmaRun.dfy` | the range decoder, and one LZMA symbol as a walk through a control automaton |
| `LzmaCode.dfy` | the code of LZMA symbols, written down from the format |
| `LzmaStream.dfy`, `LzmaFacts.dfy` | the LZMA decoder on values: an unbounded history instead of a dictionary, unread input instead of pointers and a side buffer |
| `LzmaMeaning.dfy` | what its state, distances, contexts and intervals stand for |
| `LzmaEncode.dfy` | streams for any symbols, and so for any text |
| `LzmaWindow.dfy`, `LzmaBits.dfy`, `LzmaCheck.dfy`, `LzmaDec.dfy` | the LZMA decoder of the source: circular dictionary, dry run, resumable input |
| `Lzma2Chunks.dfy`, `Lzma2Stream.dfy`, `Lzma2Props.dfy`, `Lzma2Cut.dfy`, `Lzma2Encode.dfy`, `Lzma2Dec.dfy` | the LZMA2 framing around it |
| `BranchX86.dfy`, `BranchX86Choice.dfy`, `BranchRisc.dfy` | branch filters |
| `Crc.dfy` | CRC-32 with slicing tables |
| `Bcj2.dfy`, `Bcj2Encode.dfy` | BCJ2, also over its own input |
| `PpmdLayout.dfy`, `PpmdLists.dfy`, `PpmdGlue.dfy`, `PpmdAlloc.dfy` | the PPMd sub-allocator |
| `ArchiveFolders.dfy`, `ArchiveBytes.dfy`, `ArchiveFiles.dfy`, `ArchiveSizes.dfy`, `ArchiveExtract.dfy`, `LookToRead.dfy` | folders and files of an archive, their sizes and places, the extraction cache, the look-ahead stream |
| `CodePoints.dfy` | UTF-8 and UTF-16 |

How the parts fit together, by the main results:

- **LZMA.** `LzmaStream.Decode` is what one call does, with all output so far as its history. `Decoder.DecodeToDic` is
  proved equal to it, and `Decoder.DecodeToBuf` to one call with the whole output, however often the dictionary wraps.
  `InputCut`, `OutputCut` and `AnyCut` say that cutting input and output changes nothing; so this holds for the methods
  too. That 20 bytes are enough for a symbol rests on `TwentyBytes`, that the dry run agrees on `DryRunAgrees`, and this on
  `OrderIncreases`: no probability is used twice in a symbol. Which symbol the bits mean is said without the automaton, by
  `LzmaCode.Code`: `CodeReaches` and `CodeDecoded` connect the two. `LzmaMeaning` says the same of the rest of a step:
  which bits share a probability (`SlotsShared`), what the state records (`StateFollows`), what is written
  (`SymbolWrites`) and what is refused (`TakenExactly`). `LzmaEncode.Decodes` is the round trip: for any symbols that make
  sense there is a stream, and a call on it outputs what they stand for by the meaning of LZ77, which `Expanded` gives
  without the decoder. Its bytes are found from the end, since a range decoder goes through the same ranges whatever its code.
- **LZMA2.** `Lzma2Stream.Decode2` is one call of the framing, and `Decoder2.DecodeToDic` is proved equal to it.
  `WholeStream` accounts for every byte and every reset over any series of calls, and `ChunkProps` says with which
  properties a chunk is decoded. `Lzma2Encode.StreamDecodes` is the round trip, for any chunks that bring the resets asked
  for. `InputCut2` is an equivalence: input may be cut anywhere if and only if no call but the last asks for input with its output full, which its caller can see.
  A call that must end at its limit never does so (`InputCutEnd`); one that need not does so on the stream of
  `Lzma2Cut.AsksWithOutputFull`.
- **Filters.** `BranchX86.Reversible` holds for every buffer, address and state, and `BranchX86Choice.ConvertsExactly` says
  of the buffer, without masks and tables, which opcodes are converted. `Bcj2Encode.StreamsDecode` is the round trip for
  BCJ2, whichever branches are converted. `BranchRisc.RoundTrip` is an equivalence: the original promises the filters for aligned addresses, and the theorem says that they fail on every
  buffer with something to convert when the address is not aligned.
- **Archives.** `ArchiveFolders.FolderIn` is the folder that bytes describe. `GetNextFolderItem` returns just that, and
  `ArchiveBytes.FolderRead` is the round trip with a writer. `ArchiveSizes.ReadSubSizes` puts the sizes of each folder's
  files in their place, `ArchiveFiles.Filler.Fill` says which files those are, and `ArchiveSizes.Tiles` when the ranges that are extracted tile a folder. When
  sizes are given there is a place for each if and only if the counts of streams do not wrap (`EnoughPlaces`). Sizes are not
  checked when they are read: `ArchiveSizes.Inside` and `ArchiveExtract.RangeTest` say when the test at the end makes up
  for that, and `ArchiveExtract.SizeWraps` is an archive on which it does not.
- **PPMd.** The invariant is that blocks and gap partition the area and that every free block is in the list for its
  size; contents of blocks in use stay. An allocation fails only when no free block is long enough, neither gap nor room
  below the units suffices, and, if it was time for it, the free blocks have been glued (`AllocUnits`). After gluing no two
  free blocks that follow one another were left apart (`GlueFreeBlocks`).

Where code and documentation differ, the model follows the code. The comment in `LzmaDec.c:126-128` gives a meaning of
their own to two remaining lengths above the end mark; in the code these are end marks like all above it, until
`LzmaDec_DecodeReal2` makes them the mark itself. `next` reports the value 0 for a sequence that
encodes no code point (`checked.h:138-152`), not the value it encodes; the model reports only the kind of error.

## Model

| member | source | states |
|---|---|---|
| BranchX86.Reversible | lib/7z/Bra86.c:11-85 | for every buffer, address, starting state and direction, converting one way and then the other gives back the buffer, with the same number of processed bytes and the same final state |
| BranchX86.ScanUndone | lib/7z/Bra86.c:20-81 | the same for the scan from any position with any mask: it visits the same opcodes both ways |
| BranchX86.StatusKept | lib/7z/Bra86.c:36-46 | a conversion never changes whether the fifth byte of an earlier opcode that was left alone is 0 or 0xFF |
| BranchX86.FlipComplements | lib/7z/Bra86.c:62-68 | after one flip the byte that was tested is the complement of a byte of the operand, so that the correction loop makes at most two passes |
| BranchX86.OperandRestored | lib/7z/Bra86.c:52-70 | the 25 bits of an operand that count come back, for every mask that allows conversion |
| BranchX86.IsolatedOperand | lib/7z/Bra86.c:50-74 | an opcode with none near it: the operand becomes the absolute target, its address plus its signed 25-bit value, and back |
| BranchX86Choice.ConvertsExactly | lib/7z/Bra86.c:8-73 | an opcode is converted if and only if its fifth byte is 0 or 0xFF, it is not inside a converted operand, and among the three bytes before it at most one opcode was left alone, one whose own fifth byte is neither; the start mask says which were left alone before the block |
| BranchX86Choice.ConvertsWith | lib/7z/Bra86.c:9-68 | the bit number of a conversion is the distance to that opcode, 0 if there is none |
| BranchX86Choice.ThreeApart | lib/7z/Bra86.c:8-73 | E8 01 02 E8 10 00 00 00 at address 0: the second opcode, three bytes after one left alone, is converted |
| BranchX86Choice.SignByteMeans | lib/7z/Bra86.c:6 | a fifth byte is a sign byte exactly if the operand is a signed number of 25 bits |
| BranchX86.OnlyOperandsChange | lib/7z/Bra86.c:70-73 | a byte that changes is one of the four after an opcode at which the scan converts |
| BranchX86.ConvertedOperand | lib/7z/Bra86.c:70-74 | where the scan converts there were an opcode and a sign byte and still are, and the 25 bits of the operand are transformed |
| BranchX86.ScanContinues | lib/7z/Bra86.c:30-47 | stopping at the end of a block and going on with the saved state is the same as not stopping |
| BranchX86.SuccessiveCalls | lib/7z/Bra.h:27-53 | calls on successive blocks, each from the first unprocessed byte with address advanced and state kept, equal one call on the whole |
| BranchX86.CorrectOperand | lib/7z/Bra86.c:54-69 | the inner loop ends, in at most two passes, with the operand the specification gives |
| BranchX86.X86Convert | lib/7z/Bra86.c:11-85 | the loop in place: new buffer, new state and result are those of the scan on values |
| RangeCoder.BoundInside | lib/7z/LzmaDec.c:17-25 | with a probability from 31 to 2017 and a normalised range both halves stay at least 2^16, and lose at most a factor of 67 |
| RangeCoder.Normalized | lib/7z/LzmaDec.c:17 | one byte is enough to normalise |
| LzmaMeaning.ModelBitCuts | lib/7z/LzmaDec.c:19-21 | a modelled bit cuts the interval at the bound, and the code keeps its place in the part in which it lies |
| LzmaMeaning.BoundShares | lib/7z/LzmaDec.c:19 | the share of 0 is its probability of 2048, rounded down |
| LzmaMeaning.AdaptedMoves | lib/7z/LzmaDec.c:20-21 | after a bit its probability has moved towards it by a 32nd of the way, rounded down |
| LzmaMeaning.DirectBitCuts | lib/7z/LzmaDec.c:329-338 | a direct bit cuts the interval in the middle |
| LzmaMeaning.NormalizedFiner | lib/7z/LzmaDec.c:17 | normalising makes the interval 256 times finer, and the byte says where in it the code lies |
| LzmaMeaning.StartsWidest | lib/7z/LzmaDec.c:679-684 | the range starts at 2^32 - 1, and the code is the four bytes after the first, most significant first |
| LzmaMeaning.StartsEven | lib/7z/LzmaDec.c:708-718 | all probabilities start at one half, distances at 1 and the state with nothing but literals before |
| LzmaSymbol.NextValid | lib/7z/LzmaDec.c:153-361 | every step of the symbol automaton leads to a control point that is valid for the symbol's context |
| LzmaSymbol.SlotInRange | lib/7z/LzmaDec.c:94-110 | every probability a symbol uses lies in the table |
| LzmaCode.CodeReaches | lib/7z/LzmaDec.c:153-361 | every symbol is reached by its code as the format has it: a prefix for the kind, a length in one of three ranges, a distance as slot, up to five low digits in reverse, or direct digits and four reversed ones |
| LzmaCode.BitsWalked | lib/7z/LzmaDec.c:153-361 | the bits that decoding reads lead the automaton to the symbol found |
| LzmaCode.CodeDecoded | lib/7z/LzmaDec.c:153-361 | decoding that reads the code of a symbol finds that symbol and reads no bit more |
| LzmaMeaning.SlotsShared | lib/7z/LzmaDec.c:94-110 | two bits share a probability if and only if they are predicted from the same context |
| LzmaMeaning.LiteralContexts | lib/7z/LzmaDec.c:165-191 | a bit of a literal is predicted from the literal context and the bits above it, and after a match from the next bit of the match byte as well, as long as all bits so far are those of the match byte |
| LzmaMeaning.LitContextDigits | lib/7z/LzmaDec.c:165-168 | the literal context is the last lp bits of the place and the first lc bits of the byte before |
| LzmaMeaning.PosStateDigits | lib/7z/LzmaDec.c:158-179 | the position state is the last pb bits of the place, the match byte the one at the last distance |
| LzmaRun.OrderIncreases | lib/7z/LzmaDec.c:153-353 | probabilities of one symbol are used in increasing order of a rank that determines the slot: none is used twice |
| LzmaRun.DryRunAgrees | lib/7z/LzmaDec.c:488-676 | the run without updates reads the same bits, needs the same input and finds the same symbol as the run with them |
| LzmaRun.Run | lib/7z/LzmaDec.c:412 | after a symbol, whatever its bits, the range is normalised, and the symbol is valid |
| LzmaRun.RunNormalized | lib/7z/LzmaDec.c:17 | normalising before a symbol or with its first bit makes no difference |
| LzmaRun.RunFed | lib/7z/LzmaDec.c:17 | more input after what a symbol needs does not matter |
| LzmaRun.LossOfSymbol | lib/7z/LzmaDec.h:45-48 | the worst product of shrinking factors over any symbol, 22 modelled bits and 26 direct ones, is below 2^160 |
| LzmaRun.RunSuffices | lib/7z/LzmaDec.c:17-25 | enough input for the shrinking that lies ahead is enough for the rest of the symbol |
| LzmaRun.TwentyBytes | lib/7z/LzmaDec.h:45-48 | a symbol, its last normalisation included, never reads more than 20 bytes, and with 20 bytes it never runs short |
| LzmaStream.LitContextBelow | lib/7z/LzmaDec.c:165-168 | the literal context is below 2^(lc+lp) |
| LzmaStream.EnvValid | lib/7z/LzmaDec.c:94-114 | in every valid state all contexts lie in the table of 1846 + (768 << (lc + lp)) probabilities |
| LzmaStream.ApplyValid | lib/7z/LzmaDec.c:294-408 | on all input, accepted symbols leave a valid state: distances reach only bytes since the last dictionary reset, and at most dicSize back |
| LzmaMeaning.TakenExactly | lib/7z/LzmaDec.c:210-379 | a symbol is accepted if and only if the byte it copies from was written since the last dictionary reset, at most dicSize before, and a match has room for its first byte |
| LzmaMeaning.StateFollows | lib/7z/LzmaDec.c:172-373 | the state is a function of the sorts of the symbols so far, of which it records the last one that is no literal, if it is among the last three, and what came before it |
| LzmaMeaning.RepsToFront | lib/7z/LzmaDec.c:227-365 | a repeated distance comes to the front and the others keep their order; a new one pushes out the last |
| LzmaMeaning.SymbolWrites | lib/7z/LzmaDec.c:376-408 | a symbol writes as many of its bytes as there is room for and keeps the rest as remaining length; a literal is itself, any other byte equals the one at the distance that is now the first |
| LzmaStream.CopyMeaning | lib/7z/LzmaDec.c:380-408 | a copy keeps what was there, and each new byte equals the one `dist` before it, new ones included |
| LzmaStream.InputCut | lib/7z/LzmaDec.c:720-839 | cutting the input into any pieces over successive calls gives the same output, probabilities, distances, range, code, unread input and verdict as one call |
| LzmaStream.LoopFed | lib/7z/LzmaDec.c:729-835 | a call given more input goes on exactly where it would have stopped |
| LzmaStream.OutputCut | lib/7z/LzmaDec.c:841-879 | a call up to an earlier limit and one up to a later limit are one call up to the later limit, matches cut off in the middle included |
| LzmaStream.AnyCut | lib/7z/LzmaDec.c:841-879 | a series of calls, each with new input and its own output size, of which none asks for more than the last, is one call with all input and all output |
| LzmaStream.ExtendCut | lib/7z/LzmaDec.c:376-408 | a match cut off at a limit and finished later is the match |
| LzmaStream.StopReason | lib/7z/LzmaDec.c:729-838 | a call that stops short of its limit has seen the end mark or has too little input for a header or the next symbol |
| LzmaStream.LoopAtLimit | lib/7z/LzmaDec.c:750-768 | at its limit a call says MAYBE_FINISHED_WITHOUT_MARK exactly when nothing remains and the code is 0; otherwise, if it need not end, NOT_FINISHED, and if it must, an unfinished match is an error |
| LzmaStream.DecodeAgain | lib/7z/LzmaDec.c:720-839 | a call repeated without new input stops again at once, in the same state |
| LzmaStream.DecodeKeeps | lib/7z/LzmaDec.c:720-839 | a call only appends to the output |
| LzmaEncode.RunsSymbol | lib/7z/LzmaDec.c:153-412 | for any symbol and any range decoder before it there are code and input that are decoded to just that symbol, and leave any code and input wanted after it |
| LzmaEncode.AppliedAs | lib/7z/LzmaDec.c:362-408 | with room for it, a symbol means to the decoder what it means in LZ77: history and last four distances |
| LzmaEncode.Decodes | lib/7z/LzmaDec.c:720-839 | the stream for any symbols whose distances lead to bytes that are there, at most dicSize back, decodes to what they stand for, uses all input and may end there, whether the stream must end or not |
| LzmaEncode.DecodesMarked | lib/7z/LzmaDec.c:720-839 | with an end mark it does so in a call with room for more, and the mark is reported |
| LzmaEncode.EveryText | lib/7z/LzmaDec.c:720-839 | so there is a stream for every text, after every history |
| LzmaMeaning.HeaderTaken | lib/7z/LzmaDec.c:733-747 | a header is accepted if and only if its first byte is 0 |
| LzmaFacts.StopKept | lib/7z/LzmaDec.c:750-768 | a call that stops for another reason than its input would stop there on any input |
| LzmaFacts.KeptUsedUp | lib/7z/LzmaDec.c:805-834 | kept bytes are used up before a later call stops for another reason |
| LzmaFacts.ShortUsedUp | lib/7z/LzmaDec.c:829 | a symbol for which the kept bytes were too few takes more than those, so that what is given back was taken from the new input |
| LzmaWindow.WindowAppendAll | lib/7z/Lzma2Dec.c:161-162 | bytes copied into the dictionary extend the window on the history |
| LzmaBits.GetBit | lib/7z/LzmaDec.c:19-25 | the macro on range, code, input and probability array takes one step of the automaton |
| LzmaBits.DecodeLiteralMatched | lib/7z/LzmaDec.c:178-191 | a literal after a match: the loop with `offs` follows the automaton to the byte |
| LzmaBits.DecodeLen | lib/7z/LzmaDec.c:261-292 | the length decoder follows the automaton to the length |
| LzmaBits.DecodeDistance | lib/7z/LzmaDec.c:296-361 | the distance decoder, with position slots, reversed trees, direct bits and the end mark, follows the automaton |
| LzmaCheck.CheckDistance | lib/7z/LzmaDec.c:631-671 | the dry twin of the distance decoder fails exactly when the input runs short |
| LzmaDec.PropsDecode | lib/7z/LzmaDec.c:899-923 | fails exactly on too few bytes or a first byte of 225 or more; otherwise the first byte is (pb * 5 + lp) * 9 + lc, and the next four are the dictionary size, least significant first, raised to 4096 |
| LzmaDec.Decoder.constructor | lib/7z/LzmaDec.c:702-706 | a new decoder is valid, with nothing kept and all to be initialised |
| LzmaDec.Decoder.CopyMatch | lib/7z/LzmaDec.c:380-408 | both copy loops, straight and wrapping, append what plain copying from the whole history appends |
| LzmaDec.Decoder.DecodeSymbol | lib/7z/LzmaDec.c:155-361 | the nested tests decode the symbol of the automaton; a repeated distance without history is refused |
| LzmaDec.Decoder.WriteSymbol | lib/7z/LzmaDec.c:362-408 | a symbol changes dictionary, distances, state and remaining length as on values, or is refused as there |
| LzmaDec.Decoder.DecodeReal | lib/7z/LzmaDec.c:131-426 | symbols up to a limit or an input bound: what is left of the call is as before |
| LzmaDec.Decoder.DecodeReal2 | lib/7z/LzmaDec.c:455-478 | the portions that end where the dictionary fills: the same, and the mark in checkDicSize stays right |
| LzmaDec.Decoder.WriteRemaining | lib/7z/LzmaDec.c:428-453 | the rest of a match is written as on values |
| LzmaDec.Decoder.TryDummy | lib/7z/LzmaDec.c:488-676 | changes nothing; DUMMY_ERROR exactly when the next symbol needs more input, otherwise the symbol's kind |
| LzmaDec.Decoder.InitDicAndState | lib/7z/LzmaDec.c:686-700 | the range decoder starts anew, and on request history and state |
| LzmaDec.Decoder.InitStateReal | lib/7z/LzmaDec.c:708-718 | probabilities, distances and state are those of a start |
| LzmaDec.Decoder.ReadHeader | lib/7z/LzmaDec.c:733-747 | the header of five bytes, gathered over as many calls as it takes |
| LzmaDec.Decoder.Buffered | lib/7z/LzmaDec.c:805-834 | a symbol begun in the kept bytes and completed from new input: what is given back is never more than was taken |
| LzmaDec.Decoder.DecodeToDic | lib/7z/LzmaDec.c:720-839 | equals one call on values, on all input: state, output, unread input, status and error; what it leaves is kept or still the caller's |
| LzmaDec.Decoder.DecodeToBuf | lib/7z/LzmaDec.c:841-879 | with a dictionary buffer of at least dicSize, equals one call on values with the whole output, and the bytes given out are what the history grew by |
| Lzma2Chunks.ByteKeeps | lib/7z/Lzma2Dec.c:98-157 | each header byte keeps the accounts: what the fields hold is what the bytes so far say |
| Lzma2Chunks.HeaderDeclares | lib/7z/Lzma2Dec.c:98-157 | when the data of a chunk begins, its sizes and mode are those its header declares |
| Lzma2Chunks.BegunKeeps | lib/7z/Lzma2Dec.c:217-258 | a chunk whose data begins has the dictionary reset, the state reset and the properties it needs since the last reset |
| Lzma2Props.WithPropPacks | lib/7z/Lzma2Dec.c:139-155 | an accepted property byte is (pb * 5 + lp) * 9 + lc of the properties it sets, with lc + lp at most 4, and the dictionary size stays |
| Lzma2Props.SeriesProps | lib/7z/Lzma2Dec.c:139-258 | over every series of calls the properties in use are those of the last property byte, found among the bytes read |
| Lzma2Props.ChunkProps | lib/7z/Lzma2Dec.c:139-258 | so within the data of an LZMA chunk, in any series of calls of a fresh decoder, there has been such a byte and its properties are in use |
| Lzma2Props.StartedResets | lib/7z/Lzma2Dec.c:217-257 | a chunk that begins starts the range decoder anew, empties the history just when it resets the dictionary, has the state initialised when it resets state or dictionary, and changes nothing else |
| Lzma2Chunks.RawKeeps | lib/7z/Lzma2Dec.c:228-239 | data of a plain chunk keeps the accounts and is output as it is |
| Lzma2Chunks.PackedKeeps | lib/7z/Lzma2Dec.c:259-269 | data of an LZMA chunk keeps the accounts; neither size falls below zero |
| Lzma2Chunks.AtEnd | lib/7z/Lzma2Dec.c:106-107 | at the end the input is exactly the declared chunks and a zero byte, and the output exactly as long as they declare |
| Lzma2Stream.TurnGoes | lib/7z/Lzma2Dec.c:177-286 | a turn that goes on uses input, makes output or ends a chunk: the loop terminates |
| Lzma2Stream.DecodeMoves | lib/7z/Lzma2Dec.c:170-289 | over every call, on all input, the accounts and gates are kept and no byte is lost |
| Lzma2Stream.StatusMeans | lib/7z/Lzma2Dec.c:170-289 | FINISHED_WITH_MARK is reported exactly in the finished state |
| Lzma2Stream.SeriesMoves | lib/7z/Lzma2Dec.c:170-289 | the same over every series of calls, of whatever pieces of input, room for output and finish modes |
| Lzma2Stream.WholeStream | lib/7z/Lzma2Dec.c:170-289 | a series of calls that reaches the end: input is chunk headers and declared data and a zero byte, output the sum of the declared sizes, plain data is copied, and every chunk had the resets it needs |
| Lzma2Encode.BlockRuns | lib/7z/Lzma2Dec.c:170-289 | any plain chunk, and any LZMA chunk with symbols that make sense, that brings the resets and properties asked for and whose sizes fit a header, is decoded to its output, and the loop goes on behind it |
| Lzma2Encode.StreamDecodes | lib/7z/Lzma2Dec.c:170-289 | any such chunks in sequence and a zero byte are a stream: it decodes to the outputs of all of them, FINISHED_WITH_MARK, and what follows it is left unread |
| Lzma2Stream.PackedFed | lib/7z/Lzma2Dec.c:259-284 | an LZMA chunk may be fed in parts |
| Lzma2Stream.DecodeFed2 | lib/7z/Lzma2Dec.c:170-289 | a call that is given more input goes on where it stopped, if and only if it did not ask for input with its output full |
| Lzma2Stream.InputCut2 | lib/7z/Lzma2Dec.c:170-289 | cutting the input into any pieces over successive calls, also within headers and chunks, changes nothing if and only if no call but the last asked for input with its output full |
| Lzma2Stream.InputCutEnd | lib/7z/Lzma2Dec.c:182-199 | with LZMA_FINISH_END none does, so that any cut is the same as none |
| Lzma2Cut.AsksWithOutputFull | lib/7z/Lzma2Dec.c:182-186 | a stream on which a fresh decoder does with LZMA_FINISH_ANY: a chunk of one byte whose range code is not 0 then; whatever input comes next, the result is not that of one call |
| Lzma2Stream.FullStays | lib/7z/Lzma2Dec.c:182-186 | after such a call the next one does not look at the input it was asked for, and says NOT_FINISHED |
| Lzma2Dec.UpdateWithUncompressed | lib/7z/Lzma2Dec.c:159-166 | plain bytes extend the history, and the mark in checkDicSize stays right |
| Lzma2Dec.Decoder2.UpdateState | lib/7z/Lzma2Dec.c:98-157 | one header byte changes the fields as on values |
| Lzma2Dec.Decoder2.RawData | lib/7z/Lzma2Dec.c:228-239 | data of a plain chunk, as on values |
| Lzma2Dec.Decoder2.PackedData | lib/7z/Lzma2Dec.c:259-284 | data of an LZMA chunk, as on values |
| Lzma2Dec.Decoder2.DecodeToDic | lib/7z/Lzma2Dec.c:170-289 | equals one call on values, on all input: state, unread input, remaining output, status and error |
| BranchRisc.RoundTrip | lib/7z/Bra.c:6-133 | for ARM, Thumb, PowerPC and SPARC, in either direction: the other direction undoes a filter if and only if the address is aligned or nothing is found to convert |
| BranchRisc.Unaligned | lib/7z/Bra.c:6-31 | an input on which it is not undone: an ARM branch at address 1 |
| BranchRisc.Restored | lib/7z/Bra.c:14-29 | one instruction comes back if and only if its address is aligned, and stays recognisable |
| BranchRisc.Relocates | lib/7z/Bra.c:14-29 | at an aligned address the target becomes address plus target, in units, and back, and the instruction stays one of its kind |
| BranchRisc.InstructionOf | lib/7z/Bra.c:75-94 | instructions that match correspond to targets one to one |
| BranchRisc.ArmWord | lib/7z/Bra.c:15-19 | what is converted is a word with EB on top, least significant byte first, and the target is the rest of it |
| BranchRisc.ThumbWords | lib/7z/Bra.c:42-50 | two half words with prefixes 11110 and 11111, with eleven bits of the target each, the higher ones first |
| BranchRisc.PpcWord | lib/7z/Bra.c:77-82 | a word, most significant byte first, of opcode 18 with lowest bits 01, and the 24 bits between are the target |
| BranchRisc.SparcWord | lib/7z/Bra.c:107-114 | a word, most significant byte first, with top ten bits 0100000000 or 0111111111, of which the lowest 23 are the target |
| BranchRisc.TestsKept | lib/7z/Bra.c:42-43 | a Thumb conversion keeps the bits that the overlapping tests look at |
| BranchRisc.Successive | lib/7z/Bra.h:27-53 | a buffer may be converted in pieces, each from where the last call stopped |
| BranchRisc.ArmConvert | lib/7z/Bra.c:6-31 | the loop in place does what the scan on values does, and returns how far it went |
| BranchRisc.ThumbConvert | lib/7z/Bra.c:33-67 | the same for Thumb, where a conversion advances by four and a miss by two |
| BranchRisc.PpcConvert | lib/7z/Bra.c:69-97 | the same for PowerPC, where low address bits spill into the instruction |
| BranchRisc.SparcConvert | lib/7z/Bra.c:99-133 | the same for SPARC, with its sign extension, for buffers below 2^32 bytes |
| Crc.BitLinear | lib/7z/7zCrc.c:45-47 | a bit step is linear over exclusive or |
| Crc.CrcLinear | lib/7z/7zCrc.c:45-47 | so is the register over start and message together |
| Crc.CrcJoins | lib/7z/7zCrc.c:29-32 | the register of a concatenation is that of the second part started from that of the first |
| Crc.OnByteOn | lib/7z/7zCrcOpt.c:8 | eight or more steps are a table entry for the low byte, exclusive-ored with the steps of the rest |
| Crc.FourBytes | lib/7z/7zCrcOpt.c:17-23 | four bytes at once, loaded as a word, are four bytes one by one |
| Crc.FourLookups | lib/7z/7zCrcOpt.c:18-22 | four lookups in the slicing tables are 32 bit steps |
| Crc.GenerateTable | lib/7z/7zCrc.c:39-54 | entry b of table k is 8k + 8 bit steps from b, for any number of tables |
| Crc.UpdateT4 | lib/7z/7zCrcOpt.c:10-27 | for every buffer and every starting address, the register is that of the message bit by bit, section 8 of RFC 1952 |
| Crc.Calc | lib/7z/7zCrc.c:34-37 | the CRC-32 of RFC 1952 |
| Crc.OfOneLetter | lib/7z/7zCrc.c:7 | the CRC of the letter a is E8B7BE43 |
| Crc.SwapTables | lib/7z/7zCrc.c:74-78 | tables 1 to 4 become tables 0 to 3 with bytes swapped |
| Crc.UpdateT1BeT4 | lib/7z/7zCrcOpt.c:41-63 | the loop for the other byte order computes the same register |
| Crc.ChangeNoticed | lib/7z/7zIn.c:1379-1383 | a change within four bytes in a row changes the register, whatever surrounds it |
| Bcj2.OutputKeepsUp | lib/7z/Bcj2.c:58-131 | output grows at least as fast as the main stream is taken |
| Bcj2.Shorter | lib/7z/Bcj2.h:13-20 | less output asked for is the beginning of the whole output |
| Bcj2.JumpLeads | lib/7z/Bcj2.c:115-128 | the four bytes of a target are a displacement that leads from their end to the address in the stream |
| Bcj2Encode.StreamsDecode | lib/7z/Bcj2.c:33-132 | for any text and any choice of branches to convert there are four streams that decode to the text |
| Bcj2Encode.EveryText | lib/7z/Bcj2.c:33-132 | without conversions too |
| Bcj2.SlotsShared | lib/7z/Bcj2.c:84-89 | the bits after E8 are predicted from the byte before; those after E9 share one probability, those of conditional jumps another |
| Bcj2.PrevIsLast | lib/7z/Bcj2.c:75-128 | the byte before is the last one of the output, be it of an opcode or of a target |
| Bcj2.TargetFrom | lib/7z/Bcj2.c:91-115 | a target comes from the first stream after E8 and from the second otherwise, four bytes exactly when the bit is 1 |
| Bcj2.Decoding.CopyByte | lib/7z/Bcj2.c:72-73 | a byte is copied without harm to the rest of the main stream, also over itself |
| Bcj2.Decoding.TakeBit | lib/7z/Bcj2.c:28-30 | one modelled bit; it fails exactly when normalisation has no input |
| Bcj2.Decoding.PutTarget | lib/7z/Bcj2.c:118-128 | a target is stored until the output is full |
| Bcj2.Decode | lib/7z/Bcj2.c:33-132 | equals the decoding on values, errors included; with the main stream inside the output array, when that is all needed, it succeeds and gives the same bytes |
| PpmdLayout.Partition | lib/7z/Ppmd7.c:290-303 | in the picture every unit of the area is in the gap or in exactly one block |
| PpmdLayout.U2I | lib/7z/Ppmd7.c:64-69 | the index of the smallest size that is large enough; what is over is at most three units |
| PpmdLists.PushListed | lib/7z/Ppmd7.c:118-122 | a loose block of a size goes to the list for it, once |
| PpmdLists.PopListed | lib/7z/Ppmd7.c:124-129 | the first block of a list is a free block of its size, and leaves it |
| PpmdLists.CutListed | lib/7z/Ppmd7.c:131-141 | cutting a block that is in no list keeps all lists |
| PpmdGlue.TakeOut | lib/7z/Ppmd7.c:190-191 | unlinking a block from the ring leaves the ring of the others |
| PpmdAlloc.Allocator.constructor | lib/7z/Ppmd7.c:288-293 | a new area is all gap, with empty lists |
| PpmdAlloc.Construct | lib/7z/Ppmd7.c:64-69 | both size tables are filled with the sizes and the smallest indices |
| PpmdAlloc.Allocator.InsertNode | lib/7z/Ppmd7.c:118-122 | the links stay those of the lists, and only one word changes |
| PpmdAlloc.Allocator.RemoveNode | lib/7z/Ppmd7.c:124-129 | the first free block of a size is taken into use |
| PpmdAlloc.Allocator.SplitBlock | lib/7z/Ppmd7.c:131-141 | a block in use shrinks, the rest becomes one free block of its size or just two, blocks in use keep their contents |
| PpmdAlloc.Allocator.Merge | lib/7z/Ppmd7.c:183-193 | a free neighbour becomes part of a free block |
| PpmdAlloc.Allocator.GlueFreeBlocks | lib/7z/Ppmd7.c:143-213 | if blocks in use have stamps other than 0: the same blocks are in use with the same contents; free blocks that follow one another have become one, unless that has 2^16 units or more, and each of them is cut from the front into pieces of 128 units and at most two last ones, which are in the lists |
| PpmdGlue.FinalJoined | lib/7z/Ppmd7.c:176-196 | a block that has grown as far as it can stays so when one after it grows |
| PpmdAlloc.Allocator.AllocUnitsRare | lib/7z/Ppmd7.c:215-239 | on success exactly one block of the size is newly in use, on failure none; the others keep their contents, and the partition is kept. Gluing comes just when the counter is 0; without it the first block of the shortest longer length is cut, and only if there is none room below the units is used, which counts down; it fails exactly when that is too small |
| PpmdAlloc.Allocator.AllocUnits | lib/7z/Ppmd7.c:241-254 | the same, from list, gap or by the rarer means, in this order; it fails only when no free block is long enough, the gap is too small, and so is the room below |
| PpmdAlloc.Allocator.AllocContext | lib/7z/Ppmd7.c:393-402 | the same for one unit, from the high end of the gap, the list or by the rarer means; it fails only when there is no free block at all, no gap, and no unit below |
| PpmdAlloc.Allocator.NoneLong | lib/7z/Ppmd7.c:223-230 | when the lists from an index on are empty, no free block of the area is as long as its size |
| PpmdAlloc.Allocator.ShrinkUnits | lib/7z/Ppmd7.c:260-275 | the first units of a block move to a smaller one if the list for that has one, or stay, the rest is given back, other blocks keep their contents |
| ArchiveFolders.Pigeonhole | lib/7z/7zIn.c:606-637 | fewer values than numbers below n leave one out |
| ArchiveFolders.GetUnpackSize | lib/7z/7zIn.c:83-93 | finds the last output stream that is not bound; with one bind pair less than output streams it never falls through |
| ArchiveFolders.FindBindPairForInStream | lib/7z/7zIn.c:64-71 | a pair for the stream, or a negative number exactly when there is none |
| ArchiveFolders.SzData.ReadNumber | lib/7z/7zIn.c:348-369 | the leading ones of the first byte say how many bytes follow, and the rest of it is the high part |
| ArchiveFolders.SzData.GetNextFolderItem | lib/7z/7zIn.c:536-644 | returns the folder that the bytes describe, leaves the bytes that follow, and fails exactly when they describe none: coders with their flags, names, stream counts and properties, alternatives skipped; bind pairs with the input stream first; pack streams, or the one input stream that is not bound |
| ArchiveFolders.FolderAccepted | lib/7z/7zIn.c:588-637 | a folder that is described has one bind pair less than output streams, and its one pack stream, if there is one, is an unbound input stream |
| ArchiveBytes.NumberRead | lib/7z/7zIn.c:348-369 | a number is read back from every form that has room for it: as many further bytes as the first byte has leading ones, and what is left of that |
| ArchiveBytes.FolderRead | lib/7z/7zIn.c:536-644 | the bytes written for a folder, with stream counts and properties written out or not and any alternatives of its coders, describe that folder, whatever follows |
| ArchiveBytes.OrdinaryFolder | lib/7z/7zIn.c:606-637 | LZMA behind the x86 filter: input stream 1 is bound to output stream 0, and the pack stream is 0 |
| ArchiveFiles.Filler.Fill | lib/7z/7zIn.c:201-240 | fails exactly when more files have streams than the folders do; otherwise the files of each complete folder are one range from FolderStartFileIndex with exactly NumUnpackStreams stream files |
| ArchiveSizes.SubSizesTotal | lib/7z/7zIn.c:773-793 | substream sizes add up to the folder's size exactly when the sizes given do not exceed it |
| ArchiveSizes.SubSizesExceed | lib/7z/7zIn.c:773-793 | sizes that do not add up: 100 given of 50 |
| ArchiveSizes.ReadCounts | lib/7z/7zIn.c:740-748 | reads the counts of streams in order, and fails exactly on a missing one or one of 2^31 or more; their sum is kept as a 32-bit word |
| ArchiveSizes.ReadSubSizes | lib/7z/7zIn.c:757-793 | the loop over the folders, with as many places as that word says: it comes to its end exactly when no number is missing and there are places for all sizes; then the numbers are read in order, and each folder's sizes, the given ones and what is left of its unpack size as 64 bits, come after those of the folders before, empty folders taking no place |
| ArchiveSizes.EnoughPlaces | lib/7z/7zIn.c:757-793 | there are if the counts add up to less than 2^32, and when sizes are given only if |
| ArchiveSizes.PlacesWrap | lib/7z/7zIn.c:740-748 | counts of three folders that add up to 2^32 and leave no place at all |
| ArchiveSizes.WrittenInPlace | lib/7z/7zIn.c:773-793 | that is where its streams are counted, if sizes are given or no folder has more than one stream, and only then |
| ArchiveSizes.GiveSizes | lib/7z/7zIn.c:1088-1118 | files with streams take the sizes in order, others have size 0 |
| ArchiveSizes.OffsetExact | lib/7z/7zIn.c:1392-1394 | the offset of a file is right exactly when no file before it in the folder has 2^32 bytes or more |
| ArchiveSizes.OffsetWrong | lib/7z/7zIn.c:1392-1394 | a file of 2^32 bytes, after which the next is looked for at the same place |
| ArchiveSizes.PlacedSized | lib/7z/7zIn.c:773-793 | what the loop over the folders writes are the sizes of the files of each complete folder |
| ArchiveSizes.Tiles | lib/7z/7zIn.c:1388-1397 | the ranges extracted tile the output of a complete folder if and only if the sizes given do not exceed it and no file but the last has 2^32 bytes or more |
| ArchiveSizes.Inside | lib/7z/7zIn.c:1388-1397 | if the sizes given do not exceed it, all of them lie inside; when no file but the last has 2^32 bytes or more, only if |
| ArchiveSizes.InsideAnyway | lib/7z/7zIn.c:1392-1397 | files that lie inside although the sizes given exceed it: some have 2^32 bytes or more |
| ArchiveExtract.Transparent | lib/7z/7zIn.c:1322-1402 | in any run of calls, as long as no folder has failed, each call gives what it gives with an empty cache |
| ArchiveExtract.CacheShows | lib/7z/7zIn.c:1347-1387 | in any reachable state the cache shows exactly when it holds what is left of a failure of the same folder |
| ArchiveExtract.FailureRemembered | lib/7z/7zIn.c:1347-1387 | an input on which it shows: a failed folder, then the same call again |
| ArchiveExtract.RangeTest | lib/7z/7zIn.c:1396-1397 | the test of the range, whose sum wraps at 64 bits, is right if and only if the sum is below 2^64 or what is left of it exceeds the buffer |
| ArchiveExtract.FoundMeans | lib/7z/7zIn.c:1388-1399 | a file whose range is inside the buffer is found exactly if its CRC, where there is one, is that of its bytes, and what is found are those bytes |
| ArchiveExtract.GivenFits | lib/7z/7zIn.c:1388-1399 | a file of a complete folder whose given sizes do not exceed it is found whole in the buffer, but for its CRC |
| ArchiveExtract.SizeWraps | lib/7z/7zIn.c:1396-1397 | an archive on which the test lets a range outside the buffer pass: 100 given of 50 |
| ArchiveExtract.Extractor.Extract | lib/7z/7zIn.c:1322-1402 | the fields and the result are those of the step on values, the place of the file being the sum of the sizes before it |
| LookToRead.Look.LookLookahead | lib/7z/7zStream.c:69-85 | shows bytes of the stream below at the logical position, none only if none are asked for or left |
| LookToRead.Look.LookExact | lib/7z/7zStream.c:87-104 | the same |
| LookToRead.Look.Skip | lib/7z/7zStream.c:106-111 | moves the logical position over what has been looked at |
| LookToRead.Look.Read | lib/7z/7zStream.c:113-125 | gives bytes of the stream below and moves on by as many |
| LookToRead.Look.Seek | lib/7z/7zStream.c:127-132 | the logical position is the one asked for, whatever was buffered, also past the end |
| LookToRead.Look.LookRead | lib/7z/7zStream.c:40-48 | looks in either way, copies and skips: gives bytes at the logical position and moves on by as many |
| LookToRead.Look.ReadAll | lib/7z/7zStream.c:50-62 | despite short reads, gives exactly the bytes asked for, and fails exactly when fewer are left |
| CodePoints.ValidatedExact | lib/utf8/utf8/core.h:223-272 | accepts exactly the characters of section 4 of RFC 3629, with their values and lengths |
| CodePoints.EncodedOfValue | lib/utf8/utf8/checked.h:73-96 | a character is the encoding of its value, which is a code point |
| CodePoints.ValueOfEncoded | lib/utf8/utf8/checked.h:73-96 | the encoding of a code point is a character with that value |
| CodePoints.NoPrefix | lib/utf8/utf8/core.h:100-113 | no character begins another |
| CodePoints.GetSequence3 | lib/utf8/utf8/core.h:179-195 | shifts and masks give the value of three bytes, or the first fault among them |
| CodePoints.GetSequence4 | lib/utf8/utf8/core.h:198-220 | the same for four bytes |
| CodePoints.ValidateNext | lib/utf8/utf8/core.h:223-272 | decodes as on values; on failure the iterator stays |
| CodePoints.Append | lib/utf8/utf8/checked.h:73-96 | appends the encoding of a code point, and refuses all else |
| CodePoints.Next | lib/utf8/utf8/checked.h:137-155 | one character, and past it; on failure the iterator stays |
| CodePoints.Prior | lib/utf8/utf8/checked.h:163-175 | what starts at the last byte before that does not trail |
| CodePoints.PriorOfNext | lib/utf8/utf8/checked.h:163-175 | from the end of a character it finds that character |
| CodePoints.DecodedText8 | lib/utf8/utf8/checked.h:137-155 | text made of code points decodes to them |
| CodePoints.TextDecoded8 | lib/utf8/utf8/checked.h:73-96 | text that decodes is made of what it decodes to |
| CodePoints.WellFormed8 | lib/utf8/utf8/core.h:299-303 | text is well-formed if and only if it is the characters of some code points |
| CodePoints.FindInvalid | lib/utf8/utf8/core.h:288-297 | the text up to the result is well-formed, and no character starts there; the end exactly on well-formed text |
| CodePoints.Utf16to8 | lib/utf8/utf8/checked.h:207-231 | fails exactly on ill-formed UTF-16, section 2 of RFC 2781; otherwise gives the same code points in UTF-8 |
| CodePoints.Utf8to16 | lib/utf8/utf8/checked.h:234-246 | fails exactly on ill-formed UTF-8; otherwise gives the same code points in UTF-16 |
| CodePoints.RoundTrip16 | lib/utf8/utf8/checked.h:207-246 | well-formed UTF-16 comes back |
| CodePoints.RoundTrip8 | lib/utf8/utf8/checked.h:207-246 | well-formed UTF-8 comes back |
| CodePoints.SurrogateBits | lib/utf8/utf8/checked.h:238-241 | a code point above 16 bits is 0x10000 and ten bits from each surrogate, as in section 2.1 of RFC 2781 |
| CodePoints.ReplacedValid | lib/utf8/utf8/checked.h:99-127 | whatever replace_invalid returns is well-formed |
| CodePoints.ReplacedSame | lib/utf8/utf8/checked.h:99-127 | well-formed text stays as it is |
| CodePoints.ReplacedExact | lib/utf8/utf8/checked.h:105-109 | with a valid replacement it returns if and only if the text does not stop in the middle of a sequence |
| CodePoints.ReplacedNot | lib/utf8/utf8/checked.h:110-121 | without one it returns if and only if the text is well-formed |
| CodePoints.StrayReplaced | lib/utf8/utf8/checked.h:111-114 | a byte that begins no sequence is replaced by itself |
| CodePoints.BrokenReplaced | lib/utf8/utf8/checked.h:115-123 | a byte that begins one is replaced together with all trailing bytes after it, if they make no character |
| CodePoints.ReplaceInvalid | lib/utf8/utf8/checked.h:99-127 | the loop does what the function on values does |

## Left out

- Everything outside `lib/7z` and `lib/utf8`: file systems, their classes, streams and locks.
- Allocation, reallocation and freeing; every allocation succeeds.
- CPU dispatch, and loads through cast pointers: a word is put together from its bytes.
- The error codes after SZ_ERROR_DATA and the fields a decoder is left with: nothing is claimed of them. In the source
  `LzmaDec_DecodeReal` keeps state and distances in locals and returns without storing them; the model keeps them in
  fields throughout. `Lzma2Dec_DecodeToDic` leaves its state at the start of a plain chunk for which there is no room;
  the model moves on.
- `code < range` for LZMA: initialisation does not check it, and no result needs it.
- `|=` of bits that do not overlap is addition here, masks and shifts are division and remainder; only CRC and the
  tables work on bit vectors. An iterator or pointer is an index, a buffer to read from a sequence.
- LzmaDec.Decoder.DecodeSymbol: gives the symbol as a value before anything is written, where the source writes a
  literal at once; the writes are in WriteSymbol.
- LzmaDec.Decoder.DecodeToBuf: the output is a returned sequence, not a buffer of the caller.
- Lzma2Dec.Decoder2.DecodeToDic: says of the dictionary what the history says, which is what was written since the
  last reset, not what earlier output is still there.
- Lzma2Dec_DecodeToBuf and Lzma2Decode, which wrap DecodeToDic as their LZMA counterparts do; Lzma2Dec_GetOldProps.
- Bcj2.Decode: locals of the source are fields of an object made for the call.
- Crc.UpdateT4: CrcUpdateT8, which only calls it, is not repeated.
- PpmdAlloc.Allocator.GlueFreeBlocks: addresses are unit numbers, so that a link read as stamp and size would have
  another value; the code never reads one so.
- PPMd statistics and models: `CreateSuccessors`, `UpdateModel`, `Rescale` and `Ppmd7Dec.c`.
- ArchiveExtract.Extractor.Extract: decoding a folder is a parameter; that a seek may fail before it, and 32-bit
  sizes of memory, are not modelled. Of a range outside the buffer it says only that the test lets it pass.
- ArchiveFolders.SzData.ReadNumber32: the second bound in the source holds by itself where sizes have 64 bits.
- ArchiveBytes.FolderRead: the writer is the model's own and uses one form for all its numbers; the others are in `NumberRead`.
- LzmaEncode.Decodes, Lzma2Encode.StreamDecodes, Bcj2Encode.StreamsDecode: the encoders are the model's own, as functions to
  prove with; lib/7z has none.
- The other parts of the 7z header: times, names, digests, attributes, packed headers.
- ArchiveFiles.Filler.Fill: the indices and positions of pack streams, which are plain sums (lines 186-199).
- ArchiveSizes.ReadSubSizes: it stops where a size has no place in the array; of what the source does then nothing is
  said.
- LookToRead.Look.Seek: only to absolute positions; relative to the current position the source seeks from where the
  stream below is. Errors of the stream below are not modelled.
- `advance`, `distance`, byte order marks, UTF-32 conversions, the iterator class and the unchecked half of `lib/utf8`.
