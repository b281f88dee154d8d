# DEFLATE, ZIP index, mesh and console models

Models, in Dafny, of four pieces of logic of the Lumos engine and its copy of OpenFBX:

- **The DEFLATE codec of miniz** (`Lumos/External/OpenFBX/miniz.c`), both sides of it. `Canonical` and `Format` are the reference: canonical prefix codes,
  and a machine without buffers or tables that reads one bit string (RFC 1951 and RFC 1950); `Halting` shows that it always stops. The inflater (`DecodeTable`,
  `HuffTable`, `BitInput`, `RingOutput`, `Adler`, `Inflater`, `Sessions`) is a resumable coroutine with look-up tables, a bit
  buffer and an output ring, and is proved to follow that machine however its input and output are cut into calls. The
  compressor builds Huffman codes in place (`RadixSort`, `MinRedundancy`, `TreeCode`, `OptimalCode`, `CodeLimit`, `CodeSizes`), which cost little more than the best
  ones (`LimitCost`, `SymbolCost`), so that every block fits the output buffer (`BlockSize`), parses the
  source (`Dictionary`, `Parser`), records and writes blocks (`LzBuffer`, `CodeLengths`, `BitOutput`, `BlockStart`,
  `DynamicStart`, `BlockWriter`, `BlockEnds`, `BlockFlush`, `Compressor`) and is proved to write bits that lead the same
  machine to the source (`Writing`, `LzCodes`, `Blocks`, `DynamicBlocks`). `RoundTrip` puts both together.
- **The ZIP name index** in the same file: `ZipNames`, `ZipIndex`.
- **Mesh rebuilding and the binary element reader** of OpenFBX (`Lumos/External/OpenFBX/ofbx.cpp`): `Triangles`, `VertexMap`, `ElementFormat`,
  `ElementReader`, `ElementFile`.
- **The console's ring of messages** (`Editor/Source/ConsoleWindow.cpp`): `Console`.

Counters that only grow (positions, block numbers, message counts) are unbounded numbers here; 16-bit and 32-bit arithmetic is
written out where it matters: the checksum, the bit and code buffers, hash chain entries, match distances, name lengths, stored
lengths and the version of a file.

Where the code and its documentation differ, the model follows the code:

- `Lumos/External/OpenFBX/miniz.h` says that after a checksum mismatch the next call returns "done"; the code reports the mismatch on
  every further call (`Sessions.CallAfterEnd`).
- A call that ends with "cannot make progress" leaves the bytes it has written out of the checksum, so a stream that is resumed
  after it can be refused although its output is right (`RoundTrip.Interrupted` gives the exact condition).
- The version of an element file is cut to 16 bits for the size of offsets but not for the length of the sentinel.

## Model

| member | source | states |
|---|---|---|
| Canonical.PrefixFree | Lumos/External/OpenFBX/miniz.c:887-900 | of the codes that both sides assign (section 3.2.2 of RFC 1951) none is a prefix of another, whenever the sizes leave room |
| Canonical.CompleteStarts | Lumos/External/OpenFBX/miniz.c:2517-2531 | in a complete code some symbol comes next whatever the bits are, so a decoder never meets a gap |
| Canonical.InnerTotal | Lumos/External/OpenFBX/miniz.c:2551-2570 | how many inner nodes a complete code has below each depth; this is why 576 slots of `m_tree` are enough |
| Canonical.ReverseCode | Lumos/External/OpenFBX/miniz.c:893-898 | the loop that turns a code around gives the number whose low bits, in sending order, are the code |
| Format.StepLocal | Lumos/External/OpenFBX/miniz.c:2404-2410 | a step of the reference machine depends only on the bits before the position it reaches; this is what makes the inflater resumable at any byte |
| Format.RunsUnique | Lumos/External/OpenFBX/miniz.c:2381-2858 | the reference machine is deterministic: two runs that stop have stopped in the same configuration |
| Format.RunsLocal | Lumos/External/OpenFBX/miniz.c:2404-2410 | a whole run of the machine is the same on any stream that agrees up to where it ends |
| Format.FixedOk | Lumos/External/OpenFBX/miniz.c:2481-2494 | the fixed codes of section 3.2.6 are complete, so their tables can be built |
| Format.CopyMatchAt | Lumos/External/OpenFBX/miniz.c:2713-2726 | every byte of a match is the byte `dist` before it, overlapping matches included (section 3.2.3) |
| Format.EndedNotLost | Lumos/External/OpenFBX/miniz.c:2381-2858 | a stream on which the machine ends properly is not one whose meaning the format leaves open |
| Halting.Ends | Lumos/External/OpenFBX/miniz.c:2381-2858 | on every stream, good or not, the reference machine stops after finitely many steps |
| Halting.BeforeEnd | Lumos/External/OpenFBX/miniz.c:2381-2858 | whatever the machine reaches on a stream, its output and its place are within those of its stop |
| HuffTable.HuffTable.Build | Lumos/External/OpenFBX/miniz.c:2511-2571 | building `m_look_up` and `m_tree` succeeds exactly for complete codes and codes of at most one symbol, and then the tables decode the canonical code; every write stays inside the arrays |
| HuffTable.HuffTable.Lookup | Lumos/External/OpenFBX/miniz.c:2347-2379 | for any bit buffer that starts with a code the 10-bit look-up and the tree walk give its symbol and its exact size |
| HuffTable.HuffTable.Peek | Lumos/External/OpenFBX/miniz.c:2316-2342 | the test whether a whole code is in hand says no exactly when no code is a prefix of the bits in hand |
| HuffTable.HuffTable.InsertLong | Lumos/External/OpenFBX/miniz.c:2551-2570 | walking a long code into the tree keeps every code already there and ends on a leaf for the new one |
| HuffTable.HuffTable.FillLookUp | Lumos/External/OpenFBX/miniz.c:2541-2549 | every index that begins with a short code gets the code's size and symbol, and no other index changes |
| HuffTable.FastResolves | Lumos/External/OpenFBX/miniz.c:2347-2379 | a non-negative look-up entry proves that the bits start with the code of its symbol |
| HuffTable.WalkResolves | Lumos/External/OpenFBX/miniz.c:2360-2370 | reaching a leaf proves that the bits start with the leaf's code |
| DecodeTable.NodesBounded | Lumos/External/OpenFBX/miniz.c:2551-2570 | a code that can be built never needs more tree nodes than the table has |
| DecodeTable.Finished | Lumos/External/OpenFBX/miniz.c:2511-2571 | a table that has taken in every symbol decodes its code |
| DecodeTable.AddLeaf | Lumos/External/OpenFBX/miniz.c:2569-2570 | writing the leaf of a code leaves all other codes decodable |
| BitInput.BitInput.Need | Lumos/External/OpenFBX/miniz.c:2280-2287 | bytes are read until there are enough bits, no bit is lost, and it fails only at the end of the input |
| BitInput.BitInput.PutBack | Lumos/External/OpenFBX/miniz.c:2805-2812 | bytes that were read ahead are returned, and the position in the bit stream stays the same |
| BitInput.BitInput.Fill | Lumos/External/OpenFBX/miniz.c:2316-2342 | one byte at a time is read, and none that is not needed to complete a code |
| BitInput.BitInput.HuffDecode | Lumos/External/OpenFBX/miniz.c:2347-2379 | the symbol decoded is the one that the reference machine decodes, wherever the call was interrupted |
| BitInput.EnoughBits | Lumos/External/OpenFBX/miniz.c:2620-2646 | fifteen bits are always enough for a symbol, which the fast loop relies on |
| RingOutput.RingOutput.CopyByte | Lumos/External/OpenFBX/miniz.c:2713-2726 | a byte copied from the ring is the byte `dist` back in the whole output |
| RingOutput.RingOutput.CopyRun | Lumos/External/OpenFBX/miniz.c:2754-2771 | the copy three bytes at a time gives what the byte-wise copy gives, overlapping or not |
| RingOutput.RingIndex | Lumos/External/OpenFBX/miniz.c:2713-2724 | `(ofs - dist) & mask` is the cell that holds the byte `dist` back, over any number of laps of the ring |
| Adler.UpdateAdler32 | Lumos/External/OpenFBX/miniz.c:39-65 | the checksum with a reduction every 5552 bytes, whose sums all stay below 2^32, is the per-byte definition of section 2.2 of RFC 1950 |
| Adler.Composes | Lumos/External/OpenFBX/miniz.c:39-65 | the checksum of a concatenation is the checksum of the second part started from that of the first |
| Adler.MostFits | Lumos/External/OpenFBX/miniz.c:39-65 | sums of up to 5552 bytes fit into 32 bits for any starting value that two 16-bit halves can hold |
| Adler.ReduceEarly | Lumos/External/OpenFBX/miniz.c:39-65 | reducing early does not change the checksum |
| Inflater.Inflater.DoSymbol | Lumos/External/OpenFBX/miniz.c:2602-2680 | one turn of the symbol loop makes the reference machine's step, or waits |
| Inflater.Inflater.DoCodeSizes | Lumos/External/OpenFBX/miniz.c:2572-2600 | the code-size loop makes the machine's steps, runs included |
| Inflater.Inflater.DoRawBytes | Lumos/External/OpenFBX/miniz.c:2455-2471 | the bulk copy of a stored block is the machine's byte-wise copy |
| Inflater.Inflater.DoCopy | Lumos/External/OpenFBX/miniz.c:2713-2771 | copying a match makes the machine's copy steps, as far as there is room |
| Inflater.Inflater.Resume | Lumos/External/OpenFBX/miniz.c:2381-2858 | the coroutine runs until it needs input or room or has ended, always terminates, and its output is a prefix of the machine's |
| Inflater.Inflater.Decompress | Lumos/External/OpenFBX/miniz.c:2381-2858 | one call: which bytes were taken and written, that the output continues the machine's output, and what each status means |
| Inflater.Inflater.Conclude | Lumos/External/OpenFBX/miniz.c:2800-2850 | the status of a call, and the checksum: it grows by what this call has written, unless the call failed or could not make progress |
| Sessions.Call | Lumos/External/OpenFBX/miniz.c:2404-2410 | a call in the middle of a stream, with any piece of input and any room, keeps the invariant; when the input is complete and no room is asked for, the inflater has finished |
| Sessions.Conforms | Lumos/External/OpenFBX/miniz.c:2381-2858 | a finished inflater has stopped where the reference machine stops, with the machine's output, and has used exactly the bytes of the stream |
| Sessions.Resumable | Lumos/External/OpenFBX/miniz.h:856-857 | two inflaters that went through the same stream with any two ways of cutting input and output end with the same output, verdict and number of bytes used, and the same checksum if no call that wrote something failed or could not make progress |
| Sessions.MemToCallback | Lumos/External/OpenFBX/miniz.c:2901-2928 | the driver through a 32K ring delivers the machine's output and says whether the stream was good; on a stream that the format gives a meaning a callback that takes as many pieces as the machine writes bytes is never overrun, and one that refuses has been given the beginning of that output |
| Sessions.CallAfterEnd | Lumos/External/OpenFBX/miniz.h:823-833 | once a stream has been read to its end every further call takes and writes nothing and gives the same answer, a checksum mismatch included |
| RadixSort.SortSyms | Lumos/External/OpenFBX/miniz.c:732-764 | the one or two byte passes sort stably by the 16-bit count; the second is left out only when it would change nothing |
| RadixSort.TwoPasses | Lumos/External/OpenFBX/miniz.c:732-761 | two stable passes, low byte first, sort by the whole key |
| MinRedundancy.CalculateMinimumRedundancy | Lumos/External/OpenFBX/miniz.c:766-819 | in place, for sorted weights: the array ends with the leaf depths of a tree made by always joining the two smallest weights |
| MinRedundancy.JoinAll | Lumos/External/OpenFBX/miniz.c:772-790 | the first phase leaves the parent of every inner node where its weight was |
| MinRedundancy.Leaves | Lumos/External/OpenFBX/miniz.c:796-818 | the last phase turns depths of inner nodes into depths of leaves within the same array |
| TreeCode.KraftEqual | Lumos/External/OpenFBX/miniz.c:766-819 | these lengths fill the code space exactly |
| TreeCode.LensFall | Lumos/External/OpenFBX/miniz.c:766-819 | heavier symbols have lengths that are no longer |
| TreeCode.CodeWeight | Lumos/External/OpenFBX/miniz.c:766-819 | the weighted length of the code is the total weight of the inner nodes |
| TreeCode.InnerBound | Lumos/External/OpenFBX/miniz.c:775-789 | no sum of weights exceeds the total, so 16-bit keys do not overflow when the total fits |
| TreeCode.DepthBound | Lumos/External/OpenFBX/miniz.c:875-876 | a code of length d takes a total weight of at least Fib(d + 2), so no length exceeds 22 and `num_codes` is indexed in range |
| TreeCode.NodeShare | Lumos/External/OpenFBX/miniz.c:766-819 | an inner node at depth d has at most one Fib(d + 1)th of the total weight |
| TreeCode.LeafShare | Lumos/External/OpenFBX/miniz.c:766-819 | so has a symbol whose code has length d |
| OptimalCode.LowerBound | Lumos/External/OpenFBX/miniz.c:766-819 | every code that fits the code space costs at least what joining the two smallest weights again and again does |
| OptimalCode.Optimal | Lumos/External/OpenFBX/miniz.c:766-819 | the total length is least among all codes whose sizes fit the code space |
| OptimalCode.OptimalPrefixCode | Lumos/External/OpenFBX/miniz.c:766-819 | the total length is least among all prefix codes |
| OptimalCode.PrefixSpace | Lumos/External/OpenFBX/miniz.c:766-819 | Kraft's inequality: the sizes of any prefix code fit the code space |
| CodeLimit.EnforceMaxCodeSize | Lumos/External/OpenFBX/miniz.c:826-848 | from any histogram that fills the code space, the repair loop ends with as many codes, none longer than the limit, and the code space exactly full; no size below some j has changed, and codes of size j are split only while the codes cut outnumber what is left of the code space |
| CodeLimit.SplitOne | Lumos/External/OpenFBX/miniz.c:838-847 | each pass takes exactly one off the excess, makes no count negative, and splits a code of the greatest size below the limit that there is |
| CodeLimit.TreeHistogram | Lumos/External/OpenFBX/miniz.c:875-878 | the sizes of a Huffman tree are what the limiter asks for |
| LimitCost.LimitedCost | Lumos/External/OpenFBX/miniz.c:826-848 | a code limited to 15 bits takes at most 0.8 bits (0.1 with 32 symbols or fewer) for each occurrence of a symbol more than the Huffman code that it is made from |
| SymbolCost.LimitedNear | Lumos/External/OpenFBX/miniz.c:850-884 | so it is within that of every code that fits the code space, whatever its sizes |
| CodeSizes.CodeTable.Optimize | Lumos/External/OpenFBX/miniz.c:850-900 | a code for exactly the symbols that occur, within the limit, complete if there are at least two, rarer symbols no shorter, nearly as short in total as any (for the limit of 15), and the canonical codes turned around for sending |
| CodeSizes.CodeTable.AssignCodes | Lumos/External/OpenFBX/miniz.c:887-900 | the codes assigned are those of the reference, which the decoder assigns too |
| BitOutput.BitOutput.PutBits | Lumos/External/OpenFBX/miniz.c:902-919 | the bits put are appended to all bits put before, as long as the buffer has room, and earlier bytes stay |
| Writing.StandStep | Lumos/External/OpenFBX/miniz.c:902-919 | writing the bits of a step leads the reference machine on by that step |
| Writing.StandSymbol | Lumos/External/OpenFBX/miniz.c:1189-1208 | writing a symbol's code leads the machine to what follows the symbol |
| LzCodes.LenCoded | Lumos/External/OpenFBX/miniz.c:665-684 | the length symbol and its extra bits give every match length back |
| LzCodes.DistCoded | Lumos/External/OpenFBX/miniz.c:685-727 | the distance symbol and its extra bits give every distance back |
| LzCodes.TokensStand | Lumos/External/OpenFBX/miniz.c:1175-1220 | block round trip: whatever literals and matches are written under the codes of a block, the machine reads back and expands to the same bytes |
| LzCodes.EndStands | Lumos/External/OpenFBX/miniz.c:1217 | symbol 256 ends the block for the machine, and the last block is followed by padding |
| LzBuffer.LzBuffer.RecordLiteral | Lumos/External/OpenFBX/miniz.c:1668-1679 | the literal is appended to the recorded tokens, its flag and its count with it, and everything recorded before stays readable |
| LzBuffer.LzBuffer.RecordMatch | Lumos/External/OpenFBX/miniz.c:1681-1709 | the same for a match: three bytes, a flag, and the counts of its two symbols |
| LzBuffer.LzBuffer.WriteCodes | Lumos/External/OpenFBX/miniz.c:1175-1220 | reading the groups of eight back, the bits written are those of exactly the recorded tokens, and the end of the block |
| LzBuffer.LzBuffer.Close | Lumos/External/OpenFBX/miniz.c:1246-1247 | shifting the flags of the last group down makes every recorded token readable |
| CodeLengths.Packer.Add | Lumos/External/OpenFBX/miniz.c:995-1016 | the body of the packing loop: the packed symbols and the run in hand are the sizes seen, and never are both run counters above zero |
| CodeLengths.Packer.Finish | Lumos/External/OpenFBX/miniz.c:1017-1024 | run-length round trip: unpacking as the inflater does gives the code sizes back, and the packed form is no longer than they are (section 3.2.7) |
| DynamicBlocks.ItemsStand | Lumos/External/OpenFBX/miniz.c:1043-1051 | the packed code sizes, written, are unpacked again by the machine |
| DynamicBlocks.TableStands | Lumos/External/OpenFBX/miniz.c:1028-1052 | the tables of a dynamic block, written, lead the machine to exactly the two codes that the block is written with |
| Blocks.StoredStands | Lumos/External/OpenFBX/miniz.c:1273-1285 | a stored block, from its header on, appends its bytes to the machine's output |
| Blocks.ZlibHeaderStands | Lumos/External/OpenFBX/miniz.c:1249-1253 | the two header bytes are a good zlib header for the machine |
| Blocks.TrailerStands | Lumos/External/OpenFBX/miniz.c:1301-1309 | the checksum, written high byte first, is the one the machine reads |
| BlockStart.SymBitsTrim | Lumos/External/OpenFBX/miniz.c:978-983 | leaving out unused symbols at the end of a table changes no code, so the decoder's shorter tables agree with the encoder's |
| BlockStart.StartStatic | Lumos/External/OpenFBX/miniz.c:1056-1075 | the fixed codes are assigned, and every recorded token can be written with them |
| BlockSize.TokensCost | Lumos/External/OpenFBX/miniz.c:1175-1220 | the bits of a block are, for any codes, what its symbol counts and code sizes say, and the extra bits |
| BlockSize.FixedTokensBits | Lumos/External/OpenFBX/miniz.h:656-671 | with the fixed codes literals and matches take less than 1.28 bits for each bit of the buffer they are recorded in, with 0.9 bits to spare for each |
| BlockSize.OwnCost | Lumos/External/OpenFBX/miniz.c:969-984 | with the codes made for it a block takes at most 0.9 bits for each literal or match, and for its end, more than with the fixed ones |
| DynamicStart.MakeCodes | Lumos/External/OpenFBX/miniz.c:969-984 | the block's own codes cover every recorded token and the end of the block, what is cut off the tables is unused, and the block is no longer than the output buffer has room for |
| DynamicStart.ItemsRoom | Lumos/External/OpenFBX/miniz.c:1014-1040 | the packed code sizes take at most seven bits for each size |
| DynamicStart.StartDynamic | Lumos/External/OpenFBX/miniz.c:969-1052 | the bits written are a table header that describes exactly the codes used |
| BlockWriter.OwnModest | Lumos/External/OpenFBX/miniz.c:1223-1230 | header, tables, literals and matches and end of a block with its own codes come to at most 673407 bits, which the output buffer has room for |
| BlockWriter.FixedEnds | Lumos/External/OpenFBX/miniz.c:1223-1230 | a whole block with fixed codes appends what its tokens expand to |
| BlockWriter.DynamicEnds | Lumos/External/OpenFBX/miniz.c:1223-1230 | so does a whole block with its own codes |
| BlockEnds.SyncMark | Lumos/External/OpenFBX/miniz.c:1311-1323 | the empty stored block of a flush adds nothing to the output and ends at a byte boundary |
| BlockEnds.PutEnd | Lumos/External/OpenFBX/miniz.c:1296-1310 | padding and checksum bring the machine to its end with that checksum |
| BlockFlush.PutStored | Lumos/External/OpenFBX/miniz.c:1266-1285 | the stored fallback writes the same source bytes, taken from the dictionary |
| BlockFlush.EmitBlock | Lumos/External/OpenFBX/miniz.c:1234-1294 | whichever form is chosen, the block appends exactly the source bytes it stands for, and leaves room for the end of the stream |
| Dictionary.Dictionary.Refill | Lumos/External/OpenFBX/miniz.c:1721-1767 | bytes go into the ring and its mirror, which go on holding the last source bytes as far back as the dictionary says |
| Dictionary.Dictionary.FindMatch | Lumos/External/OpenFBX/miniz.c:1438-1480 | whatever the hash chains hold, an improved match is at most as far back as the dictionary reaches, at most as long as the lookahead, and all its bytes are equal; it cannot be made longer; the loop ends |
| Dictionary.Dictionary.FindRun | Lumos/External/OpenFBX/miniz.c:1775-1790 | the run found is the longest of the byte before, or there is none of three bytes |
| Dictionary.ProbeSlot | Lumos/External/OpenFBX/miniz.c:1452-1456 | 16 bits of a position are enough to find it in the ring |
| Dictionary.HoldingAt | Lumos/External/OpenFBX/miniz.c:1729-1751 | ring and mirror can be read in a row from any position without wrapping round |
| Parser.CopySame | Lumos/External/OpenFBX/miniz.c:1681-1709 | expanding a match whose bytes are equal gives the source |
| Parser.Parser.Lazy | Lumos/External/OpenFBX/miniz.c:1801-1823 | with a match put off, what is recorded still stands for the source up to the byte before |
| Parser.Parser.Step | Lumos/External/OpenFBX/miniz.c:1769-1838 | each round of the lazy or greedy parse keeps: the tokens since the last block expand to exactly the source bytes passed, less one while a match is put off |
| Compressor.OutputBuffer.Put | Lumos/External/OpenFBX/miniz.c:2018-2041 | bytes are taken if there is room or room can be made by doubling, and refused otherwise, unchanged |
| Compressor.Compressor.FlushBlock | Lumos/External/OpenFBX/miniz.c:1232-1363 | a flush writes what was recorded, hands every whole byte on, and leaves the machine before the next block or at the end; the assertion that the output buffer has room left always holds, and the flush fails only if the caller's room is too small for the stream so far |
| Compressor.Compressor.CompressNormal | Lumos/External/OpenFBX/miniz.c:1711-1849 | the loop takes in all input and ends; blocks are written on the way, and the invariant of the stream holds after each |
| Compressor.Compressor.Compress | Lumos/External/OpenFBX/miniz.c:1877-1943 | a call: when it is refused, that all input is taken, that after a flush the bytes handed on are a stream for everything so far, and that it fails only if the caller's room is too small for the stream of a part of the source |
| RoundTrip.Inflates | Lumos/External/OpenFBX/miniz.c:2381-2858 | inflating a finished stream gives the source back, uses every byte, and ends with the source's checksum, however it is cut |
| RoundTrip.InflatesFlushed | Lumos/External/OpenFBX/miniz.c:1311-1323 | what was compressed before a flush can be inflated without what comes after |
| RoundTrip.Interrupted | Lumos/External/OpenFBX/miniz.h:814-818 | resuming after a call that ended with "cannot make progress" still gives the source, and the stream is accepted exactly when the bytes that call did not write have the checksum of all |
| RoundTrip.CompressMemToOutput | Lumos/External/OpenFBX/miniz.c:1996-2010 | the stream of a whole buffer is complete for it, or what is written for a part of it does not fit |
| RoundTrip.CompressMemToHeap | Lumos/External/OpenFBX/miniz.c:2043-2056 | compressing a buffer to the heap always succeeds, with a complete stream for it |
| RoundTrip.CompressMemToMem | Lumos/External/OpenFBX/miniz.c:2058-2069 | so does compressing into a given room, unless the stream for a part of the buffer is already longer than the room |
| RoundTrip.RoundTrip | Lumos/External/OpenFBX/miniz.c:2043-2056 | compressing any buffer and inflating the result through the ring gives the buffer back, with every choice of options |
| ZipNames.Directory.FilenameLess | Lumos/External/OpenFBX/miniz.c:3413-3429 | the comparison loop decides the order of folded names, a beginning before what it begins |
| ZipNames.Directory.FilenameCompare | Lumos/External/OpenFBX/miniz.c:4246-4261 | it is 0 exactly for the name itself cut to 32 bits of length, and has the right sign whenever a file can have that name |
| ZipNames.LessTotal | Lumos/External/OpenFBX/miniz.c:3413-3429 | of two names one comes first or they are the same but for case |
| ZipNames.LessTransitive | Lumos/External/OpenFBX/miniz.c:3413-3429 | the order is transitive, as sorting needs |
| ZipNames.LessIrreflexive | Lumos/External/OpenFBX/miniz.c:3413-3429 | no name comes before one that is the same but for case |
| ZipIndex.SiftDown | Lumos/External/OpenFBX/miniz.c:3460-3472 | sifting down restores the heap and keeps the entries |
| ZipIndex.SortByFilename | Lumos/External/OpenFBX/miniz.c:3442-3492 | the heap sort leaves every file number once, sorted by folded name |
| ZipIndex.HeapTop | Lumos/External/OpenFBX/miniz.c:3478-3490 | the root of a heap comes after all its entries |
| ZipIndex.BinarySearch | Lumos/External/OpenFBX/miniz.c:4263-4301 | it finds a file exactly when some file has the name sought, and then one that has it |
| ZipIndex.Scan | Lumos/External/OpenFBX/miniz.c:4331-4374 | the scan finds the first file of that name, and refuses names of more than 65535 characters |
| ZipIndex.Agree | Lumos/External/OpenFBX/miniz.c:4263-4374 | search and scan agree exactly when the name is shorter than 2^32 or no file has what is left of it |
| ZipIndex.Disagree | Lumos/External/OpenFBX/miniz.c:4270 | a name of 2^32 characters is found as the empty name |
| ZipIndex.SameFile | Lumos/External/OpenFBX/miniz.c:4263-4374 | when names are unique, both find the same file |
| Triangles.Coded | Lumos/External/OpenFBX/ofbx.cpp:2233-2242 | coding and decoding an index are inverse, and the sign marks the last corner |
| Triangles.Triangulate | Lumos/External/OpenFBX/ofbx.cpp:2378-2415 | for every index list: what is pushed, and that each old vertex is the decoded index at its old place |
| Triangles.PushedFan | Lumos/External/OpenFBX/ofbx.cpp:2378-2415 | polygons of at least three corners are cut into the fan (first, previous, current) |
| Triangles.FanIff | Lumos/External/OpenFBX/ofbx.cpp:2378-2415 | the pushed corners are those of the fans exactly when every polygon has at least three corners |
| Triangles.FanOwn | Lumos/External/OpenFBX/ofbx.cpp:2378-2415 | the three corners of a triangle are different and of one polygon |
| Triangles.CornersAt | Lumos/External/OpenFBX/ofbx.cpp:2378-2415 | triangle t is pushed as corners 3t, 3t + 1 and 3t + 2 |
| Triangles.GetTriCountFromPoly | Lumos/External/OpenFBX/ofbx.cpp:2347-2357 | for every list with a last corner two or more places on: how far the place moves and what is counted, whatever the polygons are |
| Triangles.CountsPoly | Lumos/External/OpenFBX/ofbx.cpp:2347-2357 | a polygon's triangles are counted, and the place moves to the next polygon, exactly when the polygon has at least three corners; otherwise too many are counted |
| Triangles.ParseMaterials | Lumos/External/OpenFBX/ofbx.cpp:2480-2487 | for every index list whose end the counting does not run over: which materials are pushed, and how far the counting comes |
| Triangles.MaterialsIff | Lumos/External/OpenFBX/ofbx.cpp:2480-2487 | these are, triangle for triangle, the materials of the triangles' own polygons exactly when all polygons passed have at least three corners; otherwise there are too many |
| Triangles.ReadsIff | Lumos/External/OpenFBX/ofbx.cpp:2480-2487 | with a material for every polygon the counting stays inside the list exactly when every polygon has at least three corners, and then comes to its end |
| Triangles.MaterialOf | Lumos/External/OpenFBX/ofbx.cpp:2480-2487 | triangle t has the material of the polygon of its corners |
| VertexMap.Add | Lumos/External/OpenFBX/ofbx.cpp:2360-2375 | the index goes to the end of the linked list and nothing else changes |
| VertexMap.BuildInverse | Lumos/External/OpenFBX/ofbx.cpp:2443-2450 | the list at an old vertex holds, in order, exactly the new positions that come from it; lists share no node |
| VertexMap.PositionsPartition | Lumos/External/OpenFBX/ofbx.cpp:2443-2450 | every new position is in the list of its source, once, and in no other |
| VertexMap.PositionsIncrease | Lumos/External/OpenFBX/ofbx.cpp:2443-2450 | and the positions in a list increase |
| VertexMap.BuildGeometryVertexData | Lumos/External/OpenFBX/ofbx.cpp:2418-2451 | new vertices, indices and both maps, with and without triangulation |
| VertexMap.ExpandCluster | Lumos/External/OpenFBX/ofbx.cpp:1262-1300 | the cluster's vertices and weights are spread over the new positions |
| VertexMap.OwnWeight | Lumos/External/OpenFBX/ofbx.cpp:1280-1296 | every new vertex has the weight of its own source vertex |
| VertexMap.AllExpanded | Lumos/External/OpenFBX/ofbx.cpp:1280-1296 | every new vertex of a vertex in the cluster is there, once if the cluster names no vertex twice |
| VertexMap.Splat | Lumos/External/OpenFBX/ofbx.cpp:2246-2296 | one attribute for every corner, or a default where there is none |
| VertexMap.Remap | Lumos/External/OpenFBX/ofbx.cpp:2299-2313 | one attribute for every new vertex, or a default |
| VertexMap.NewAttributes | Lumos/External/OpenFBX/ofbx.cpp:2246-2313 | both together: every new vertex has the attribute of its own source vertex or corner |
| ElementReader.Reader.ReadProperty | Lumos/External/OpenFBX/ofbx.cpp:566-617 | a property that is there is read whole, with its value's place, and the cursor moves behind it |
| ElementReader.Reader.ReadProperties | Lumos/External/OpenFBX/ofbx.cpp:655-666 | the properties become a chain in order |
| ElementReader.Reader.ReadChildren | Lumos/External/OpenFBX/ofbx.cpp:672-686 | the children become a chain of siblings in order |
| ElementReader.Reader.ReadElement | Lumos/External/OpenFBX/ofbx.cpp:635-693 | an element laid out at the cursor becomes records with the same properties, children and siblings, and reading stops at its recorded end |
| ElementFormat.LinkedKept | Lumos/External/OpenFBX/ofbx.cpp:672-686 | linking a later sibling does not disturb the records before it |
| ElementFile.Tokenize | Lumos/External/OpenFBX/ofbx.cpp:943-972 | the elements of a file become the children of the root, up to the empty element |
| ElementFile.BytesAt | Lumos/External/OpenFBX/ofbx.cpp:635-693 | what the reference encoder writes is an element as the reader expects it, with 13-byte and with 25-byte sentinels |
| ElementFile.RoundTrip | Lumos/External/OpenFBX/ofbx.cpp:943-972 | every encoded file of element trees is read back, each element, property and link |
| Console.ConsoleWindow.AddMessage | Editor/Source/ConsoleWindow.cpp:24-66 | the ring stands for a bounded list, oldest first: a message that is there is counted, a new one is appended, and the oldest makes way when the ring is full |
| Console.ConsoleWindow.FindOld | Editor/Source/ConsoleWindow.cpp:31-42 | the first scan, which does not ask whether a slot is occupied, is safe and finds the message if it is there |
| Console.ConsoleWindow.AllOccupied | Editor/Source/ConsoleWindow.cpp:30-33 | an occupied slot at `begin` means that all slots are |
| Console.ConsoleWindow.Flush | Editor/Source/ConsoleWindow.cpp:68-74 | the list is empty, and the size stays as it was |
| Console.ConsoleWindow.SizeIsLength | Editor/Source/ConsoleWindow.cpp:57-74 | over every run the recorded size is the number of messages exactly when the list is full or nothing stored has been flushed |
| Console.ConsoleWindow.ReadOut | Editor/Source/ConsoleWindow.cpp:150-188 | messages are shown in the order of the list |
| Console.SizeAfterFlush | Editor/Source/ConsoleWindow.cpp:68-74 | after one message and a flush the size is 1 and the list is empty |
| Console.LogDistinct | Editor/Source/ConsoleWindow.cpp:24-66 | no two messages in the ring have the same ID |
| Console.Stored | Editor/Source/ConsoleWindow.cpp:57-61 | taking the slot at `begin` appends to the list, dropping the oldest if it was full |
| Console.Conserved | Editor/Source/ConsoleWindow.cpp:24-66 | before the ring is full every arrival adds to the counts |
| Console.RunCounts | Editor/Source/ConsoleWindow.cpp:24-66 | after any run with no more different messages than slots, every message is there once, with the number of times it came |

## Left out

- Unaligned and 64-bit variants of the match finder and of the code writer, and `tdefl_compress_fast`: they duplicate the portable paths.
- Compressing into a buffer of the caller's (`pOut_buf`), with what is left over kept for the next call: only output through a function is modelled.
- CodeLimit.EnforceMaxCodeSize: the limited code is complete, ordered by weight and nearly the shortest, but not always the shortest within the limit; the repair loop does not promise that.
- Sessions.MemToCallback: takes a limit on the pieces delivered and claims nothing for streams whose meaning the format leaves open (symbols 286 and 287, distances beyond the output of a wrapping ring, bits that start no code).
- Inflater: an output ring that wraps and has no cells is excluded, and so are streams longer than the number of bytes a machine can address.
- The order in which the fast loop looks up the second of two literals before it writes the first: the model looks up one symbol at a time.
- That matches after a full flush do not reach back before it.
- Searching with a comment, with case or without paths, and everything else about ZIP files: reading, writing, ZIP64 fields.
- CRC-32, the PNG writer, allocation failures and stdio in miniz.
- Files with broken element trees: reads past the end of the file that the original does not guard are errors here.
- Decompressing property arrays, text files, materials, curves and matrices in OpenFBX.
- Corners that point beyond the vertices of a mesh: the original indexes its vectors unchecked.
- Console filters, colours and scrolling other than the request to scroll; the wrap-around of a message's count.
