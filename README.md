# Huffman file and folder compressor — a Dafny model

This project models the in-memory core of a small Huffman compressor written
in C++. It covers four parts:

- **The min-heap** (`minHeap<T, Comparator>`): a vector of elements with a
  strict "less than" comparator. `insert` sifts the new element up
  (`heapify`). `extractMin` moves the last element to the root and sifts it
  down (`soak`), and throws `underflow_error` on an empty heap. `buildHeap`
  soaks every inner slot, last first.
- **The Huffman codec** (`huffmanCompress`):
  - `buildTree` counts byte frequencies into `freq` and puts one leaf per
    present byte into the persistent member queue `pq`.
  - It then merges a copy of `pq` two trees at a time until one remains. An
    orientation fix keeps a leaf off the left of an internal node.
  - `generateCodes` gives every leaf its root-to-leaf path ('0' left, '1'
    right), and a lone symbol gets "0".
  - The data is encoded, zero-padded in front to whole bytes and split
    most-significant bit first (`binary_to_decimal`).
  - The reader decodes greedily.
- **The file record** written by `compressFileUtil` and read back by
  `decompressFileUtil`:
  - the symbol count as a `char`;
  - one (symbol, code length, code as '0'/'1' characters) entry per symbol,
    in the order `pq` is drained;
  - a 4-byte little-endian bit count;
  - the padding byte;
  - the packed payload.

  The `.huff` file of `compressFile` has the same layout without the count.
- **The folder container**:
  - `compressFolder` writes `'<' path '|'` for a directory and
    `'>' path '|' record` for a file, in traversal order.
  - `decompressFolder` replays the container.
  - `info` lists it.

Modules, one per file:

- `Bytes` (`bytes.dfy`): bytes, `Option`, and the `char` casts.
- `Bits` (`bits.dfy`): bit strings, padding, packing and the 32-bit
  little-endian field.
- `Huffman` (`huffman.dfy`): the tree, code table, encoding and greedy
  decoding as functions.
- `TreeBuild` (`treebuild.dfy`): the frequency table, the initial leaves and
  the merge rounds as functions.
- `Format` (`format.dfy`):
  - the record layout, and the reader as functions over a buffer with a
    moving position;
  - the record round trips.
- `Heap` (`heap.dfy`): the class `MinHeap`.
- `Compressor` (`compressor.dfy`):
  - the class `HuffmanCompress`, with the fields `root` and `pq`;
  - `buildTree`, `compressFileUtil` and `compressFile` as methods with
    loops.
- `Decompressor` (`decompressor.dfy`): `decompressFileUtil` and its loops as
  methods, each proved equal to the reader functions of `Format`.
- `Container` (`container.dfy`): `compressFolder`, `decompressFolder` and
  `info`, as methods and functions, with the container round trip.

Modelling choices:

- Bytes are the values 0..255. Every place where the source reads a byte into
  a signed `char` is explicit (`SignedChar`).
- `compressedData[i]` at `i == size()` reads the terminating '\0'. Beyond
  that the read is undefined, and the model reports an error.
- File contents and the directory traversal are parameters: a byte sequence,
  and a list of directory and file entries in traversal order.
- Where the source prints something, the model returns it as data.

## Model

| member | source | states |
|---|---|---|
| Bytes.SignedChar | huffmanCompress.cpp:399 | a byte read as `char` is negative exactly when it is 128 or more, and agrees with the byte modulo 256 |
| Bytes.Truncate | huffmanCompress.cpp:344 | the `(char)` cast keeps values below 256 and agrees with its argument modulo 256 |
| Bits.BinaryToDecimal | huffmanCompress.cpp:515-521 | a string of n bits has a value in 0 .. 2^n - 1 |
| Bits.ToBitsOfBinary | huffmanCompress.cpp:380 | `bitset<n>(binary_to_decimal(s)).to_string()` gives back the bit string `s` |
| Bits.BinaryOfToBits | huffmanCompress.cpp:451 | writing a value below 2^n in n bits and reading it back gives the value |
| Bits.Padding | huffmanCompress.cpp:373 | the padding lies in 0..7, makes the bit count a multiple of 8, and is 0 exactly when the count already is |
| Bits.Pack | huffmanCompress.cpp:378-382 | one byte per 8 bits |
| Bits.UnpackPack | huffmanCompress.cpp:378-382 | unpacking each byte to its 8 bits gives back the packed bit string |
| Bits.UnpackAppend | huffmanCompress.cpp:446-452 | unpacking a concatenation is the concatenation of the unpacked parts |
| Bits.PackPadded | huffmanCompress.cpp:373-382 | the padded payload has exactly ceil(n / 8) bytes |
| Bits.PackPaddedUnpacks | huffmanCompress.cpp:375-382 | the payload unpacks to the zero padding followed by the code bits |
| Bits.Unpack | huffmanCompress.cpp:446-452 | each byte read becomes 8 bits, so the bit string is 8 times as long as the bytes; its contents are stated by Bits.UnpackPack and Bits.UnpackAppend |
| Bits.FromLittleEndian32 | huffmanCompress.cpp:424-428 | the value read from four bytes lies below 2^32 |
| Bits.LittleEndian32 | huffmanCompress.cpp:366-370 | the field is written as exactly four bytes; Bits.LittleEndian32RoundTrip states their value |
| Bits.LittleEndian32RoundTrip | huffmanCompress.cpp:366-370 | the four bytes written read back as the value modulo 2^32 |
| Huffman.CompareNodeOrder | huffmanCompress.h:23-29 | `CompareNode` is irreflexive, asymmetric and transitive, and never orders nodes of equal frequency |
| Huffman.GenerateCodes | huffmanCompress.cpp:46-60 | definition; specified by Huffman.GenerateCodesSpec and Huffman.RootCodesArePaths |
| Huffman.LeafPathsPrefixFree | huffmanCompress.cpp:46-60 | of two root-to-leaf paths, one is a prefix of the other only when they are equal |
| Huffman.LeafPathShape | huffmanCompress.cpp:46-60 | a root-to-leaf path is a bit string, empty exactly for a single-leaf tree, and ends at a symbol of the tree |
| Huffman.GenerateCodesSpec | huffmanCompress.cpp:46-60 | `generateCodes` from prefix `code` adds exactly the tree's symbols, leaves other entries alone, and gives each symbol `code` followed by its path |
| Huffman.RootCodesArePaths | huffmanCompress.cpp:46-60 | every code assigned from the root is the bit-string path to that symbol's leaf |
| Huffman.LoneFix | huffmanCompress.cpp:328-335 | the fix keeps the table's symbols and changes nothing unless the table has exactly one entry |
| Huffman.CodeTable | huffmanCompress.cpp:325-335 | every code of the table the compressor encodes with is a string of '0' and '1'; Huffman.CodeTableProperties states the rest |
| Huffman.CodeTableProperties | huffmanCompress.cpp:46-60 | after the lone-symbol fix every symbol of the tree has a non-empty bit-string code, and the table is prefix-free |
| Huffman.CodeLengthBound | huffmanCompress.cpp:46-60 | no code is longer than the number of leaves |
| Huffman.Encode | huffmanCompress.cpp:337-339 | with a table of bit-string codes, the encoded data is a bit string; Huffman.EncodeAppend and Huffman.DecodeEncode state its contents |
| Huffman.EncodeAppend | huffmanCompress.cpp:337-339 | the encoding of a concatenation is the concatenation of the encodings |
| Huffman.FirstMatchSpec | huffmanCompress.cpp:466-478 | the inner decoding loop stops at the shortest prefix in the table, or finds none |
| Huffman.FirstMatchOfCode | huffmanCompress.cpp:466-478 | on a code that no other code is a prefix of, followed by anything, the inner loop stops right after that code |
| Huffman.FirstMatch | huffmanCompress.cpp:466-478 | a match found is at least the starting length, lies within the bits, and its prefix is a code of the table |
| Huffman.Decode | huffmanCompress.cpp:460-485 | definition; specified by Huffman.DecodeStep and Huffman.DecodeEncode |
| Huffman.DecodeStep | huffmanCompress.cpp:460-485 | decoding such a code followed by more bits emits its symbol and goes on with the rest |
| Huffman.DecodeEncode | huffmanCompress.cpp:460-485 | greedy decoding of the encoded data followed by any tail gives the data followed by the decoding of the tail |
| TreeBuild.FrequenciesAppend | huffmanCompress.cpp:6-10 | one more byte adds one to its own count and to no other |
| TreeBuild.SumFrequencies | huffmanCompress.cpp:6-10 | the counts add up to the length of the text |
| TreeBuild.Frequencies | huffmanCompress.cpp:6-10 | `freq` has one count for each of the 256 byte values; TreeBuild.FrequenciesAppend and TreeBuild.SumFrequencies state the counts |
| TreeBuild.InitialLeaves | huffmanCompress.cpp:13-19 | definition; specified by TreeBuild.InitialLeavesMembers, TreeBuild.InitialLeavesStep and TreeBuild.InitialLeavesTotal |
| TreeBuild.InitialLeavesMembers | huffmanCompress.cpp:13-19 | the leaves inserted for the first i byte values are exactly one leaf per present byte below i, with its count |
| TreeBuild.InitialLeavesStep | huffmanCompress.cpp:13-19 | each byte value adds its leaf when its count is not zero, and nothing otherwise |
| TreeBuild.InitialLeavesTotal | huffmanCompress.cpp:13-19 | the leaves' frequencies add up to the counts seen so far |
| TreeBuild.LeavesOfText | huffmanCompress.cpp:6-19 | there are no leaves exactly for empty text; the leaves' frequencies add up to the text length; they are well formed |
| TreeBuild.MergedLeaves | huffmanCompress.cpp:30-38 | the merged node, in either orientation, has the leaves and the total frequency of the two trees |
| TreeBuild.MergeBag | huffmanCompress.cpp:26-38 | a merge round takes two trees out of the forest and puts their merge in |
| TreeBuild.MergeKeepsTotal | huffmanCompress.cpp:26-38 | a merge round keeps the forest's total frequency |
| TreeBuild.MergeKeepsLeaves | huffmanCompress.cpp:26-38 | a merge round keeps the forest's leaves |
| TreeBuild.MergeKeepsWellFormed | huffmanCompress.cpp:30-38 | a merge oriented so that no leaf sits left of an internal node keeps every tree well formed |
| TreeBuild.MergeRoundBag | huffmanCompress.cpp:26-38 | a merge round on the heap's bag of trees gives a forest with those two trees removed |
| TreeBuild.MergedFromText | huffmanCompress.cpp:24-42 | the tree merged from a text's leaves has exactly those leaves, frequency equal to the text length, and is well formed |
| Format.SymbolsAppend | huffmanCompress.cpp:345-349 | draining one more node appends its symbol to the header order |
| Format.HeaderAppend | huffmanCompress.cpp:345-356 | one more drained node appends its (symbol, length, code) entry to the header |
| Format.Header | huffmanCompress.cpp:345-356 | definition; specified by Format.HeaderAppend and Format.HeaderParses |
| Format.RecordBytes | huffmanCompress.cpp:312-382 | a record is at least one byte long; Format.IntendedRecordRoundTrip and Format.WrittenRecordRoundTrip state how it reads back |
| Format.SingleFileBytes | huffmanCompress.cpp:139-166 | the `.huff` file is at least two bytes long; Format.SingleFileIsRecordWithoutCount relates it to the record |
| Format.SingleFileIsRecordWithoutCount | huffmanCompress.cpp:139-166 | the `.huff` layout of `compressFile` is the record layout of `compressFileUtil` with the 4-byte count left out |
| Format.At | huffmanCompress.cpp:399 | a read succeeds exactly up to and including the terminating '\0' |
| Format.Read | huffmanCompress.cpp:412-418 | a read of `len` bytes gives `len` bytes, and succeeds exactly when it ends at or before the terminating '\0' |
| Format.ParseRecord | huffmanCompress.cpp:389-502 | `decompressFileUtil` always returns a position after the one it started from |
| Format.ParseTable | huffmanCompress.cpp:408-422 | a table read that succeeds ends at or after where it began; Format.HeaderParses states what it reads |
| Format.TableAt | huffmanCompress.cpp:408-485 | the reader after a positive symbol count ends after where the table began |
| Format.CountAt | huffmanCompress.cpp:424-485 | the reader after the table ends after the 4-byte field's start |
| Format.PayloadAt | huffmanCompress.cpp:440-485 | the payload read ends after the padding byte |
| Format.HeaderParses | huffmanCompress.cpp:408-422 | the header loop reads back a written header, with codes shorter than 128, as the inverse code table, and stops right after it |
| Format.EntryParses | huffmanCompress.cpp:410-422 | one written header entry reads back as its code mapped to its symbol |
| Format.InverseSpec | huffmanCompress.cpp:421 | the rebuilt table maps each written code back to its symbol and holds nothing else |
| Format.BuiltFacts | huffmanCompress.cpp:3-44 | after `buildTree` every byte of the data is a leaf of the tree and has a header entry, and there is one entry per leaf |
| Format.InverseDecodable | huffmanCompress.cpp:421 | under a prefix-free table every written symbol decodes through the rebuilt table |
| Format.ReaderCodesDecode | huffmanCompress.cpp:408-485 | every byte of the data decodes through the table rebuilt from the header |
| Format.HeaderCodesShort | huffmanCompress.cpp:344-356 | with fewer than 128 leaves the count and every code length read back as non-negative `char`s |
| Format.BuiltReadable | huffmanCompress.cpp:321-356 | the header of a tree with fewer than 128 leaves is readable for the data it was built from |
| Format.RecordPrefixReads | huffmanCompress.cpp:399-429 | the reader goes from the count byte through the table and the 4-byte field to the padding byte |
| Format.IntendedFieldRounds | huffmanCompress.cpp:440-444 | with the bit count itself in the field, the reader takes exactly the bytes written |
| Format.WrittenFieldRounds | huffmanCompress.cpp:366 | with bit count + 1 in the field, the reader takes exactly the bytes written unless the bit count is a multiple of 8, and then one byte more |
| Format.RecordReadsExactly | huffmanCompress.cpp:399-485 | a record whose field rounds to the bytes written reads back as its data and ends where it ends |
| Format.RecordReadsOneMore | huffmanCompress.cpp:399-485 | a record whose field rounds to one byte more reads back as its data followed by the decoding of the next byte, ending one byte late |
| Format.EmptyRecordReads | huffmanCompress.cpp:399-406 | the single byte 0 reads back as empty data and ends after one byte |
| Format.IntendedRecordRoundTrip | huffmanCompress.cpp:399-485 | with the bit count itself in the field, every record reads back as its data and ends exactly where it ends |
| Format.WrittenRecordRoundTrip | huffmanCompress.cpp:366-382 | a record as written, with bit count + 1, reads back when the bit count is not a multiple of 8; Format.WrittenRecordOverReads covers the other case |
| Format.WrittenRecordOverReads | huffmanCompress.cpp:440-446 | a record as written whose bit count is a multiple of 8 reads one byte past its end and decodes that byte too |
| Format.FullAlphabetReadsEmpty | huffmanCompress.cpp:344 | a record of data using all 256 byte values writes a count of 0 and reads back as empty data, one byte long |
| Format.SignedCountFails | huffmanCompress.cpp:399-410 | a record of data using 128 to 255 byte values has a negative count and does not read back |
| Heap.Parent | minHeap.h:13 | the parent of a slot other than the root comes before it; the root is its own parent |
| Heap.Left | minHeap.h:14 | the left child comes after its parent and has it as parent |
| Heap.Right | minHeap.h:15 | the right child follows the left child and has the same parent |
| Heap.ChildrenOf | minHeap.h:13-15 | the only slots with parent `i` are its left and right child |
| Heap.RootIsMin | minHeap.cpp:19-31 | in a heap the root is no greater than any element |
| Heap.SwapDownReady | minHeap.cpp:56-59 | swapping a slot with its smaller, strictly smaller child moves the only heap-order violation down to that child |
| Heap.MinChild | minHeap.cpp:47-54 | the slot chosen as smallest is no greater than either child |
| Heap.SoakStop | minHeap.cpp:56 | when no child is smaller, the subtree is a heap |
| Heap.SwapPermutes | minHeap.cpp:38 | a swap only permutes the elements |
| Heap.LastToRoot | minHeap.cpp:24-26 | moving the last element to the root and popping removes exactly the old root |
| Heap.LastToRootReady | minHeap.cpp:24-28 | after that move only the root may be out of heap order |
| Heap.SwapUpReady | minHeap.cpp:36-39 | swapping a slot with its strictly greater parent moves the only heap-order violation up and permutes the elements |
| Heap.HeapifyStop | minHeap.cpp:36 | at the root, or below a parent that is not greater, the heap property holds everywhere |
| Heap.MinHeap.constructor | minHeap.h:18 | a new heap is empty and satisfies the heap property |
| Heap.MinHeap.WithCapacity | minHeap.h:19 | reserving capacity still gives an empty heap |
| Heap.MinHeap.FromSeq | minHeap.h:20 | building from a sequence gives a heap holding the same elements |
| Heap.MinHeap.Copy | huffmanCompress.cpp:23 | the copy has the same contents and comparator |
| Heap.MinHeap.Size | minHeap.cpp:82-85 | the size is the number of stored elements |
| Heap.MinHeap.Empty | minHeap.cpp:88-91 | the heap is empty exactly when it stores no element |
| Heap.MinHeap.BuildHeap | minHeap.cpp:4-9 | the result is a heap and a permutation of the input |
| Heap.MinHeap.Insert | minHeap.cpp:12-16 | the heap stays a heap, grows by one and gains exactly the new element |
| Heap.MinHeap.ExtractMin | minHeap.cpp:19-31 | an empty heap reports underflow and is unchanged; otherwise the result was stored, no element is less than it, and exactly it is removed from a heap that stays a heap |
| Heap.MinHeap.Heapify | minHeap.cpp:34-41 | sifting up from the only misplaced slot gives a heap with the same elements |
| Heap.MinHeap.Soak | minHeap.cpp:45-61 | sifting down from the only misplaced slot restores the heap property there and below, and only permutes the elements |
| Heap.MinHeap.SmallestOf | minHeap.cpp:47-54 | the slot chosen is the slot itself or a child strictly less than it, and is no greater than any child |
| Compressor.CountFrequencies | huffmanCompress.cpp:6-10 | the table holds each byte's number of occurrences, and the counts add up to the text length |
| Compressor.MergeRound | huffmanCompress.cpp:26-38 | one round underflows exactly on an empty heap; otherwise it takes out a tree `a` of least frequency and a tree `b` of least frequency among the rest, puts in their oriented merge, shrinks the heap by one, and keeps its leaves, its total frequency and well-formedness |
| Compressor.Join | huffmanCompress.cpp:29-38 | the inserted node sums the two frequencies, holds the two trees in one order or the other, and never has a leaf on the left of an internal node |
| Compressor.TakeTwo | huffmanCompress.cpp:26-27 | the two `extractMin` calls underflow exactly on an empty heap; otherwise the first is of least frequency, the second of least frequency among the rest, and exactly those two are removed |
| Compressor.JoinRound | huffmanCompress.cpp:26-38 | replacing two trees of a forest by their oriented merge keeps its leaves, total frequency and well-formedness |
| Compressor.LastTree | huffmanCompress.cpp:24 | when one tree is left, the forest is that tree |
| Compressor.MergeAll | huffmanCompress.cpp:23-42 | merging fails exactly on an empty queue, and otherwise gives a tree with the queue's leaves and total frequency, well formed when the queue's trees are |
| Compressor.FixLoneCode | huffmanCompress.cpp:328-335 | the loop over `charWithCode` applies the lone-symbol fix |
| Compressor.EncodeData | huffmanCompress.cpp:337-339 | the loop builds the concatenated codes of the data |
| Compressor.LittleEndianByte | huffmanCompress.cpp:369 | byte `i` of the field is `(char)(v >> (i * 8))` |
| Compressor.WriteCount | huffmanCompress.cpp:366-370 | the loop writes the 4-byte little-endian field |
| Compressor.WritePayload | huffmanCompress.cpp:373-382 | the loop writes the padding byte and the padded payload |
| Compressor.HuffmanCompress.constructor | huffmanCompress.h:46 | a new compressor has no tree and an empty queue |
| Compressor.HuffmanCompress.InsertLeaves | huffmanCompress.cpp:13-19 | the loop adds to `pq` exactly one leaf per present byte, and `pq` stays a heap |
| Compressor.HuffmanCompress.BuildTree | huffmanCompress.cpp:3-44 | `pq` gains the text's leaves; `buildTree` underflows exactly on an empty queue and text, leaving `root` unchanged; otherwise `root` is the tree merged from the queue and the codes are `generateCodes` of it |
| Compressor.HuffmanCompress.PlantTree | huffmanCompress.cpp:22-43 | merging the queue fails exactly when it holds no tree, and leaves `root` alone then; otherwise `root` is the tree merged from the queue's trees and the codes are `generateCodes` of it |
| Compressor.HuffmanCompress.MergeCopy | huffmanCompress.cpp:23-42 | merging a copy of the queue fails exactly when it is empty and otherwise gives a tree merged from the queue's trees |
| Compressor.HuffmanCompress.TakeEntry | huffmanCompress.cpp:347-355 | one drain step removes a node of least frequency from `pq` and writes its header entry |
| Compressor.HuffmanCompress.WriteHeader | huffmanCompress.cpp:345-356 | draining `pq` empties it, lists each of its nodes once in ascending frequency, and writes their entries in that order |
| Compressor.HuffmanCompress.Prepare | huffmanCompress.cpp:321-356 | on non-empty data `root` is a well-formed tree with the data's leaves and frequency equal to the data length, and the count and header are written in drain order |
| Compressor.HuffmanCompress.CompressFileUtil | huffmanCompress.cpp:296-387 | empty data gives the single byte 0; otherwise the record is the count, the header in ascending drain order, bit count + 1, the padding and the payload, and `pq` is left empty |
| Compressor.HuffmanCompress.CompressFile | huffmanCompress.cpp:80-175 | empty data gives 0, 0; otherwise the record layout without the 4-byte count, with `pq` left empty |
| Decompressor.BinaryToDecimalLoop | huffmanCompress.cpp:515-521 | the loop computes `binary_to_decimal` |
| Decompressor.DecodeGreedy | huffmanCompress.cpp:458-485 | the two decoding loops compute the greedy decoding |
| Decompressor.DecodeMatch | huffmanCompress.cpp:466-477 | a first match emits its symbol and decoding resumes after it |
| Decompressor.DecodeNoMatch | huffmanCompress.cpp:480-484 | bits left without a match end the decoding |
| Decompressor.ReadTable | huffmanCompress.cpp:408-422 | the header loop computes the table read |
| Decompressor.TableEntry | huffmanCompress.cpp:410-421 | one iteration of the header loop |
| Decompressor.ReadEntry | huffmanCompress.cpp:410-421 | one iteration of the header loop either fails, and then the whole table read fails, or adds `code -> ch` and leaves the rest of the table to the remaining iterations |
| Decompressor.LittleEndianValueOf4 | huffmanCompress.cpp:424-428 | the OR of shifted bytes is the little-endian value |
| Decompressor.ReadCount | huffmanCompress.cpp:424-429 | the count is read exactly when four bytes are readable, as their little-endian value |
| Decompressor.RoundedBytes | huffmanCompress.cpp:440-444 | rounding up to a multiple of 8 and dividing by 8 is dividing by 8 once |
| Decompressor.ReadBits | huffmanCompress.cpp:446-452 | the loop succeeds exactly when all the bytes are readable, and gives their bits, 8 per byte, most significant first |
| Decompressor.PaddingByteFirst | huffmanCompress.cpp:442-446 | the padding byte is the first of the bytes the payload loop reads |
| Decompressor.ReadPayload | huffmanCompress.cpp:440-485 | the payload loops compute the bytes read, unpadded and decoded, and the position after them |
| Decompressor.DecompressFileUtil | huffmanCompress.cpp:389-502 | the method computes `decompressFileUtil`'s result and returned position |
| Container.ArchiveAppend | huffmanCompress.cpp:529-547 | one more entry appends its bytes to the container |
| Container.ArchiveBytes | huffmanCompress.cpp:529-547 | definition; specified by Container.ArchiveAppend and Container.CompressFolder |
| Container.AllWrittenAppend | huffmanCompress.cpp:533-538 | one more file written by `compressFileUtil` keeps every record accounted for |
| Container.CompressEntry | huffmanCompress.cpp:531-546 | a directory gives '<', the path and a bar; a file gives '>', the path, a bar and its record as `compressFileUtil` writes it |
| Container.CompressFolder | huffmanCompress.cpp:523-551 | the container is the entries' bytes in traversal order, with every file's record as `compressFileUtil` writes it, and `pq` left empty |
| Container.Find | huffmanCompress.cpp:585 | `find` gives the first bar (byte 124) at or after the position, or none when there is none |
| Container.StepAt | huffmanCompress.cpp:582-601 | a pass that finds its bar ends after the position it started from |
| Container.PassAt | huffmanCompress.cpp:588-601 | the rest of a pass once its path end is known ends no earlier than the position after that end |
| Container.StepAtBar | huffmanCompress.cpp:585-589 | a pass that finds its bar goes on from the byte after it |
| Container.DecompressFolder | huffmanCompress.cpp:579-602 | the loop replays the container as `ParseArchive` does, and stops with a failure where no bar follows a type byte |
| Container.ReplayEntry | huffmanCompress.cpp:588-601 | one pass after the bar is found: a directory, a file read with `decompressFileUtil`, or nothing, ending where the pass ends |
| Container.PassStep | huffmanCompress.cpp:580-602 | the replay from a pass is its entry followed by the replay from where the pass ends |
| Container.PassFails | huffmanCompress.cpp:580-602 | a pass that finds its bar and then fails to read its record ends the replay with a failure and no entry |
| Container.ParseArchive | huffmanCompress.cpp:579-602 | definition, with a missing bar as a failure; specified by Container.ArchiveReplays, Container.FolderRoundTrip and Container.DecompressFolder |
| Container.WrittenRecordReads | huffmanCompress.cpp:535-538 | a non-empty file record, with fewer than 128 symbols, a bit count not a multiple of 8 and below 2^32 - 8, reads back from any buffer holding it and ends where it ends; an empty file's record does too |
| Container.WrittenReadsBack | huffmanCompress.cpp:600 | the same, wherever the record lies |
| Container.IntendedRecordReads | huffmanCompress.cpp:600 | a record with the bit count itself in the field reads back and ends where it ends, whatever the bit count |
| Container.IntendedReadsBack | huffmanCompress.cpp:600 | the same, wherever the record lies |
| Container.ArchiveReplays | huffmanCompress.cpp:580-602 | a container whose paths hold no bar and whose records read back replays as its entries, in order, without failure |
| Container.EntryReplays | huffmanCompress.cpp:582-601 | one such entry is replayed by one pass, which ends right after it |
| Container.BarAfterPath | huffmanCompress.cpp:585 | the first bar after a path free of bar is the one that ends it |
| Container.EntryStep | huffmanCompress.cpp:588-601 | a pass whose bar ends the path replays the entry and ends after its record |
| Container.EntrySlices | huffmanCompress.cpp:537-545 | where the marker, path, bar and record of an entry lie in the buffer |
| Container.FolderRoundTrip | huffmanCompress.cpp:523-602 | `decompressFolder` replays what `compressFolder` wrote, in order, when no path holds bar and every file has fewer than 128 symbols and a bit count not a multiple of 8 |
| Container.IntendedFolderRoundTrip | huffmanCompress.cpp:523-602 | with the bit count itself in each field, the container replays as its entries for every file with fewer than 128 symbols and fewer than 2^32 - 7 code bits |
| Container.MissingBarLoops | huffmanCompress.cpp:585-589 | the pass over a directory type byte with no bar after it goes back to position 0 and replays the directory again |
| Container.MissingBarRereads | huffmanCompress.cpp:585-600 | the pass over a file type byte with no bar after it reads a record from position 0; on the container '>' that read fails |
| Container.CountExtent | huffmanCompress.cpp:649-661 | `info`'s skip of a count, padding and payload ends after where it began |
| Container.RecordExtent | huffmanCompress.cpp:649-661 | the same skip after the symbol table ends after where it began |
| Container.InfoPass | huffmanCompress.cpp:628-664 | a pass of the `info` loop ends after where it began |
| Container.ListAt | huffmanCompress.cpp:637-664 | the rest of an `info` pass once its bar is found ends after the bar |
| Container.InfoPassBar | huffmanCompress.cpp:628-637 | an `info` pass that finds its bar goes on with the type byte and path before it |
| Container.Info | huffmanCompress.cpp:607-669 | the loop lists the container as `InfoFrom` does, and fails where no bar follows a type byte |
| Container.InfoFrom | huffmanCompress.cpp:625-665 | definition; specified by Container.InfoListsReplay, Container.InfoMisreadsCount and Container.Info |
| Container.InfoEntry | huffmanCompress.cpp:628-664 | the loop body computes one pass of `info` |
| Container.SkipCount | huffmanCompress.cpp:649-661 | the loop body reads the count, then skips the padding byte and the rounded-up payload |
| Container.ExtentOfRecord | huffmanCompress.cpp:649-661 | for every record `decompressFileUtil` reads, skipping its table and payload ends where the reader ends |
| Container.ListsConcat | huffmanCompress.cpp:640-646 | listings of consecutive parts concatenate |
| Container.ListsPass | huffmanCompress.cpp:637-664 | once the bar is found, where the replay's pass succeeds the pass of a listing that skips the table succeeds too, names the same entry and ends at the same position |
| Container.InfoStep | huffmanCompress.cpp:640-664 | a pass of a listing that skips the table names the entry the replay gives and ends where the replay's pass ends |
| Container.InfoListsReplay | huffmanCompress.cpp:626-665 | wherever `decompressFolder` succeeds, a listing that skips the table succeeds too and names the replayed entries in order |
| Container.InfoMisreadsCount | huffmanCompress.cpp:649-663 | on the container of a one-byte file, `info` as written reports 100674593 bytes where the record has 1 |

## Left out

- File and stream I/O are not modelled: opening, reading and writing files,
  the "Failed to open" exceptions, and the output file names. Every operation
  takes and returns byte sequences instead.
- Console output is not modelled. `info`'s lines are returned as data.
- `decompressFile` (huffmanCompress.cpp:177-294) is not modelled. Its
  whitespace-skipping `operator>>` reads are I/O behaviour. Its layout is
  `Format.SingleFileBytes`.
- The filesystem traversal, `relative`, `create_directories`, `file_size`
  and the path join are not modelled. The traversal is given as a list of
  entries.
- `freeTree`, the destructor and memory ownership are not modelled. The
  tree is a datatype.
- The `Node::code` field is not modelled. It is written by `generateCodes`
  and never read.
- The `ch` of an internal node (' ') is not modelled. It is never read.
- Huffman.CompareNode: equal frequencies are left in whatever order the heap
  gives. Only the ascending frequency order of the header (`Ascending`) is
  stated, and no tie-break is claimed.
- TreeBuild.Frequencies: symbols are bytes 0..255. The source indexes `freq`
  by a possibly negative `char`, which is undefined for bytes 128 and above.
- Format.ParseTable: a negative code length is an error in the model. In the
  source, `substr` then takes the rest of the buffer and `pos` moves
  backwards.
- Format.ParseRecord: three integer details of `decompressFileUtil` are not
  followed. A negative symbol count is an error in the model; in the source
  `size_t i < num_unique` (huffmanCompress.cpp:410) converts it to a huge
  bound and the header loop runs past the buffer. `int to = 1 + pos +
  encoded_data_size / 8` (huffmanCompress.cpp:444) can overflow `int`; the
  model keeps the unbounded sum. `binary_to_decimal(code)`
  (huffmanCompress.cpp:482) overflows `int` on an unmatched tail of more
  than 31 bits; the model's value is unbounded, which is harmless because
  decoding ends there either way.
- Format.At: a read past the terminating '\0' is an error in the model. In
  the source it is undefined behaviour.
- Container.InfoPass: when a file's count cannot be read, `info` has already
  printed "[File] path". The model reports the failure without that line.
- Container.CountExtent: `int to` and `int pos` can overflow in the source
  for huge counts. The model keeps the unbounded sum and models only the
  `uint32_t` wrap of the count.
- Container.StepAt: the as-written jump back to position 0 after a missing
  '|' is shown for one pass. After a '<' or an unknown type byte, that jump
  starts the loop over forever; that endless loop is not run. After a '>',
  the pass reads a record with `decompressFileUtil` from position 0. That read
  reads the container's own bytes as a record, and it either fails or goes on
  from wherever that record ends (`Container.MissingBarRereads` shows the
  failure on the container '>'). `ParseArchive` stops with a failure at any
  missing '|' instead.
- Container.FolderRoundTrip: proved only for files with fewer than 128
  distinct bytes, a code-bit count that is not a multiple of 8, and fewer
  than 2^32 - 8 code bits. For more symbols see
  `Format.FullAlphabetReadsEmpty` and `Format.SignedCountFails`.
- Compressor.HuffmanCompress.CompressFileUtil: `charWithCode[c]` would insert
  an empty code for a byte with no entry. Every byte of the data has an
  entry, so the model reads the table without inserting.
- Compressor.HuffmanCompress.BuildTree: the queue `pq` is a heap of tree
  values, not of pointers. The copy at huffmanCompress.cpp:23 copies the
  vector of `Node*`, so it shares every leaf with `pq`, and those leaves
  become leaves of `root`. The merge loop only reads them and allocates new
  internal nodes. The only write through a shared leaf is `node->code` in
  `generateCodes` (huffmanCompress.cpp:55), a field that is never read. So
  modelling tree values instead of pointers loses nothing observable.
- The symbol-count wrap at 256 distinct bytes is exposed by a lemma, but no
  corrected layout is modelled. The evident fix changes the file format.

## Findings

| source | as written | input that shows it | evidently intended | confidence | as-written member | corrected member |
|---|---|---|---|---|---|---|
| huffmanCompress.cpp:366, 440-446 | the field holds bit count + 1; the reader rounds it up and reads 1 + ceil((n + 1) / 8) bytes | a file of four 'a' and four 'b' bytes: 8 code bits, so the padding byte and 1 payload byte are written but the padding byte and 2 payload bytes are read, and the next container entry's first byte is taken as payload | the field holds the bit count n, and the reader reads exactly the 1 + ceil(n / 8) bytes written | not executed | Format.WrittenRecordOverReads | Format.IntendedRecordRoundTrip, Container.IntendedFolderRoundTrip |
| huffmanCompress.cpp:644-654 | `info` reads the 4-byte count straight after bar, without skipping the symbol count and table | the container of a file holding the single byte 'a': bytes 62 97 124 1 97 1 48 2 0 0 0 7 0; `info` reports 100674593 bytes | skip the symbol count and table first, as `decompressFileUtil` does, and report 1 byte | not executed | Container.InfoMisreadsCount | Container.InfoListsReplay |
| huffmanCompress.cpp:585-589 | with no bar after a type byte, `find` gives `npos`, and `pos = pathEnd + 1` wraps to 0: after '<' or an unknown type byte the loop starts over forever; after '>' a record is read again from position 0, which reads the container's own bytes as a record and fails or goes on from where that record ends | the container bytes 60 97 ('<' 'a') | report a malformed container, as `info` does at huffmanCompress.cpp:631-635 and the comment at line 586 asks | not executed | Container.MissingBarLoops, Container.MissingBarRereads | Container.DecompressFolder |
