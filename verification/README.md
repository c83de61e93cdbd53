# Verified models of compress, gzip, dd, du, chmod, cksum and gencat

The BSD tools that come with MobileTerminal contain a number of small machines that are easy to get
wrong. This project models them in Dafny and proves what they are for.

- **LZW** (`compress/zopen.c`, `gzip/zuncompress.c`). The encoder with its open-addressed hash
  table, its bit packer and its adaptive CLEAR, and the two decoders, which rebuild the dictionary
  one entry behind. `Bits`, `CodeBuffer` and `CodeStream` are the packing of codes; `LzwTable`,
  `LzwEncoder`, `LzwDecoder`, `LzwRoundTrip` and `LzwRun` the two sides and their lockstep; `LzwFile` and
  `LzwWriter` whole files; `Probing` and `CodeTable` the hash table; `Compressor` and
  `Decompressor` the classes with the fields that the C code updates; `Decoders` and `LzwStreams`
  compare the decoders and put everything together; `LzwStack` is about the decoder's stack.
  `LzwSchedule`, `LzwLayout` and `LzwReading` say by counting codes alone how wide each one is and
  at which bits of the file it stands, for the encoder and for both decoders.
- **Huffman** (`gzip/unpack.c`). `HuffmanTree` relates level counts to an explicit tree,
  `PackedFile` decodes with either, `Unpacker` is the imperative program and `PackRoundTrip` packs
  a message for it.
- **dd** (`dd/conv.c`, `dd/dd.c`). `DdOutput` is the output buffer, `DdDef`, `DdBlock` and
  `DdUnblock` the three conversions, `Records` says what they compute and `DdRuns` runs them over
  arbitrary reads and writes.
- **du** (`du/du.c`). `LinkCount` is a plain map of remaining links; `LinkBuckets`, `LinkFiling`,
  `LinkGrowth` and `LinkTable` the hash table of doubly linked lists that must agree with it.
- **cksum** (`cksum/crc.c`, `cksum/crc32.c`). `CrcTables` has the two tables, `CrcDivision` and
  `CrcMirror` the division they stand for, and `Cksum` the programs.
- **chmod** (`chmod/chmod_acl.c`). `AclEntries` and `AclAddition` add entries to access control
  lists in canonical order.
- **gencat** (`gencat/genlib.c`). `CatalogNodes` has the doubly linked lists, `CatalogLists` what
  they hold, `Catalog` the catalog and its edits, `CatalogImage` and `CatalogReading` its file as a
  value, and `CatalogIO` the programs that write and read it.

Each imperative method is specified by a function on values, and what the tools promise is proved
about those functions.

Places where the code and what is said about it differ:

- The check of `inlevelindex` in `unpack_decode` allows one index too many. `WalksInRange` shows
  that this matters exactly where the first level has fewer than two nodes, and `NoNodeYetSymbols`
  gives a file with such a header.
- `find_matching_entry` is said to find the first match; `FirstChosen` says when it does, and
  `LaterChosen` gives a list on which it finds the last.
- A file without access control entries gets new ones in reverse order, so the result is canonical
  only under the condition of `ReversedCanonical`; `DenialThenAllowance` gives additions that fail.
- An empty input makes `compress` write nothing, not even a header, and files with maxbits below 12
  are refused by the decoders; `RoundTrip` has both as its exact condition.
- The comment in gzip's decoder bounds its stack by 2^16 - 256 bytes. `StackBoundExactly` proves that
  this holds exactly where the header asks for CLEAR codes; `ClimbNeedsMore` gives a file that needs one
  byte more, for which the stack has room.
- `getcode` is said to round down to whole codes, but it loads the first code of a group before it
  looks: a single last byte gives a code, as `ReadAt` has it.
- The encoder sets its first bound without looking at maxbits, so codes for maxbits 9 get ten bits
  wide, and nine bits below; `WrittenWidth` says so for every maxbits. The decoders refuse such files.
- `zopen.c` says that the first code must be a character and does not check it. `DecodersAgree`
  compares the decoders where that is so; `LeadingClear` and `OddAgreement` say what happens
  otherwise.

`dafny verify dfyconfig.toml` checks the project.

## Model

| member | source | states |
|---|---|---|
| `LzwFile.RoundTrip` | MobileTerminal/file_cmds-251/compress/zopen.c:234-565 | for every input, every maxbits from 1 to 16 and every choice of CLEAR points, decompressing the compressed file gives the input back if and only if the input is not empty and maxbits is at least 12 |
| `LzwWriter.FileRoundTrip` | MobileTerminal/file_cmds-251/compress/zopen.c:234-658 | the same if and only if for the file that the compressor writes, with its own decisions to clear |
| `LzwWriter.FileIsCompressed` | MobileTerminal/file_cmds-251/compress/zopen.c:632-658 | the compressor's ratio test amounts to one choice of CLEAR points, so all that holds for every choice holds for it |
| `LzwWriter.WriteAllAppend` | MobileTerminal/file_cmds-251/compress/zopen.c:283-318 | feeding one more byte is one more turn of the loop: the state depends on the bytes so far and not on how they were cut into calls |
| `LzwWriter.RateBounds` | MobileTerminal/file_cmds-251/compress/zopen.c:640-647 | the ratio is the number of bytes in for 256 bytes out, rounded down; with 2^23 bytes in or more, the bytes out are counted in units of 256, and with none of those it is 0x7fffffff |
| `LzwWriter.ClearsExactly` | MobileTerminal/file_cmds-251/compress/zopen.c:632-658 | at a check a CLEAR goes out if and only if the bytes in are less than the next higher ratio asks for; else the ratio is replaced by the larger one reached; the next check is 10000 bytes later |
| `LzwRoundTrip.DecodesMatched` | MobileTerminal/file_cmds-251/compress/zopen.c:510-562 | with the decoder one entry behind, it accepts the encoder's next code, including the code it has not defined yet (KwKwK), delivers the matched string, and then has the encoder's whole table |
| `LzwRoundTrip.ReadsMatched` | MobileTerminal/file_cmds-251/compress/zopen.c:510-562 | reading the code of the matched string keeps reader and packer aligned through widening and a full table |
| `LzwRoundTrip.ReadsClear` | MobileTerminal/file_cmds-251/compress/zopen.c:512-519 | reading CLEAR empties the decoder's table, puts both sides back to nine bits and keeps them aligned |
| `LzwRoundTrip.LockstepWidth` | MobileTerminal/file_cmds-251/compress/zopen.c:582-605 | in lockstep the next code is the one written, and it is read at the width and code bound it was written with |
| `LzwRoundTrip.StepLockstep` | MobileTerminal/file_cmds-251/compress/zopen.c:283-318 | one input byte of the encoder against the codes it causes to be read: both sides are in lockstep again, and delivered bytes plus the new match are the old match plus the byte |
| `LzwRoundTrip.InflatesScript` | MobileTerminal/file_cmds-251/compress/zopen.c:283-318 | from any two states in lockstep the decoder delivers the match and all further input |
| `LzwRun.LockstepRun` | MobileTerminal/file_cmds-251/compress/zopen.c:283-318 | from any two states in lockstep, encoder and decoder are in step at every code of the script, with the CLEARs in it |
| `LzwRun.LockstepThroughout` | MobileTerminal/file_cmds-251/compress/zopen.c:510-605 | for every input, every maxbits from 12 and every choice of CLEAR points, at code i of the file the decoder reads the code that was sent, at the width it was written with; its table is the encoder's without the newest entry, equal to it once full, and both are empty just after a CLEAR |
| `LzwSchedule.WrittenWidth` | MobileTerminal/file_cmds-251/compress/zopen.c:413-434 | for every input, every maxbits from 1 to 16 and every choice of CLEAR points, the code that comes j codes behind the start or the last CLEAR is written in the least number of bits, from nine up, that 256 + j fits in, but in no more than maxbits (the widest codes have ten bits for maxbits 9 and nine below) |
| `LzwSchedule.ReadWidth` | MobileTerminal/file_cmds-251/compress/zopen.c:582-605 | on any file, the code that comes j codes behind the start or the last CLEAR is read in the least number of bits, from nine up to the bound in the header, that 256 + j fits in, 255 + j where the header announces no CLEAR |
| `LzwSchedule.ZopenReadWidth` | MobileTerminal/file_cmds-251/compress/zopen.c:501-605 | the same for the decoder of compress behind a first code that it took for a character |
| `LzwLayout.WrittenAt` | MobileTerminal/file_cmds-251/compress/zopen.c:367-447 | the file is the header 0x1f 0x9d 0x80 + maxbits and the codes, whose bit positions follow from counting them: groups of eight codes, broken off behind a CLEAR and where the width changes; it ends with the byte of the last bit |
| `LzwReading.ReadAt` | MobileTerminal/file_cmds-251/compress/zopen.c:574-630 | on any file, behind any number of codes, the decoder finds a further code if and only if the same counting leaves room for it in the file (at the start of a group one byte is enough), and the code has the bits that stand there |
| `LzwFile.OpensExactly` | MobileTerminal/file_cmds-251/gzip/zuncompress.c:234-259 | a header is accepted if and only if it has three bytes, 31, 157 and a maxbits from 12 to 16 in its low five bits; the top bit announces CLEAR codes |
| `LzwFile.FirstCodeIsFirstByte` | MobileTerminal/file_cmds-251/compress/zopen.c:501-507 | the first code of a compressed file is its first byte, which is what the decoder's comment relies on |
| `CodeBuffer.PutCodeBits` | MobileTerminal/file_cmds-251/compress/zopen.c:377-397 | storing a code writes exactly its bits and keeps every earlier bit of the buffer |
| `CodeBuffer.ExtractFinds` | MobileTerminal/file_cmds-251/compress/zopen.c:606-629 | a load from any buffer with a code's bits at an offset gives that code, for all widths and offsets |
| `CodeStream.ReadNext` | MobileTerminal/file_cmds-251/compress/zopen.c:574-630 | reading one code from a stream gives the code written and leaves reader and writer at the same place, across full buffers and width changes |
| `CodeStream.ReadEnd` | MobileTerminal/file_cmds-251/compress/zopen.c:582-605 | after the last code the reader finds the end of the file, whatever padding was written |
| `CodeStream.PackingInverts` | MobileTerminal/file_cmds-251/compress/zopen.c:367-447 | for every sequence of codes with widths 9 to 16 and flushes at width changes, repeated getcode returns the codes that repeated output wrote, and then -1 |
| `LzwTable.Table.Expand` | MobileTerminal/file_cmds-251/gzip/zuncompress.c:288-300 | the string of a code is never empty, has one byte for a character and at most one byte per code below it otherwise; the recursion ends because a prefix is always smaller than its code |
| `LzwTable.ExpandStable` | MobileTerminal/file_cmds-251/compress/zopen.c:553-558 | a new entry changes no string of the table |
| `LzwDecoder.DecodedFits` | MobileTerminal/file_cmds-251/gzip/zuncompress.c:277-300 | in every state reachable on any bytes, the string of an accepted code is no longer than the code space and the stack allow |
| `LzwDecoder.FincharSpent` | MobileTerminal/file_cmds-251/gzip/zuncompress.c:277-318 | what a code leads to does not depend on finchar once the string is known |
| `LzwStack.HighestFits` | MobileTerminal/file_cmds-251/gzip/zuncompress.c:277-300 | while any file is decoded, the stack never holds more than 2^maxbits - 256 bytes with CLEAR in use, one more without |
| `LzwStack.ClimbNeedsMore` | MobileTerminal/file_cmds-251/gzip/zuncompress.c:288-293 | for every accepted header without CLEAR, the file of the codes 97, 256, 257 and so on to the last needs exactly 2^maxbits - 255 bytes |
| `LzwStack.StackBoundExactly` | MobileTerminal/file_cmds-251/gzip/zuncompress.c:288-293 | the bound of the comment holds on every file with a given header if and only if its block bit is set |
| `LzwEncoder.Step` | MobileTerminal/file_cmds-251/compress/zopen.c:283-318 | every turn keeps the coder valid and emits only codes that fit their widths |
| `Probing.HsizeIsPrime` | MobileTerminal/file_cmds-251/compress/zopen.c:76 | 69001 is no product of two smaller numbers |
| `Probing.SlotsDistinct` | MobileTerminal/file_cmds-251/compress/zopen.c:294-305 | within 69001 probes no slot is looked at twice |
| `Probing.FreeSlotReached` | MobileTerminal/file_cmds-251/compress/zopen.c:294-305 | a probe sequence reaches a slot outside any set smaller than the table |
| `CodeTable.FcodeInjective` | MobileTerminal/file_cmds-251/compress/zopen.c:286 | fcode determines the prefix code and the byte |
| `CodeTable.Probe` | MobileTerminal/file_cmds-251/compress/zopen.c:289-305 | the probe loop ends at the first slot of its sequence that is free or holds the key |
| `CodeTable.Wipe` | MobileTerminal/file_cmds-251/compress/zopen.c:660-690 | after cl_hash every slot is empty |
| `CodeTable.HashTable.Find` | MobileTerminal/file_cmds-251/compress/zopen.c:286-305 | the search finds a string if and only if the dictionary has it, and otherwise stops at the free slot where it belongs |
| `CodeTable.HashTable.Insert` | MobileTerminal/file_cmds-251/compress/zopen.c:310-312 | the dictionary gains the string under the next code, and all others stay findable |
| `CodeTable.HashTable.Clear` | MobileTerminal/file_cmds-251/compress/zopen.c:649-652 | the dictionary is empty |
| `Compressor.StoreCode` | MobileTerminal/file_cmds-251/compress/zopen.c:377-397 | the three stores of output put the code's bits at the offset |
| `Compressor.Compressor.constructor` | MobileTerminal/file_cmds-251/compress/zopen.c:692-738 | a compressor opened with bits 0 has the default maxbits; nothing is written yet |
| `Compressor.Compressor.Output` | MobileTerminal/file_cmds-251/compress/zopen.c:367-447 | the fields follow the packer: store, write when full, flush whole at a width change; at -1 the rest cut to whole bytes |
| `Compressor.Compressor.ClBlock` | MobileTerminal/file_cmds-251/compress/zopen.c:632-658 | the table is cleared and CLEAR sent exactly when the ratio has not grown; the next check is 10000 bytes later |
| `Compressor.Compressor.Take` | MobileTerminal/file_cmds-251/compress/zopen.c:283-318 | one turn of the loop takes hash table, buffer, width and counters to the writer's next state |
| `Compressor.Compressor.ZWrite` | MobileTerminal/file_cmds-251/compress/zopen.c:234-320 | the state is the one that all bytes written so far lead to, whatever the cuts into calls |
| `Compressor.Compressor.ZClose` | MobileTerminal/file_cmds-251/compress/zopen.c:322-345 | the file is the compressed file of all bytes written |
| `Decompressor.LoadCode` | MobileTerminal/file_cmds-251/compress/zopen.c:606-629 | the loads of getcode give the code at the offset |
| `Decompressor.Decompressor.constructor` | MobileTerminal/file_cmds-251/gzip/zuncompress.c:171-203 | bytes handed over and the file make up what is still to be decoded; any file can be opened |
| `Decompressor.Decompressor.GetAnyCode` | MobileTerminal/file_cmds-251/gzip/zuncompress.c:331-395 | the fields follow the reader of the value model, with the handed-over bytes read first, whatever oldcode is |
| `Decompressor.Decompressor.GetCode` | MobileTerminal/file_cmds-251/gzip/zuncompress.c:331-395 | the same at the head of the decoding loop |
| `Decompressor.Decompressor.StringFits` | MobileTerminal/file_cmds-251/gzip/zuncompress.c:277-300 | on every stream the stack has room for every string that is pushed |
| `Decompressor.Decompressor.Push` | MobileTerminal/file_cmds-251/gzip/zuncompress.c:275-300 | the string of an accepted code is on the stack, last byte at the bottom, and nothing of the rest of the file is lost |
| `Decompressor.Decompressor.NewEntry` | MobileTerminal/file_cmds-251/gzip/zuncompress.c:309-318 | the entry that the delivered code defines is added to the tables unless they are full |
| `Decompressor.Decompressor.Next` | MobileTerminal/file_cmds-251/gzip/zuncompress.c:264-300 | a code is the end, a CLEAR, a rejection or a string, exactly as the value model has it, and uses up input |
| `Decompressor.Decompressor.ZRead` | MobileTerminal/file_cmds-251/gzip/zuncompress.c:211-322 | each call delivers the next num bytes of what the whole file decodes to, fewer at its end, -1 exactly if the file is rejected within them; calls resume on a filled stack |
| `Decoders.DecodersAgree` | MobileTerminal/file_cmds-251/compress/zopen.c:478-564 | the decoders of compress and gzip deliver the same bytes or the same rejection on every file whose first code is a character |
| `Decoders.LeadingClear` | MobileTerminal/file_cmds-251/compress/zopen.c:501-519 | on every file that starts with CLEAR, gzip goes on with an empty table in the next buffer, and compress delivers a zero byte and goes on in the same buffer with CLEAR as a code for two zero bytes |
| `Decoders.LeadingClearDiffers` | MobileTerminal/file_cmds-251/compress/zopen.c:501-507 | a file of a single CLEAR, on which callers can tell the decoders apart |
| `Decoders.LeadingClearAgrees` | MobileTerminal/file_cmds-251/compress/zopen.c:501-527 | a file that starts with CLEAR and on which both decoders deliver the same byte and then break |
| `Decoders.SameToCallers` | MobileTerminal/file_cmds-251/compress/zopen.c:462-564 | all runs of reads return the same from two outcomes if and only if they agree up to the last byte before a break |
| `Decoders.OddAgreement` | MobileTerminal/file_cmds-251/compress/zopen.c:501-531 | on every file whose first code is neither a character nor CLEAR, all runs of reads return the same from both decoders if and only if compress refuses the next code, perhaps behind CLEARs |
| `Decoders.RefusedDeliversNothing` | MobileTerminal/file_cmds-251/gzip/zuncompress.c:264-284 | a decoder rejects a stream without a byte if and only if its first code that is not CLEAR is refused |
| `Decoders.OddAnswered` | MobileTerminal/file_cmds-251/compress/zopen.c:501-564 | whatever compress may deliver on a file that starts oddly, a first call for one byte returns what the machine returns |
| `Decoders.OwnPrefix` | MobileTerminal/file_cmds-251/compress/zopen.c:521-558 | a file on whose first two codes compress defines an entry with its own code as prefix, so the source does not determine how it goes on |
| `Decompressor.Decompressor.RememberFirst` | MobileTerminal/file_cmds-251/compress/zopen.c:501-507 | the state of compress behind its first code: a character, CLEAR as an entry for two zero bytes, or an odd code that is remembered |
| `Decompressor.Decompressor.ReadOneOddly` | MobileTerminal/file_cmds-251/compress/zopen.c:455-564 | what the first call of compress returns for one byte on a file that starts oddly |
| `LzwStreams.ReadOneWithBoth` | MobileTerminal/file_cmds-251/compress/zopen.c:455-564 | asked for one byte of a file that starts oddly, gzip fails, and compress fails too if and only if it refuses the next code |
| `Decoders.BothRoundTrip` | MobileTerminal/file_cmds-251/compress/zopen.c:234-565 | compressed files start with a character, and both decoders give the input back |
| `LzwStreams.CompressPieces` | MobileTerminal/file_cmds-251/compress/zopen.c:234-320 | the file depends on the concatenation of the pieces only |
| `LzwStreams.ReadPieces` | MobileTerminal/file_cmds-251/compress/zopen.c:455-565 | the bytes delivered by any sequence of read sizes are a prefix of what the decoder makes of the file, of the length asked for; handed-over bytes count like bytes of the file; a failure comes exactly if the file is rejected within the length asked for |
| `LzwStreams.ThereAndBack` | MobileTerminal/file_cmds-251/compress/zopen.c:234-565 | compress in any pieces, decompress with either decoder in any pieces: the input comes back |
| `HuffmanTree.DescendIsWalk` | MobileTerminal/file_cmds-251/gzip/unpack.c:264-300 | on every bit sequence, the walk by level counts from any node is the walk down the explicit tree |
| `HuffmanTree.FromRootIsWalk` | MobileTerminal/file_cmds-251/gzip/unpack.c:264-300 | the same from the root, for every header with at least two nodes in the first level |
| `HuffmanTree.CodeLeadsToNode` | MobileTerminal/file_cmds-251/gzip/unpack.c:31-56 | in a full tree the number of a node, written in as many bits as its depth, leads to it |
| `HuffmanTree.CodeDecodes` | MobileTerminal/file_cmds-251/gzip/unpack.c:264-300 | in a full tree the canonical code of a leaf gives that leaf and leaves the bits behind it |
| `HuffmanTree.SlotCodeDecodes` | MobileTerminal/file_cmds-251/gzip/unpack.c:264-300 | the same by position in the symbol table |
| `HuffmanTree.WalksInRange` | MobileTerminal/file_cmds-251/gzip/unpack.c:122-127 | a leaf found at level 1 or deeper is always one of its level's symbols; at level 0 too if and only if the first level has at least two nodes |
| `PackRoundTrip.NoNodeYetSymbols` | MobileTerminal/file_cmds-251/gzip/unpack.c:275-296 | a file with an accepted header that has no node in level 0 unpacks to eight symbols that level 0 does not have |
| `PackRoundTrip.SmallFile` | MobileTerminal/file_cmds-251/gzip/unpack.c:147-306 | a literal file of two symbols with codes of one and two bits unpacks to its three bytes |
| `PackedFile.TablesDecodeAsTree` | MobileTerminal/file_cmds-251/gzip/unpack.c:248-306 | decoding by level tables is decoding by the explicit tree, for every header with two nodes in the first level and every bit sequence |
| `PackedFile.MessageDecodes` | MobileTerminal/file_cmds-251/gzip/unpack.c:248-306 | for every full tree, the codes of a message and the end-of-block code decode to the message, whatever bits follow |
| `Unpacker.FillInodesin` | MobileTerminal/file_cmds-251/gzip/unpack.c:113-128 | the recursion fills the inner node counts by the halving recurrence |
| `Unpacker.ParsedIsValid` | MobileTerminal/file_cmds-251/gzip/unpack.c:198-243 | an accepted header has a symbol for every leaf |
| `Unpacker.Unpacker.ReadCounts` | MobileTerminal/file_cmds-251/gzip/unpack.c:198-208 | the table holds the counts of the header, and the size is one more than their sum |
| `Unpacker.Unpacker.ReadSymbols` | MobileTerminal/file_cmds-251/gzip/unpack.c:224-233 | the symbol table is what follows the counts, every level starts at its first symbol, and the end marker is behind the last |
| `Unpacker.Unpacker.ParseHeader` | MobileTerminal/file_cmds-251/gzip/unpack.c:147-243 | a header is accepted, and its tables built, exactly as the format says, and the size is that of its four bytes, the highest first; a file too short for a header is refused whatever the buffer held before |
| `Unpacker.Unpacker.DecodeData` | MobileTerminal/file_cmds-251/gzip/unpack.c:248-306 | the bit loops over all bytes of the data decode its bit sequence |
| `Unpacker.Unpacker.Unpack` | MobileTerminal/file_cmds-251/gzip/unpack.c:310-329 | the whole file unpacks to what its format says, or is refused where it is |
| `PackRoundTrip.Parses` | MobileTerminal/file_cmds-251/gzip/unpack.c:147-243 | a file laid out for a tree parses to that tree and data |
| `PackRoundTrip.UnpacksPacked` | MobileTerminal/file_cmds-251/gzip/unpack.c:310-329 | for every full tree, symbol table and message shorter than 2^32, unpacking the packed file, with the size of the message in four bytes, gives the message |
| `PackRoundTrip.SizeAnnounced` | MobileTerminal/file_cmds-251/gzip/unpack.c:248-306 | whatever a file unpacks to has the length that the four bytes of its header announce |
| `DdOutput.PartialIsRemainder` | MobileTerminal/file_cmds-251/dd/dd.c:413-475 | what is left after taking whole blocks is the remainder |
| `DdOutput.Output.WriteBlock` | MobileTerminal/file_cmds-251/dd/dd.c:413-472 | a block is written whole, in its order, over any short or interrupted writes |
| `DdOutput.Output.WriteBlocks` | MobileTerminal/file_cmds-251/dd/dd.c:412-475 | whole blocks are written until fewer than obs bytes are left, everything if forced |
| `DdOutput.Output.DdOut` | MobileTerminal/file_cmds-251/dd/dd.c:387-481 | bytes written plus bytes buffered are unchanged, and fewer than obs bytes remain unless forced |
| `DdDef.RemainderCarries` | MobileTerminal/file_cmds-251/dd/dd.c:413-475 | taking whole blocks early does not change what is left in the end |
| `DdDef.Copier.Feed` | MobileTerminal/file_cmds-251/dd/conv.c:61-88 | for any read, written plus buffered bytes are the translated input, and the shared buffer stays within ibs + obs - 1 |
| `DdDef.Copier.Close` | MobileTerminal/file_cmds-251/dd/conv.c:90-96 | in the end the output has a byte for each byte of the input: the same without a table, and what the table has at its value with one |
| `Records.RoundTripExactly` | MobileTerminal/file_cmds-251/dd/conv.c:105-273 | unblock after block gives a text back if and only if all its lines end in a newline, have at most cbsz bytes and no trailing blank |
| `Records.TwoRecords` | MobileTerminal/file_cmds-251/dd/conv.c:105-273 | a literal text of two lines and its two records of three bytes |
| `Records.ScanIsBlocked` | MobileTerminal/file_cmds-251/dd/conv.c:105-209 | scanning byte by byte with the truncation flag carried along is cutting and padding line by line |
| `Records.UnblockedParts` | MobileTerminal/file_cmds-251/dd/conv.c:218-273 | unblocking is the lines of the whole records and one for the rest |
| `Records.LeftCarries` | MobileTerminal/file_cmds-251/dd/conv.c:218-252 | whole records can be taken out of the input in any pieces |
| `DdBlock.Blocker.Block` | MobileTerminal/file_cmds-251/dd/conv.c:105-189 | the records of the buffered input go out and the start of the next stays |
| `DdBlock.Blocker.Feed` | MobileTerminal/file_cmds-251/dd/conv.c:105-189 | for any read, the state is the scan of all input so far, with both buffers within the allocated sizes |
| `DdBlock.Blocker.Close` | MobileTerminal/file_cmds-251/dd/conv.c:191-209 | in the end the output is one record of cbsz bytes for each line of the whole input |
| `DdUnblock.Unblocker.Feed` | MobileTerminal/file_cmds-251/dd/conv.c:218-252 | for any read, the whole records so far are out as lines and the rest is kept |
| `DdUnblock.Unblocker.Close` | MobileTerminal/file_cmds-251/dd/conv.c:254-273 | in the end the output is unblock of the whole input |
| `DdRuns.Copy` | MobileTerminal/file_cmds-251/dd/dd.c:260-361 | for all ibs, obs, reads and writes the output is the input without a table, and with one each byte is what the table has at the value of the input byte |
| `DdRuns.Block` | MobileTerminal/file_cmds-251/dd/dd.c:260-361 | for all ibs, obs, reads and writes the output is block of the input |
| `DdRuns.Unblock` | MobileTerminal/file_cmds-251/dd/dd.c:260-361 | for all ibs, obs, reads and writes the output is unblock of the input |
| `DdRuns.BlockAndBack` | MobileTerminal/file_cmds-251/dd/conv.c:105-273 | block to a file and unblock it, with any sizes and splits on both sides: the text comes back if and only if its lines are plain |
| `LinkCount.EntryCounts` | MobileTerminal/file_cmds-251/du/du.c:444-498 | in any run, among any other files, the entry of a file with k links counts its visits modulo k |
| `LinkCount.NewOncePerCycle` | MobileTerminal/file_cmds-251/du/du.c:444-498 | the v-th visit of a file with k links is new if and only if v - 1 is a multiple of k |
| `LinkFiling.WithoutNode` | MobileTerminal/file_cmds-251/du/du.c:452-459 | unlinking a node leaves every other file findable in its bucket |
| `LinkFiling.WithNode` | MobileTerminal/file_cmds-251/du/du.c:488-496 | linking a node leaves every other file findable in its bucket |
| `LinkBuckets.Buckets.Push` | MobileTerminal/file_cmds-251/du/du.c:430-435 | the node is in front of its list, and every list stays doubly linked |
| `LinkBuckets.Buckets.Remove` | MobileTerminal/file_cmds-251/du/du.c:453-459 | the node is out of its list, and every list stays doubly linked |
| `LinkGrowth.MoveHead` | MobileTerminal/file_cmds-251/du/du.c:422-436 | one node leaves the old list and joins its new bucket; the nodes still waiting are untouched |
| `LinkGrowth.MoveAll` | MobileTerminal/file_cmds-251/du/du.c:419-440 | all nodes are in the new buckets, each file in its own |
| `LinkTable.Table.Find` | MobileTerminal/file_cmds-251/du/du.c:445-447 | the scan finds a file if and only if it has an entry |
| `LinkTable.Table.Recycle` | MobileTerminal/file_cmds-251/du/du.c:452-467 | the entry is gone, all others keep their counts, and the node is on the free list |
| `LinkTable.Table.TakeNode` | MobileTerminal/file_cmds-251/du/du.c:476-490 | the node is a recycled one or a new one, and in no list |
| `LinkTable.Table.Grow` | MobileTerminal/file_cmds-251/du/du.c:400-442 | growing doubles the buckets and keeps every entry |
| `LinkTable.Table.LinkCheck` | MobileTerminal/file_cmds-251/du/du.c:367-498 | the answer is whether a plain map of remaining links has the file, and the table then holds the map after the visit |
| `LinkTable.CheckAll` | MobileTerminal/file_cmds-251/du/du.c:367-498 | in any run from the empty table, through growth and recycling, every answer is the map's, and a file that always reports k links is new once in k visits |
| `AclEntries.IsCanonical` | MobileTerminal/file_cmds-251/chmod/chmod_acl.c:401-421 | true if and only if no inherited entry comes before a local one, and among local or inherited entries no allowance before a denial |
| `AclEntries.FindCanonicalPosition` | MobileTerminal/file_cmds-251/chmod/chmod_acl.c:427-453 | the position is behind all entries at the front that are local where the new one is inherited, or denials of its kind where it is an allowance, and before the first that is not |
| `AclEntries.ScoresRank` | MobileTerminal/file_cmds-251/chmod/chmod_acl.c:270-306 | a higher score is local before inherited, and of one kind denial before allowance |
| `AclEntries.FindMatchingEntry` | MobileTerminal/file_cmds-251/chmod/chmod_acl.c:461-499 | an exact match if and only if the entry is there; the entry returned is the first equal one, or else the last of the same user, tag and flags |
| `AclEntries.FirstChosen` | MobileTerminal/file_cmds-251/chmod/chmod_acl.c:457-499 | the first match is the one returned if and only if it is equal, or no later entry is of the same user, tag and flags |
| `AclEntries.LaterChosen` | MobileTerminal/file_cmds-251/chmod/chmod_acl.c:457-499 | a list of two partial matches of which the second is returned |
| `AclAddition.Acl.Add` | MobileTerminal/file_cmds-251/chmod/chmod_acl.c:579-607 | the list is left alone, or one entry merged, or the entry inserted, as the specification says |
| `AclAddition.AddedAllCanonical` | MobileTerminal/file_cmds-251/chmod/chmod_acl.c:579-607 | canonical order survives any run of additions |
| `AclAddition.AddedTwice` | MobileTerminal/file_cmds-251/chmod/chmod_acl.c:579-607 | repeating an addition changes nothing |
| `AclAddition.AddedAllAgain` | MobileTerminal/file_cmds-251/chmod/chmod_acl.c:579-607 | repeating any part of a run in any order changes nothing |
| `AclAddition.AddedAllSpeaks` | MobileTerminal/file_cmds-251/chmod/chmod_acl.c:533-556 | a run of additions grants and denies what the list and the additions do, and nothing else |
| `AclAddition.AddedAllMentions` | MobileTerminal/file_cmds-251/chmod/chmod_acl.c:579-607 | a run of additions leaves entries for exactly those users, tags and flags that the list or the additions have |
| `AclAddition.AddedAllUnlike` | MobileTerminal/file_cmds-251/chmod/chmod_acl.c:579-607 | no run of additions makes two entries for the same user, tag and flags |
| `AclAddition.AnyOrder` | MobileTerminal/file_cmds-251/chmod/chmod_acl.c:579-607 | two runs with the same additions, in whatever order and number, leave the same entries |
| `AclAddition.ReversedCanonical` | MobileTerminal/file_cmds-251/chmod/chmod_acl.c:729-735 | a file without entries gets the additions in reverse, which is canonical if and only if no addition outranks a later one |
| `AclAddition.DenialThenAllowance` | MobileTerminal/file_cmds-251/chmod/chmod_acl.c:729-735 | a denial and an allowance in this order, which is canonical, end up in the other order in a file without entries |
| `AclAddition.Acl.Modify` | MobileTerminal/file_cmds-251/chmod/chmod_acl.c:729-804 | a list out of order is refused and unchanged; otherwise all additions have their entry, marked as inherited if that was asked for, and a list that had entries is canonical again |
| `CrcDivision.TimesLinear` | MobileTerminal/file_cmds-251/cksum/crc.c:124 | multiplication by x modulo the polynomial is linear |
| `CrcDivision.TableLifts` | MobileTerminal/file_cmds-251/cksum/crc.c:52-105 | every one of the 256 table entries is the remainder of its index |
| `CrcDivision.StepIsProduct` | MobileTerminal/file_cmds-251/cksum/crc.c:124 | feeding a byte by the table is adding it at the top and multiplying by x to the 8 |
| `CrcDivision.FeedIsRemainder` | MobileTerminal/file_cmds-251/cksum/crc.c:113-148 | for every byte sequence the table algorithm computes the remainder of the bit-by-bit division by 0x04c11db7 |
| `CrcMirror.TablesMirror` | MobileTerminal/file_cmds-251/cksum/crc32.c:31-96 | the table of crc32.c is the mirror image of the one of crc.c |
| `CrcMirror.StepsMirror` | MobileTerminal/file_cmds-251/cksum/crc32.c:25 | the reflected step is the mirror image of the other |
| `CrcMirror.MirrorFeedIsRemainder` | MobileTerminal/file_cmds-251/cksum/crc32.c:98-122 | for every byte sequence the reflected algorithm, from all ones, computes the mirror image of the remainder of the division by the same polynomial |
| `CrcMirror.FirstBitsComplemented` | MobileTerminal/file_cmds-251/cksum/crc32.c:98-122 | for at least four bytes that is the mirrored remainder, from zero, of the message with its first 32 bits complemented, as section 8 of RFC 1952 has it |
| `Cksum.FeedFromZero` | MobileTerminal/file_cmds-251/cksum/crc.c:126-145 | from zero, the table algorithm computes the remainder of the message |
| `Cksum.Totals.Crc` | MobileTerminal/file_cmds-251/cksum/crc.c:115-148 | the checksum is the complemented remainder of the file and the bytes that write its length, lowest first and without high zeros, whatever the reads; the running total goes on over them |
| `Cksum.OneLength` | MobileTerminal/file_cmds-251/cksum/crc.c:139-144 | a length is written by one sequence of bytes only, lowest first and without high zeros |
| `Cksum.Totals.Crc32` | MobileTerminal/file_cmds-251/cksum/crc32.c:100-122 | the same for the reflected form, without the length |
| `Cksum.CrcFiles` | MobileTerminal/file_cmds-251/cksum/crc.c:113-148 | after any run of files crc_total is the complemented remainder of all files, each followed by its length bytes, as one message |
| `Cksum.Crc32Files` | MobileTerminal/file_cmds-251/cksum/crc32.c:98-122 | after any run of files crc32_total is the checksum of all files as one |
| `CatalogLists.PutAscends` | MobileTerminal/adv_cmds-163/gencat/genlib.c:660-694 | inserting by number keeps a list strictly ascending |
| `CatalogLists.FindPut` | MobileTerminal/adv_cmds-163/gencat/genlib.c:714-752 | inserting or replacing changes what is found under one number only |
| `CatalogLists.FindDrop` | MobileTerminal/adv_cmds-163/gencat/genlib.c:791-805 | deleting removes what is found under one number only |
| `CatalogLists.FoundAlike` | MobileTerminal/adv_cmds-163/gencat/genlib.c:394-468 | an ascending list is determined by what is found in it |
| `CatalogNodes.List.Scan` | MobileTerminal/adv_cmds-163/gencat/genlib.c:660-679 | following the next pointers stops at the number or at the first larger one |
| `CatalogNodes.List.InsertBefore` | MobileTerminal/adv_cmds-163/gencat/genlib.c:668-676 | the new node is linked in before another, at the front too; first, last and all next and prev pointers are those of the longer list |
| `CatalogNodes.List.Append` | MobileTerminal/adv_cmds-163/gencat/genlib.c:681-693 | the new node is linked in behind the last, and is the last |
| `CatalogNodes.List.Unlink` | MobileTerminal/adv_cmds-163/gencat/genlib.c:796-800 | the node is out, at either end or in the middle; first, last and all pointers are those of the shorter list |
| `CatalogNodes.List.Seat` | MobileTerminal/adv_cmds-163/gencat/genlib.c:660-695 | the node with a number, or a new one at its place in the list |
| `CatalogNodes.List.PutItem` | MobileTerminal/adv_cmds-163/gencat/genlib.c:714-752 | the linked list holds what inserting or replacing by number gives |
| `CatalogNodes.List.Remove` | MobileTerminal/adv_cmds-163/gencat/genlib.c:791-805 | the linked list holds what deleting by number gives |
| `Catalog.Disjoint` | MobileTerminal/adv_cmds-163/gencat/genlib.c:700-753 | different sets share no message nodes |
| `Catalog.AddMsgShows` | MobileTerminal/adv_cmds-163/gencat/genlib.c:700-753 | adding a message changes one text of the current set in the reference and nothing else |
| `Catalog.DelMsgShows` | MobileTerminal/adv_cmds-163/gencat/genlib.c:783-807 | deleting a message removes one text of the current set in the reference and nothing else |
| `Catalog.Catalog.AddSet` | MobileTerminal/adv_cmds-163/gencat/genlib.c:649-698 | the node of a positive number, new and empty or as it was, is in its place and is the current set; all lists stay linked |
| `Catalog.Catalog.AddMsg` | MobileTerminal/adv_cmds-163/gencat/genlib.c:700-753 | without a current set or with a number that is not positive it is an error; otherwise the text is in its place in the current set, and the other sets are untouched |
| `Catalog.Catalog.DelMsg` | MobileTerminal/adv_cmds-163/gencat/genlib.c:783-807 | without a current set it is an error; otherwise the message is gone from the current set, if it was there, and the other sets are untouched |
| `Catalog.Catalog.AppendSet` | MobileTerminal/adv_cmds-163/gencat/genlib.c:425-434 | a set with its list of messages is linked in behind the last |
| `Catalog.OneCatalog` | MobileTerminal/adv_cmds-163/gencat/genlib.c:649-807 | ascending sets and messages that show the reference are unique |
| `Catalog.Build` | MobileTerminal/adv_cmds-163/gencat/genlib.c:649-807 | any run of edits leaves linked, strictly ascending lists that are the only ones to show what a plain map has, or stops where the map's edit fails |
| `CatalogImage.TextFound` | MobileTerminal/adv_cmds-163/gencat/genlib.c:617-631 | the offset of a message leads to its text, which ends before the next zero |
| `CatalogIO.Writer.WriteTexts` | MobileTerminal/adv_cmds-163/gencat/genlib.c:615-624 | along the list, the texts are written and every message notes the place of its text |
| `CatalogIO.Writer.WriteSet` | MobileTerminal/adv_cmds-163/gencat/genlib.c:604-646 | with its record written blank, then filled in and written again, a set is laid out with the right places of its texts, messages and successor; it has none exactly if it is the node that last points to |
| `CatalogIO.Writer.WriteCat` | MobileTerminal/adv_cmds-163/gencat/genlib.c:569-647 | walking the list of sets to its end, the file is the image of the catalog |
| `CatalogReading.EndlessExactly` | MobileTerminal/adv_cmds-163/gencat/genlib.c:421-467 | the reader follows more records than the file has cells if and only if it would follow them forever |
| `CatalogReading.InvalidSetSkipped` | MobileTerminal/adv_cmds-163/gencat/genlib.c:421-423 | an invalid set record is passed over, and the next one is right behind it |
| `CatalogReading.InvalidMsgSkipped` | MobileTerminal/adv_cmds-163/gencat/genlib.c:444-449 | an invalid message record is passed over and not counted |
| `CatalogReading.ReadsImage` | MobileTerminal/adv_cmds-163/gencat/genlib.c:394-468 | the image of a catalog is read as that catalog, and that of one without sets is refused |
| `CatalogReading.HeadRead` | MobileTerminal/adv_cmds-163/gencat/genlib.c:584-602 | the head of a written file says how many sets there are and that the first one is behind it |
| `CatalogIO.Reader.ReadMsgs` | MobileTerminal/adv_cmds-163/gencat/genlib.c:444-462 | on any file of cells, the messages of a set are linked into its list as its records say, or the file is refused |
| `CatalogIO.Reader.ReadTurn` | MobileTerminal/adv_cmds-163/gencat/genlib.c:421-467 | on any file of cells, the record at the current position is skipped, or its set linked in and the next one sought, or the file refused |
| `CatalogIO.Reader.ReadCat` | MobileTerminal/adv_cmds-163/gencat/genlib.c:394-468 | on any file of cells, the linked lists hold the catalog that the records describe, or the file is refused, or the reader would never end |
| `CatalogIO.ThereAndBack` | MobileTerminal/adv_cmds-163/gencat/genlib.c:394-468 | a catalog built by any run of edits, written and read back into nodes, shows the same sets, messages and texts; it is refused if and only if it has no set |

## Left out

- Unpacker.Unpacker.ParseHeader: the byte behind the symbol table, which the decoder may read as the symbol of a misplaced end-of-block code, is a parameter, since it lies outside the allocated table.
- Decompressor.Decompressor.ZRead: a call after one that returned -1, or after compress found its file empty behind the header, is excluded, since the source then resumes in the middle of a state it never set up; the kinds of errno are not distinguished.
- LzwStreams.ReadPieces: for compress, the first code has to be a character or CLEAR; with another one an entry can become its own prefix (Decoders.OwnPrefix), so the source determines the answers only as far as Decoders.OddAgreement and Decompressor.Decompressor.ReadOneOddly state them.
- CatalogIO.Reader.ReadMsgs: a file consists of typed cells, since the layout of the records is not given; where the source would take any bytes for a record, or an offset outside the data for a text, which is undefined there, this model refuses the file.
- CatalogIO.Reader.ReadTurn: the same for set records; and the messages of a set are read into its list before the set is linked in, and not after, which cannot be observed.
- CatalogIO.Reader.ReadCat: the same for the head.
- Catalog.Catalog.AddMsg: the header constants of sets and messages are not modelled.
- LinkTable.Table.LinkCheck: memory is always available, so stop_allocating stays off and the free list is never released.
- AclAddition.Acl.Modify: only additions; deletion, rewriting and positions given by the user are not modelled.
- Cksum.Totals.Crc: a read error, which leaves the running total complemented, is not modelled.
- I/O: opening files, errors of read and write, options and messages. Reads and writes are arbitrary pieces of byte sequences.
- compress: the counters out_count and total_compressed_bytes; the C type long is an unbounded integer; a third byte is loaded by getcode only where it contributes bits.
- gzip: deflate, bzip2 and xz are done by foreign libraries.
- dd: conversion tables together with block and unblock, the options sparse, sync, osync, swab and bs, tapes, and the statistics, among them the counter of truncated records.
- du: directory hard links (dirlinkchk) and the traversal.
- chmod: the meaning of names; the limit on the number of entries; entries of deeper inheritance levels, which the source does not determine either.
- gencat: parsing of message files, deletion of sets, the layout of the three records (any positive sizes), the magic number, version and byte order of the header; 32-bit overflow of lengths.
- The other tools (ps, ls, cp, df, stty and so on) and the terminal application, of which only declarations are there.
