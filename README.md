# Huffman byte compressor — a Dafny model

The repository is a Huffman compressor written in C++ in two generations that share one design:

- a bit-buffered file stream;
- a greedy tree builder that repeatedly merges the two lowest-frequency nodes of a priority queue;
- codes read off root-to-leaf paths (0 = left, 1 = right);
- a pre-order dump of the tree;
- encode and decode passes that walk the tree.

The generations differ in how the decoder knows where the payload ends.

- **Current generation** (`bitstream.h`, `huffman.h`). The compressed file is the tree dump, then a 4-byte little-endian length, then the packed codes. The last byte is padded with clear bits.
- **Older generation** (`Lab3_Huffmann/`). Its stream pads the last byte with set bits. It counts the end-of-file value `get()` returns as one more character, keyed by `char`. It has two drivers:
  - `coding.h` writes the tree dump, then a continuation flag before every character's code (1 when another character follows, 0 for the last one);
  - `Lab3_Huffmann.cpp` writes a leaf count and a (`ch`, `freq`) byte pair per leaf. It then writes the plain codes, and its decoder rebuilds the tree from the pairs.

## Structure of the model

| file | module | models |
|---|---|---|
| `bits.dfy` | `Bits` | bits of an integer (two's complement for negatives), most significant first, and the byte/bit conversions both streams use |
| `wrappers.dfy` | `Wrappers` | `Option` |
| `bitstream.dfy` | `Bitstream` | `class bitstream` (`bitstream.h`) as a class with the same fields. The `std::fstream` behind it is an in-memory file: the unread bytes and a cursor in read mode, the bytes written so far in write mode. A ghost field holds the bits in the buffer. |
| `huffman.dfy` | `Huffman` | the trees and priority queue of `huffman.h` as values, with the functions the methods are proved against: `TreeBits` (tree dump), `ParseTree` (reading it back), `Codes` (the code map), `SizeBytes`/`ReadSize` (the length field), `DecodeLoop`/`Decode` (the decoding loop), `CompressedBits` (the compressed file) |
| `huffman_coder.dfy` | `HuffmanCoder` | the operations of `huffman.h` as methods on `Bitstream` objects and queue values, each proved against the functions above; `Compress`, `Decompress` and `RoundTrip` put them together |
| `lab3_bitstream.dfy` | `Lab3Stream` | `class BitStream` of `Lab3_Huffmann/bitstream.h`, with its `mode`, `buffer` and `index` fields and the lazy flush of a full buffer |
| `lab3_frequency.dfy` | `Lab3Frequency` | `initFrequencyMap`, including the truncation of bytes to `char` |
| `lab3_tree.dfy` | `Lab3Tree` | `Huffman_Tree.h`: the code list of `initHuffmanCode`, its sorting by code length, the tree and leaf dumps, `getHuffmanTree` and `nextVex` |
| `lab3_coding.dfy` | `Lab3Coding` | `coding.h`: the flagged encoder and decoder, `compress` and `decompress`, and the round trip |
| `lab3_variant.dfy` | `Lab3Variant` | `Lab3_Huffmann.cpp` without `main`: plain encoder, decoder that stops at a null or zero-frequency node, the count-and-pairs header, the removal of a zero-frequency entry, and `outputfileName` |

### Conventions

- Files are byte sequences.
- `get()` returns -1 at end of file. All bits of -1 are set, so a reader that runs past the end of the file reads set bits; both streams model this exactly.
- A C++ `char` is the signed value `Char(b)` of a byte (`(b + 128) % 256 - 128`). `put` writes the low byte of its argument (`LowByte`).
- An exception (`runtime_error` in the current generation) is `None` (or `false` for a method without a value).
- A loop of the source that never ends is `None` in the function that specifies it.
- The priority queue is a sequence of trees. `pop` takes any node of least frequency, so every property is proved for every tie order.
- The order in which a map is iterated is left open in the same way.
- The tree and code list that `compress` builds are ghost results. Ties make them non-unique; the contracts say what every possible choice satisfies.

### End of data, round trips and truncation

- No generation writes an in-band terminator leaf:
  - `huffman.h` writes a 32-bit length field;
  - `coding.h` writes continuation flags;
  - `Lab3_Huffmann.cpp` writes a leaf count and stops at a zero-frequency leaf.
- The round trip does not hold for every input:
  - In `huffman.h` an input with one distinct byte gets an empty code, and decompressing it yields that byte once (`Huffman.LoneLeafDecode`).
  - The round trip needs two distinct bytes and fewer than 2^32 of them (`HuffmanCoder.RoundTrip`).
  - In `coding.h` the empty input decodes to no result (`Lab3Coding.EmptyFile`). Every non-empty input round-trips (`Lab3Coding.RoundTrip`).
- `initFrequencyMap` counts the end-of-file `char` once, so its weight is at least 1, and a `0xFF` byte shares that entry (`Lab3Frequency.EofShared`).
- A one-symbol tree is not padded to two leaves.
- Decoding does not fail on a truncated stream:
  - `huffman.h` stops when the file's eof flag is set;
  - `coding.h` dereferences the null node `nextVex` returns, modelled as no result.

## Model

| member | source | states |
|---|---|---|
| Bits.FromToBits | bitstream.h:68-75 | assembling the n low bits of a value in 0..2^n-1, most significant first, gives back the value |
| Bits.ToFromBits | bitstream.h:55-59 | splitting the value assembled from a bit sequence gives back the sequence |
| Bits.MinusOneBits | bitstream.h:52 | every bit of the EOF value -1 is set |
| Bits.LowByteBits | bitstream.h:94-95 | the byte `put` writes for an int has the same eight bits as the int |
| Bits.FlushPartial | bitstream.h:106-109 | a partly filled buffer written as a byte holds the buffered bits followed by clear bits |
| Bitstream.Bitstream.constructor | bitstream.h:29-43 | read mode exposes the file's bits to the reader; write mode starts an empty file; append mode writes after the file's contents; the buffer is empty |
| Bitstream.Bitstream.Get | bitstream.h:52 | `get()` yields the next byte and advances, or yields EOF and sets the eof flag at end of file |
| Bitstream.Bitstream.Put | bitstream.h:87 | `put` appends the low byte of its argument to a writable file; a read-mode file is unchanged |
| Bitstream.Bitstream.GetBit | bitstream.h:47-62 | in write/append mode it fails and changes nothing (buffer, count, cursor, eof flag and buffered bits); in read mode it returns the next bit of the reader's stream (most significant first, loading a byte only when the buffer is empty), consumes exactly that bit, and raises eof exactly when the load found the file exhausted |
| Bitstream.ReadStep | bitstream.h:51-61 | one `getbit` on the raw fields (load when empty, take bit 7, shift left, decrement the count) is the reader's next bit and leaves the rest of the stream |
| Bitstream.LoadStep | bitstream.h:51-54 | a freshly loaded byte holds its eight bits in buffer order; an exhausted file loads eight set bits |
| Bitstream.Bitstream.GetByte | bitstream.h:64-76 | with an empty buffer it returns the raw next byte (or EOF); with a non-empty buffer in write/append mode it fails and changes nothing; in read mode it returns in every case the value of the next eight bits of the stream (EOF when none remains) and consumes those eight bits |
| Bitstream.AlignedRead | bitstream.h:65-66 | at a byte boundary the next eight stream bits are the next file byte |
| Bitstream.Bitstream.GetBufferedByte | bitstream.h:68-75 | eight `getbit` calls, each set bit i adding 2^i, assemble the next eight stream bits most significant first and consume them; in write mode the first `getbit` fails and nothing changes |
| Bitstream.ByteStep | bitstream.h:70-74 | one round of the `getbyte` loop adds the next stream bit at weight 2^i to the bits assembled so far |
| Bitstream.Bitstream.PutBit | bitstream.h:78-91 | fails in read mode and changes nothing, buffered bits included; otherwise the bit is appended to everything written; the count cycles 1..7 then back to 0, and the eighth bit emits exactly one byte and resets the buffer to 0, so 0 <= count < 8 between calls |
| Bitstream.WriteStep | bitstream.h:82-90 | the k-th bit of a byte placed at weight 2^(8-k), and the flush on the eighth, extend the written bits by that bit and keep the buffer equal to the packed pending bits |
| Bitstream.Bitstream.PutByte | bitstream.h:93-104 | in write/append mode the eight bits of the byte are appended whichever path is taken (the direct `put` when the buffer is empty, or eight `putbit`s); a read-mode stream is unchanged, buffered bits included, and fails only on the bit-by-bit path |
| Bitstream.Bitstream.Close | bitstream.h:106-111 | a writable stream's file ends with every written bit followed by clear bits up to the byte boundary; a read stream's output is unchanged |
| Bitstream.Bitstream.Eof | bitstream.h:115 | `eof()` holds only when the buffer is empty and the file is exhausted, so no bit remains to be read |
| HuffmanCoder.PopTop | huffman.h:110-117 | `top`/`pop` under `freq_comparison` removes one node whose frequency is not greater than that of any node left, and no other node; leaves, values and total frequency are shared between it and the rest |
| Huffman.TopExists | huffman.h:27-34 | a non-empty queue has a least-frequency node for `top` to return |
| Huffman.RemoveTop | huffman.h:110-111 | removing a least-frequency node leaves a queue in which it is not ordered after any node |
| HuffmanCoder.BuildTree | huffman.h:105-124 | an empty queue gives NULL; a single node is returned as it is; otherwise the result is an inner node built greedily: the two least frequent nodes are joined under a parent carrying the sum of their frequencies, and so on until one node is left (for any tie order); its leaves are exactly the queue's leaves and its frequency their total; `initHuffmanTree` (Lab3_Huffmann/Huffman_Tree.h:50-71) is the same merge and is modelled by this member |
| HuffmanCoder.PushParent | huffman.h:115-121 | the second pop takes a least frequent node of what the first pop left, and the pushed parent joins the first and second nodes with the sum of their frequencies; the queue shrinks by one and keeps its leaves, values and total frequency |
| Huffman.FreqComparisonOrder | huffman.h:27-32 | `freq_comparison` is a strict weak order, as `std::priority_queue` requires: irreflexive, transitive, and two nodes are unordered exactly when their frequencies are equal |
| Huffman.TopLeast | Lab3_Huffmann/Huffman_Tree.h:36-38 | with the comparison reversed (`operator<` ranks the larger frequency lower) the top of the queue is exactly a node of least frequency |
| Huffman.GreedyWeighted | huffman.h:119-121 | every parent the greedy merge pushes carries the sum of its children's frequencies, so a tree built from weighted nodes is weighted throughout |
| Huffman.FromWeighted | huffman.h:105-124 | a tree built from a queue of leaves is weighted throughout |
| Huffman.FrequenciesSnoc | huffman.h:55 | one more byte increments its count, starting from 0 for an unseen byte, and leaves every other count |
| HuffmanCoder.NextByte | huffman.h:51-53 | on a byte-aligned stream, `getbyte` followed by `eof()` reads the next file byte, or reports end of file exactly when the file is exhausted |
| HuffmanCoder.CountBytes | huffman.h:48-56 | `contents` is the file's bytes in order and the map counts each byte's occurrences |
| HuffmanCoder.FillQueue | huffman.h:58-60 | one leaf per map entry, carrying its count, so the queue's values are the map's keys and the leaf counts add up to the map's counts |
| Huffman.FillStep | huffman.h:59-60 | pushing the leaf of one more key keeps the queue in step with the keys visited so far |
| Huffman.QueueTree | huffman.h:58-62 | the tree built from the counted queue has the input's distinct bytes as leaves with their counts, the input length as frequency, and inner nodes exactly when there are two distinct bytes |
| Huffman.TreeBitsLength | huffman.h:126-139 | the tree dump is 9 bits per leaf plus 1 bit per inner node |
| HuffmanCoder.StoreTree | huffman.h:126-139 | the bits written are the pre-order dump: 1 and the eight value bits for a leaf, 0 then left then right for an inner node, nothing for NULL |
| HuffmanCoder.PutLeaf | huffman.h:130-133 | a leaf writes a set flag and its value's eight bits |
| HuffmanCoder.RetrieveTree | huffman.h:141-152 | the tree read and the reader left behind are those of the parse of the stream: set flag and byte for a leaf, clear flag and two subtrees for an inner node |
| Huffman.ParseTreeBits | huffman.h:126-152 | reading back the dump of a tree with byte leaves gives the same shape and leaf values (frequencies 1) and leaves the following bits unread |
| HuffmanCoder.WriteSize | huffman.h:154-159 | writes the four low bytes of the size, least significant first |
| HuffmanCoder.RetrieveSize | huffman.h:161-169 | the size read, and the reader left, are those of reading four bytes and placing byte i at bits 8i..8i+7 |
| Huffman.AssembleValue | huffman.h:163-167 | `|=` of the shifted bytes equals their sum, since the bytes occupy disjoint bit ranges |
| Huffman.SizeRoundTrip | huffman.h:154-169 | reading back the written length field gives the size modulo 2^32 and leaves the following bits unread |
| HuffmanCoder.InitCodeMap | huffman.h:171-187 | the map gains one entry per leaf, with the path code from the root, and `code` is unchanged on return because pushes and pops balance |
| Huffman.CodesKeys | huffman.h:171-187 | the code map's keys are exactly the tree's leaf values |
| Huffman.CodesPath | huffman.h:175-186 | each leaf value's code is the prefix passed in followed by its root path |
| Huffman.CodeReaches | huffman.h:171-187 | following a value's code from the root ends at that value's leaf |
| Huffman.CodesPrefixFree | huffman.h:171-187 | no code of one value is a prefix of the code of a different value |
| Huffman.CodesLength | huffman.h:175-177 | a tree with inner nodes gives every value a non-empty code; a lone leaf maps its value to the empty code |
| HuffmanCoder.PutCode | huffman.h:74-75 | a code's bits are appended in order |
| HuffmanCoder.EncodeContents | huffman.h:73-75 | the bits written are the concatenated codes of the contents, in input order |
| HuffmanCoder.WriteHeader | huffman.h:64-67 | a fresh output file receives the tree dump and then the length field |
| HuffmanCoder.Finish | bitstream.h:106-110 | closing the output yields the written bits zero-padded to a whole byte |
| Huffman.CloseBits | bitstream.h:106-110 | the bits of the closed file are the written bits followed by the padding to the next byte boundary |
| HuffmanCoder.WriteCompressed | huffman.h:64-75 | the closed output file holds the tree dump, the length field and the codes, zero-padded |
| HuffmanCoder.Compress | huffman.h:41-76 | the output file is the compressed bits of the input under the tree built, zero-padded; there is no tree exactly when the input is empty; the tree is one the greedy merge makes of a queue holding one leaf per distinct byte with its count, every parent's frequency is the sum of its children's, its leaves are the input's distinct bytes with their counts, its frequency is the input length, and it has inner nodes exactly when two distinct bytes occur |
| HuffmanCoder.DecodeRound | huffman.h:92-100 | one round of the decoding loop writes the leaf's byte and restarts at the root when the node is a leaf, then steps to the child the next bit selects |
| Huffman.DecodeStep | huffman.h:92-101 | the output of the decoding loop is the byte of a leaf reached (if any) followed by the output of the loop from the next node |
| HuffmanCoder.DecodeBody | huffman.h:89-101 | the bytes written by the loop are those the decoding loop specifies from the reader's state |
| HuffmanCoder.Decompress | huffman.h:78-102 | the output file holds the decoding of the compressed file's bits: tree, then length, then the loop |
| Huffman.DecodeLoopBound | huffman.h:92-101 | the decoding loop emits at most as many bytes as the length field has still to give |
| Huffman.DecodeBound | huffman.h:84-101 | `decompress` writes no more bytes than the length field read after the tree names |
| Huffman.DecodeAll | huffman.h:89-101 | walking the codes of a sequence of leaf values from the root gives back the sequence, whatever bits follow |
| Huffman.RoundTripBits | huffman.h:41-101 | decoding the tree dump, length field and codes of data whose bytes are leaves of a tree with inner nodes gives back the data, whatever padding follows |
| Huffman.CompressedRoundTrip | huffman.h:41-101 | decompressing the compressed bits of such data, with any padding, gives back the data |
| HuffmanCoder.RoundTrip | huffman.h:41-102 | decompressing the compressed file of data with two distinct bytes and fewer than 2^32 bytes gives back the data |
| HuffmanCoder.PackedRoundTrip | huffman.h:78-102 | the file `compress` writes for data with two distinct bytes, zero padding included, decodes to the data |
| Huffman.LoneLeafCodes | huffman.h:175-177 | with a one-leaf tree every byte's code is empty, so no code bits are written |
| Huffman.LoneLeafDecode | huffman.h:89-101 | data made of one repeated byte decompresses to that byte once |
| Huffman.EmptyDecode | huffman.h:85-101 | the compressed form of the empty input decompresses to nothing |
| Lab3Stream.Pow2Table | Lab3_Huffmann/bitstream.h:175-187 | `pow2(i)` is 2^i for 0 <= i <= 7 and -1 otherwise |
| Lab3Stream.BitStream.constructor | Lab3_Huffmann/bitstream.h:34 | mode `none`, buffer 0, index `BYTE`, no file open |
| Lab3Stream.BitStream.Open | Lab3_Huffmann/bitstream.h:59-78 | buffer 0; read mode sets index 0 and exposes the file's bits; write sets index `BYTE` and starts an empty file; app sets index `BYTE` and writes after the file; `none` opens nothing |
| Lab3Stream.BitStream.Get | Lab3_Huffmann/bitstream.h:94 | `get()` yields the next byte, or EOF with the eof flag raised |
| Lab3Stream.BitStream.Put | Lab3_Huffmann/bitstream.h:126 | `put` appends the low byte of its argument |
| Lab3Stream.BitStream.GetBit | Lab3_Huffmann/bitstream.h:80-99 | -1 and no change (buffer, index, cursor, eof flag and buffered bits) unless in read mode; otherwise 1 or 0 for the next bit of the stream, which is consumed |
| Lab3Stream.BitStream.Load | Lab3_Huffmann/bitstream.h:93-95 | refilling an empty buffer does not change which bit comes next or what follows it |
| Lab3Stream.BitStream.GetChar | Lab3_Huffmann/bitstream.h:101-113 | -1 and no change (buffer, index, cursor, eof flag and buffered bits) unless in read mode; otherwise the value 0..255 of the next eight bits, most significant first, which are consumed |
| Lab3Stream.BitStream.CharBit | Lab3_Huffmann/bitstream.h:107-111 | one round of the `getchar` loop adds the next bit at weight `pow2(i)` |
| Lab3Stream.CharStep | Lab3_Huffmann/bitstream.h:107-111 | on reader values, one round adds the next bit at weight 2^i and moves the reader one bit on |
| Lab3Stream.CharDone | Lab3_Huffmann/bitstream.h:101-113 | after eight rounds the value and reader are those of reading one `char` |
| Lab3Stream.BitStream.PutBit | Lab3_Huffmann/bitstream.h:115-135 | nothing changes (file, buffer, index and buffered bits) unless in write/app mode; otherwise a 0/1 bit is appended to the written bits and any other value appends its eight bits as `putchar` would; for a 0/1 bit the index counts down 7..0 and restarts at 7 after the lazy flush of a full buffer |
| Lab3Stream.BitStream.PutChar | Lab3_Huffmann/bitstream.h:137-147 | nothing changes (file, buffer, index and buffered bits) unless in write/app mode; otherwise the eight low bits of the value are appended, most significant first |
| Lab3Stream.BitStream.Eof | Lab3_Huffmann/bitstream.h:149-159 | in read mode `eof()` holds exactly when no bit remains and the eof flag is set; in write/app mode it never holds |
| Lab3Stream.BitStream.Close | Lab3_Huffmann/bitstream.h:161-173 | a writable stream's file ends with every written bit followed by `index` set bits (a full pending buffer is flushed without padding); in other modes only the open flag changes; the file is closed |
| Lab3Frequency.Char | Lab3_Huffmann/frequencymap.h:24 | the `char` of a value is in -128..127 and equal to it modulo 256 |
| Lab3Frequency.InitFrequencyMap | Lab3_Huffmann/frequencymap.h:16-34 | an empty map when the file is not open; otherwise the counts of the file's characters followed by one EOF `char` |
| Lab3Frequency.CountsPositive | Lab3_Huffmann/frequencymap.h:23-31 | every count is at least 1, and the keys are the file's characters plus the EOF `char` |
| Lab3Frequency.EofShared | Lab3_Huffmann/frequencymap.h:24-31 | the EOF `char` is -1, the same key as byte 0xFF, and its count is the number of 0xFF bytes plus one |
| Lab3Frequency.ChopCount | Lab3_Huffmann/frequencymap.h:24 | the characters -1 in the file are exactly its 0xFF bytes |
| Lab3Frequency.CharByte | Lab3_Huffmann/frequencymap.h:24 | writing back the `char` of a byte writes the byte |
| Lab3Frequency.ByteChar | Lab3_Huffmann/frequencymap.h:24 | the `char` read back from the low byte of a character is the character |
| Lab3Tree.CodeList | Lab3_Huffmann/Huffman_Tree.h:75-104 | the code list has one entry per leaf |
| Lab3Tree.CodeListPaths | Lab3_Huffmann/Huffman_Tree.h:83-96 | each entry's code is the prefix passed in followed by the root path of a leaf carrying that character and frequency |
| Lab3Tree.CodeListEntries | Lab3_Huffmann/Huffman_Tree.h:77-103 | the characters listed are exactly the tree's leaf characters |
| Lab3Tree.CodeListPrefixFree | Lab3_Huffmann/Huffman_Tree.h:83-103 | no entry's code is a prefix of another entry's code |
| Lab3Tree.PrefixFreeJoin | Lab3_Huffmann/Huffman_Tree.h:99-101 | joining the prefix-free lists of the 0-subtree and the 1-subtree keeps the list prefix-free |
| Lab3Tree.LookupEntry | Lab3_Huffmann/coding.h:17-23 | an unlisted character gets the empty code; a listed one gets the code of an entry with that character |
| Lab3Tree.FindCode | Lab3_Huffmann/coding.h:17-23 | the loop returns the code of the first entry with a matching character, or the empty code |
| Lab3Tree.LookupReaches | Lab3_Huffmann/coding.h:17-23 | in any reordering of a tree's code list, the code looked up for a leaf character leads from the root to that character's leaf |
| Lab3Tree.InsertCode | Lab3_Huffmann/Huffman_Tree.h:31-33 | inserting into a list sorted by `HuffmanCodeCompare` keeps it sorted and adds exactly that entry |
| Lab3Tree.SortCodes | Lab3_Huffmann/coding.h:60 | `HC.sort(HuffmanCodeCompare)` orders the list by code length and is a permutation of it |
| Lab3Tree.StoreHuffmanTree | Lab3_Huffmann/Huffman_Tree.h:119-134 | the bits written are the pre-order dump: 1 and the character's eight bits for a leaf, 0 then left then right for an inner node |
| Lab3Tree.PutLeaf | Lab3_Huffmann/Huffman_Tree.h:125-128 | a leaf writes a set bit and its character's eight bits |
| Lab3Tree.GetHuffmanTree | Lab3_Huffmann/Huffman_Tree.h:136-147 | the tree read and the reader left are those of parsing the stream: a bit equal to 1, then a `char`, for a leaf; anything else gives an inner node with two subtrees |
| Lab3Tree.ReadCharOf | Lab3_Huffmann/bitstream.h:101-147 | `getchar` after `putchar(v)` reads the low byte of `v` and leaves the following bits |
| Lab3Tree.ParseCharTreeBits | Lab3_Huffmann/Huffman_Tree.h:119-147 | reading back the dump of a tree with `char` leaves gives the same shape and characters, with frequency 1, and leaves the following bits unread |
| Lab3Tree.LeafList | Lab3_Huffmann/Huffman_Tree.h:106-117 | the leaves in pre-order: one per leaf, exactly the tree's leaves |
| Lab3Tree.StoreHuffmanLeaf | Lab3_Huffmann/Huffman_Tree.h:106-117 | nothing for a null tree or a closed stream; otherwise a (character, frequency) byte pair per leaf, in pre-order |
| Lab3Tree.PutPair | Lab3_Huffmann/Huffman_Tree.h:111-112 | a leaf writes its character's eight bits and then its frequency's eight low bits |
| Lab3Tree.NextLeaf | Lab3_Huffmann/Huffman_Tree.h:149-163 | the node returned is a leaf; reading never moves backwards, and a walk from an inner node that reaches a leaf reads at least one bit |
| Lab3Tree.NextVex | Lab3_Huffmann/Huffman_Tree.h:149-163 | the node returned and the reader left are those of the walk: NULL for a null tree, a closed stream or an exhausted stream; the node itself for a leaf; otherwise one bit chooses the child |
| Lab3Tree.NextLeafFollows | Lab3_Huffmann/Huffman_Tree.h:149-163 | a walk over the code of a leaf, on an open unexhausted stream, returns that leaf and consumes exactly the code |
| Lab3Tree.FollowUnweighted | Lab3_Huffmann/Huffman_Tree.h:136-147 | a code that leads to a character's leaf still does so in the tree read back, whose frequencies are all 1 |
| Lab3Coding.PutCode | Lab3_Huffmann/coding.h:28-34 | a code's bits are appended in order |
| Lab3Coding.PutFlagged | Lab3_Huffmann/coding.h:26-35 | the flag bit and then the code are appended |
| Lab3Coding.FlaggedStep | Lab3_Huffmann/coding.h:26-35 | each character contributes a flag (set exactly when another character follows) and then its looked-up code |
| Lab3Coding.EncodeChars | Lab3_Huffmann/coding.h:10-36 | the lookahead loop writes the flagged codes of the file's characters |
| Lab3Coding.EncodeData | Lab3_Huffmann/coding.h:5-37 | nothing when either stream is closed; otherwise the flagged codes of the file's characters |
| Lab3Coding.DecodeFlagsStep | Lab3_Huffmann/coding.h:70-75 | a null node ends the decoding with no result; otherwise its character is written, and the decoding stops after a clear flag and continues after a set one, having read at least one bit |
| Lab3Coding.DecodeData | Lab3_Huffmann/coding.h:69-76 | the characters written are those of the flagged decoding of the stream |
| Lab3Coding.DecodeFlagsBits | Lab3_Huffmann/coding.h:69-76 | decoding the flagged codes of a non-empty sequence whose codes lead to their characters' leaves gives back the sequence's bytes, whatever follows |
| Lab3Coding.CountedKeys | Lab3_Huffmann/frequencymap.h:24-31 | the counted keys contain the EOF `char` and all lie in -128..127 |
| Lab3Coding.CountedTree | Lab3_Huffmann/coding.h:45-56 | the tree built from the counted queue has the counted characters as leaves with their counts, the file length plus one as frequency, and inner nodes exactly when two characters are counted |
| Lab3Coding.BuildCodes | Lab3_Huffmann/coding.h:44-60 | the tree is one the greedy merge makes of a queue filled from the frequency map, with the counted characters as leaves, and its code list is a permutation of the tree's codes sorted by length |
| Lab3Coding.WriteCompressed | Lab3_Huffmann/coding.h:62-66 | the bits written are the tree dump followed directly by the flagged codes, with no length field |
| Lab3Coding.IndexPad | Lab3_Huffmann/bitstream.h:161-170 | the number of set bits `close` adds is the padding to the next byte boundary |
| Lab3Coding.Compress | Lab3_Huffmann/coding.h:39-67 | nothing is written when the input is closed; otherwise the output is the tree dump and the flagged codes, padded with set bits, under a tree the greedy merge makes of the counts (leaves the counted characters, parents carrying the sum of their children's frequencies) and its code list sorted by length |
| Lab3Coding.Decompress | Lab3_Huffmann/coding.h:78-89 | nothing is written when the output is closed; otherwise the result is the flagged decoding of the tree read back |
| Lab3Coding.ToBytesChars | Lab3_Huffmann/coding.h:72 | writing back the `char`s of a file writes the file |
| Lab3Coding.RoundTripBits | Lab3_Huffmann/coding.h:39-89 | decoding the tree dump and flagged codes of a non-empty file, under any permutation of the tree's code list, gives back the file, whatever padding follows |
| Lab3Coding.CompressedDecodes | Lab3_Huffmann/coding.h:39-89 | decompressing what `compress` builds for a non-empty file, with its set-bit padding, gives back the file |
| Lab3Coding.RoundTrip | Lab3_Huffmann/coding.h:39-89 | decompressing the compressed file of any non-empty input gives back the input, including one-character inputs |
| Lab3Coding.EmptyTree | Lab3_Huffmann/frequencymap.h:23-31 | for the empty file the tree is the lone EOF leaf |
| Lab3Coding.LoneLeafOnes | Lab3_Huffmann/coding.h:69-76 | with a one-leaf tree and only set padding bits left, decoding runs off the end and reaches a null node: no result |
| Lab3Coding.LoneLeafPayload | Lab3_Huffmann/coding.h:39-76 | the compressed empty file cannot be decoded: the empty payload is followed only by set padding bits |
| Lab3Coding.EmptyFile | Lab3_Huffmann/coding.h:39-89 | compressing and decompressing the empty file ends in the null dereference, not in an empty output |
| Lab3Variant.PlainStep | Lab3_Huffmann/Lab3_Huffmann.cpp:17-29 | each character contributes exactly its looked-up code, with no flag |
| Lab3Variant.EncodeData | Lab3_Huffmann/Lab3_Huffmann.cpp:11-30 | nothing when either stream is closed; otherwise the codes of the file's characters, and nothing for a character not in the list |
| Lab3Variant.SpinsForever | Lab3_Huffmann/Lab3_Huffmann.cpp:32-39 | when the walk returns the root leaf itself without reading, the loop repeats forever, so there is no result |
| Lab3Variant.UntilStep | Lab3_Huffmann/Lab3_Huffmann.cpp:33-38 | a non-null leaf of non-zero frequency is written and the loop goes on from a stream at least one bit further |
| Lab3Variant.DecodeData | Lab3_Huffmann/Lab3_Huffmann.cpp:32-39 | the characters written are those of decoding until a null node or a zero-frequency leaf |
| Lab3Variant.PlainDecodes | Lab3_Huffmann/Lab3_Huffmann.cpp:11-39 | decoding the plain codes of characters whose codes lead to non-zero-frequency leaves writes those characters and then whatever the rest decodes to |
| Lab3Variant.ReadPair | Lab3_Huffmann/Lab3_Huffmann.cpp:101-103 | a pair read back is a leaf with a `char` value and a frequency below 256 |
| Lab3Variant.ReadPairOf | Lab3_Huffmann/Lab3_Huffmann.cpp:101-103 | reading a written pair gives the character and the frequency's low byte |
| Lab3Variant.LeafPairsRead | Lab3_Huffmann/Lab3_Huffmann.cpp:100-104 | reading back as many pairs as the tree has leaves gives its leaves in pre-order, frequencies truncated to a byte |
| Lab3Variant.HeaderRead | Lab3_Huffmann/Lab3_Huffmann.cpp:66-69 | with fewer than 256 leaves the header reads back as the leaves; with 256 the count byte is 0 and no leaf is read |
| Lab3Variant.RemoveFirstZeroAt | Lab3_Huffmann/Lab3_Huffmann.cpp:72-79 | the first zero-frequency entry is taken out of the list and kept |
| Lab3Variant.RemoveNoZero | Lab3_Huffmann/Lab3_Huffmann.cpp:72-79 | without a zero-frequency entry the list is kept whole and nothing is taken out |
| Lab3Variant.DetachZero | Lab3_Huffmann/Lab3_Huffmann.cpp:72-79 | the loop takes out the first zero-frequency entry, if any |
| Lab3Variant.CodeListLeaves | Lab3_Huffmann/Huffman_Tree.h:77-80 | each code list entry carries the character and frequency of a leaf of the tree |
| Lab3Variant.CountedLeaf | Lab3_Huffmann/frequencymap.h:27-30 | every leaf of the counted tree has a non-zero frequency |
| Lab3Variant.CountedCodes | Lab3_Huffmann/Lab3_Huffmann.cpp:72-79 | every entry of the counted code list has a non-zero frequency |
| Lab3Variant.NoZeroEntry | Lab3_Huffmann/Lab3_Huffmann.cpp:72-87 | after counting, nothing is taken out of the list and no trailing code is written: the output is the count, the pairs and the plain codes |
| Lab3Variant.WriteHeader | Lab3_Huffmann/Lab3_Huffmann.cpp:65-69 | the count byte, then a pair per leaf |
| Lab3Variant.WritePayload | Lab3_Huffmann/Lab3_Huffmann.cpp:71-87 | the plain codes under the list without its first zero-frequency entry, then that entry's code, if any |
| Lab3Variant.WriteVariant | Lab3_Huffmann/Lab3_Huffmann.cpp:65-87 | the header followed by the payload |
| Lab3Variant.Compress | Lab3_Huffmann/Lab3_Huffmann.cpp:41-88 | nothing when the input is closed; otherwise the count byte, the leaf pairs and the plain codes, padded with set bits, under a tree the greedy merge makes of the counts and its code list sorted by length |
| Lab3Variant.GetPair | Lab3_Huffmann/Lab3_Huffmann.cpp:101-103 | two `getchar` calls read one pair |
| Lab3Variant.RepeatStep | Lab3_Huffmann/Lab3_Huffmann.cpp:100-104 | reading one more pair and pushing it leaves the remaining reads aimed at the same result |
| Lab3Variant.PushPair | Lab3_Huffmann/Lab3_Huffmann.cpp:101-103 | one round of the header loop reads a pair and pushes its leaf |
| Lab3Variant.ReadPairs | Lab3_Huffmann/Lab3_Huffmann.cpp:100-104 | `numb` rounds read `numb` pairs in order |
| Lab3Variant.ReadHeader | Lab3_Huffmann/Lab3_Huffmann.cpp:95-104 | the count byte, then that many pairs |
| Lab3Variant.Decompress | Lab3_Huffmann/Lab3_Huffmann.cpp:90-111 | nothing when the output is closed; otherwise a tree the greedy merge makes of the header's leaves (for any tie order) drives the decoding of the rest |
| Lab3Variant.FirstDot | Lab3_Huffmann/Lab3_Huffmann.cpp:114 | `find('.')` is the position of the first dot |
| Lab3Variant.LastDot | Lab3_Huffmann/Lab3_Huffmann.cpp:115-116 | the `pop_back` loop stops at the last dot |
| Lab3Variant.OutputName | Lab3_Huffmann/Lab3_Huffmann.cpp:113-119 | a name without a dot has no result, since `insert` at `npos` throws |
| Lab3Variant.InsertedDots | Lab3_Huffmann/Lab3_Huffmann.cpp:114-117 | after inserting `out` before the first dot, the last dot has moved three places on |
| Lab3Variant.OutputNameShape | Lab3_Huffmann/Lab3_Huffmann.cpp:113-119 | the result is the name up to its first dot, `out`, and the name from its first dot up to its last dot; it is never empty, so the `"empty"` branch cannot be taken |
| Lab3Variant.OutputFileName | Lab3_Huffmann/Lab3_Huffmann.cpp:113-119 | the `insert` and `pop_back` loop compute that name |

## Left out

- Real `std::fstream` behaviour is not modelled:
  - open failures of the current generation's stream;
  - `clear`/`seekg` (the rewind in `compress`);
  - the exact moment the eof flag is raised.
  
  Files are byte sequences passed in and returned. A stream is open unless opened in mode `none`. The open state of the other streams of the older generation is a boolean parameter.
- The console messages of `compress` and `decompress`, `main` and `console.h` (command-line handling) are left out.
- Heap nodes, pointers and leaks are not modelled. Trees are values.
- `initHuffmanCode` writes `code` fields into the nodes in place. The model returns the codes in a list of (character, frequency, code) entries.
- The `'*'`/`'?'`/`'\0'` characters of inner nodes are not modelled; nothing reads them. `operator==` is not used by the modelled code.
- The priority queue's tie order and the map's iteration order are left open. The shape of the tree built is therefore not fixed, and only the properties every order shares are proved.
- HuffmanCoder.BuildTree: the tree is stated to be what the greedy merge makes of the queue; that its codes have the least weighted length of all prefix codes is not proved.
- `std::list::sort` is stable; `Lab3Tree.SortCodes` is proved only to sort by code length and to permute the list.
- Lab3Variant.Decompress: no round trip is proved for the `Lab3_Huffmann.cpp` driver. The decoder rebuilds its tree from frequencies truncated to a byte and from leaves pushed in a different order, so the rebuilt tree need not match the encoder's tree. The model states what is decoded in terms of the rebuilt tree.
- Lab3Variant.DecodeData requires that the decoding loop does not spin (a one-leaf tree on an open, unexhausted stream returns the same leaf forever); `Lab3Variant.SpinsForever` shows that case has no result.
- Lab3Variant.HeaderRead shows that the count byte `putchar(HC.size())` wraps to 0 when all 256 `char` values occur. Nothing is corrected there: no fix is evident from the code.
- `Huffman_Tree.h` calls `in.getstream().eof()`, but `BitStream` declares no `getstream`. The model reads it as the file's eof flag.
- The byte counts are unbounded integers. The source counts in C++ `int`: `_freq_map[byte]++` in `huffman.h`, `it->second++` in `frequencymap.h`, and the `HuffmanNode::freq` sums of `initHuffmanTree`. The overflow past 2^31-1, undefined behaviour in C++ reached only by a byte occurring 2^31 times or more, is not modelled. So `HuffmanCoder.Compress`, `Lab3Frequency.InitFrequencyMap` and `Lab3Coding.CompressedTree` state exact counts for every file.
- The 64-bit `size_t` of the length field and `contents.size()` are unbounded integers, with the 32-bit truncation of `writesize` written out. `HuffmanCoder.RoundTrip` requires fewer than 2^32 bytes.
- The top-level round trip requires two distinct bytes. One distinct byte (`Huffman.LoneLeafDecode`) and the empty input (`Huffman.EmptyDecode`) are stated separately, as the code behaves.
