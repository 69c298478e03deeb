# Huffman codec, modelled in Dafny

This project models the Huffman coder in `hyffmanCoding.py`, without its file handling. The coder works in these steps:

1. It counts the characters of a text.
2. It pushes one leaf per distinct character onto a heap.
3. It repeatedly merges the two least-frequent trees into a parent that weighs their sum.
4. It walks the final tree, `'0'` to the left and `'1'` to the right, and fills a code table and a reverse table.
5. It encodes the text as the concatenation of its characters' codes.
6. It pads the bits to whole bytes behind an 8-bit padding-amount header, and cuts them into byte values.

Decompression reverses steps 5 and 6. It expands the bytes back into bits, strips the padding, and decodes greedily against the reverse table that the same coder object kept from its own compression.

The modules follow the program's structure:

- `BitStrings` (`bit_strings.dfy`): strings of `'0'`/`'1'`. Big-endian fixed-width writing is `Bits`, as done by `"{0:08b}".format` and `bin(b)[2:].rjust(8, '0')`. Reading is `Value`, as done by `int(s, 2)`.
- `Packing` (`packing.dfy`): these pure helpers:
  - `getPaddedEncodedText` (here `GetPaddedEncodedText`, which keeps the loop that appends the zeros) and `getBytesArray`;
  - the byte-to-bits read loop of `decompression`;
  - `__removePadding`.
- `HuffmanTree` (`huffman_tree.dfy`): these pieces:
  - the `BinaryTree` as the datatype `Tree`, a leaf with a character or an internal node with two children;
  - the forest held in the heap, with the heap operations as functions of it;
  - the code tables written by the depth-first walk.
- `Coding` (`coding.dfy`): encoding against the code table and decoding against the reverse table, and the round trip between them.
- `Huffman` (`huffman_coding.dfy`): the `HuffmanCoding` object. It is a class whose fields are the heap and the two tables. Its methods mirror the source methods that update or read them. Compression and decompression work in memory.

Each state-changing method is proved equal to a specification function of its inputs and old state:

- `HeapPop` against `MinIndex`/`RemoveAt`;
- `MergeTwoSmallest` against `MergeStep`;
- `BuildTree` against `BuildForest`;
- `BuildHeap` against `LeafForest`;
- `BuildCodesHelper` against `CodeMap`/`ReverseMap`;
- `GetEncodedText` against `Encode`;
- `DecodedText` against `Decode`.

Lemmas prove what the source promises about those functions.

The code persists no code table: `decompression` relies on `self.reverseCodes` left over from `compression` on the same object, and the model follows that, so decompression reads the reverse table of the object it is called on.

## Model

| member | source | states |
|---|---|---|
| BitStrings.Bits | hyffmanCoding.py:110 | the written form has exactly the requested width and consists of binary digits |
| BitStrings.Value | hyffmanCoding.py:179 | the value read from `k` binary digits is below 2^k |
| BitStrings.ValueOfBits | hyffmanCoding.py:110 | reading back a number written in `w` bits gives the number whenever it fits in `w` bits |
| BitStrings.BitsOfValue | hyffmanCoding.py:120 | writing the value of a binary string back in as many bits reproduces the string |
| Packing.PaddingAmount | hyffmanCoding.py:107 | the padding amount is between 1 and 8, makes the length a multiple of 8, and is 8 exactly when the length already is one |
| Packing.GetPaddedEncodedText | hyffmanCoding.py:101-112 | the loop that appends the zeros and prefixes the header yields the padded stream: header, encoded bits, then the zeros |
| Packing.Padded | hyffmanCoding.py:105-111 | the padded stream getPaddedEncodedText returns, header then encoded bits then zeros, is 8 + L + amount long, a whole number of bytes |
| Packing.PaddedHeader | hyffmanCoding.py:110-111 | the first 8 bits of the padded stream read back as the padding amount |
| Packing.PaddedBody | hyffmanCoding.py:108-111 | the encoded bits follow the header unchanged, and every bit after them is '0' |
| Packing.PaddedIsBits | hyffmanCoding.py:101-112 | padding binary digits gives binary digits |
| Packing.Chunk | hyffmanCoding.py:120 | each slice `s[i:i+8]` taken by the comprehension holds between 1 and 8 bits |
| Packing.BytesArray | hyffmanCoding.py:114-121 | one byte value per started group of 8 bits, each in 0..255 and equal to `int(group, 2)`; each written back in its group's width is that group |
| Packing.ByteToBits | hyffmanCoding.py:222 | a byte expands to 8 binary digits, most significant first, that read back as the byte |
| Packing.BitsOfBytes | hyffmanCoding.py:214-228 | the expansion of a file's bytes has 8 binary digits per byte |
| Packing.BitsOfBytesAppend | hyffmanCoding.py:225 | expanding concatenated byte sequences concatenates their expansions |
| Packing.ReadBitString | hyffmanCoding.py:211-228 | the read loop builds exactly the expansion of the file's bytes in file order |
| Packing.PackThenExpand | hyffmanCoding.py:114-121 | packing a byte-aligned bit string into values and expanding them again gives the bit string back |
| Packing.RemovePadding | hyffmanCoding.py:172-182 | an empty string fails (int('', 2) raises); otherwise the result is a contiguous piece of the text after the header |
| Packing.PaddingRoundTrip | hyffmanCoding.py:172-182 | stripping the padding from a padded stream returns exactly the encoded bits |
| Packing.PackUnpackRoundTrip | hyffmanCoding.py:148-151 | pad, pack, expand and strip returns the encoded bits; the packed form has one header byte plus one byte per 8 padded bits |
| HuffmanTree.FrequencyIsMass | hyffmanCoding.py:62-65 | in a tree where each parent weighs its children's sum, the root's frequency is the number of characters the tree stands for |
| HuffmanTree.SymbolCount | hyffmanCoding.py:76 | a tree has at least one leaf, and it is a single leaf exactly when it has one leaf character |
| HuffmanTree.ForestPush | hyffmanCoding.py:53 | pushing a tree adds exactly that tree's characters and weight to what the heap stands for |
| HuffmanTree.ForestRemove | hyffmanCoding.py:60 | popping a tree takes exactly that tree's characters and weight away |
| HuffmanTree.RemoveAt | hyffmanCoding.py:60-61 | taking the popped tree out of the heap leaves it one tree shorter |
| HuffmanTree.RemoveAtSubset | hyffmanCoding.py:60-61 | every tree left after a pop was in the heap before |
| HuffmanTree.PopSingleton | hyffmanCoding.py:87 | popping a heap of one tree takes that tree and leaves the heap empty |
| HuffmanTree.PushParent | hyffmanCoding.py:62-66 | pushing the new parent grows the heap by one tree |
| HuffmanTree.MergeAt | hyffmanCoding.py:60-66 | popping two trees and pushing their parent leaves the heap one tree shorter |
| HuffmanTree.MergeStep | hyffmanCoding.py:59-66 | one round of the buildTree loop, two least-frequent pops and the parent push, leaves the heap one tree shorter |
| HuffmanTree.MinIndex | hyffmanCoding.py:60-61 | heappop takes a tree whose frequency is least in the heap |
| HuffmanTree.BuildForest | hyffmanCoding.py:59 | merging stops with no tree from an empty heap and with exactly one tree otherwise |
| HuffmanTree.LeafForest | hyffmanCoding.py:50-53 | buildHeap pushes one leaf per key visited |
| HuffmanTree.MergeStepShape | hyffmanCoding.py:59-66 | one merge shrinks the heap by one; the pushed parent weighs its children's sum; its left child is a least-frequent tree and its right child is least among the rest; no other tree is new |
| HuffmanTree.MergeAtPreserves | hyffmanCoding.py:60-66 | popping any two trees, least-frequent or not, and pushing their parent keeps what the heap stands for, under any measure additive over parents |
| HuffmanTree.MergeStepPreserves | hyffmanCoding.py:60-66 | one merge keeps the multiset of leaf characters and the multiset of weighted characters of the heap |
| HuffmanTree.MergeAtWellFormed | hyffmanCoding.py:60-66 | popping any two trees, least-frequent or not, and pushing their parent keeps every tree well formed |
| HuffmanTree.MergeStepWellFormed | hyffmanCoding.py:62-65 | one merge keeps every tree well formed: leaves count at least one, parents weigh their children's sum |
| HuffmanTree.BuildForestPreserves | hyffmanCoding.py:55-66 | merging to one tree keeps the leaf characters and the weights, and keeps well-formed trees well formed |
| HuffmanTree.LeafForestSymbols | hyffmanCoding.py:50-53 | the pushed leaves are leaves of the visited keys, each carrying the key's count, one per visited key |
| HuffmanTree.LeafForestMass | hyffmanCoding.py:50-53 | with no key repeated, the pushed leaves stand for each key as many times as its count |
| HuffmanTree.NoRepeatsCounts | hyffmanCoding.py:50 | iterating over a dictionary visits each key once |
| HuffmanTree.CodeMap | hyffmanCoding.py:76-81 | the entries buildCodesHelper writes into `codes`: each leaf character to `currentBits` followed by its path, '0' left and '1' right |
| HuffmanTree.ReverseMap | hyffmanCoding.py:76-81 | the entries buildCodesHelper writes into `reverseCodes`: each such path to its leaf character |
| HuffmanTree.CodeMapKeys | hyffmanCoding.py:76-77 | the walk writes a code for exactly the characters at the leaves |
| HuffmanTree.ReverseMapExtends | hyffmanCoding.py:80-81 | every code written below `currentBits` extends it, strictly below an internal node |
| HuffmanTree.ReverseMapBits | hyffmanCoding.py:80-81 | what the walk appends to `currentBits` is binary digits |
| HuffmanTree.ReverseMapValues | hyffmanCoding.py:78 | every reverse entry names a character at a leaf |
| HuffmanTree.BranchDigit | hyffmanCoding.py:80-81 | every code below a child has that child's branch digit right after the parent's bits |
| HuffmanTree.ChildrenDisjoint | hyffmanCoding.py:80-81 | the left and right subtrees get disjoint sets of codes |
| HuffmanTree.ChildSymbols | hyffmanCoding.py:63-65 | a node with distinct leaf characters has children with distinct characters and none in common |
| HuffmanTree.CodesInverse | hyffmanCoding.py:76-81 | with distinct leaf characters, the code table and the reverse table undo each other |
| HuffmanTree.CodesPrefixFree | hyffmanCoding.py:68-81 | no code written by the walk is a prefix of another, since only leaves get codes |
| HuffmanTree.TreeCodeTables | hyffmanCoding.py:83-88 | from the root: tables mutually inverse, one entry per leaf character, prefix-free, binary; non-empty codes under an internal-node root; the empty code for a root that is a leaf |
| Coding.Encode | hyffmanCoding.py:96-98 | with binary codes, the encoded text is binary |
| Coding.EncodeAppend | hyffmanCoding.py:97-98 | encoding distributes over concatenation, so each character's code sits at its place in order |
| Coding.EncodedLength | hyffmanCoding.py:90-99 | the encoded text is as long as the sum of its characters' code lengths |
| Coding.Decode | hyffmanCoding.py:184-198 | __decodedText from an empty candidate: at most one character comes out per bit |
| Coding.DecodeFrom | hyffmanCoding.py:192-197 | decoding emits at most one character per bit read |
| Coding.DecodeOneCode | hyffmanCoding.py:192-197 | reading one code whose proper prefixes are not keys emits its character and resets the candidate |
| Coding.RoundTrip | hyffmanCoding.py:184-198 | with non-empty, prefix-free codes that agree with the reverse table, decoding the encoding gives the text back |
| Coding.EmptyCodeLosesText | hyffmanCoding.py:77 | when the only code is the empty string, the encoding is empty and decoding it gives the empty text |
| Huffman.HuffmanTreeTables | hyffmanCoding.py:68-88 | for a tree built from a text: root frequency = text length; codes for exactly the text's characters; mutually inverse, prefix-free tables; with ≥2 distinct characters, decodable codes; with one, the single code is "" |
| Huffman.LeavesOfText | hyffmanCoding.py:45-53 | the leaves pushed for the text's frequency dictionary are well formed and stand for its distinct characters and for the text itself |
| Huffman.TreeFromText | hyffmanCoding.py:133-139 | counting, buildHeap and buildTree leave nothing for an empty text, and otherwise exactly one tree, which is built from the text and is a Huffman tree for it, whatever order the keys were pushed in |
| Huffman.BuiltTreeFitsText | hyffmanCoding.py:45-66 | a tree buildTree builds from a text's pushed leaves is a Huffman tree for that text, and the text is not empty |
| Huffman.TreeCodesCoverText | hyffmanCoding.py:142-145 | after buildCodes every character of the text has a binary code, so getEncodedText raises no KeyError and yields bits |
| Huffman.HuffmanRoundTrip | hyffmanCoding.py:145-151 | encoding and padding with a tree's tables, then stripping and decoding with them, returns the text with ≥2 distinct characters and the empty text with one |
| Huffman.HuffmanCoding.constructor | hyffmanCoding.py:21-29 | a new coder has an empty heap and empty tables |
| Huffman.HuffmanCoding.MakeFrequencyDictionary | hyffmanCoding.py:31-43 | the keys are exactly the text's characters, each mapped to its number of occurrences, at least 1 |
| Huffman.HuffmanCoding.BuildHeap | hyffmanCoding.py:45-53 | the heap gains one leaf per key carrying the key's count, the keys taken once each in some order; the tables are unchanged |
| Huffman.HuffmanCoding.HeapPop | hyffmanCoding.py:60 | pops the tree at MinIndex, a least-frequent one, and leaves the rest in order |
| Huffman.HuffmanCoding.MergeTwoSmallest | hyffmanCoding.py:60-66 | one loop iteration of buildTree is one MergeStep of the heap |
| Huffman.HuffmanCoding.BuildTree | hyffmanCoding.py:55-66 | the heap becomes BuildForest of the old heap; the tables are unchanged |
| Huffman.HuffmanCoding.BuildCodesHelper | hyffmanCoding.py:68-81 | the tables are extended by exactly the codes and reverse entries of the leaves below the subtree, each leaf's code being `currentBits` followed by its branch digits; the heap is unchanged |
| Huffman.HuffmanCoding.BuildCodes | hyffmanCoding.py:83-88 | an empty heap fails with nothing changed (heappop raises); otherwise it pops the least-frequent tree, leaving the rest of the heap, and extends the tables with the codes and reverse entries of that tree's walk from the empty code |
| Huffman.HuffmanCoding.GetEncodedText | hyffmanCoding.py:90-99 | the loop builds exactly the encoding of the text |
| Huffman.HuffmanCoding.DecodedText | hyffmanCoding.py:184-198 | the loop builds exactly the decoding of the bits against the reverse table |
| Huffman.HuffmanCoding.Compression | hyffmanCoding.py:123-151 | an empty text fails with the tables unchanged; otherwise the tables are extended by those of the tree buildTree builds from the text's frequency dictionary (some push order), a Huffman tree for the text; they cover the text, and the bytes expand to its padded encoding |
| Huffman.HuffmanCoding.Decompression | hyffmanCoding.py:211-234 | an empty input fails; otherwise the result is the decoding of the unpadded expansion against this object's reverse table |
| Huffman.CompressThenDecompress | hyffmanCoding.py:241-243 | a fresh coder compressing and then decompressing its own output: an empty text fails; ≥2 distinct characters come back; one distinct character comes back empty |

## Left out

- File handling is left out. This covers reading the input and writing the `.bin` and `_decompressed.txt` files, `os.path.splitext`, the output paths and `print('Compressed')`. `Compression` takes the text and returns the byte values, and `Decompression` takes the byte values and returns the text.
- The `filePath` field and the constructor's argument exist only for that file handling.
- `text.rstrip()` is not modelled: its whitespace rules are Unicode's. The model takes the already-stripped text.
- `heapq`'s sift order is abstracted away. A push appends and a pop takes the first least-frequent tree. The source leaves the choice among equal frequencies to the heap layout.
- HuffmanTree.BuildForest: the merged tree is the one this tie rule builds, and `heapq` may pair equal-frequency trees differently. Take the text "akgblmnkgggglmmnn", whose dictionary visits a1 k2 g5 b1 l2 m3 n3. In round 2 `heapq`'s sift pops l and then the node (a b) while the leaf k stays in the heap; the rule here pairs k with l. What the model proves about the tree does not depend on ties: `MergeAtPreserves` and `MergeAtWellFormed` hold for any two trees popped. So a Huffman tree for the text (`HuffmanTreeFor`), and with it every table and round-trip property, results from any tie choice.
- Huffman.HuffmanCoding.Compression: its `BuiltFromText` clause names the tree of the tie rule above, which for some texts is not the tree `heapq` yields. The model proves the rest of its contract (`HuffmanTreeFor`, the table extension, coverage, the padded encoding) for this rule's tree. Those clauses rest only on `MergeAtPreserves` and `MergeAtWellFormed`, which hold for any tie choice.
- The iteration order of the frequency dictionary is not modelled. `BuildHeap` pushes the keys in some order that lists each key once.
- `BinaryTree.__eq__`, `__lt__` and `__gt__` only serve the heap's ordering.
- The `root is None` branch of `buildCodesHelper` is unreachable, since every internal node has two children, so it is not modelled.
- `int(s, 2)` also accepts a sign, underscores, surrounding whitespace and a `0b` prefix. `RemovePadding` and `BytesArray` require binary strings, which is all they are ever given.
- `GetEncodedText` requires every character to have a code, where the source would raise `KeyError`. After `buildCodes` on the same text that always holds (`Huffman.TreeCodesCoverText`).
- Compression by one object of a second text is left out. `Compression` requires an empty heap, which holds for a fresh object and again after every successful compression. The tables it writes extend the previous ones, as the source's dictionaries do, but the round trip (`CompressThenDecompress`) is stated for a fresh coder only.
- Huffman optimality (minimal weighted code length) is not stated, because the source does not promise it.
- The module-level example (hyffmanCoding.py:241-243) works on files. `CompressThenDecompress` is its in-memory counterpart.
