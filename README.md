# Huffman codec: a verified model

This project models the codec at the heart of a small Huffman-compression web
application.

The Python module `huffman.py` does the compression itself:
- it counts the symbols of a text;
- it builds the Huffman tree, keeping the pending nodes in a sorted singly linked
  list (`ChainedList`) that serves as its priority queue;
- it assigns every leaf its path code, with '0' for a left edge and '1' for a
  right edge;
- it encodes a text as a string of '0' and '1', and decodes that string by walking
  the tree.

The browser script `static/js/main.js` takes that bit string further:
- it packs the bits into bytes, most significant bit first, zero-padding the last
  byte, and unpacks them again;
- it writes the bytes into a `.huff` container: a 4-byte big-endian metadata
  length, the metadata, then the payload;
- it reads such a container back;
- it decodes a bit string with the code table alone, by growing a candidate code
  one bit at a time.

Symbols are a type parameter `S`. In the application they are one-character
strings. Bits are the characters '0' and '1', and bytes are the integers 0..255.

Modules:
- `Frequency`: symbol counts and first-occurrence order.
- `HuffmanTree`: `Node`, the sorted-list insertion and the tree build, all as
  functions.
- `HuffmanCodes`: the code tables, encode, decode and their laws.
- `ChainedLists`: the linked list as a class with heap cells.
- `Huffman`: the `HuffmanCoding` class.
- `BitPacking`: binaryStringToBytes and bytesToBinaryString.
- `ClientDecoder`: decodeHuffmanClientSide.
- `HuffContainer`: the container writer and reader.
- `Pipeline`: lemmas that connect all of these.

The imperative code stays imperative:
- `ChainedList` is a class over linked `ListNode` cells. A ghost `spine` sequence
  lists the cells, and `Valid()` says the cells are linked in order and sorted.
- `HuffmanCoding` is a class with the fields `root`, `codes` and `reverseCodes`.
- The loops of the JavaScript functions are methods with loop invariants.

Every method is proved against a function:
- `HuffmanTreeOf` is the tree build; `CodesOf` and `ReverseOf` are the code tables.
- `Pack` and `Unpack` are the byte packing.
- `Greedy` is the client decoder.
- `Container` and `ReadContainer` are the container.

The properties of that code are proved as lemmas about those functions.

Two behaviours of the code are worth knowing:
- For "aaab" the code seeds 'a' first and inserts 'b' in front of it, so 'b' is the
  left child of the merge and the codes are `b = "0"` and `a = "1"`
  (`Pipeline.AaabScenario`).
- `HuffmanCoding.decode` fails on a text of one repeated symbol (see Findings). The
  browser decoder round-trips it (`Pipeline.EndToEnd`).

## Model

| member | source | states |
|---|---|---|
| Frequency.Count | huffman.py:89-90 | the count of a symbol is positive exactly when it occurs, and at most the text length |
| Frequency.Distinct | huffman.py:88-91 | the dictionary's key order: every symbol of the text, each exactly once, nothing else |
| Frequency.DistinctFirstOccurrence | huffman.py:88-91 | the keys come in the order of their first occurrences in the text |
| Frequency.CountMap | huffman.py:86-91 | the dictionary's keys are exactly the symbols of the text, and each value is that symbol's positive count |
| Frequency.FrequencySum | huffman.py:86-91 | the counts of the distinct symbols add up to the text length |
| HuffmanTree.InsertPos | huffman.py:48-56 | the insertion point: every node before it is strictly cheaper, and the node at it (if any) is at least as expensive |
| HuffmanTree.InsertSortedProperties | huffman.py:42-59 | insertion adds exactly the new node, loses none, and keeps a sorted list sorted |
| HuffmanTree.InsertBeforeEqual | huffman.py:48-56 | a new node goes in front of every queued node of equal frequency, and the old nodes keep their order |
| HuffmanTree.InsertPosUnique | huffman.py:54-56 | the scan stops at the only index whose predecessors are all cheaper and that is not itself cheaper |
| HuffmanTree.HuffmanTreeProperties | huffman.py:93-130 | no tree exactly for the empty text; otherwise each internal frequency is the sum of its children's, the root frequency is the text length, every distinct symbol is a leaf exactly once with its count, and the root is a leaf exactly when one symbol occurs |
| HuffmanCodes.LeafCode | huffman.py:140-141 | a leaf's code is never empty |
| HuffmanCodes.CodeTableProperties | huffman.py:132-155 | the code table has an entry for exactly the symbols of the text; the codes are non-empty bit strings forming a prefix code; reverse_codes is its exact inverse; a single symbol gets "0" |
| HuffmanCodes.TreeRoundTrip | huffman.py:157-185 | decode(encode(text)) == text whenever the text has two or more distinct symbols |
| HuffmanCodes.SingleSymbolDecodeFails | huffman.py:165-185 | with one distinct symbol the root is a leaf, the encoding is all '0', and decode fails on it |
| HuffmanCodes.FixedRoundTrip | huffman.py:165-185 | with the single-leaf case handled, decode(encode(text)) == text for every text, including the empty text, which has no tree and decodes to the empty text |
| ChainedLists.ListNode.constructor | huffman.py:29-33 | a fresh cell holds the tree node and no successor |
| ChainedLists.ChainedList.constructor | huffman.py:38-40 | a fresh list is valid and empty |
| ChainedLists.ChainedList.InsertSorted | huffman.py:42-59 | the linked cells afterwards hold the old nodes with the new one at its sorted position; the list stays valid and sorted, and only a fresh cell is added |
| ChainedLists.ChainedList.RemoveFirst | huffman.py:61-69 | an empty list gives None and stays unchanged; otherwise the result is the head node, which is no more expensive than any node in the list, and the rest remains in order with the size one less |
| ChainedLists.ChainedList.IsEmpty | huffman.py:71-72 | true exactly when no node is queued |
| ChainedLists.ChainedList.GetSize | huffman.py:74-75 | the size field equals the number of linked cells |
| Huffman.HuffmanCoding.constructor | huffman.py:81-84 | no tree and two empty tables |
| Huffman.HuffmanCoding.CalculateFrequency | huffman.py:86-91 | the loop leaves the keys in first-occurrence order and the counts of the whole text |
| Huffman.HuffmanCoding.BuildTree | huffman.py:93-130 | returns the tree of the text (so HuffmanTreeProperties holds of it); an empty text leaves the object untouched; otherwise root and both tables are those of the new tree |
| Huffman.HuffmanCoding.SeedQueue | huffman.py:101-105 | a new valid list holding one leaf per symbol with its count, inserted in dictionary order |
| Huffman.HuffmanCoding.MergeLoop | huffman.py:108-122 | the merge loop on the linked list ends with the single node that merging the queued nodes, two cheapest at a time, produces |
| Huffman.HuffmanCoding.GenerateCodesRecursive | huffman.py:132-148 | adds to both tables the path code of every leaf below the node, leaving everything else |
| Huffman.HuffmanCoding.GenerateCodes | huffman.py:150-155 | the tables are cleared, then are exactly those of the root (empty without one) |
| Huffman.HuffmanCoding.Encode | huffman.py:157-163 | with a table of bit strings the encoding is a bit string |
| Huffman.HuffmanCoding.Decode | huffman.py:165-185 | the cursor loop computes the tree walk: empty text without a tree, failure on a leaf cursor, leftover bits ignored |
| Huffman.CodingRoundTrip | huffman.py:157-185 | after build_tree on a text with two or more symbols, encode gives bits and decode inverts it |
| BitPacking.ParseBinary | static/js/main.js:1117 | parseInt(s, 2) of a bit string is below 2 to the power of its length, so eight bits fit a byte |
| BitPacking.PaddingFor | static/js/main.js:1110 | fewer than 8 padding bits, bringing the length to a multiple of 8, and none when it already is |
| BitPacking.Pack | static/js/main.js:1111-1113 | the byte count times 8 is the bit count plus the padding |
| BitPacking.BinaryStringToBytes | static/js/main.js:1108-1121 | a fresh array holding the packed bytes, and the padding length |
| BitPacking.PackPaddedAt | static/js/main.js:1115-1118 | byte i of a padded bit string is the value of its bits 8i..8i+7 |
| BitPacking.PackBytes | static/js/main.js:1115-1118 | byte i holds padded bits 8i..8i+7, most significant first |
| BitPacking.ByteDigits | static/js/main.js:558 | toString(2) zero-padded to 8 is the byte's eight bits |
| BitPacking.PadStart | static/js/main.js:558 | padStart keeps strings of length n or more and left-fills shorter ones to length n |
| BitPacking.Unpack | static/js/main.js:564-571 | eight bits per byte, then padding bits cut from the end by `StripPadding` (clamped at empty), always a bit string and a prefix of the expansion |
| BitPacking.BytesToBinaryString | static/js/main.js:548-572 | the chunked loops produce exactly the unpacked bit string |
| BitPacking.UnpackBytes | static/js/main.js:557-559 | every byte unpacks to eight bits whose value is the byte |
| BitPacking.PackRoundTrip | static/js/main.js:1108-1121 | bytesToBinaryString(binaryStringToBytes(bits)) == bits for every bit string |
| ClientDecoder.ReverseTableEntries | static/js/main.js:115-118 | every listed code is a key, and every key maps to a symbol listed with that code |
| ClientDecoder.DecodeHuffmanClientSide | static/js/main.js:113-141 | the two loops compute the greedy scan over the inverted table |
| ClientDecoder.ReverseTableInverse | static/js/main.js:115-118 | for a prefix code, the inverted table is its exact inverse, in any entry order |
| ClientDecoder.ClientRoundTrip | static/js/main.js:113-141 | decoding the encoding of a text with any prefix code of non-empty words gives the text |
| ClientDecoder.TrailingBitsDiscarded | static/js/main.js:124-130 | bits after the last code word that never complete a code are dropped silently |
| HuffContainer.Container | static/js/main.js:1166-1170 | the container holds the metadata right after the 4 header bytes, then the payload |
| HuffContainer.SetAt | static/js/main.js:1168-1170 | the copy replaces exactly the target range with the source |
| HuffContainer.WriteContainer | static/js/main.js:1154-1170 | a fresh array holding the header, the metadata and the payload |
| HuffContainer.SignedLength | static/js/main.js:605 | the header read as a signed 32-bit integer: negative exactly when the first byte is 128 or more |
| HuffContainer.ReadContainer | static/js/main.js:603-614 | accepted exactly when there are 4 bytes and 0 < length < file size; the file splits into header, metadata and payload, with the metadata clamped to the file |
| HuffContainer.HeaderValue | static/js/main.js:1158-1163 | the four header bytes written by `HeaderByte` are the big-endian digits of the length modulo 2^32 |
| HuffContainer.HeaderRead | static/js/main.js:67 | the reader recovers the writer's length below 2^31, and gets it less 2^32 above |
| HuffContainer.ContainerRoundTrip | static/js/main.js:66-73 | reading what the writer wrote gives back the metadata and the payload, for metadata of 1 to 2^31 - 1 bytes |
| HuffContainer.EmptyMetadataRejected | static/js/main.js:69 | a container with empty metadata is refused |
| HuffContainer.LongMetadataRejected | static/js/main.js:607 | metadata of 2^31 to 2^32 - 1 bytes is refused, because the length reads back negative |
| HuffContainer.TruncatedMetadataAccepted | static/js/main.js:607-614 | the length is checked against the whole file, so every file whose header overstates the metadata by up to 3 bytes is accepted, with all bytes after the header as metadata and an empty payload |
| Pipeline.EndToEnd | static/js/main.js:1136-1170 | every text, encoded, packed, written into a container, read back, unpacked and decoded in the browser, gives the text back; this holds for the empty text (empty table, no bits, no bytes) and for a single symbol too |
| Pipeline.AaabScenario | huffman.py:102-122 | "aaab" gives the tree with leaf b on the left, codes b = "0" and a = "1", bits "1110", and one byte 0xE0 with 4 bits of padding |
| Pipeline.SingleSymbolSize | huffman.py:140-141 | n copies of one symbol encode to n bits and pack into ceil(n / 8) bytes |

## Left out

- The web interface is not modelled: the DOM, events, `setTimeout`, `fetch`, `FileReader`, `Blob`, JSZip, the D3 tree drawing and the code-table display.
- The progress messages of decodeHuffmanClientSide (`static/js/main.js:133-137`) are left out; they only write to the page.
- `formatBytes` and the compression ratio are left out: they use floating point and only serve display.
- The metadata is opaque bytes. JSON, `TextEncoder` and `TextDecoder` are not modelled, so the container round trip concerns the bytes only.
- The legacy text formats of the upload reader (`static/js/main.js:628-651`) are left out: they belong to older files, not to the binary container.
- `app.py` (the HTTP routes) is not part of this model.
- `Node.to_dict`, `get_codes_table` and `get_tree_structure` are left out: they only serialise or expose state for display.
- Optimality of the tree (minimum weighted path length) is not stated. The model proves what the code does, not that the result is optimal.
- The `node is None` test in `_generate_codes_recursive` (`huffman.py:134-135`) has no counterpart. A datatype node always has both children or neither, so the case cannot arise.
- Python's dictionary insertion order is modelled by `Frequency.Distinct`, the first-occurrence order.
- The order of `Object.entries` is modelled as an arbitrary sequence of entries; every law about it holds for any order.
- `decoded.join('')` and `''.join(decoded)` are kept as a sequence of symbols.
- `BitPacking.BinaryStringToBytes` requires its input to consist of '0' and '1'. What `parseInt` does with other characters (stopping at the first non-digit, or giving NaN) is not modelled.
- `ClientDecoder.DecodeHuffmanClientSide` models the test `if (reverseTable[currentCode])` as key membership. The lookup is truthy exactly for a key, because every symbol is a non-empty string. A bit string never names a property that every object inherits. The method also accepts text that is not a bit string, such as what a user pastes into the decode box (`static/js/main.js:766-781`). There, a candidate that spells an inherited property of `Object.prototype` (`constructor`, `toString`, `__proto__`, …) is truthy in JavaScript and emits that property's value. The model emits nothing for it, and this behaviour is not modelled.
- `HuffContainer.SetAt` requires distinct source and target arrays. The writer always copies between different arrays, so the overlap case of `TypedArray.prototype.set` is not modelled.
- `BitPacking.BytesToBinaryString` takes `padding` as an integer. A non-integer value read from JSON is not modelled, and neither is the unused `totalBits`.
- `Huffman.HuffmanCoding.Encode`: its own contract states only that the result is a bit string. What it computes is stated through `EncodeWith` by `Huffman.CodingRoundTrip`, `HuffmanCodes.TreeRoundTrip` and `Pipeline.EndToEnd`.
- `HuffContainer.LongMetadataRejected` covers metadata of 2^31 to 2^32 - 1 bytes only. From 2^32 bytes up the writer keeps the length modulo 2^32, so the header can wrap to a small positive value that the reader accepts with the wrong metadata length; that wrap-around is not stated.
- `HuffmanCodes.LeafCode` states only that a code is non-empty. The full table is described by `HuffmanCodes.CodeTableProperties`.

## Findings

| source | as written | input that shows it | evidently intended | confidence | as-written member | corrected member |
|---|---|---|---|---|---|---|
| huffman.py:165-185 | decode steps from the root to a child before testing for a leaf, so when the root itself is a leaf the cursor becomes None and `None.is_leaf()` raises | the text "aaa": the tree is the single leaf 'a', its code is "0", encode gives "000", and decode("000") raises on the first bit | decode returns "aaa"; build_tree gives the lone symbol the code "0" precisely so that it can be encoded and decoded | not executed | HuffmanCodes.SingleSymbolDecodeFails | HuffmanCodes.FixedRoundTrip |

The as-written cursor loop is `Huffman.HuffmanCoding.Decode`, specified by `HuffmanCodes.DecodeWalk`. Its result `None` stands for the exception. The corrected decoder is `HuffmanCodes.DecodeFixed`, which reads one lone symbol per bit when the root is a leaf and gives the empty text when there is no tree. `HuffmanCodes.FixedRoundTrip` proves that it inverts encode on every text, the empty one included. The browser's decoder needs no tree and handles this case already (`Pipeline.EndToEnd`).
