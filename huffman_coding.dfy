/**
 * The HuffmanCoding object: its heap of trees and its two code tables, and the
 * steps of compression and decompression that update them or read them.
 */
module Huffman {
  import opened Options
  import opened BitStrings
  import opened Packing
  import opened HuffmanTree
  import opened Coding

  lemma UnionAssociative<K, V>(a: map<K, V>, b: map<K, V>, c: map<K, V>)
    ensures (a + b) + c == a + (b + c)
  {
  }

  lemma UnionEmpty<K, V>(m: map<K, V>)
    ensures map[] + m == m
  {
  }

  /** The distinct characters of a text. */
  function Alphabet(text: string): set<char> {
    set c | c in text
  }

  /**
   * A tree fit to code `text`: well formed, one leaf per distinct character,
   * and standing for exactly the characters of the text.
   */
  ghost predicate HuffmanTreeFor(root: Tree, text: string) {
    && WellFormed(root)
    && Symbols(root) == multiset(Alphabet(text))
    && Mass(root) == multiset(text)
  }

  lemma {:induction false} MultisetOfSetSize(s: set<char>)
    ensures |multiset(s)| == |s|
  {
    if s != {} {
      var x :| x in s;
      MultisetOfSetSize(s - {x});
      assert s == (s - {x}) + {x};
      assert multiset(s) == multiset(s - {x}) + multiset{x};
    }
  }

  /**
   * What the code tables derived from a Huffman tree for `text` guarantee: the
   * root's frequency is the text's length, every character of the text and no
   * other has a code, the tables are mutually inverse and prefix-free; with two
   * or more distinct characters every code is non-empty, so decoding undoes
   * encoding; with one, that character's code is empty.
   */
  lemma HuffmanTreeTables(root: Tree, text: string)
    requires HuffmanTreeFor(root, text)
    ensures root.frequency == |text|
    ensures forall c :: c in CodeMap(root, "") <==> c in text
    ensures Inverse(CodeMap(root, ""), ReverseMap(root, ""))
    ensures PrefixFree(ReverseMap(root, "").Keys)
    ensures |Alphabet(text)| >= 2 ==> Decodable(CodeMap(root, ""), ReverseMap(root, ""), text)
    ensures |Alphabet(text)| == 1 ==> CodeMap(root, "") == map[text[0] := ""]
  {
    FrequencyIsMass(root);
    assert DistinctSymbols(root);
    TreeCodeTables(root);
    MultisetOfSetSize(Alphabet(text));
    SymbolCount(root);
    if |Alphabet(text)| == 1 {
      assert text[0] in Alphabet(text);
      assert Symbols(root)[text[0]] == 1;
    }
  }

  /**
   * What buildHeap starts from and goes through: the frequency dictionary of
   * `text`, and an order of its keys that lists each of them once.
   */
  ghost predicate PushOrder(text: string, frequencyDict: map<char, nat>, order: seq<char>) {
    && (forall c :: c in frequencyDict <==> c in text)
    && (forall c :: c in frequencyDict ==> frequencyDict[c] == multiset(text)[c] >= 1)
    && NoRepeats(order)
    && (forall c :: c in order <==> c in frequencyDict)
  }

  /**
   * `root` is the tree buildTree leaves once buildHeap has pushed the leaves of
   * the text's frequency dictionary in some order.
   */
  ghost predicate BuiltFromText(root: Tree, text: string) {
    exists frequencyDict: map<char, nat>, order: seq<char> ::
      PushOrder(text, frequencyDict, order) && BuildForest(LeafForest(frequencyDict, order)) == [root]
  }

  lemma BuiltFromOrder(text: string, frequencyDict: map<char, nat>, order: seq<char>, root: Tree)
    requires PushOrder(text, frequencyDict, order)
    requires BuildForest(LeafForest(frequencyDict, order)) == [root]
    ensures BuiltFromText(root, text)
  {
  }

  /** A forest of one tree stands for what that tree stands for. */
  lemma SingleTree(forest: seq<Tree>)
    requires |forest| == 1
    ensures ForestSum(Symbols, forest) == Symbols(forest[0])
    ensures ForestSum(Mass, forest) == Mass(forest[0])
    ensures AllWellFormed(forest) ==> WellFormed(forest[0])
  {
    assert forest[1..] == [];
  }

  /** The leaves buildHeap pushes for the text's frequency dictionary stand for the text. */
  lemma LeavesOfText(text: string, frequencyDict: map<char, nat>, order: seq<char>)
    requires PushOrder(text, frequencyDict, order)
    ensures var leaves := LeafForest(frequencyDict, order);
      && AllWellFormed(leaves)
      && ForestSum(Symbols, leaves) == multiset(Alphabet(text))
      && ForestSum(Mass, leaves) == multiset(text)
  {
    var leaves := LeafForest(frequencyDict, order);
    var alphabet := Alphabet(text);
    assert forall c :: c in order <==> c in alphabet;
    NoRepeatsCounts(order);
    SameCounts(multiset(order), multiset(alphabet));
    LeafForestSymbols(frequencyDict, order);
    LeafForestMass(frequencyDict, order);
    var mass := ForestSum(Mass, leaves);
    forall c
      ensures mass[c] == multiset(text)[c]
    {
      if c !in order {
        assert c !in multiset(text);
      }
    }
    SameCounts(mass, multiset(text));
  }

  /**
   * buildHeap over the text's frequency dictionary followed by buildTree: a
   * non-empty text leaves exactly one tree, and it is a Huffman tree for the
   * text whatever order the keys were pushed in; an empty text leaves none.
   */
  lemma TreeFromText(text: string, frequencyDict: map<char, nat>, order: seq<char>)
    requires PushOrder(text, frequencyDict, order)
    ensures text == "" ==> BuildForest(LeafForest(frequencyDict, order)) == []
    ensures text != "" ==>
      var forest := BuildForest(LeafForest(frequencyDict, order));
      && |forest| == 1
      && BuiltFromText(forest[0], text)
      && HuffmanTreeFor(forest[0], text)
  {
    var leaves := LeafForest(frequencyDict, order);
    if text != "" {
      assert text[0] in order;
      LeavesOfText(text, frequencyDict, order);
      BuildForestPreserves(leaves);
      var forest := BuildForest(leaves);
      SingleTree(forest);
      assert forest == [forest[0]];
      BuiltFromOrder(text, frequencyDict, order, forest[0]);
    }
  }

  /** The tree buildTree leaves for a text is a Huffman tree for it, and the text is not empty. */
  lemma BuiltTreeFitsText(root: Tree, text: string)
    requires BuiltFromText(root, text)
    ensures text != "" && HuffmanTreeFor(root, text)
  {
    var frequencyDict: map<char, nat>, order: seq<char> :|
      PushOrder(text, frequencyDict, order) && BuildForest(LeafForest(frequencyDict, order)) == [root];
    TreeFromText(text, frequencyDict, order);
  }

  /** Whatever table it overrides, the code map of a Huffman tree for `text` codes every character of it with bits. */
  lemma TreeCodesCoverText(root: Tree, text: string, previous: map<char, string>)
    requires HuffmanTreeFor(root, text)
    ensures Covers(previous + CodeMap(root, ""), text)
    ensures IsBits(Encode(previous + CodeMap(root, ""), text))
  {
    assert DistinctSymbols(root);
    var tree := CodeMap(root, "");
    TreeCodeTables(root);
    var codes := previous + tree;
    forall i | 0 <= i < |text|
      ensures text[i] in tree && codes[text[i]] == tree[text[i]] && IsBits(codes[text[i]])
    {
      assert text[i] in Alphabet(text);
      assert text[i] in Symbols(root);
    }
  }

  class HuffmanCoding {
    var heap: seq<Tree>
    var codes: map<char, string>
    var reverseCodes: map<string, char>

    /** Between operations the heap is empty: buildCodes pops the last tree. */
    ghost predicate Idle()
      reads this
    {
      heap == []
    }

    constructor ()
      ensures Idle() && codes == map[] && reverseCodes == map[]
    {
      heap := [];
      codes := map[];
      reverseCodes := map[];
    }

    /** makeFrequencyDictionary: one entry per distinct character, holding its number of occurrences. */
    method MakeFrequencyDictionary(text: string) returns (frequencyDict: map<char, nat>)
      ensures forall c :: c in frequencyDict <==> c in text
      ensures forall c :: c in frequencyDict ==> frequencyDict[c] == multiset(text)[c] >= 1
    {
      frequencyDict := map[];
      for i := 0 to |text|
        invariant forall c :: c in frequencyDict <==> c in text[..i]
        invariant forall c :: c in frequencyDict ==> frequencyDict[c] == multiset(text[..i])[c] >= 1
      {
        var ch := text[i];
        assert text[..i + 1] == text[..i] + [ch];
        if ch !in frequencyDict {
          frequencyDict := frequencyDict[ch := 1];
        } else {
          frequencyDict := frequencyDict[ch := frequencyDict[ch] + 1];
        }
      }
      assert text[..|text|] == text;
    }

    /**
     * buildHeap: push one leaf per dictionary entry, carrying the entry's count.
     * The dictionary's iteration order is not modelled: the keys are pushed in
     * some order that lists each key once.
     */
    method BuildHeap(frequencyDict: map<char, nat>)
      modifies this
      ensures codes == old(codes) && reverseCodes == old(reverseCodes)
      ensures exists order ::
        && NoRepeats(order)
        && (forall c :: c in order <==> c in frequencyDict)
        && heap == old(heap) + LeafForest(frequencyDict, order)
    {
      var remaining := frequencyDict.Keys;
      ghost var pushed: set<char> := {};
      ghost var order: seq<char> := [];
      while remaining != {}
        invariant remaining !! pushed && remaining + pushed == frequencyDict.Keys
        invariant NoRepeats(order)
        invariant forall c :: c in order <==> c in pushed
        invariant forall c :: c in order ==> c in frequencyDict
        invariant heap == old(heap) + LeafForest(frequencyDict, order)
        invariant codes == old(codes) && reverseCodes == old(reverseCodes)
        decreases remaining
      {
        var key :| key in remaining;
        var frequency := frequencyDict[key];
        var binaryTreeNode := Leaf(key, frequency);
        heap := heap + [binaryTreeNode];
        assert (order + [key])[..|order|] == order;
        assert LeafForest(frequencyDict, order + [key]) == LeafForest(frequencyDict, order) + [binaryTreeNode];
        order := order + [key];
        remaining := remaining - {key};
        pushed := pushed + {key};
      }
    }

    /** heapq.heappop: remove and return a node of least frequency (the first such node). */
    method HeapPop() returns (node: Tree)
      requires heap != []
      modifies this
      ensures codes == old(codes) && reverseCodes == old(reverseCodes)
      ensures node == old(heap)[MinIndex(old(heap))]
      ensures heap == RemoveAt(old(heap), MinIndex(old(heap)))
    {
      var h := heap;
      var m := 0;
      for i := 1 to |h|
        invariant m == MinIndex(h[..i])
      {
        assert h[..i + 1][..i] == h[..i];
        if h[i].frequency < h[m].frequency {
          m := i;
        }
      }
      assert h[..|h|] == h;
      node := h[m];
      heap := h[..m] + h[m + 1..];
    }

    /**
     * One round of buildTree: pop the two least-frequent nodes and push a parent
     * whose frequency is their sum, the first popped on the left.
     */
    method MergeTwoSmallest()
      requires |heap| > 1
      modifies this
      ensures codes == old(codes) && reverseCodes == old(reverseCodes)
      ensures heap == MergeStep(old(heap))
    {
      ghost var h0 := heap;
      var node1 := HeapPop();
      ghost var h1 := heap;
      var node2 := HeapPop();
      var totalFrequency := node1.frequency + node2.frequency;
      var newNode := Node(totalFrequency, node1, node2);
      heap := heap + [newNode];
      assert heap == PushParent(RemoveAt(h1, MinIndex(h1)), node1, node2);
    }

    /** buildTree: merge until at most one tree is left. */
    method BuildTree()
      modifies this
      ensures codes == old(codes) && reverseCodes == old(reverseCodes)
      ensures heap == BuildForest(old(heap))
    {
      while |heap| > 1
        invariant codes == old(codes) && reverseCodes == old(reverseCodes)
        invariant BuildForest(heap) == BuildForest(old(heap))
        decreases |heap|
      {
        MergeTwoSmallest();
      }
    }

    /**
     * buildCodesHelper: walk the tree depth-first, '0' to the left and '1' to
     * the right, and record each leaf's path in both tables.
     */
    method BuildCodesHelper(root: Tree, currentBits: string)
      modifies this
      ensures heap == old(heap)
      ensures codes == old(codes) + CodeMap(root, currentBits)
      ensures reverseCodes == old(reverseCodes) + ReverseMap(root, currentBits)
      decreases root
    {
      match root
      case Leaf(value, _) =>
        codes := codes[value := currentBits];
        reverseCodes := reverseCodes[currentBits := value];
      case Node(_, left, right) =>
        ghost var codes0, reverse0 := codes, reverseCodes;
        BuildCodesHelper(left, currentBits + "0");
        BuildCodesHelper(right, currentBits + "1");
        UnionAssociative(codes0, CodeMap(left, currentBits + "0"), CodeMap(right, currentBits + "1"));
        UnionAssociative(reverse0, ReverseMap(left, currentBits + "0"), ReverseMap(right, currentBits + "1"));
    }

    /**
     * buildCodes: pop the root and walk it from the empty code. On an empty heap
     * heappop raises: nothing changes and the result is false.
     */
    method BuildCodes() returns (ok: bool)
      modifies this
      ensures ok <==> old(heap) != []
      ensures !ok ==> heap == old(heap) && codes == old(codes) && reverseCodes == old(reverseCodes)
      ensures ok ==>
        var m := MinIndex(old(heap));
        && heap == RemoveAt(old(heap), m)
        && codes == old(codes) + CodeMap(old(heap)[m], "")
        && reverseCodes == old(reverseCodes) + ReverseMap(old(heap)[m], "")
    {
      if heap == [] {
        return false;
      }
      var root := HeapPop();
      BuildCodesHelper(root, "");
      ok := true;
    }

    /** getEncodedText: the codes of the text's characters, appended in text order. */
    method GetEncodedText(text: string) returns (encodedText: string)
      requires Covers(codes, text)
      ensures encodedText == Encode(codes, text)
    {
      encodedText := "";
      for i := 0 to |text|
        invariant Covers(codes, text[..i])
        invariant encodedText == Encode(codes, text[..i])
      {
        assert text[..i + 1] == text[..i] + [text[i]];
        EncodeAppend(codes, text[..i], [text[i]]);
        assert Encode(codes, [text[i]]) == codes[text[i]];
        encodedText := encodedText + codes[text[i]];
      }
      assert text[..|text|] == text;
    }

    /**
     * __decodedText: grow a candidate bit by bit; on a match emit its character
     * and start a new candidate.
     */
    method DecodedText(text: string) returns (decodedText: string)
      ensures decodedText == Decode(reverseCodes, text)
    {
      decodedText := "";
      var currentBit := "";
      for i := 0 to |text|
        invariant decodedText + DecodeFrom(reverseCodes, text[i..], currentBit) == Decode(reverseCodes, text)
      {
        assert text[i..][0] == text[i] && text[i..][1..] == text[i + 1..];
        currentBit := currentBit + [text[i]];
        if currentBit in reverseCodes {
          decodedText := decodedText + [reverseCodes[currentBit]];
          currentBit := "";
        }
      }
    }

    /**
     * compression without the file: count, build the forest and the tree,
     * derive the codes, encode, pad and cut into bytes. An empty text leaves
     * the heap empty and buildCodes fails.
     */
    method Compression(text: string) returns (bytesArray: Option<seq<Byte>>)
      requires Idle()
      modifies this
      ensures Idle()
      ensures bytesArray.None? <==> text == ""
      ensures text == "" ==> codes == old(codes) && reverseCodes == old(reverseCodes)
      ensures text != "" ==> exists root ::
        && BuiltFromText(root, text)
        && HuffmanTreeFor(root, text)
        && codes == old(codes) + CodeMap(root, "")
        && reverseCodes == old(reverseCodes) + ReverseMap(root, "")
      ensures bytesArray.Some? ==>
        && Covers(codes, text)
        && IsBits(Encode(codes, text))
        && BitsOfBytes(bytesArray.value) == Padded(Encode(codes, text))
    {
      ghost var oldCodes := codes;
      var frequencyDict := MakeFrequencyDictionary(text);
      BuildHeap(frequencyDict);
      ghost var order :| NoRepeats(order)
        && (forall c :: c in order <==> c in frequencyDict)
        && heap == [] + LeafForest(frequencyDict, order);
      assert PushOrder(text, frequencyDict, order);
      assert heap == LeafForest(frequencyDict, order);
      BuildTree();
      ghost var forest := heap;
      TreeFromText(text, frequencyDict, order);
      var ok := BuildCodes();
      if !ok {
        return None;
      }
      assert text != "" && |forest| == 1;
      PopSingleton(forest);
      ghost var root := forest[0];
      TreeCodesCoverText(root, text, oldCodes);
      var encodedText := GetEncodedText(text);
      var paddedEncodedText := GetPaddedEncodedText(encodedText);
      PackUnpackRoundTrip(encodedText);
      bytesArray := Some(BytesArray(paddedEncodedText));
    }

    /**
     * decompression without the files: expand the bytes into bits, strip the
     * padding and decode against the reverse table of this object. An empty
     * file makes int('', 2) raise.
     */
    method Decompression(data: seq<Byte>) returns (decompressedText: Option<string>)
      ensures decompressedText.None? <==> data == []
      ensures decompressedText.Some? ==>
        decompressedText == Some(Decode(reverseCodes, RemovePadding(BitsOfBytes(data)).value))
    {
      var bitString := ReadBitString(data);
      var actualText := RemovePadding(bitString);
      if actualText.None? {
        return None;
      }
      var decoded := DecodedText(actualText.value);
      decompressedText := Some(decoded);
    }
  }

  /** A text with one distinct character repeats its first character. */
  lemma SingleCharacter(text: string)
    requires |Alphabet(text)| == 1
    ensures forall i :: 0 <= i < |text| ==> text[i] == text[0]
  {
    var alphabet := Alphabet(text);
    assert text[0] in alphabet;
    assert |alphabet - {text[0]}| == 0;
    assert alphabet == {text[0]};
    forall i | 0 <= i < |text|
      ensures text[i] == text[0]
    {
      assert text[i] in alphabet;
    }
  }

  /**
   * Encoding a text with the tables of a Huffman tree for it, padding, and then
   * stripping the padding and decoding with the same tables: two or more
   * distinct characters come back as the text, a single one comes back empty.
   */
  lemma HuffmanRoundTrip(root: Tree, text: string)
    requires HuffmanTreeFor(root, text) && text != ""
    ensures var codes, reverseCodes := CodeMap(root, ""), ReverseMap(root, "");
      && Covers(codes, text)
      && IsBits(Encode(codes, text))
      && RemovePadding(Padded(Encode(codes, text))).Some?
      && Decode(reverseCodes, RemovePadding(Padded(Encode(codes, text))).value)
         == if |Alphabet(text)| >= 2 then text else ""
  {
    var codes, reverseCodes := CodeMap(root, ""), ReverseMap(root, "");
    TreeCodesCoverText(root, text, map[]);
    UnionEmpty(codes);
    var encoded := Encode(codes, text);
    PaddingRoundTrip(encoded);
    assert text[0] in Alphabet(text);
    HuffmanTreeTables(root, text);
    if |Alphabet(text)| >= 2 {
      RoundTrip(codes, reverseCodes, text);
    } else {
      SingleCharacter(text);
      EmptyCodeLosesText(codes, reverseCodes, text, text[0]);
    }
  }

  /**
   * The example usage at the end of the module, in memory: a fresh coder
   * compresses a text and then decompresses its own bytes. With two or more
   * distinct characters the text comes back; with a single distinct character
   * its code is empty and the text comes back empty; an empty text fails.
   */
  method CompressThenDecompress(text: string) returns (restored: Option<string>)
    ensures text == "" <==> restored.None?
    ensures |Alphabet(text)| >= 2 ==> restored == Some(text)
    ensures |Alphabet(text)| == 1 ==> restored == Some("")
  {
    var coder := new HuffmanCoding();
    var compressed := coder.Compression(text);
    if compressed.None? {
      return None;
    }
    ghost var root :| HuffmanTreeFor(root, text)
      && coder.codes == map[] + CodeMap(root, "")
      && coder.reverseCodes == map[] + ReverseMap(root, "");
    UnionEmpty(CodeMap(root, ""));
    UnionEmpty(ReverseMap(root, ""));
    HuffmanRoundTrip(root, text);
    restored := coder.Decompression(compressed.value);
  }
}
