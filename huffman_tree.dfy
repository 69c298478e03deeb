/**
 * The Huffman tree (BinaryTree: a leaf carries a character, an internal node
 * has value None and two children), the forest kept in the heap, and the code
 * tables that a depth-first walk of the tree writes.
 */
module HuffmanTree {
  import opened BitStrings

  datatype Tree =
    | Leaf(value: char, frequency: nat)
    | Node(frequency: nat, left: Tree, right: Tree)

  /** The characters at the leaves, one occurrence per leaf. */
  function Symbols(t: Tree): multiset<char> {
    match t
    case Leaf(c, _) => multiset{c}
    case Node(_, l, r) => Symbols(l) + Symbols(r)
  }

  /** The characters the tree stands for, each leaf's repeated by its frequency. */
  function Mass(t: Tree): multiset<char> {
    match t
    case Leaf(c, f) => multiset{}[c := f]
    case Node(_, l, r) => Mass(l) + Mass(r)
  }

  /** Every leaf counts at least one occurrence; every internal node weighs its children's sum. */
  predicate WellFormed(t: Tree) {
    match t
    case Leaf(_, f) => f >= 1
    case Node(f, l, r) => f == l.frequency + r.frequency && WellFormed(l) && WellFormed(r)
  }

  /** No character labels two leaves. */
  predicate DistinctSymbols(t: Tree) {
    forall c :: Symbols(t)[c] <= 1
  }

  /** A well-formed tree's frequency is the number of characters it stands for. */
  lemma {:induction false} FrequencyIsMass(t: Tree)
    requires WellFormed(t)
    ensures t.frequency == |Mass(t)|
  {
    match t
    case Leaf(c, f) =>
    case Node(_, l, r) =>
      FrequencyIsMass(l);
      FrequencyIsMass(r);
  }

  /** A leaf holds one character, so a tree over two or more characters is an internal node. */
  lemma SymbolCount(t: Tree)
    ensures |Symbols(t)| >= 1
    ensures t.Leaf? <==> |Symbols(t)| == 1
  {
    match t
    case Leaf(_, _) =>
    case Node(_, l, r) =>
      SymbolCount(l);
      SymbolCount(r);
  }

  // ---------------------------------------------------------------------------
  // The forest held in the heap

  /**
   * What a forest stands for under a per-tree measure `w` (its `Symbols` or
   * its `Mass`): the union of its trees' measures.
   */
  function ForestSum(w: Tree -> multiset<char>, f: seq<Tree>): multiset<char> {
    if f == [] then multiset{} else w(f[0]) + ForestSum(w, f[1..])
  }

  lemma {:induction false} ForestAppend(w: Tree -> multiset<char>, a: seq<Tree>, b: seq<Tree>)
    ensures ForestSum(w, a + b) == ForestSum(w, a) + ForestSum(w, b)
  {
    if a == [] {
      assert a + b == b;
    } else {
      assert (a + b)[1..] == a[1..] + b;
      ForestAppend(w, a[1..], b);
    }
  }

  /** Pushing a tree onto a forest adds exactly its measure. */
  lemma ForestPush(w: Tree -> multiset<char>, f: seq<Tree>, t: Tree)
    ensures ForestSum(w, f + [t]) == ForestSum(w, f) + w(t)
  {
    ForestAppend(w, f, [t]);
    assert [t][1..] == [];
  }

  /** The forest left once the tree at index `m` is popped. */
  function RemoveAt(f: seq<Tree>, m: nat): (r: seq<Tree>)
    requires m < |f|
    ensures |r| == |f| - 1
  {
    f[..m] + f[m + 1..]
  }

  /** Removing a tree brings no new tree into the forest. */
  lemma RemoveAtSubset(f: seq<Tree>, m: nat)
    requires m < |f|
    ensures forall t :: t in RemoveAt(f, m) ==> t in f
  {
  }

  lemma Swap(a: multiset<char>, b: multiset<char>, c: multiset<char>)
    ensures (a + c) + b == (a + b) + c
  {
  }

  /** Taking the tree at index `m` out of a forest takes exactly its measure out. */
  lemma ForestRemove(w: Tree -> multiset<char>, f: seq<Tree>, m: nat)
    requires m < |f|
    ensures ForestSum(w, RemoveAt(f, m)) + w(f[m]) == ForestSum(w, f)
  {
    var front, back := f[..m], f[m + 1..];
    SplitAround(f, m);
    ForestAppend(w, f[..m + 1], back);
    ForestPush(w, front, f[m]);
    ForestAppend(w, front, back);
    Swap(ForestSum(w, front), w(f[m]), ForestSum(w, back));
  }

  /** A forest is the trees before index `m`, the tree at `m`, and the trees after it. */
  lemma SplitAround(f: seq<Tree>, m: nat)
    requires m < |f|
    ensures f[..m + 1] == f[..m] + [f[m]]
    ensures f[..m + 1] + f[m + 1..] == f
    ensures RemoveAt(f, m) == f[..m] + f[m + 1..]
  {
  }

  /** Every tree of the forest is well formed. */
  predicate AllWellFormed(f: seq<Tree>) {
    forall t :: t in f ==> WellFormed(t)
  }

  // ---------------------------------------------------------------------------
  // The heap operations as functions of the forest (heapq's sift order is
  // abstracted away: a push appends, a pop takes the first least-frequent tree)

  /** The index heappop takes: the first tree of least frequency. */
  function MinIndex(f: seq<Tree>): (m: nat)
    requires f != []
    ensures m < |f|
    ensures forall t :: t in f ==> f[m].frequency <= t.frequency
  {
    if |f| == 1 then 0
    else
      var m := MinIndex(f[..|f| - 1]);
      assert forall t :: t in f ==> t in f[..|f| - 1] || t == f[|f| - 1];
      if f[|f| - 1].frequency < f[m].frequency then |f| - 1 else m
  }

  /** Popping a heap of one tree takes that tree and leaves nothing. */
  lemma PopSingleton(f: seq<Tree>)
    requires |f| == 1
    ensures MinIndex(f) == 0 && RemoveAt(f, 0) == []
  {
  }

  /** Pop the tree at `i`, then the tree at `j` of what is left, and push their parent. */
  function MergeAt(f: seq<Tree>, i: nat, j: nat): (r: seq<Tree>)
    requires i < |f| && j < |f| - 1
    ensures |r| == |f| - 1
  {
    var f1 := RemoveAt(f, i);
    PushParent(RemoveAt(f1, j), f[i], f1[j])
  }

  /** heappush of the parent of `n1` (left) and `n2` (right), weighing their sum. */
  function PushParent(f: seq<Tree>, n1: Tree, n2: Tree): (r: seq<Tree>)
    ensures |r| == |f| + 1
  {
    f + [Node(n1.frequency + n2.frequency, n1, n2)]
  }

  /** One round of buildTree: pop two least-frequent trees and push their parent. */
  function MergeStep(f: seq<Tree>): (r: seq<Tree>)
    requires |f| >= 2
    ensures |r| == |f| - 1
  {
    var i := MinIndex(f);
    MergeAt(f, i, MinIndex(RemoveAt(f, i)))
  }

  /** buildTree: merge until at most one tree is left. */
  function BuildForest(f: seq<Tree>): (r: seq<Tree>)
    ensures |r| == if f == [] then 0 else 1
    decreases |f|
  {
    if |f| <= 1 then f else BuildForest(MergeStep(f))
  }

  /** The leaves buildHeap pushes, one per key, in the order the keys are visited. */
  function LeafForest(frequencyDict: map<char, nat>, order: seq<char>): (f: seq<Tree>)
    requires forall c :: c in order ==> c in frequencyDict
    ensures |f| == |order|
  {
    if order == [] then []
    else
      var last := order[|order| - 1];
      LeafForest(frequencyDict, order[..|order| - 1]) + [Leaf(last, frequencyDict[last])]
  }

  lemma Regroup(f2: multiset<char>, s1: multiset<char>, s2: multiset<char>, f1: multiset<char>, f0: multiset<char>)
    requires f2 + s2 == f1 && f1 + s1 == f0
    ensures f2 + (s1 + s2) == f0
  {
  }

  /**
   * A round of merging shrinks the forest by one and pushes a parent whose
   * frequency is its children's sum; the children are a least-frequent tree
   * and a least-frequent one of the rest.
   */
  lemma MergeStepShape(f: seq<Tree>)
    requires |f| >= 2
    ensures var r := MergeStep(f);
      var parent := r[|r| - 1];
      && |r| == |f| - 1
      && parent.Node?
      && parent.frequency == parent.left.frequency + parent.right.frequency
      && parent.left in f && parent.right in f
      && (forall t :: t in r[..|r| - 1] ==> t in f)
      && (forall t :: t in f ==> parent.left.frequency <= t.frequency)
      && (forall t :: t in r[..|r| - 1] ==> parent.right.frequency <= t.frequency)
  {
    var f1 := RemoveAt(f, MinIndex(f));
    var f2 := RemoveAt(f1, MinIndex(f1));
    RemoveAtSubset(f, MinIndex(f));
    RemoveAtSubset(f1, MinIndex(f1));
    var r := MergeStep(f);
    assert r[..|r| - 1] == f2;
  }

  /** Popping two trees and pushing their parent keeps what the forest stands for, under any additive measure. */
  lemma MergeAtPreserves(w: Tree -> multiset<char>, f: seq<Tree>, i: nat, j: nat)
    requires i < |f| && j < |f| - 1
    requires forall l, r, n :: w(Node(n, l, r)) == w(l) + w(r)
    ensures ForestSum(w, MergeAt(f, i, j)) == ForestSum(w, f)
  {
    var f1 := RemoveAt(f, i);
    var n1, n2 := f[i], f1[j];
    var f2 := RemoveAt(f1, j);
    var parent := Node(n1.frequency + n2.frequency, n1, n2);
    assert MergeAt(f, i, j) == PushParent(f2, n1, n2) == f2 + [parent];
    assert w(parent) == w(n1) + w(n2);
    ForestRemove(w, f, i);
    ForestRemove(w, f1, j);
    ForestPush(w, f2, parent);
    Regroup(ForestSum(w, f2), w(n1), w(n2), ForestSum(w, f1), ForestSum(w, f));
  }

  /** A round of merging keeps the characters and the weight the forest stands for. */
  lemma MergeStepPreserves(f: seq<Tree>)
    requires |f| >= 2
    ensures ForestSum(Symbols, MergeStep(f)) == ForestSum(Symbols, f)
    ensures ForestSum(Mass, MergeStep(f)) == ForestSum(Mass, f)
  {
    var i := MinIndex(f);
    var j := MinIndex(RemoveAt(f, i));
    MergeAtPreserves(Symbols, f, i, j);
    MergeAtPreserves(Mass, f, i, j);
  }

  /** Popping any two trees and pushing their parent keeps every tree well formed. */
  lemma MergeAtWellFormed(f: seq<Tree>, i: nat, j: nat)
    requires i < |f| && j < |f| - 1 && AllWellFormed(f)
    ensures AllWellFormed(MergeAt(f, i, j))
  {
    var f1 := RemoveAt(f, i);
    var n1, n2 := f[i], f1[j];
    var f2 := RemoveAt(f1, j);
    RemoveAtSubset(f, i);
    RemoveAtSubset(f1, j);
    assert MergeAt(f, i, j) == PushParent(f2, n1, n2) == f2 + [Node(n1.frequency + n2.frequency, n1, n2)];
  }

  /** A round of merging keeps every tree well formed. */
  lemma MergeStepWellFormed(f: seq<Tree>)
    requires |f| >= 2 && AllWellFormed(f)
    ensures AllWellFormed(MergeStep(f))
  {
    MergeAtWellFormed(f, MinIndex(f), MinIndex(RemoveAt(f, MinIndex(f))));
  }

  /**
   * Merging to a single tree keeps the characters and the weight of the forest,
   * and well-formed trees stay well formed.
   */
  lemma {:induction false} BuildForestPreserves(f: seq<Tree>)
    ensures ForestSum(Symbols, BuildForest(f)) == ForestSum(Symbols, f)
    ensures ForestSum(Mass, BuildForest(f)) == ForestSum(Mass, f)
    ensures AllWellFormed(f) ==> AllWellFormed(BuildForest(f))
    decreases |f|
  {
    if |f| > 1 {
      MergeStepPreserves(f);
      if AllWellFormed(f) {
        MergeStepWellFormed(f);
      }
      BuildForestPreserves(MergeStep(f));
    }
  }

  /** The leaves pushed for the keys in `order` stand for exactly those keys, each leaf carrying its count. */
  lemma {:induction false} LeafForestSymbols(frequencyDict: map<char, nat>, order: seq<char>)
    requires forall c :: c in order ==> c in frequencyDict
    ensures ForestSum(Symbols, LeafForest(frequencyDict, order)) == multiset(order)
    ensures forall t :: t in LeafForest(frequencyDict, order) ==>
      t.Leaf? && t.value in frequencyDict && t.frequency == frequencyDict[t.value]
  {
    if order != [] {
      var init, last := order[..|order| - 1], order[|order| - 1];
      assert order == init + [last];
      LeafForestSymbols(frequencyDict, init);
      ForestPush(Symbols, LeafForest(frequencyDict, init), Leaf(last, frequencyDict[last]));
    }
  }

  /** No character occurs twice in `order`. */
  predicate NoRepeats(order: seq<char>) {
    forall i, j :: 0 <= i < j < |order| ==> order[i] != order[j]
  }

  /** A sequence without repeats holds each of its characters once. */
  lemma {:induction false} NoRepeatsCounts(order: seq<char>)
    requires NoRepeats(order)
    ensures forall c :: multiset(order)[c] == if c in order then 1 else 0
  {
    if order != [] {
      var init, last := order[..|order| - 1], order[|order| - 1];
      assert order == init + [last];
      assert last !in init;
      NoRepeatsCounts(init);
    }
  }

  lemma SameCounts(a: multiset<char>, b: multiset<char>)
    requires forall c :: a[c] == b[c]
    ensures a == b
  {
  }

  /** With no key repeated, the leaves stand for each key as many times as its count. */
  lemma {:induction false} LeafForestMass(frequencyDict: map<char, nat>, order: seq<char>)
    requires forall c :: c in order ==> c in frequencyDict
    requires NoRepeats(order)
    ensures forall c :: ForestSum(Mass, LeafForest(frequencyDict, order))[c] == if c in order then frequencyDict[c] else 0
  {
    if order != [] {
      var init, last := order[..|order| - 1], order[|order| - 1];
      assert order == init + [last];
      assert last !in init;
      LeafForestMass(frequencyDict, init);
      ForestPush(Mass, LeafForest(frequencyDict, init), Leaf(last, frequencyDict[last]));
    }
  }

  // ---------------------------------------------------------------------------
  // Code tables

  /** `u` is a prefix of `w` (possibly equal to it). */
  predicate IsPrefix(u: string, w: string) {
    |u| <= |w| && w[..|u|] == u
  }

  /** No code is a prefix of another. */
  predicate PrefixFree(keys: set<string>) {
    forall u, w :: u in keys && w in keys && u != w ==> !IsPrefix(u, w)
  }

  /** The forward and reverse tables undo each other. */
  predicate Inverse(codes: map<char, string>, reverseCodes: map<string, char>) {
    && (forall c :: c in codes ==> codes[c] in reverseCodes && reverseCodes[codes[c]] == c)
    && (forall b :: b in reverseCodes ==> reverseCodes[b] in codes && codes[reverseCodes[b]] == b)
  }

  /**
   * What buildCodesHelper(t, bits) writes into `codes`: each leaf's character
   * maps to the path to it, '0' for left and '1' for right, after `bits`.
   * Writes made later (further right) win, as in the dictionary.
   */
  function CodeMap(t: Tree, bits: string): map<char, string> {
    match t
    case Leaf(c, _) => map[c := bits]
    case Node(_, l, r) => CodeMap(l, bits + "0") + CodeMap(r, bits + "1")
  }

  /** What buildCodesHelper(t, bits) writes into `reverseCodes`. */
  function ReverseMap(t: Tree, bits: string): map<string, char> {
    match t
    case Leaf(c, _) => map[bits := c]
    case Node(_, l, r) => ReverseMap(l, bits + "0") + ReverseMap(r, bits + "1")
  }

  /** The forward table has an entry for exactly the characters at the leaves. */
  lemma {:induction false} CodeMapKeys(t: Tree, bits: string)
    ensures forall c :: c in CodeMap(t, bits) <==> c in Symbols(t)
  {
    match t
    case Leaf(_, _) =>
    case Node(_, l, r) =>
      CodeMapKeys(l, bits + "0");
      CodeMapKeys(r, bits + "1");
  }

  /** Every code under `bits` extends `bits`, strictly so below an internal node. */
  lemma {:induction false} ReverseMapExtends(t: Tree, bits: string)
    ensures forall b :: b in ReverseMap(t, bits) ==> IsPrefix(bits, b) && (t.Node? ==> |b| > |bits|)
  {
    match t
    case Leaf(_, _) =>
    case Node(_, l, r) =>
      var b0, b1 := bits + "0", bits + "1";
      ReverseMapExtends(l, b0);
      ReverseMapExtends(r, b1);
      forall b | b in ReverseMap(t, bits) ensures IsPrefix(bits, b) && |b| > |bits| {
        var ext := if b in ReverseMap(r, b1) then b1 else b0;
        assert IsPrefix(ext, b);
        assert b[..|bits|] == b[..|ext|][..|bits|];
      }
  }

  /** What follows `bits` in a code is binary digits. */
  lemma {:induction false} ReverseMapBits(t: Tree, bits: string)
    ensures forall b :: b in ReverseMap(t, bits) ==> |bits| <= |b| && IsBits(b[|bits|..])
    decreases t, 0
  {
    match t
    case Leaf(_, _) =>
      forall b | b in ReverseMap(t, bits) ensures |bits| <= |b| && IsBits(b[|bits|..]) {
        assert b == bits;
      }
    case Node(_, l, r) =>
      ChildBits(l, bits, '0');
      ChildBits(r, bits, '1');
      assert bits + "0" == bits + ['0'] && bits + "1" == bits + ['1'];
  }

  /** One step of ReverseMapBits: below a child, the branch digit followed by binary digits. */
  lemma {:induction false} ChildBits(t: Tree, bits: string, d: char)
    requires d == '0' || d == '1'
    ensures forall b :: b in ReverseMap(t, bits + [d]) ==> |bits| <= |b| && IsBits(b[|bits|..])
    decreases t, 1
  {
    var ext := bits + [d];
    ReverseMapBits(t, ext);
    BranchDigit(t, bits, d);
    forall b | b in ReverseMap(t, ext) ensures |bits| <= |b| && IsBits(b[|bits|..]) {
      assert b[|bits|..] == [b[|bits|]] + b[|ext|..];
    }
  }

  /** Every code names a character at a leaf. */
  lemma {:induction false} ReverseMapValues(t: Tree, bits: string)
    ensures forall b :: b in ReverseMap(t, bits) ==> ReverseMap(t, bits)[b] in Symbols(t)
  {
    match t
    case Leaf(_, _) =>
    case Node(_, l, r) =>
      ReverseMapValues(l, bits + "0");
      ReverseMapValues(r, bits + "1");
  }

  /** Every code under `bits + [d]` has `d` right after `bits`. */
  lemma BranchDigit(t: Tree, bits: string, d: char)
    ensures forall b :: b in ReverseMap(t, bits + [d]) ==> |b| > |bits| && b[|bits|] == d
  {
    ReverseMapExtends(t, bits + [d]);
    forall b | b in ReverseMap(t, bits + [d]) ensures |b| > |bits| && b[|bits|] == d {
      assert IsPrefix(bits + [d], b);
      assert b[|bits|] == b[..|bits| + 1][|bits|];
    }
  }

  /** The codes below the left child start with bits + "0", those below the right with bits + "1". */
  lemma ChildrenDisjoint(l: Tree, r: Tree, bits: string)
    ensures ReverseMap(l, bits + "0").Keys !! ReverseMap(r, bits + "1").Keys
  {
    assert bits + "0" == bits + ['0'] && bits + "1" == bits + ['1'];
    BranchDigit(l, bits, '0');
    BranchDigit(r, bits, '1');
    forall b | b in ReverseMap(l, bits + "0") ensures b !in ReverseMap(r, bits + "1") {
      assert b[|bits|] == '0';
    }
  }

  /** A node's characters are distinct exactly when each child's are and no character is in both. */
  lemma ChildSymbols(t: Tree)
    requires t.Node? && DistinctSymbols(t)
    ensures DistinctSymbols(t.left) && DistinctSymbols(t.right)
    ensures forall c :: c in Symbols(t.left) ==> c !in Symbols(t.right)
  {
    forall c ensures Symbols(t.left)[c] <= 1 && Symbols(t.right)[c] <= 1 {
      assert Symbols(t)[c] == Symbols(t.left)[c] + Symbols(t.right)[c];
    }
    forall c | c in Symbols(t.left) ensures c !in Symbols(t.right) {
      assert Symbols(t)[c] == Symbols(t.left)[c] + Symbols(t.right)[c];
    }
  }

  /** With distinct leaf characters, the two tables written by the walk are mutually inverse. */
  lemma {:induction false} CodesInverse(t: Tree, bits: string)
    requires DistinctSymbols(t)
    ensures Inverse(CodeMap(t, bits), ReverseMap(t, bits))
  {
    match t
    case Leaf(_, _) =>
    case Node(_, l, r) =>
      var b0, b1 := bits + "0", bits + "1";
      ChildSymbols(t);
      CodesInverse(l, b0);
      CodesInverse(r, b1);
      CodeMapKeys(l, b0);
      CodeMapKeys(r, b1);
      ReverseMapValues(l, b0);
      ReverseMapValues(r, b1);
      ChildrenDisjoint(l, r, bits);
      var cl, cr := CodeMap(l, b0), CodeMap(r, b1);
      var rl, rr := ReverseMap(l, b0), ReverseMap(r, b1);
      var codes, reverseCodes := cl + cr, rl + rr;
      forall c | c in codes ensures codes[c] in reverseCodes && reverseCodes[codes[c]] == c {
        if c in cr {
          assert codes[c] == cr[c] && cr[c] in rr;
        } else {
          assert codes[c] == cl[c] && cl[c] in rl && cl[c] !in rr;
        }
      }
      forall b | b in reverseCodes ensures reverseCodes[b] in codes && codes[reverseCodes[b]] == b {
        if b in rr {
          assert reverseCodes[b] == rr[b] && rr[b] in cr;
        } else {
          assert reverseCodes[b] == rl[b] && rl[b] in Symbols(l) && rl[b] !in cr;
        }
      }
  }

  /** The codes of any tree are prefix-free: leaves are never ancestors of one another. */
  lemma {:induction false} CodesPrefixFree(t: Tree, bits: string)
    ensures PrefixFree(ReverseMap(t, bits).Keys)
  {
    match t
    case Leaf(_, _) =>
    case Node(_, l, r) =>
      var b0, b1 := bits + "0", bits + "1";
      CodesPrefixFree(l, b0);
      CodesPrefixFree(r, b1);
      ReverseMapExtends(l, b0);
      ReverseMapExtends(r, b1);
      var rl, rr := ReverseMap(l, b0), ReverseMap(r, b1);
      forall u, w | u in ReverseMap(t, bits) && w in ReverseMap(t, bits) && u != w
        ensures !IsPrefix(u, w)
      {
        if (u in rl && w in rr) || (u in rr && w in rl) {
          var eu := if u in rl then b0 else b1;
          var ew := if w in rl then b0 else b1;
          assert u[|bits|] == eu[|bits|] && w[|bits|] == ew[|bits|];
        }
      }
  }

  /**
   * The tables buildCodes writes from the root: mutually inverse, one entry per
   * leaf character, prefix-free, binary; for an internal-node root every code
   * is non-empty, and a root that is a single leaf gets the empty code.
   */
  lemma TreeCodeTables(root: Tree)
    requires DistinctSymbols(root)
    ensures var codes, reverseCodes := CodeMap(root, ""), ReverseMap(root, "");
      && Inverse(codes, reverseCodes)
      && (forall c :: c in codes <==> c in Symbols(root))
      && PrefixFree(reverseCodes.Keys)
      && (forall c :: c in codes ==> IsBits(codes[c]))
      && (root.Node? ==> forall c :: c in codes ==> codes[c] != "")
      && (root.Leaf? ==> codes == map[root.value := ""])
  {
    CodesInverse(root, "");
    CodeMapKeys(root, "");
    CodesPrefixFree(root, "");
    ReverseMapExtends(root, "");
    ReverseMapBits(root, "");
    var codes, reverseCodes := CodeMap(root, ""), ReverseMap(root, "");
    forall c | c in codes ensures IsBits(codes[c]) && (root.Node? ==> codes[c] != "") {
      var b := codes[c];
      assert b in reverseCodes;
      assert b[|""|..] == b;
    }
  }
}
