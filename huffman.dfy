/** HuffmanCoding (main.py:23-159): a prefix code built from byte frequencies, the bits packed
    most significant first, and a decoder that walks the tree rebuilt from the same table. */
module Huffman {
  import opened Bytes
  import opened Wrappers

  /** One character of the `bit_string` the codec builds ('0' or '1'). */
  type Bit = b: int | 0 <= b < 2

  /** A `HuffmanNode` (main.py:23-31) as it occurs in a built tree: a leaf carries a byte; an
      internal node has two children, except the root built for a single distinct byte, whose
      right child is None (main.py:50-54). */
  datatype Tree =
    | Leaf(symbol: Byte, freq: nat)
    | Node(freq: nat, left: Tree, right: Tree)
    | LeftOnly(freq: nat, left: Tree)

  /** `Counter(data)` / `dict(freq_table)`: how often each byte occurs. */
  type FreqTable = map<Byte, nat>

  /** The metadata of `compress` (main.py:110-114); `padding` is absent for empty input. */
  datatype Meta = Meta(freqTable: FreqTable, padding: Option<int>, originalLength: nat)

  /** Reading the child of a node that has none (`None.char` raises AttributeError). */
  datatype DecodeError = MissingChild

  // ---------------------------------------------------------------------------------------
  // Frequency table (main.py:38-39)

  /** The counts of data[..n], taken one byte at a time as `Counter` does. */
  function CountPrefix(data: seq<Byte>, n: nat): (r: FreqTable)
    requires n <= |data|
  {
    if n == 0 then map[]
    else
      var t := CountPrefix(data, n - 1);
      var b := data[n - 1];
      t[b := (if b in t then t[b] else 0) + 1]
  }

  /** `build_frequency_table`. */
  function FrequencyTable(data: seq<Byte>): (r: FreqTable)
  {
    CountPrefix(data, |data|)
  }

  lemma {:induction false} CountPrefixCounts(data: seq<Byte>, n: nat)
    requires n <= |data|
    ensures forall b :: b in CountPrefix(data, n) <==> b in multiset(data[..n])
    ensures forall b :: b in CountPrefix(data, n) ==> CountPrefix(data, n)[b] == multiset(data[..n])[b]
  {
    if n > 0 {
      CountPrefixCounts(data, n - 1);
      assert data[..n] == data[..n - 1] + [data[n - 1]];
    }
  }

  /** The table holds exactly the bytes of the input, each with its number of occurrences. */
  lemma FrequencyTableCounts(data: seq<Byte>)
    ensures forall b :: b in FrequencyTable(data) <==> b in data
    ensures forall b :: b in FrequencyTable(data) ==> FrequencyTable(data)[b] == multiset(data)[b]
  {
    CountPrefixCounts(data, |data|);
    assert data[..|data|] == data;
  }

  // ---------------------------------------------------------------------------------------
  // Tree construction (main.py:41-64)

  /** How many leaves of the tree carry byte x. */
  function Occ(t: Tree, x: Byte): (r: nat)
  {
    match t
    case Leaf(s, _) => if s == x then 1 else 0
    case Node(_, l, r) => Occ(l, x) + Occ(r, x)
    case LeftOnly(_, l) => Occ(l, x)
  }

  /** How many leaves of the trees of a heap carry byte x. */
  function HeapOcc(h: seq<Tree>, x: Byte): (r: nat)
  {
    if |h| == 0 then 0 else Occ(h[0], x) + HeapOcc(h[1..], x)
  }

  /** No byte is at two leaves. */
  ghost predicate Distinct(t: Tree)
  {
    forall x :: Occ(t, x) <= 1
  }

  /** The initial heap (main.py:45-47): one leaf per byte of the table, in ascending byte
      order; LeavesFrom(freq, b) holds the leaves of the bytes b, b + 1, ..., 255. */
  function LeavesFrom(freq: FreqTable, b: nat): (r: seq<Tree>)
    requires b <= 256
    decreases 256 - b
  {
    if b == 256 then []
    else
      var x: Byte := b;
      if x in freq then [Leaf(x, freq[x])] + LeavesFrom(freq, b + 1) else LeavesFrom(freq, b + 1)
  }

  function Leaves(freq: FreqTable): (r: seq<Tree>)
  {
    LeavesFrom(freq, 0)
  }

  /** The position `heappop` takes from: the leftmost tree of least frequency. */
  function MinFrom(h: seq<Tree>, i: nat, best: nat): (k: nat)
    requires best < |h| && i <= |h|
    ensures k < |h|
    decreases |h| - i
  {
    if i == |h| then best
    else if h[i].freq < h[best].freq then MinFrom(h, i + 1, i)
    else MinFrom(h, i + 1, best)
  }

  function MinIndex(h: seq<Tree>): (k: nat)
    requires |h| > 0
    ensures k < |h|
  {
    MinFrom(h, 1, 0)
  }

  lemma {:induction false} MinFromIsLeast(h: seq<Tree>, i: nat, best: nat)
    requires best < i <= |h|
    requires forall m :: 0 <= m < i ==> h[best].freq <= h[m].freq
    requires forall m :: 0 <= m < best ==> h[best].freq < h[m].freq
    ensures forall m :: 0 <= m < |h| ==> h[MinFrom(h, i, best)].freq <= h[m].freq
    ensures forall m :: 0 <= m < MinFrom(h, i, best) ==> h[MinFrom(h, i, best)].freq < h[m].freq
    decreases |h| - i
  {
    if i < |h| {
      if h[i].freq < h[best].freq {
        MinFromIsLeast(h, i + 1, i);
      } else {
        MinFromIsLeast(h, i + 1, best);
      }
    }
  }

  /** The tree popped has the least frequency on the heap, and every tree before it has a
      greater one. */
  lemma MinIndexIsLeast(h: seq<Tree>)
    requires |h| > 0
    ensures forall m :: 0 <= m < |h| ==> h[MinIndex(h)].freq <= h[m].freq
    ensures forall m :: 0 <= m < MinIndex(h) ==> h[MinIndex(h)].freq < h[m].freq
  {
    MinFromIsLeast(h, 1, 0);
  }

  /** `heappop` at position k: the heap without its k-th tree. */
  function RemoveAt(h: seq<Tree>, k: nat): (r: seq<Tree>)
    requires k < |h|
    ensures |r| == |h| - 1
  {
    if k == 0 then h[1..] else [h[0]] + RemoveAt(h[1..], k - 1)
  }

  /** One iteration of the merge loop (main.py:56-62): pop two least trees, push their parent,
      which is placed in front of the remaining trees. */
  function MergeStep(h: seq<Tree>): (r: seq<Tree>)
    requires |h| >= 2
    ensures |r| == |h| - 1
  {
    var i := MinIndex(h);
    var left := h[i];
    var h1 := RemoveAt(h, i);
    var j := MinIndex(h1);
    var right := h1[j];
    [Node(left.freq + right.freq, left, right)] + RemoveAt(h1, j)
  }

  /** The merge loop run until one tree is left (main.py:56-64). */
  function MergeAll(h: seq<Tree>): (t: Tree)
    requires |h| >= 1
    decreases |h|
  {
    if |h| == 1 then h[0] else MergeAll(MergeStep(h))
  }

  /** `build_huffman_tree` (main.py:41-64). */
  function HuffmanTree(freq: FreqTable): (r: Option<Tree>)
  {
    if |freq| == 0 then None
    else
      var h := Leaves(freq);
      if |h| == 1 then Some(LeftOnly(h[0].freq, h[0]))
      else if |h| == 0 then None
      else Some(MergeAll(h))
  }

  lemma HeapOccCons(t: Tree, h: seq<Tree>, x: Byte)
    ensures HeapOcc([t] + h, x) == Occ(t, x) + HeapOcc(h, x)
  {
    assert ([t] + h)[1..] == h;
  }

  lemma {:induction false} HeapOccRemove(h: seq<Tree>, k: nat, x: Byte)
    requires k < |h|
    ensures HeapOcc(h, x) == HeapOcc(RemoveAt(h, k), x) + Occ(h[k], x)
    decreases k
  {
    if k > 0 {
      HeapOccRemove(h[1..], k - 1, x);
      HeapOccCons(h[0], RemoveAt(h[1..], k - 1), x);
    }
  }

  /** Merging keeps the bytes of the heap. */
  lemma MergeStepOcc(h: seq<Tree>, x: Byte)
    requires |h| >= 2
    ensures HeapOcc(MergeStep(h), x) == HeapOcc(h, x)
  {
    var i := MinIndex(h);
    var h1 := RemoveAt(h, i);
    var j := MinIndex(h1);
    HeapOccRemove(h, i, x);
    HeapOccRemove(h1, j, x);
    HeapOccCons(Node(h[i].freq + h1[j].freq, h[i], h1[j]), RemoveAt(h1, j), x);
  }

  /** The tree left at the end holds every byte that was on the heap; with two or more trees
      to start from it is an internal node. */
  lemma {:induction false} MergeAllOcc(h: seq<Tree>, x: Byte)
    requires |h| >= 1
    ensures Occ(MergeAll(h), x) == HeapOcc(h, x)
    ensures |h| >= 2 ==> MergeAll(h).Node?
    decreases |h|
  {
    if |h| == 1 {
      assert HeapOcc(h, x) == Occ(h[0], x) + HeapOcc(h[1..], x);
    } else {
      MergeStepOcc(h, x);
      var h' := MergeStep(h);
      MergeAllOcc(h', x);
    }
  }

  lemma {:induction false} LeavesFromOcc(freq: FreqTable, b: nat, x: Byte)
    requires b <= 256
    ensures HeapOcc(LeavesFrom(freq, b), x) == if b <= x && x in freq then 1 else 0
    decreases 256 - b
  {
    if b < 256 {
      var y: Byte := b;
      LeavesFromOcc(freq, b + 1, x);
      if y in freq {
        HeapOccCons(Leaf(y, freq[y]), LeavesFrom(freq, b + 1), x);
      }
    }
  }

  /** The tree for a non-empty table is an internal node (never a leaf) and has one leaf for
      each byte of the table and no other leaf. */
  lemma HuffmanTreeShape(freq: FreqTable)
    ensures HuffmanTree(freq).Some? <==> |freq| > 0
    ensures HuffmanTree(freq).Some? ==>
              && !HuffmanTree(freq).value.Leaf?
              && forall x :: Occ(HuffmanTree(freq).value, x) == if x in freq then 1 else 0
  {
    if |freq| > 0 {
      var h := Leaves(freq);
      var y :| y in freq;
      LeavesFromOcc(freq, 0, y);
      assert |h| > 0;
      forall x ensures Occ(HuffmanTree(freq).value, x) == if x in freq then 1 else 0 {
        LeavesFromOcc(freq, 0, x);
        if |h| == 1 {
          assert HeapOcc(h, x) == Occ(h[0], x) + HeapOcc(h[1..], x);
        } else {
          MergeAllOcc(h, x);
        }
      }
      if |h| >= 2 {
        MergeAllOcc(h, y);
      }
    }
  }

  lemma DistinctChildren(t: Tree)
    requires Distinct(t)
    ensures t.Node? ==> Distinct(t.left) && Distinct(t.right)
    ensures t.Node? ==> forall x :: Occ(t.left, x) == 0 || Occ(t.right, x) == 0
    ensures t.LeftOnly? ==> Distinct(t.left)
  {
    if !t.Leaf? {
      forall x ensures Occ(t.left, x) <= 1 && (t.Node? ==> Occ(t.right, x) <= 1 && (Occ(t.left, x) == 0 || Occ(t.right, x) == 0)) {
        assert Occ(t, x) <= 1;
      }
    }
  }

  // ---------------------------------------------------------------------------------------
  // Code table (main.py:66-76)

  /** The entries `build_codes(t, code)` adds: a leaf gets the path to it, or "0" when that path
      is empty; '0' is appended for a left edge and '1' for a right edge. Later entries win, as
      with repeated assignment to `self.codes[char]`. */
  function Codes(t: Tree, code: seq<Bit>): (r: map<Byte, seq<Bit>>)
  {
    match t
    case Leaf(s, _) => map[s := if |code| == 0 then [0] else code]
    case Node(_, l, r) => Codes(l, code + [0]) + Codes(r, code + [1])
    case LeftOnly(_, l) => Codes(l, code + [0])
  }

  /** The table `build_codes(root)` leaves in the emptied `self.codes`. */
  function CodeTable(root: Tree): (r: map<Byte, seq<Bit>>)
  {
    Codes(root, [])
  }

  /** Every byte at a leaf has a code, and no other byte has one. */
  lemma {:induction false} CodesKeys(t: Tree, code: seq<Bit>, x: Byte)
    ensures x in Codes(t, code) <==> Occ(t, x) > 0
  {
    match t
    case Leaf(_, _) =>
    case Node(_, l, r) =>
      CodesKeys(l, code + [0], x);
      CodesKeys(r, code + [1], x);
    case LeftOnly(_, l) =>
      CodesKeys(l, code + [0], x);
  }

  /** Every code is non-empty and extends the path it was built from, strictly below an
      internal node and exactly at a leaf reached by a non-empty path. */
  lemma {:induction false} CodesExtend(t: Tree, code: seq<Bit>, x: Byte)
    requires x in Codes(t, code)
    ensures 1 <= |Codes(t, code)[x]| && |code| <= |Codes(t, code)[x]|
    ensures Codes(t, code)[x][..|code|] == code
    ensures !t.Leaf? ==> |code| < |Codes(t, code)[x]|
    ensures t.Leaf? && |code| > 0 ==> Codes(t, code)[x] == code
  {
    match t
    case Leaf(_, _) =>
    case Node(_, l, r) =>
      var b: Bit := if x in Codes(r, code + [1]) then 1 else 0;
      var sub := if b == 1 then r else l;
      CodesExtend(sub, code + [b], x);
      var w := Codes(sub, code + [b])[x];
      assert Codes(t, code)[x] == w;
      assert w[..|code|] == w[..|code| + 1][..|code|];
    case LeftOnly(_, l) =>
      CodesExtend(l, code + [0], x);
      var w := Codes(l, code + [0])[x];
      assert w[..|code|] == w[..|code| + 1][..|code|];
  }

  /** The bit below the path `code` on the way to x: 0 when x is in the left subtree. */
  lemma CodesBranch(t: Tree, code: seq<Bit>, x: Byte)
    requires !t.Leaf? && Distinct(t) && x in Codes(t, code)
    ensures |code| < |Codes(t, code)[x]|
    ensures Occ(t.left, x) > 0 ==>
              x in Codes(t.left, code + [0]) && Codes(t, code)[x] == Codes(t.left, code + [0])[x]
              && Codes(t, code)[x][|code|] == 0
    ensures Occ(t.left, x) == 0 ==>
              t.Node? && x in Codes(t.right, code + [1]) && Codes(t, code)[x] == Codes(t.right, code + [1])[x]
              && Codes(t, code)[x][|code|] == 1
  {
    DistinctChildren(t);
    CodesKeys(t, code, x);
    CodesKeys(t.left, code + [0], x);
    if t.Node? {
      CodesKeys(t.right, code + [1], x);
    }
    var b: Bit := if Occ(t.left, x) > 0 then 0 else 1;
    var sub := if b == 0 then t.left else t.right;
    CodesExtend(sub, code + [b], x);
    var w := Codes(sub, code + [b])[x];
    assert w[..|code| + 1][|code|] == b;
  }

  /** No code is a prefix of the code of another byte. */
  lemma {:induction false} CodesPrefixPair(t: Tree, code: seq<Bit>, x: Byte, y: Byte)
    requires Distinct(t) && x in Codes(t, code) && y in Codes(t, code) && x != y
    ensures !(Codes(t, code)[x] <= Codes(t, code)[y])
  {
    if !t.Leaf? {
      DistinctChildren(t);
      CodesKeys(t, code, x);
      CodesKeys(t, code, y);
      CodesBranch(t, code, x);
      CodesBranch(t, code, y);
      CodesExtend(t, code, x);
      var bx: Bit := if Occ(t.left, x) > 0 then 0 else 1;
      var bw: Bit := if Occ(t.left, y) > 0 then 0 else 1;
      if bx == bw {
        var sub := if bx == 0 then t.left else t.right;
        CodesPrefixPair(sub, code + [bx], x, y);
      }
    }
  }

  ghost predicate PrefixFree(codes: map<Byte, seq<Bit>>)
  {
    forall x, y :: x in codes && y in codes && x != y ==> !(codes[x] <= codes[y])
  }

  /** The code table of a tree without repeated bytes is prefix-free and has no empty code. */
  lemma CodeTablePrefixFree(root: Tree)
    requires Distinct(root)
    ensures PrefixFree(CodeTable(root))
    ensures forall x :: x in CodeTable(root) ==> |CodeTable(root)[x]| >= 1
  {
    forall x, y | x in CodeTable(root) && y in CodeTable(root) && x != y
      ensures !(CodeTable(root)[x] <= CodeTable(root)[y])
    {
      CodesPrefixPair(root, [], x, y);
    }
    forall x | x in CodeTable(root) ensures |CodeTable(root)[x]| >= 1 {
      CodesExtend(root, [], x);
    }
  }

  lemma {:induction false} LeavesOfOne(freq: FreqTable, x: Byte, b: nat)
    requires freq.Keys == {x} && b <= 256
    ensures LeavesFrom(freq, b) == if b <= x then [Leaf(x, freq[x])] else []
    decreases 256 - b
  {
    if b < 256 {
      LeavesOfOne(freq, x, b + 1);
    }
  }

  /** Input with a single distinct byte is coded with the one-bit code "0" (main.py:50-54, 72). */
  lemma SingleByteCode(freq: FreqTable, x: Byte)
    requires freq.Keys == {x}
    ensures HuffmanTree(freq) == Some(LeftOnly(freq[x], Leaf(x, freq[x])))
    ensures CodeTable(HuffmanTree(freq).value) == map[x := [0]]
  {
    LeavesOfOne(freq, x, 0);
    assert |freq| == |freq.Keys| == 1;
    var leaf := Leaf(x, freq[x]);
    assert HuffmanTree(freq) == Some(LeftOnly(freq[x], leaf));
    AppendEmpty([0 as Bit]);
    assert Codes(LeftOnly(freq[x], leaf), []) == Codes(leaf, [0]);
  }

  // ---------------------------------------------------------------------------------------
  // Decoding walk (main.py:139-159)

  /** `current_node.left` for bit 0, `current_node.right` otherwise; None where that child is
      missing. */
  function Child(t: Tree, b: Bit): (r: Option<Tree>)
  {
    match t
    case Leaf(_, _) => None
    case Node(_, l, r) => if b == 0 then Some(l) else Some(r)
    case LeftOnly(_, l) => if b == 0 then Some(l) else None
  }

  /** The decoding loop from node `cur` over `bits`, with `out` decoded so far: each leaf
      reached emits its byte and the walk restarts at the root; a missing child is the
      AttributeError of `None.char`; bits left over inside the tree are dropped. */
  function Walk(root: Tree, cur: Tree, bits: seq<Bit>, out: seq<Byte>): (r: Result<seq<Byte>, DecodeError>)
    decreases |bits|
  {
    if |bits| == 0 then Ok(out)
    else
      match Child(cur, bits[0])
      case None => Err(MissingChild)
      case Some(next) =>
        if next.Leaf? then Walk(root, root, bits[1..], out + [next.symbol])
        else Walk(root, next, bits[1..], out)
  }

  lemma SuffixCons(w: seq<Bit>, n: nat, rest: seq<Bit>)
    requires n + 1 < |w|
    ensures (w[n..] + rest)[0] == w[n]
    ensures (w[n..] + rest)[1..] == w[n + 1..] + rest
  {
  }

  lemma SuffixLast(w: seq<Bit>, n: nat, rest: seq<Bit>)
    requires n + 1 == |w|
    ensures (w[n..] + rest)[0] == w[n]
    ensures (w[n..] + rest)[1..] == rest
  {
  }

  /** Walking the rest of x's code from the node at the end of `code` reaches the leaf of x and
      goes back to the root with x emitted. */
  lemma {:induction false} WalkCode(root: Tree, cur: Tree, code: seq<Bit>, x: Byte, rest: seq<Bit>, out: seq<Byte>)
    requires !cur.Leaf? && Distinct(cur) && x in Codes(cur, code)
    ensures |code| < |Codes(cur, code)[x]|
    ensures Walk(root, cur, Codes(cur, code)[x][|code|..] + rest, out) == Walk(root, root, rest, out + [x])
  {
    CodesBranch(cur, code, x);
    DistinctChildren(cur);
    var w := Codes(cur, code)[x];
    var b: Bit := if Occ(cur.left, x) > 0 then 0 else 1;
    var sub := if b == 0 then cur.left else cur.right;
    assert Child(cur, b) == Some(sub);
    CodesExtend(sub, code + [b], x);
    CodesKeys(sub, code + [b], x);
    if sub.Leaf? {
      assert w == code + [b];
      SuffixLast(w, |code|, rest);
    } else {
      SuffixCons(w, |code|, rest);
      WalkCode(root, sub, code + [b], x, rest, out);
    }
  }

  /** The bit string `compress` builds: the codes of the input bytes, in order (main.py:95-97). */
  function EncodeBits(codes: map<Byte, seq<Bit>>, data: seq<Byte>): (r: seq<Bit>)
    requires forall k :: 0 <= k < |data| ==> data[k] in codes
  {
    if |data| == 0 then [] else codes[data[0]] + EncodeBits(codes, data[1..])
  }

  /** Walking the encoding of `data` from the root emits `data`. */
  lemma {:induction false} WalkEncoded(root: Tree, data: seq<Byte>, out: seq<Byte>)
    requires !root.Leaf? && Distinct(root)
    requires forall k :: 0 <= k < |data| ==> data[k] in CodeTable(root)
    ensures Walk(root, root, EncodeBits(CodeTable(root), data), out) == Ok(out + data)
  {
    if |data| == 0 {
      assert out + data == out;
    } else {
      var x := data[0];
      var tail := EncodeBits(CodeTable(root), data[1..]);
      WalkCode(root, root, [], x, tail, out);
      assert CodeTable(root)[x][0..] == CodeTable(root)[x];
      WalkEncoded(root, data[1..], out + [x]);
      AppendAssoc(out, [x], data[1..]);
      assert [x] + data[1..] == data;
    }
  }

  // ---------------------------------------------------------------------------------------
  // Bit packing (main.py:99-108, 128-136)

  function Pow2(n: nat): (r: nat)
    ensures r >= 1
  {
    if n == 0 then 1 else 2 * Pow2(n - 1)
  }

  /** `int(chunk, 2)`: the bits read most significant first. */
  function Value(c: seq<Bit>): (v: nat)
    ensures v < Pow2(|c|)
  {
    if |c| == 0 then 0 else 2 * Value(c[..|c| - 1]) + c[|c| - 1]
  }

  /** `format(x, '0nb')` for x < 2^n: the n binary digits of x, most significant first. */
  function ToBits(x: nat, n: nat): (r: seq<Bit>)
    ensures |r| == n
  {
    if n == 0 then [] else ToBits(x / 2, n - 1) + [x % 2]
  }

  /** Writing a chunk's value in as many digits as it has bits gives the chunk back. */
  lemma {:induction false} ToBitsValue(c: seq<Bit>)
    ensures ToBits(Value(c), |c|) == c
  {
    if |c| > 0 {
      var init := c[..|c| - 1];
      ToBitsValue(init);
      assert c == init + [c[|c| - 1]];
    }
  }

  /** The byte `int(chunk, 2)` of an eight-bit chunk. */
  function ChunkByte(c: seq<Bit>): (v: Byte)
    requires |c| == 8
  {
    assert Pow2(8) == 256;
    Value(c)
  }

  /** The payload: each eight bits of a byte-aligned bit string become one byte (main.py:105-108). */
  function Pack(bits: seq<Bit>): (r: seq<Byte>)
    requires |bits| % 8 == 0
    ensures |r| == |bits| / 8
  {
    if |bits| == 0 then [] else [ChunkByte(bits[..8])] + Pack(bits[8..])
  }

  /** The bit string of a payload: eight digits per byte (main.py:129-131). */
  function Unpack(bytes: seq<Byte>): (r: seq<Bit>)
    ensures |r| == 8 * |bytes|
  {
    if |bytes| == 0 then [] else ToBits(bytes[0], 8) + Unpack(bytes[1..])
  }

  /** Unpacking a packed bit string gives it back. */
  lemma {:induction false} UnpackPack(bits: seq<Bit>)
    requires |bits| % 8 == 0
    ensures Unpack(Pack(bits)) == bits
    decreases |bits|
  {
    if |bits| > 0 {
      var p := Pack(bits);
      UnpackPack(bits[8..]);
      ToBitsValue(bits[..8]);
      assert p[0] == ChunkByte(bits[..8]) && p[1..] == Pack(bits[8..]);
      assert bits == bits[..8] + bits[8..];
    }
  }

  /** The first bit of a chunk is its most significant one. */
  lemma {:induction false} ValueMostSignificantFirst(c: seq<Bit>)
    requires |c| > 0
    ensures Value(c) == c[0] * Pow2(|c| - 1) + Value(c[1..])
    decreases |c|
  {
    if |c| > 1 {
      var init, t := c[..|c| - 1], c[1..];
      ValueMostSignificantFirst(init);
      assert init[0] == c[0] && t[..|t| - 1] == init[1..];
      assert Value(c) == 2 * Value(init) + c[|c| - 1];
      assert Value(t) == 2 * Value(init[1..]) + c[|c| - 1];
      Shift(c[0], Pow2(|c| - 2), Value(init[1..]), c[|c| - 1]);
    }
  }

  lemma Shift(b: int, p: int, v: int, last: int)
    ensures 2 * (b * p + v) + last == b * (2 * p) + (2 * v + last)
  {
  }

  /** Byte k of the payload is the value of bits 8k to 8k + 8. */
  lemma {:induction false} PackChunks(bits: seq<Bit>, k: nat)
    requires |bits| % 8 == 0 && k < |bits| / 8
    ensures Pack(bits)[k] == ChunkByte(bits[8 * k..8 * k + 8])
    decreases k
  {
    if k > 0 {
      PackChunks(bits[8..], k - 1);
      var rest := bits[8..];
      assert 8 * (k - 1) + 8 == 8 * k;
      assert rest[8 * (k - 1)..8 * (k - 1) + 8] == bits[8 * k..8 * k + 8];
    }
  }

  function Zeros(n: nat): (r: seq<Bit>)
    ensures |r| == n && forall k :: 0 <= k < n ==> r[k] == 0
  {
    if n == 0 then [] else [0] + Zeros(n - 1)
  }

  /** The padding `compress` records: 8 - len % 8, from 1 to 8, where 8 means none was added. */
  function PaddingFor(n: nat): (p: int)
  {
    8 - n % 8
  }

  /** The bit string padded with "0"s to a whole number of bytes (main.py:100-102). */
  function Padded(bits: seq<Bit>): (r: seq<Bit>)
  {
    var padding := PaddingFor(|bits|);
    if padding != 8 then bits + Zeros(padding) else bits
  }

  /** `bit_string[:-padding]` when 0 < padding != 8, else the bits unchanged (main.py:134-136);
      Python's slice is empty when the padding is longer than the string. */
  function StripPadding(bits: seq<Bit>, padding: int): (r: seq<Bit>)
  {
    if padding != 8 && padding > 0 then
      (if padding <= |bits| then bits[..|bits| - padding] else [])
    else bits
  }

  /** Padding reaches a byte boundary with fewer than eight added bits, and stripping the
      recorded padding restores the bit string. */
  lemma PaddingRoundTrip(bits: seq<Bit>)
    ensures 1 <= PaddingFor(|bits|) <= 8
    ensures |Padded(bits)| % 8 == 0 && |bits| <= |Padded(bits)| < |bits| + 8
    ensures StripPadding(Padded(bits), PaddingFor(|bits|)) == bits
  {
    var padding := PaddingFor(|bits|);
    if padding != 8 {
      assert (bits + Zeros(padding))[..|bits|] == bits;
    }
  }

  // ---------------------------------------------------------------------------------------
  // compress and decompress (main.py:78-159)

  /** Every byte of the input has a code in the table built from the input's own counts. */
  lemma CodesCoverInput(data: seq<Byte>)
    requires |data| > 0
    ensures HuffmanTree(FrequencyTable(data)).Some?
    ensures var root := HuffmanTree(FrequencyTable(data)).value;
              && !root.Leaf? && Distinct(root)
              && forall k :: 0 <= k < |data| ==> data[k] in CodeTable(root)
  {
    var freq := FrequencyTable(data);
    FrequencyTableCounts(data);
    assert data[0] in freq;
    HuffmanTreeShape(freq);
    var root := HuffmanTree(freq).value;
    forall k | 0 <= k < |data| ensures data[k] in CodeTable(root) {
      CodesKeys(root, [], data[k]);
    }
  }

  /** The bit string `compress` builds for non-empty input, before padding. */
  function InputBits(data: seq<Byte>): (bits: seq<Bit>)
    requires |data| > 0
  {
    CodesCoverInput(data);
    EncodeBits(CodeTable(HuffmanTree(FrequencyTable(data)).value), data)
  }

  /** The payload and metadata `compress` returns. */
  function CompressedOf(data: seq<Byte>): (r: (seq<Byte>, Meta))
  {
    if |data| == 0 then ([], Meta(map[], None, 0))
    else
      var freq := FrequencyTable(data);
      match HuffmanTree(freq)
      case None => ([], Meta(freq, None, |data|))
      case Some(root) =>
        var bits := InputBits(data);
        PaddingRoundTrip(bits);
        (Pack(Padded(bits)), Meta(freq, Some(PaddingFor(|bits|)), |data|))
  }

  /** `metadata.get('padding', 0)`. */
  function PaddingOf(meta: Meta): (r: int)
  {
    match meta.padding
    case None => 0
    case Some(p) => p
  }

  /** What `decompress` returns; Err where it would raise. A root that is a leaf would repeat its
      byte `original_length` times, but no tree built here has a leaf at the root. */
  function Decompressed(compressed: seq<Byte>, meta: Meta): (r: Result<seq<Byte>, DecodeError>)
  {
    if |compressed| == 0 || |meta.freqTable| == 0 then Ok([])
    else
      match HuffmanTree(meta.freqTable)
      case None => Ok([])
      case Some(root) =>
        var bits := StripPadding(Unpack(compressed), PaddingOf(meta));
        if root.Leaf? then Ok(Repeat(root.symbol, meta.originalLength))
        else Walk(root, root, bits, [])
  }

  /** Decompressing what `compress` returns gives the input back, for every input. */
  lemma RoundTrip(data: seq<Byte>)
    ensures Decompressed(CompressedOf(data).0, CompressedOf(data).1) == Ok(data)
  {
    if |data| > 0 {
      CodesCoverInput(data);
      var freq := FrequencyTable(data);
      var root := HuffmanTree(freq).value;
      var bits := EncodeBits(CodeTable(root), data);
      CodeTablePrefixFree(root);
      assert |bits| >= 1;
      PaddingRoundTrip(bits);
      UnpackPack(Padded(bits));
      WalkEncoded(root, data, []);
      AppendEmpty(data);
    }
  }

  /** The payload has one byte per eight code bits, rounded up, and the metadata records the
      counts, the padding and the input length. */
  lemma CompressedShape(data: seq<Byte>)
    requires |data| > 0
    ensures |CompressedOf(data).0| == (|InputBits(data)| + 7) / 8 >= 1
    ensures CompressedOf(data).1 == Meta(FrequencyTable(data), Some(PaddingFor(|InputBits(data)|)), |data|)
  {
    CodesCoverInput(data);
    var root := HuffmanTree(FrequencyTable(data)).value;
    CodeTablePrefixFree(root);
    var bits := EncodeBits(CodeTable(root), data);
    assert |bits| >= 1;
    PaddingRoundTrip(bits);
  }

  /** A stream that takes the missing right branch of a single-byte root fails to decode. */
  lemma SingleByteRightBitFails(x: Byte, f: nat, rest: seq<Bit>)
    ensures var root := LeftOnly(f, Leaf(x, f));
      Walk(root, root, [1] + rest, []) == Err(MissingChild)
  {
  }

  // ---------------------------------------------------------------------------------------
  // The codec object

  /** `HuffmanCoding` (main.py:33-159): `codes` is the table of the last compression;
      `reverseCodes` is created empty and never filled. */
  class HuffmanCoding {
    var codes: map<Byte, seq<Bit>>
    var reverseCodes: map<seq<Bit>, Byte>

    constructor ()
      ensures codes == map[] && reverseCodes == map[]
    {
      codes := map[];
      reverseCodes := map[];
    }

    /** `build_huffman_tree` (main.py:41-64): the heap is filled one leaf at a time, then two
        least trees are merged until one is left. */
    method BuildHuffmanTree(freq: FreqTable) returns (root: Option<Tree>)
      ensures root == HuffmanTree(freq)
    {
      if |freq| == 0 {
        return None;
      }
      var heap := InitialHeap(freq);
      if |heap| == 1 {
        var single := heap[0];
        return Some(LeftOnly(single.freq, single));
      }
      ghost var start := heap;
      while |heap| > 1
        invariant |heap| == 0 ==> |start| == 0
        invariant |heap| >= 1 ==> |start| >= 2 && MergeAll(heap) == MergeAll(start)
        decreases |heap|
      {
        ghost var prev := heap;
        var i := MinIndex(heap);
        var left := heap[i];
        heap := RemoveAt(heap, i);
        var j := MinIndex(heap);
        var right := heap[j];
        heap := RemoveAt(heap, j);
        heap := [Node(left.freq + right.freq, left, right)] + heap;
        assert heap == MergeStep(prev);
      }
      if |heap| > 0 {
        root := Some(heap[0]);
      } else {
        root := None;
      }
    }

    /** `build_codes(root, code)` (main.py:66-76): adds the codes of the leaves below `root`. */
    method BuildCodes(root: Tree, code: seq<Bit>)
      modifies this
      ensures codes == old(codes) + Codes(root, code)
      ensures reverseCodes == old(reverseCodes)
      decreases root
    {
      match root
      case Leaf(s, _) =>
        codes := codes[s := if |code| == 0 then [0] else code];
      case Node(_, l, r) =>
        ghost var before := codes;
        BuildCodes(l, code + [0]);
        BuildCodes(r, code + [1]);
        MapUnionAssoc(before, Codes(l, code + [0]), Codes(r, code + [1]));
      case LeftOnly(_, l) =>
        BuildCodes(l, code + [0]);
    }

    /** `compress` (main.py:78-116). */
    method Compress(data: seq<Byte>) returns (compressed: seq<Byte>, meta: Meta)
      modifies this
      ensures (compressed, meta) == CompressedOf(data)
      ensures |data| == 0 || HuffmanTree(FrequencyTable(data)).None? ==> codes == old(codes)
      ensures |data| > 0 && HuffmanTree(FrequencyTable(data)).Some? ==>
                codes == CodeTable(HuffmanTree(FrequencyTable(data)).value)
      ensures reverseCodes == old(reverseCodes)
    {
      if |data| == 0 {
        return [], Meta(map[], None, 0);
      }
      var freq := FrequencyTable(data);
      var root := BuildHuffmanTree(freq);
      if root.None? {
        return [], Meta(freq, None, |data|);
      }
      codes := map[];
      BuildCodes(root.value, []);
      assert codes == CodeTable(root.value) by {
        MapUnionEmpty(CodeTable(root.value));
      }
      CodesCoverInput(data);
      var bits := EncodeInput(codes, data);
      assert bits == InputBits(data);
      var padding := 8 - |bits| % 8;
      if padding != 8 {
        bits := bits + Zeros(padding);
      }
      assert bits == Padded(InputBits(data));
      PaddingRoundTrip(InputBits(data));
      compressed := PackBits(bits);
      meta := Meta(freq, Some(padding), |data|);
    }

    /** `decompress` (main.py:118-159): Err where the walk meets a missing child. */
    method Decompress(compressed: seq<Byte>, meta: Meta) returns (r: Result<seq<Byte>, DecodeError>)
      ensures r == Decompressed(compressed, meta)
    {
      if |compressed| == 0 || |meta.freqTable| == 0 {
        return Ok([]);
      }
      var root := BuildHuffmanTree(meta.freqTable);
      if root.None? {
        return Ok([]);
      }
      var bits := UnpackBytes(compressed);
      var padding := PaddingOf(meta);
      if padding != 8 && padding > 0 {
        if padding <= |bits| {
          bits := bits[..|bits| - padding];
        } else {
          bits := [];
        }
      }
      var top := root.value;
      if top.Leaf? {
        return Ok(Repeat(top.symbol, meta.originalLength));
      }
      var current := top;
      var decoded: seq<Byte> := [];
      var i := 0;
      while i < |bits|
        invariant 0 <= i <= |bits|
        invariant Walk(top, current, bits[i..], decoded) == Walk(top, top, bits, [])
      {
        assert bits[i..][1..] == bits[i + 1..];
        var next := Child(current, bits[i]);
        if next.None? {
          return Err(MissingChild);
        }
        current := next.value;
        if current.Leaf? {
          decoded := decoded + [current.symbol];
          current := top;
        }
        i := i + 1;
      }
      return Ok(decoded);
    }
  }

  lemma MapUnionAssoc<K, V>(a: map<K, V>, b: map<K, V>, c: map<K, V>)
    ensures (a + b) + c == a + (b + c)
  {
  }

  lemma MapUnionEmpty<K, V>(m: map<K, V>)
    ensures map[] + m == m
  {
  }

  /** The loop filling the heap (main.py:45-47), in ascending byte order. */
  method InitialHeap(freq: FreqTable) returns (heap: seq<Tree>)
    ensures heap == Leaves(freq)
  {
    heap := [];
    var b := 0;
    while b < 256
      invariant 0 <= b <= 256
      invariant |heap| == 0 ==> LeavesFrom(freq, b) == Leaves(freq)
      invariant |heap| > 0 ==> heap + LeavesFrom(freq, b) == Leaves(freq)
    {
      var x: Byte := b;
      if x in freq {
        heap := Push(heap, Leaf(x, freq[x]), LeavesFrom(freq, b + 1));
      }
      b := b + 1;
    }
    AppendEmpty(heap);
  }

  /** `heap.append(t)` in the loop of `InitialHeap`. The second half of its last ensures,
      `r + rest == heap + ([t] + rest)`, says nothing new about the push: it only regroups the
      concatenation so that the loop invariant of `InitialHeap` carries over without the
      verifier unfolding sequence concatenation. The empty heap is a case of its own so that
      no `[] + s` term arises. */
  function Push(heap: seq<Tree>, t: Tree, rest: seq<Tree>): (r: seq<Tree>)
    ensures |heap| == 0 ==> r == [t]
    ensures |heap| > 0 ==> r == heap + [t] && r + rest == heap + ([t] + rest)
  {
    if |heap| == 0 then [t] else heap + [t]
  }

  /** The bit string loop of `compress` (main.py:95-97). */
  method EncodeInput(codes: map<Byte, seq<Bit>>, data: seq<Byte>) returns (bits: seq<Bit>)
    requires forall k :: 0 <= k < |data| ==> data[k] in codes
    ensures bits == EncodeBits(codes, data)
  {
    bits := [];
    var i := 0;
    while i < |data|
      invariant 0 <= i <= |data|
      invariant i == 0 ==> bits == []
      invariant 0 < i ==> bits + EncodeBits(codes, data[i..]) == EncodeBits(codes, data)
    {
      var rest := EncodeBits(codes, data[i + 1..]);
      assert data[i..][1..] == data[i + 1..];
      if i == 0 {
        bits := codes[data[i]];
        assert data[0..] == data;
      } else {
        AppendAssoc(bits, codes[data[i]], rest);
        bits := bits + codes[data[i]];
      }
      i := i + 1;
    }
    if i == 0 {
      assert EncodeBits(codes, data) == [];
    } else {
      AppendEmpty(bits);
    }
  }

  /** The packing loop of `compress` (main.py:105-108). */
  method PackBits(bits: seq<Bit>) returns (compressed: seq<Byte>)
    requires |bits| % 8 == 0
    ensures compressed == Pack(bits)
  {
    compressed := [];
    var i := 0;
    while i < |bits|
      invariant 0 <= i <= |bits| && i % 8 == 0
      invariant i == 0 ==> compressed == []
      invariant 0 < i ==> compressed + Pack(bits[i..]) == Pack(bits)
    {
      var chunk := ChunkByte(bits[i..i + 8]);
      assert bits[i..][..8] == bits[i..i + 8] && bits[i..][8..] == bits[i + 8..];
      if i == 0 {
        compressed := [chunk];
        assert bits[0..] == bits;
      } else {
        AppendAssoc(compressed, [chunk], Pack(bits[i + 8..]));
        compressed := compressed + [chunk];
      }
      i := i + 8;
    }
    if i == 0 {
      assert Pack(bits) == [];
    } else {
      AppendEmpty(compressed);
    }
  }

  /** The unpacking loop of `decompress` (main.py:129-131). */
  method UnpackBytes(compressed: seq<Byte>) returns (bits: seq<Bit>)
    ensures bits == Unpack(compressed)
  {
    bits := [];
    var i := 0;
    while i < |compressed|
      invariant 0 <= i <= |compressed|
      invariant i == 0 ==> bits == []
      invariant 0 < i ==> bits + Unpack(compressed[i..]) == Unpack(compressed)
    {
      var digits := ToBits(compressed[i], 8);
      assert compressed[i..][1..] == compressed[i + 1..];
      if i == 0 {
        bits := digits;
        assert compressed[0..] == compressed;
      } else {
        AppendAssoc(bits, digits, Unpack(compressed[i + 1..]));
        bits := bits + digits;
      }
      i := i + 1;
    }
    if i == 0 {
      assert Unpack(compressed) == [];
    } else {
      AppendEmpty(bits);
    }
  }
}
