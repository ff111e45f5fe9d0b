/** The code table of a Huffman tree and the bit-level encoding and decoding
    loops (`genCodes`, the bit-string loop of `compress` and the decode loop
    of `decompress` in server/src/algorithms/huffman.js). */
module HuffmanCode {
  import opened Bytes
  import opened BitPacking
  import opened HuffmanTree

  /** Byte value to code, the object `genCodes` fills. */
  type CodeMap = map<byte, Bits>

  // ---------------------------------------------------------------------
  // genCodes (huffman.js:37-45)

  /** Codes of the leaves under `t`, reached from the root by `prefix`: a
      left step appends a 0 bit, a right step a 1 bit, and a leaf at the root
      gets the code `"0"`. The right subtree is visited last, so its entries
      win when a value appears on both sides. */
  function Codes(t: Tree, prefix: Bits): CodeMap
  {
    match t
    case Leaf(v, _) => map[v := if prefix == [] then [false] else prefix]
    case Node(_, l, r) => Codes(l, prefix + [false]) + Codes(r, prefix + [true])
  }

  /** `genCodes(tree)`; a `null` tree gives the empty table. */
  function CodeTable(tree: Option<Tree>): CodeMap
  {
    match tree
    case None => map[]
    case Some(t) => Codes(t, [])
  }

  /** The steps from `t` down to the leaf of `v` whose code the table keeps,
      the rightmost one. */
  function Path(t: Tree, v: byte): Bits
  {
    match t
    case Leaf(_, _) => []
    case Node(_, l, r) => if v in Syms(r) then [true] + Path(r, v) else [false] + Path(l, v)
  }

  /** The table holds exactly the values at the leaves. */
  lemma {:induction false} CodesKeys(t: Tree, prefix: Bits)
    ensures Codes(t, prefix).Keys == Syms(t)
  {
    match t
    case Leaf(_, _) =>
    case Node(_, l, r) =>
      CodesKeys(l, prefix + [false]);
      CodesKeys(r, prefix + [true]);
  }

  /** Every code is nonempty, the lone leaf's `"0"` included. */
  lemma {:induction false} CodesNonempty(t: Tree, prefix: Bits)
    ensures forall v :: v in Codes(t, prefix) ==> Codes(t, prefix)[v] != []
  {
    match t
    case Leaf(_, _) =>
    case Node(_, l, r) =>
      CodesNonempty(l, prefix + [false]);
      CodesNonempty(r, prefix + [true]);
  }

  /** Below the root, the code of each value is the prefix followed by its
      path. */
  lemma {:induction false} CodesPaths(t: Tree, prefix: Bits, v: byte)
    requires t.Node? || prefix != []
    requires v in Syms(t)
    ensures v in Codes(t, prefix) && Codes(t, prefix)[v] == prefix + Path(t, v)
  {
    match t
    case Leaf(_, _) =>
    case Node(_, l, r) =>
      CodesKeys(r, prefix + [true]);
      if v in Syms(r) {
        CodesPaths(r, prefix + [true], v);
        assert prefix + [true] + Path(r, v) == prefix + ([true] + Path(r, v));
      } else {
        CodesPaths(l, prefix + [false], v);
        assert prefix + [false] + Path(l, v) == prefix + ([false] + Path(l, v));
      }
  }

  predicate IsPrefix(a: Bits, b: Bits)
  {
    |a| <= |b| && b[..|a|] == a
  }

  lemma PrefixCons(b: bool, x: Bits, y: Bits)
    ensures IsPrefix([b] + x, [b] + y) ==> IsPrefix(x, y)
  {
    if |x| <= |y| {
      assert ([b] + y)[..|x| + 1] == [b] + y[..|x|];
      assert ([b] + y[..|x|])[1..] == y[..|x|] && ([b] + x)[1..] == x;
    }
  }

  /** No code is a prefix of another. */
  predicate PrefixFree(m: CodeMap)
  {
    forall u, v :: u in m && v in m && u != v ==> !IsPrefix(m[u], m[v])
  }

  /** Paths to the leaves of different values are not prefixes of each
      other. */
  lemma {:induction false} PathsPrefixFree(t: Tree, u: byte, v: byte)
    requires u in Syms(t) && v in Syms(t) && u != v
    ensures !IsPrefix(Path(t, u), Path(t, v))
  {
    match t
    case Leaf(_, _) =>
    case Node(_, l, r) =>
      var pu, pv := Path(t, u), Path(t, v);
      if u in Syms(r) && v in Syms(r) {
        PathsPrefixFree(r, u, v);
        PrefixCons(true, Path(r, u), Path(r, v));
      } else if u !in Syms(r) && v !in Syms(r) {
        PathsPrefixFree(l, u, v);
        PrefixCons(false, Path(l, u), Path(l, v));
      } else {
        assert pu[0] != pv[0];
      }
  }

  /** In a tree with two or more leaves the code of a value is its path,
      which is never empty. */
  lemma CodeTablePaths(t: Tree)
    requires t.Node?
    ensures forall v :: v in Syms(t) ==> v in Codes(t, []) && Codes(t, [])[v] == Path(t, v) != []
  {
    CodesKeys(t, []);
    forall v | v in Syms(t)
      ensures v in Codes(t, []) && Codes(t, [])[v] == Path(t, v) != []
    {
      CodesPaths(t, [], v);
      assert [] + Path(t, v) == Path(t, v);
    }
  }

  /** No code of a tree's table is a prefix of another. */
  lemma CodeTablePrefixFree(t: Tree)
    ensures PrefixFree(Codes(t, []))
  {
    if t.Node? {
      CodesKeys(t, []);
      CodeTablePaths(t);
      var m := Codes(t, []);
      forall u, v | u in m && v in m && u != v
        ensures !IsPrefix(m[u], m[v])
      {
        PathsPrefixFree(t, u, v);
      }
    }
  }

  /** The table of a tree covers exactly its values; a lone leaf gets the
      code `"0"`, and the codes of a tree with two or more leaves are its
      nonempty paths, none a prefix of another. */
  lemma CodeTableSpec(t: Tree)
    ensures Codes(t, []).Keys == Syms(t)
    ensures t.Leaf? ==> Codes(t, []) == map[t.sym := [false]]
    ensures t.Node? ==> forall v :: v in Syms(t) ==> Codes(t, [])[v] == Path(t, v) != []
    ensures PrefixFree(Codes(t, []))
  {
    CodesKeys(t, []);
    if t.Node? {
      CodeTablePaths(t);
    }
    CodeTablePrefixFree(t);
  }

  // ---------------------------------------------------------------------
  // The bit string of compress (huffman.js:75-79)

  /** `bits += codes[b]` for every byte, in order. */
  function Encode(codes: CodeMap, data: seq<byte>): Bits
    requires forall i :: 0 <= i < |data| ==> data[i] in codes
  {
    if data == [] then [] else Encode(codes, data[..|data| - 1]) + codes[data[|data| - 1]]
  }

  /** Sum of `f[v] * |codes[v]|` over the values from `v` on. */
  function CostFrom(codes: CodeMap, f: seq<nat>, v: nat): nat
    requires |f| == 256 && v <= 256
    decreases 256 - v
  {
    if v == 256 then 0
    else (if v as byte in codes then f[v] * |codes[v as byte]| else 0) + CostFrom(codes, f, v + 1)
  }

  lemma {:induction false} CostFromUpdate(codes: CodeMap, f: seq<nat>, b: byte, v: nat)
    requires |f| == 256 && v <= b && b in codes
    ensures CostFrom(codes, f[b := f[b] + 1], v) == CostFrom(codes, f, v) + |codes[b]|
    decreases 256 - v
  {
    if v < b {
      CostFromUpdate(codes, f, b, v + 1);
    } else {
      CostFromSame(codes, f, f[b := f[b] + 1], v + 1);
      assert (f[b] + 1) * |codes[b]| == f[b] * |codes[b]| + |codes[b]|;
    }
  }

  lemma {:induction false} CostFromSame(codes: CodeMap, f: seq<nat>, g: seq<nat>, v: nat)
    requires |f| == 256 && |g| == 256 && v <= 256
    requires forall u :: v <= u < 256 ==> f[u] == g[u]
    ensures CostFrom(codes, f, v) == CostFrom(codes, g, v)
    decreases 256 - v
  {
    if v < 256 {
      CostFromSame(codes, f, g, v + 1);
    }
  }

  lemma {:induction false} CostFromZero(codes: CodeMap, f: seq<nat>, v: nat)
    requires |f| == 256 && v <= 256
    requires forall u :: v <= u < 256 ==> f[u] == 0
    ensures CostFrom(codes, f, v) == 0
    decreases 256 - v
  {
    if v < 256 {
      CostFromZero(codes, f, v + 1);
    }
  }

  /** The bit length is the sum, over the byte values, of how often each
      occurs times the length of its code. */
  lemma {:induction false} EncodeLength(codes: CodeMap, data: seq<byte>)
    requires forall i :: 0 <= i < |data| ==> data[i] in codes
    ensures |Encode(codes, data)| == CostFrom(codes, Freqs(data), 0)
  {
    if data == [] {
      CostFromZero(codes, Freqs(data), 0);
    } else {
      var init, b := data[..|data| - 1], data[|data| - 1];
      var f := Freqs(init);
      assert Freqs(data) == f[b := f[b] + 1];
      EncodeLength(codes, init);
      CostFromUpdate(codes, f, b, 0);
    }
  }

  // ---------------------------------------------------------------------
  // The decode loop of decompress (huffman.js:130-139)

  /** The loop at the current node `node`: a 0 bit steps left, a 1 bit
      right; reaching a leaf outputs its value and restarts at the root.
      Stepping from a leaf reads a child of `null` in the source, reported
      here as a corrupt stream. Bits left over inside a code are dropped. */
  function DecodeBits(root: Tree, node: Tree, bits: Bits, out: seq<byte>): Result<seq<byte>>
    decreases |bits|
  {
    if bits == [] then Success(out)
    else
      match node
      case Leaf(_, _) => Failure(CorruptStream)
      case Node(_, l, r) =>
        var next := if bits[0] then r else l;
        if next.Leaf? then DecodeBits(root, root, bits[1..], out + [next.sym])
        else DecodeBits(root, next, bits[1..], out)
  }

  /** The decode loop from the root, or on a `null` tree. */
  function Decode(tree: Option<Tree>, bits: Bits): Result<seq<byte>>
  {
    match tree
    case None => if bits == [] then Success([]) else Failure(CorruptStream)
    case Some(t) => DecodeBits(t, t, bits, [])
  }

  /** Every output byte uses up at least one bit. */
  lemma {:induction false} DecodeBitsBound(root: Tree, node: Tree, bits: Bits, out: seq<byte>)
    ensures DecodeBits(root, node, bits, out).Success? ==>
              |DecodeBits(root, node, bits, out).value| <= |out| + |bits|
    decreases |bits|
  {
    if bits != [] && node.Node? {
      var next := if bits[0] then node.right else node.left;
      if next.Leaf? {
        DecodeBitsBound(root, root, bits[1..], out + [next.sym]);
      } else {
        DecodeBitsBound(root, next, bits[1..], out);
      }
    }
  }

  /** The decode loop outputs at most one byte per bit. */
  lemma DecodeBound(tree: Option<Tree>, bits: Bits)
    ensures Decode(tree, bits).Success? ==> |Decode(tree, bits).value| <= |bits|
  {
    if tree.Some? {
      DecodeBitsBound(tree.value, tree.value, bits, []);
    }
  }

  /** From a root with two children, the loop never steps below a leaf:
      it restarts at the root whenever it reaches one. */
  lemma {:induction false} DecodeBitsNodes(root: Tree, node: Tree, bits: Bits, out: seq<byte>)
    requires root.Node? && node.Node?
    ensures DecodeBits(root, node, bits, out).Success?
    decreases |bits|
  {
    if bits != [] {
      var next := if bits[0] then node.right else node.left;
      if next.Leaf? {
        DecodeBitsNodes(root, root, bits[1..], out + [next.sym]);
      } else {
        DecodeBitsNodes(root, next, bits[1..], out);
      }
    }
  }

  /** The decode loop fails exactly when there are bits to decode and the
      tree is `null` (`node.l` of `null`) or a lone leaf (`.v` of its
      `null` child). */
  lemma DecodeFails(tree: Option<Tree>, bits: Bits)
    ensures Decode(tree, bits).Failure? <==> bits != [] && (tree.None? || tree.value.Leaf?)
  {
    if tree.Some? && tree.value.Node? {
      DecodeBitsNodes(tree.value, tree.value, bits, []);
    }
  }

  /** Following the path to a value outputs the value and returns to the
      root. */
  lemma {:induction false} DecodePath(root: Tree, s: Tree, v: byte, rest: Bits, out: seq<byte>)
    requires s.Node? && v in Syms(s)
    ensures DecodeBits(root, s, Path(s, v) + rest, out) == DecodeBits(root, root, rest, out + [v])
  {
    var bits := Path(s, v) + rest;
    var next := if v in Syms(s.right) then s.right else s.left;
    assert bits[0] == (v in Syms(s.right)) && bits[1..] == Path(next, v) + rest;
    if next.Node? {
      DecodePath(root, next, v, rest, out);
    }
  }

  /** Stopping inside a path outputs nothing more. */
  lemma {:induction false} DecodePartialPath(root: Tree, s: Tree, v: byte, k: nat, out: seq<byte>)
    requires s.Node? && v in Syms(s) && k < |Path(s, v)|
    ensures DecodeBits(root, s, Path(s, v)[..k], out) == Success(out)
  {
    if k > 0 {
      var next := if v in Syms(s.right) then s.right else s.left;
      assert Path(s, v)[..k][1..] == Path(next, v)[..k - 1];
      if next.Node? {
        DecodePartialPath(root, next, v, k - 1, out);
      }
    }
  }

  /** Decoding with a table that maps each value to its path outputs the
      encoded bytes and goes on with what follows them. */
  lemma {:induction false} DecodeEncodePaths(t: Tree, codes: CodeMap, data: seq<byte>, tail: Bits, out: seq<byte>)
    requires t.Node?
    requires forall v :: v in Syms(t) ==> v in codes && codes[v] == Path(t, v)
    requires forall i :: 0 <= i < |data| ==> data[i] in Syms(t)
    ensures DecodeBits(t, t, Encode(codes, data) + tail, out) == DecodeBits(t, t, tail, out + data)
  {
    if data == [] {
      assert Encode(codes, data) + tail == tail && out + data == out;
    } else {
      var init, b := data[..|data| - 1], data[|data| - 1];
      DecodeEncodePaths(t, codes, init, codes[b] + tail, out);
      assert Encode(codes, data) + tail == Encode(codes, init) + (codes[b] + tail);
      DecodePath(t, t, b, tail, out + init);
      assert out + init + [b] == out + data;
    }
  }

  /** Decoding the encoding of `data` outputs `data` and goes on with what
      follows it, for a tree of two or more leaves holding every byte of
      `data`. */
  lemma DecodeEncode(t: Tree, data: seq<byte>, tail: Bits, out: seq<byte>)
    requires t.Node? && forall i :: 0 <= i < |data| ==> data[i] in Syms(t)
    ensures forall i :: 0 <= i < |data| ==> data[i] in Codes(t, [])
    ensures DecodeBits(t, t, Encode(Codes(t, []), data) + tail, out) == DecodeBits(t, t, tail, out + data)
  {
    var codes := Codes(t, []);
    forall v | v in Syms(t)
      ensures v in codes && codes[v] == Path(t, v)
    {
      CodesPaths(t, [], v);
      assert [] + Path(t, v) == Path(t, v);
    }
    DecodeEncodePaths(t, codes, data, tail, out);
  }
}
