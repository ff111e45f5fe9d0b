/** The container format of the Huffman codec (`HuffmanCoding.compress` and
    `HuffmanCoding.decompress` in server/src/algorithms/huffman.js). A
    compressed buffer is a header followed by the packed code bits: the
    number of symbols `k` as a 16-bit field, then for each symbol its byte
    value and its 32-bit frequency, then the 32-bit bit length, then the
    bits. Every field is big-endian. */
module Huffman {
  import opened Bytes
  import opened BitPacking
  import opened HuffmanTree
  import opened HuffmanCode

  /** The first value a 32-bit unsigned field cannot hold. */
  const Limit32: nat := 0x1_0000_0000

  // ---------------------------------------------------------------------
  // The code of an input (huffman.js:70-79)

  /** `genCodes(buildTree(freqMap(data)))`. */
  function CodesOf(data: seq<byte>): CodeMap
  {
    CodeTable(BuildTree(Freqs(data)))
  }

  /** At most `|data|` occurrences of a value are counted. */
  lemma {:induction false} BelowSum(f: seq<nat>, v: nat, u: byte)
    requires |f| == 256 && v <= u
    ensures f[u] <= SumFrom(f, v)
    decreases 256 - v
  {
    if v < u {
      BelowSum(f, v + 1, u);
    }
  }

  /** No frequency exceeds the input length. */
  lemma FreqsBound(data: seq<byte>)
    ensures forall v: byte :: Freqs(data)[v] <= |data|
  {
    FreqsSum(data);
    forall v: byte
      ensures Freqs(data)[v] <= |data|
    {
      BelowSum(Freqs(data), 0, v);
    }
  }

  /** The table of an input holds exactly its bytes. */
  lemma CodesKeysOf(data: seq<byte>)
    ensures forall v: byte :: v in CodesOf(data) <==> v in data
  {
    var f := Freqs(data);
    TreeOfData(data);
    BuildTreeSpec(f);
    if BuildTree(f).Some? {
      CodesKeys(BuildTree(f).value, []);
    }
  }

  /** The table of an input holds exactly its bytes, each with a nonempty
      code, and no frequency exceeds the input length. */
  lemma CodesCover(data: seq<byte>)
    ensures forall i :: 0 <= i < |data| ==> data[i] in CodesOf(data) && CodesOf(data)[data[i]] != []
    ensures forall v: byte :: v in CodesOf(data) <==> v in data
    ensures forall v: byte :: Freqs(data)[v] <= |data|
  {
    FreqsBound(data);
    CodesKeysOf(data);
    var tree := BuildTree(Freqs(data));
    if tree.Some? {
      CodesNonempty(tree.value, []);
    }
  }

  /** With nonempty codes, the bit string is at least as long as the input. */
  lemma {:induction false} EncodeLonger(codes: CodeMap, data: seq<byte>)
    requires forall i :: 0 <= i < |data| ==> data[i] in codes && codes[data[i]] != []
    ensures |data| <= |Encode(codes, data)|
  {
    if data != [] {
      EncodeLonger(codes, data[..|data| - 1]);
    }
  }

  /** The number of code bits of an input: over all byte values, how often
      it occurs times the length of its code. */
  function BitLength(data: seq<byte>): nat
  {
    CostFrom(CodesOf(data), Freqs(data), 0)
  }

  /** The bit string of `compress`: the codes of the bytes of `data`, in
      order. Its length is the weighted code length, at least one bit per
      byte. */
  function CodeBits(data: seq<byte>): (bits: Bits)
    ensures |bits| == BitLength(data)
    ensures |data| <= |bits|
  {
    CodesCover(data);
    EncodeLength(CodesOf(data), data);
    EncodeLonger(CodesOf(data), data);
    Encode(CodesOf(data), data)
  }

  // ---------------------------------------------------------------------
  // The header (huffman.js:84-99)

  /** The keys of a code table from `v` on, ascending: `Object.keys` lists
      integer keys in ascending numeric order. */
  function SymbolsFrom(codes: CodeMap, v: nat): (r: seq<byte>)
    requires v <= 256
    ensures |r| <= 256 - v
    decreases 256 - v
  {
    if v == 256 then []
    else if v as byte in codes then [v as byte] + SymbolsFrom(codes, v + 1)
    else SymbolsFrom(codes, v + 1)
  }

  /** The symbols listed in the header. */
  function Symbols(codes: CodeMap): seq<byte>
  {
    SymbolsFrom(codes, 0)
  }

  /** The listed symbols are exactly the keys from `v` on. */
  lemma {:induction false} SymbolsMembers(codes: CodeMap, v: nat)
    requires v <= 256
    ensures forall u: byte :: u in SymbolsFrom(codes, v) <==> v <= u && u in codes
    decreases 256 - v
  {
    if v < 256 {
      SymbolsMembers(codes, v + 1);
    }
  }

  /** The listed symbols are at least `v` and strictly ascending. */
  lemma {:induction false} SymbolsAscending(codes: CodeMap, v: nat)
    requires v <= 256
    ensures forall i :: 0 <= i < |SymbolsFrom(codes, v)| ==> v <= SymbolsFrom(codes, v)[i]
    ensures forall i, j :: 0 <= i < j < |SymbolsFrom(codes, v)| ==> SymbolsFrom(codes, v)[i] < SymbolsFrom(codes, v)[j]
    decreases 256 - v
  {
    if v < 256 {
      SymbolsAscending(codes, v + 1);
      var r, rest := SymbolsFrom(codes, v), SymbolsFrom(codes, v + 1);
      if v as byte in codes {
        assert r == [v as byte] + rest;
        forall i | 0 <= i < |r|
          ensures v <= r[i] && (0 < i ==> v < r[i])
        {
          if 0 < i {
            assert r[i] == rest[i - 1];
            assert v + 1 <= rest[i - 1];
          } else {
            assert r[i] == v;
          }
        }
      }
    }
  }

  /** One header entry per symbol from index `i` on: its value, then its
      frequency. */
  function Entries(f: seq<nat>, syms: seq<byte>, i: nat): (r: seq<byte>)
    requires |f| == 256 && i <= |syms|
    requires forall k :: 0 <= k < |syms| ==> f[syms[k]] < Limit32
    ensures |r| == 5 * (|syms| - i)
    decreases |syms| - i
  {
    if i == |syms| then [] else [syms[i]] + U32(f[syms[i]]) + Entries(f, syms, i + 1)
  }

  /** Entry `j` sits `5 (j - i)` bytes in and holds the `j`-th symbol and
      its frequency. */
  lemma {:induction false} EntriesAt(f: seq<nat>, syms: seq<byte>, i: nat, j: nat)
    requires |f| == 256 && i <= j < |syms|
    requires forall k :: 0 <= k < |syms| ==> f[syms[k]] < Limit32
    ensures Entries(f, syms, i)[5 * (j - i)] == syms[j]
    ensures ReadU32(Entries(f, syms, i), 5 * (j - i) + 1) == f[syms[j]]
    decreases j - i
  {
    var field := U32(f[syms[i]]);
    var rest := Entries(f, syms, i + 1);
    assert Entries(f, syms, i) == [syms[i]] + field + rest;
    if j == i {
      ReadU32Shift([syms[i]], field, rest);
    } else {
      EntriesAt(f, syms, i + 1, j);
    }
  }

  /** What the header fields can carry: at most 65535 symbols, and
      frequencies and bit length below `2^32`. */
  predicate Writable(f: seq<nat>, syms: seq<byte>, bits: Bits)
  {
    && |f| == 256
    && |syms| < 0x1_0000
    && |bits| < Limit32
    && forall i :: 0 <= i < |syms| ==> f[syms[i]] < Limit32
  }

  /** The header for the symbols `syms` with frequencies `f`, then the
      packed bits. */
  function Container(f: seq<nat>, syms: seq<byte>, bits: Bits): (buf: seq<byte>)
    requires Writable(f, syms, bits)
    ensures |buf| == 6 + 5 * |syms| + (|bits| + 7) / 8
  {
    U16(|syms|) + Entries(f, syms, 0) + U32(|bits|) + PackBits(bits)
  }

  /** Where the count, the bit length and the packed bits of a container
      sit. */
  lemma ContainerFields(f: seq<nat>, syms: seq<byte>, bits: Bits)
    requires Writable(f, syms, bits)
    ensures var buf := Container(f, syms, bits);
            var k := |syms|;
            && ReadU16(buf, 0) == k
            && ReadU32(buf, 2 + 5 * k) == |bits|
            && buf[6 + 5 * k..] == PackBits(bits)
  {
    var buf := Container(f, syms, bits);
    var k := |syms|;
    var head, e := U16(k), Entries(f, syms, 0);
    assert buf == head + e + U32(|bits|) + PackBits(bits);
    assert buf[0] == head[0] && buf[1] == head[1];
    ReadU32Shift(head + e, U32(|bits|), PackBits(bits));
    assert buf[6 + 5 * k..] == PackBits(bits);
  }

  /** Entry `j` of a container sits at byte `2 + 5 j`. */
  lemma ContainerEntries(f: seq<nat>, syms: seq<byte>, bits: Bits)
    requires Writable(f, syms, bits)
    ensures var buf := Container(f, syms, bits);
            forall j :: 0 <= j < |syms| ==> buf[2 + 5 * j] == syms[j] && ReadU32(buf, 3 + 5 * j) == f[syms[j]]
  {
    var buf := Container(f, syms, bits);
    var e := Entries(f, syms, 0);
    assert buf == U16(|syms|) + e + (U32(|bits|) + PackBits(bits));
    forall j | 0 <= j < |syms|
      ensures buf[2 + 5 * j] == syms[j] && ReadU32(buf, 3 + 5 * j) == f[syms[j]]
    {
      EntriesAt(f, syms, 0, j);
      assert buf[2 + 5 * j] == e[5 * j];
      assert ReadU32(buf, 3 + 5 * j) == ReadU32(e, 5 * j + 1);
    }
  }

  /** The frequency loop over a container whose symbols cover every
      nonzero frequency rebuilds the frequency table. */
  lemma ContainerTable(f: seq<nat>, syms: seq<byte>, bits: Bits)
    requires Writable(f, syms, bits)
    requires forall v: byte :: f[v] > 0 ==> v in syms
    ensures 2 + 5 * |syms| <= |Container(f, syms, bits)|
    ensures ReadTable(Container(f, syms, bits), |syms|, 2, seq(256, _ => 0)) == f
  {
    var buf := Container(f, syms, bits);
    var head, tail := U16(|syms|), U32(|bits|) + PackBits(bits);
    assert buf == head + Entries(f, syms, 0) + tail;
    var zeros: seq<nat> := seq(256, _ => 0);
    ReadEntries(head, f, syms, 0, tail, zeros);
    var g := ReadTable(buf, |syms|, 2, zeros);
    forall i | 0 <= i < 256
      ensures g[i] == f[i]
    {
      assert g[i as byte] == f[i as byte];
    }
  }

  /** Reading back a container whose symbols cover every nonzero frequency
      gives the frequency table, the bit length and the packed bits. */
  lemma ParseContainer(f: seq<nat>, syms: seq<byte>, bits: Bits)
    requires Writable(f, syms, bits)
    requires forall v: byte :: f[v] > 0 ==> v in syms
    ensures ParseHeader(Container(f, syms, bits)) == Success(Header(f, |bits|, PackBits(bits)))
  {
    ContainerFields(f, syms, bits);
    ContainerTable(f, syms, bits);
  }

  // ---------------------------------------------------------------------
  // compress (huffman.js:68-102)

  /** `HuffmanCoding.compress`. Writing a bit length of `2^32` or more
      throws in the source; frequencies never reach that bound when the bit
      length stays below it, since every byte takes at least one bit. */
  function Compress(data: seq<byte>): (r: Result<seq<byte>>)
    ensures r.Failure? <==> BitLength(data) >= Limit32
    ensures r.Failure? ==> r.error == FieldOutOfRange
    ensures Limit32 <= |data| ==> r.Failure?
  {
    var bits := CodeBits(data);
    if |bits| >= Limit32 then Failure(FieldOutOfRange)
    else
      CodesCover(data);
      Success(Container(Freqs(data), Symbols(CodesOf(data)), bits))
  }

  /** The header lists the distinct bytes of the input in ascending order,
      and nothing else. */
  lemma HeaderSymbols(data: seq<byte>)
    ensures var syms := Symbols(CodesOf(data));
            && (forall b: byte :: b in syms <==> b in data)
            && (forall i, j :: 0 <= i < j < |syms| ==> syms[i] < syms[j])
  {
    CodesCover(data);
    SymbolsMembers(CodesOf(data), 0);
    SymbolsAscending(CodesOf(data), 0);
  }

  /** The container `compress` writes for `data`. */
  lemma CompressIs(data: seq<byte>)
    requires Compress(data).Success?
    ensures var f, syms, bits := Freqs(data), Symbols(CodesOf(data)), CodeBits(data);
            && Writable(f, syms, bits)
            && Compress(data).value == Container(f, syms, bits)
  {
    CodesCover(data);
  }

  /** The layout of a compressed buffer: the symbol count `k`, then at
      `2 + 5 j` the `j`-th symbol and after it the number of times it
      occurs, then the bit length, then the packed bits; `6 + 5 k +
      ceil(bitLen / 8)` bytes in all. */
  lemma CompressLayout(data: seq<byte>)
    requires Compress(data).Success?
    ensures var buf := Compress(data).value;
            var syms := Symbols(CodesOf(data));
            var k := |syms|;
            && |buf| == 6 + 5 * k + (BitLength(data) + 7) / 8
            && ReadU16(buf, 0) == k
            && (forall j :: 0 <= j < k ==> buf[2 + 5 * j] == syms[j] && ReadU32(buf, 3 + 5 * j) == multiset(data)[syms[j]])
            && ReadU32(buf, 2 + 5 * k) == BitLength(data)
            && buf[6 + 5 * k..] == PackBits(CodeBits(data))
  {
    CompressIs(data);
    FreqsCount(data);
    ContainerFields(Freqs(data), Symbols(CodesOf(data)), CodeBits(data));
    ContainerEntries(Freqs(data), Symbols(CodesOf(data)), CodeBits(data));
  }

  /** An empty table lists no symbols. */
  lemma {:induction false} NoSymbols(codes: CodeMap, v: nat)
    requires codes == map[] && v <= 256
    ensures SymbolsFrom(codes, v) == []
    decreases 256 - v
  {
    if v < 256 {
      NoSymbols(codes, v + 1);
    }
  }

  /** Empty input compresses to six zero bytes: no symbols, no bits. */
  lemma CompressEmpty()
    ensures Compress([]) == Success([0, 0, 0, 0, 0, 0])
  {
    TreeShape([]);
    NoSymbols(CodesOf([]), 0);
    var syms := Symbols(CodesOf([]));
    assert syms == [];
    var bits := CodeBits([]);
    assert bits == [];
    CompressIs([]);
    var f := Freqs([]);
    assert Compress([]).value == Container(f, [], []);
    assert PackBits([]) == [];
    assert U16(0) == [0, 0] && U32(0) == [0, 0, 0, 0];
    assert Entries(f, [], 0) == [];
    assert Container(f, [], []) == [0, 0] + [] + [0, 0, 0, 0] + [] == [0, 0, 0, 0, 0, 0];
  }

  // ---------------------------------------------------------------------
  // decompress (huffman.js:104-141)

  /** What the header reading of `decompress` yields: the rebuilt frequency
      table, the bit length and the bytes after the header. */
  datatype Header = Header(freqs: seq<nat>, bitLen: nat, packed: seq<byte>)

  /** The frequency loop: `n` more entries from `off`, each overwriting the
      table entry of its value, so a repeated value keeps its last
      frequency. */
  function ReadTable(buf: seq<byte>, n: nat, off: nat, f: seq<nat>): (g: seq<nat>)
    requires off + 5 * n <= |buf| && |f| == 256
    ensures |g| == 256
    decreases n
  {
    if n == 0 then f else ReadTable(buf, n - 1, off + 5, f[buf[off] := ReadU32(buf, off + 1)])
  }

  /** The index of the last of the `n` entries from `off` that names `v`,
      if any. */
  function LastNaming(buf: seq<byte>, n: nat, off: nat, v: byte): (r: Option<nat>)
    requires off + 5 * n <= |buf|
    ensures r.Some? ==> r.value < n && buf[off + 5 * r.value] == v
    decreases n
  {
    if n == 0 then None
    else
      match LastNaming(buf, n - 1, off + 5, v)
      case Some(k) => Some(k + 1)
      case None => if buf[off] == v then Some(0) else None
  }

  /** The frequency loop keeps, for each value, the frequency of the last
      entry naming it; a value no entry names keeps its old frequency. */
  lemma {:induction false} ReadTableLast(buf: seq<byte>, n: nat, off: nat, f: seq<nat>, v: byte)
    requires off + 5 * n <= |buf| && |f| == 256
    ensures ReadTable(buf, n, off, f)[v] ==
              match LastNaming(buf, n, off, v)
              case None => f[v]
              case Some(k) => ReadU32(buf, off + 5 * k + 1)
    decreases n
  {
    if n > 0 {
      var f' := f[buf[off] := ReadU32(buf, off + 1)];
      ReadTableLast(buf, n - 1, off + 5, f', v);
      match LastNaming(buf, n - 1, off + 5, v)
      case Some(k) =>
        assert off + 5 + 5 * k + 1 == off + 5 * (k + 1) + 1;
      case None =>
    }
  }

  /** Reads the header. A field past the end of the buffer throws a
      `RangeError` in the source, reported here as a malformed header. */
  function ParseHeader(buf: seq<byte>): (r: Result<Header>)
    ensures r.Success? ==> |r.value.freqs| == 256
    ensures r.Failure? <==> |buf| < 2 || |buf| < 6 + 5 * ReadU16(buf, 0)
    ensures r.Failure? ==> r.error == MalformedHeader
  {
    if |buf| < 2 then Failure(MalformedHeader)
    else
      var count := ReadU16(buf, 0);
      var off := 2 + 5 * count;
      if |buf| < off + 4 then Failure(MalformedHeader)
      else Success(Header(ReadTable(buf, count, 2, seq(256, _ => 0)), ReadU32(buf, off), buf[off + 4..]))
  }

  /** `HuffmanCoding.decompress`: rebuild the tree from the header's
      frequencies, unpack `bitLen` bits and run the decode loop. */
  function Decompress(buf: seq<byte>): (r: Result<seq<byte>>)
    ensures r.Success? ==> ParseHeader(buf).Success? && |r.value| <= ParseHeader(buf).value.bitLen
    ensures |buf| < 6 ==> r == Failure(MalformedHeader)
  {
    match ParseHeader(buf)
    case Failure(e) => Failure(e)
    case Success(h) =>
      var bits := UnpackBits(h.packed, h.bitLen);
      DecodeBound(BuildTree(h.freqs), bits);
      Decode(BuildTree(h.freqs), bits)
  }

  /** Decompression fails exactly when the header cannot be read, or when
      it declares bits to decode while its table yields no tree or a lone
      leaf. */
  lemma DecompressFails(buf: seq<byte>)
    ensures Decompress(buf).Failure? <==>
              || ParseHeader(buf).Failure?
              || (var h := ParseHeader(buf).value;
                  h.bitLen > 0 && (BuildTree(h.freqs).None? || BuildTree(h.freqs).value.Leaf?))
  {
    if ParseHeader(buf).Success? {
      var h := ParseHeader(buf).value;
      DecodeFails(BuildTree(h.freqs), UnpackBits(h.packed, h.bitLen));
    }
  }

  // ---------------------------------------------------------------------
  // Reading back what compress wrote

  /** The symbols from index `i` on. */
  function Listed(syms: seq<byte>, i: nat): (r: set<byte>)
    requires i <= |syms|
    ensures forall k :: i <= k < |syms| ==> syms[k] in r
    decreases |syms| - i
  {
    if i == |syms| then {} else {syms[i]} + Listed(syms, i + 1)
  }

  /** Reading entries written by `Entries` sets the table entry of each
      listed value to its frequency and leaves the others alone. */
  lemma {:induction false} ReadEntries(pre: seq<byte>, f: seq<nat>, syms: seq<byte>, i: nat, post: seq<byte>, g: seq<nat>)
    requires |f| == 256 && |g| == 256 && i <= |syms|
    requires forall k :: 0 <= k < |syms| ==> f[syms[k]] < Limit32
    ensures forall v: byte :: ReadTable(pre + Entries(f, syms, i) + post, |syms| - i, |pre|, g)[v] ==
                              if v in Listed(syms, i) then f[v] else g[v]
    decreases |syms| - i
  {
    if i < |syms| {
      var s := syms[i];
      var field := U32(f[s]);
      var rest := Entries(f, syms, i + 1);
      var buf := pre + Entries(f, syms, i) + post;
      var pre' := pre + [s] + field;
      assert buf == pre' + rest + post;
      assert buf == (pre + [s]) + field + (rest + post);
      ReadU32Shift(pre + [s], field, rest + post);
      ReadEntries(pre', f, syms, i + 1, post, g[s := f[s]]);
    }
  }

  /** The header of a compressed buffer reads back as the input's frequency
      table, its bit length and its packed bits. */
  lemma ParseCompressed(data: seq<byte>)
    requires Compress(data).Success?
    ensures ParseHeader(Compress(data).value) == Success(Header(Freqs(data), BitLength(data), PackBits(CodeBits(data))))
  {
    CompressIs(data);
    HeaderSymbols(data);
    FreqsCount(data);
    var f := Freqs(data);
    assert forall v: byte :: f[v] > 0 ==> v in data;
    ParseContainer(f, Symbols(CodesOf(data)), CodeBits(data));
  }

  // ---------------------------------------------------------------------
  // Round trip

  /** All of `data` is one byte value repeated. */
  predicate SingleValue(data: seq<byte>)
  {
    data != [] && forall i :: 0 <= i < |data| ==> data[i] == data[0]
  }

  /** Decompressing the bits of a compressed buffer with the tree rebuilt
      from its header. */
  lemma DecodeCompressed(data: seq<byte>)
    requires Compress(data).Success?
    ensures Decompress(Compress(data).value) == Decode(BuildTree(Freqs(data)), CodeBits(data))
  {
    ParseCompressed(data);
    UnpackPack(CodeBits(data));
  }

  /** `decompress(compress(x)) == x` whenever `x` does not consist of a
      single repeated byte value: empty input, or two or more distinct
      values. */
  lemma RoundTrip(data: seq<byte>)
    requires Compress(data).Success? && !SingleValue(data)
    ensures Decompress(Compress(data).value) == Success(data)
  {
    DecodeCompressed(data);
    DecodeOwnBits(data);
  }

  /** The code bits of an input decode back to it with its own tree, unless
      one value is repeated. */
  lemma DecodeOwnBits(data: seq<byte>)
    requires !SingleValue(data)
    ensures Decode(BuildTree(Freqs(data)), CodeBits(data)) == Success(data)
  {
    TreeShape(data);
    match BuildTree(Freqs(data))
    case None =>
      assert CodeBits(data) == Encode(map[], []) == [];
    case Some(t) =>
      DecodeTree(t, data);
      assert CodeBits(data) == Encode(Codes(t, []), data);
  }

  /** Decoding the encoding of `data` with a tree of two or more leaves
      holding its bytes gives `data` back. */
  lemma DecodeTree(t: Tree, data: seq<byte>)
    requires t.Node? && forall i :: 0 <= i < |data| ==> data[i] in Syms(t)
    ensures forall i :: 0 <= i < |data| ==> data[i] in Codes(t, [])
    ensures Decode(Some(t), Encode(Codes(t, []), data)) == Success(data)
  {
    DecodeEncode(t, data, [], []);
    assert Encode(Codes(t, []), data) + [] == Encode(Codes(t, []), data);
    assert [] + data == data;
  }

  /** The values present in a single repeated value. */
  lemma PresentSingle(data: seq<byte>)
    requires SingleValue(data)
    ensures Present(Freqs(data)) == {data[0]}
  {
    TreeOfData(data);
    forall u: byte
      ensures u in Present(Freqs(data)) <==> u == data[0]
    {
      if u in data {
        var i :| 0 <= i < |data| && data[i] == u;
      }
    }
  }

  /** Every byte of the input is a value of its tree. */
  lemma TreeHolds(data: seq<byte>)
    requires BuildTree(Freqs(data)).Some?
    ensures forall b :: b in data ==> b in Syms(BuildTree(Freqs(data)).value)
  {
    BuildTreeContents(Freqs(data));
    PresentOfData(data);
  }

  /** Two members of a one-element set are equal. */
  lemma SingletonMembers(s: set<byte>, a: byte, b: byte)
    requires |s| == 1 && a in s && b in s
    ensures a == b
  {
    assert |s - {a}| == 0;
    assert s - {a} == {};
  }

  /** The tree of an input is a lone leaf exactly when the input repeats one
      value. */
  lemma TreeLeaf(data: seq<byte>)
    requires BuildTree(Freqs(data)).Some?
    ensures BuildTree(Freqs(data)).value.Leaf? <==> SingleValue(data)
  {
    var f := Freqs(data);
    BuildTreeLeaf(f);
    PresentOfData(data);
    TreeAbsent(data);
    if SingleValue(data) {
      PresentSingle(data);
    } else if |Present(f)| == 1 {
      var i :| 0 <= i < |data| && data[i] != data[0];
      SingletonMembers(Present(f), data[i], data[0]);
    }
  }

  /** The tree of an input: none for empty input, otherwise holding its
      bytes, and a lone leaf exactly when one value is repeated. */
  lemma TreeShape(data: seq<byte>)
    ensures BuildTree(Freqs(data)).None? <==> data == []
    ensures BuildTree(Freqs(data)).Some? ==>
              var t := BuildTree(Freqs(data)).value;
              && (forall i :: 0 <= i < |data| ==> data[i] in Syms(t))
              && (t.Leaf? <==> SingleValue(data))
  {
    TreeAbsent(data);
    if BuildTree(Freqs(data)).Some? {
      TreeHolds(data);
      TreeLeaf(data);
    }
  }

  /** A single repeated byte value compresses, but its decompression steps
      from the lone leaf to a missing child and fails. */
  lemma SingleValueFails(data: seq<byte>)
    requires Compress(data).Success? && SingleValue(data)
    ensures Decompress(Compress(data).value) == Failure(CorruptStream)
  {
    DecodeCompressed(data);
    TreeShape(data);
  }

  // ---------------------------------------------------------------------
  // The decoder as evidently intended

  /** The decode loop with a lone leaf handled: each bit is one occurrence
      of the leaf's value, matching the code `"0"` it was given. */
  function DecodeFixed(tree: Option<Tree>, bits: Bits): Result<seq<byte>>
  {
    match tree
    case Some(Leaf(v, _)) => Success(Repeat(v, |bits|))
    case _ => Decode(tree, bits)
  }

  /** `decompress` with the corrected decode loop. */
  function DecompressFixed(buf: seq<byte>): (r: Result<seq<byte>>)
    ensures ParseHeader(buf).Failure? ==> r == Failure(MalformedHeader)
  {
    match ParseHeader(buf)
    case Failure(e) => Failure(e)
    case Success(h) => DecodeFixed(BuildTree(h.freqs), UnpackBits(h.packed, h.bitLen))
  }

  /** A single repeated value is coded one bit per byte. */
  lemma {:induction false} EncodeSingle(codes: CodeMap, data: seq<byte>, v: byte)
    requires v in codes && codes[v] == [false]
    requires forall i :: 0 <= i < |data| ==> data[i] == v
    ensures |Encode(codes, data)| == |data|
  {
    if data != [] {
      EncodeSingle(codes, data[..|data| - 1], v);
    }
  }

  /** With the corrected decoder every input that compresses comes back. */
  lemma RoundTripFixed(data: seq<byte>)
    requires Compress(data).Success?
    ensures DecompressFixed(Compress(data).value) == Success(data)
  {
    ParseCompressed(data);
    UnpackPack(CodeBits(data));
    TreeShape(data);
    if !SingleValue(data) {
      RoundTrip(data);
    } else {
      var t := BuildTree(Freqs(data)).value;
      CodeTableSpec(t);
      assert forall i :: 0 <= i < |data| ==> data[i] == t.sym;
      EncodeSingle(CodesOf(data), data, t.sym);
      assert Repeat(t.sym, |data|) == data;
    }
  }
}
