/** The frequency table and the code tree of the Huffman codec (`freqMap` and
    `buildTree` in server/src/algorithms/huffman.js). */
module HuffmanTree {
  import opened Bytes

  /** A `Node` of the source: a leaf carries a byte value, an internal node
      carries `null` as its value and two children. */
  datatype Tree = Leaf(sym: byte, weight: nat) | Node(weight: nat, left: Tree, right: Tree)

  // ---------------------------------------------------------------------
  // freqMap (huffman.js:14-18)

  /** How often each byte value occurs in `data`, indexed by value. */
  function Freqs(data: seq<byte>): (f: seq<nat>)
    ensures |f| == 256
    decreases |data|
  {
    if data == [] then seq(256, _ => 0)
    else
      var f := Freqs(data[..|data| - 1]);
      f[data[|data| - 1] := f[data[|data| - 1]] + 1]
  }

  /** Entry `v` of the table counts the occurrences of `v`. */
  lemma {:induction false} FreqsCount(data: seq<byte>)
    ensures forall v: byte :: Freqs(data)[v] == multiset(data)[v]
  {
    if data != [] {
      var init, b := data[..|data| - 1], data[|data| - 1];
      FreqsCount(init);
      assert data == init + [b];
    }
  }

  /** The byte values present in a table from `v` on. */
  function PresentFrom(f: seq<nat>, v: nat): (r: set<byte>)
    requires |f| == 256 && v <= 256
    ensures forall u: byte :: u in r <==> v <= u && f[u] > 0
    decreases 256 - v
  {
    if v == 256 then {}
    else if f[v] > 0 then {v as byte} + PresentFrom(f, v + 1)
    else PresentFrom(f, v + 1)
  }

  /** The byte values present in a table. */
  function Present(f: seq<nat>): set<byte>
    requires |f| == 256
  {
    PresentFrom(f, 0)
  }

  /** Sum of the table from `v` on. */
  function SumFrom(f: seq<nat>, v: nat): nat
    requires |f| == 256 && v <= 256
    decreases 256 - v
  {
    if v == 256 then 0 else f[v] + SumFrom(f, v + 1)
  }

  /** Raising one entry raises the sum of every suffix holding it. */
  lemma {:induction false} SumFromUpdate(f: seq<nat>, b: byte, v: nat)
    requires |f| == 256 && v <= b
    ensures SumFrom(f[b := f[b] + 1], v) == SumFrom(f, v) + 1
    decreases 256 - v
  {
    if v < b {
      SumFromUpdate(f, b, v + 1);
    } else {
      SumFromSame(f, f[b := f[b] + 1], v + 1);
    }
  }

  /** Tables that agree from `v` on have the same suffix sum. */
  lemma {:induction false} SumFromSame(f: seq<nat>, g: seq<nat>, v: nat)
    requires |f| == 256 && |g| == 256 && v <= 256
    requires forall u :: v <= u < 256 ==> f[u] == g[u]
    ensures SumFrom(f, v) == SumFrom(g, v)
    decreases 256 - v
  {
    if v < 256 {
      SumFromSame(f, g, v + 1);
    }
  }

  /** The frequencies add up to the length of the input. */
  lemma {:induction false} FreqsSum(data: seq<byte>)
    ensures SumFrom(Freqs(data), 0) == |data|
  {
    if data == [] {
      ZeroSum(Freqs(data), 0);
    } else {
      var init, b := data[..|data| - 1], data[|data| - 1];
      var f := Freqs(init);
      assert Freqs(data) == f[b := f[b] + 1];
      FreqsSum(init);
      SumFromUpdate(f, b, 0);
    }
  }

  lemma {:induction false} ZeroSum(f: seq<nat>, v: nat)
    requires |f| == 256 && v <= 256
    requires forall u :: v <= u < 256 ==> f[u] == 0
    ensures SumFrom(f, v) == 0
    decreases 256 - v
  {
    if v < 256 {
      ZeroSum(f, v + 1);
    }
  }

  // ---------------------------------------------------------------------
  // Trees and forests

  /** The byte values at the leaves. */
  function Syms(t: Tree): set<byte>
  {
    match t
    case Leaf(v, _) => {v}
    case Node(_, l, r) => Syms(l) + Syms(r)
  }

  /** Leaves weigh their frequency, internal nodes the sum of their
      children (`a.f + b.f`). */
  predicate Weighted(t: Tree, f: seq<nat>)
    requires |f| == 256
  {
    match t
    case Leaf(v, w) => w == f[v]
    case Node(w, l, r) => w == l.weight + r.weight && Weighted(l, f) && Weighted(r, f)
  }

  function ForestSyms(ns: seq<Tree>): set<byte>
  {
    if ns == [] then {} else Syms(ns[0]) + ForestSyms(ns[1..])
  }

  function ForestWeight(ns: seq<Tree>): nat
  {
    if ns == [] then 0 else ns[0].weight + ForestWeight(ns[1..])
  }

  lemma {:induction false} ForestAppend(a: seq<Tree>, b: seq<Tree>)
    ensures ForestSyms(a + b) == ForestSyms(a) + ForestSyms(b)
    ensures ForestWeight(a + b) == ForestWeight(a) + ForestWeight(b)
  {
    if a == [] {
      assert a + b == b;
    } else {
      assert (a + b)[1..] == a[1..] + b;
      ForestAppend(a[1..], b);
    }
  }

  // ---------------------------------------------------------------------
  // Seeding the forest (huffman.js:22-25)

  /** One leaf per present byte value from `v` on, in ascending value. */
  function Leaves(f: seq<nat>, v: nat): seq<Tree>
    requires |f| == 256 && v <= 256
    decreases 256 - v
  {
    if v == 256 then []
    else if f[v] > 0 then [Leaf(v, f[v])] + Leaves(f, v + 1)
    else Leaves(f, v + 1)
  }

  /** The seeded leaves are leaves weighing their value's frequency, list
      each present value once, in ascending order, and weigh as much as the
      table. */
  lemma {:induction false} LeavesSpec(f: seq<nat>, v: nat)
    requires |f| == 256 && v <= 256
    ensures var ns := Leaves(f, v);
            && (forall k :: 0 <= k < |ns| ==> ns[k].Leaf? && v <= ns[k].sym && Weighted(ns[k], f))
            && (forall i, j :: 0 <= i < j < |ns| ==> ns[i].sym < ns[j].sym)
            && ForestSyms(ns) == PresentFrom(f, v)
            && ForestWeight(ns) == SumFrom(f, v)
    decreases 256 - v
  {
    if v < 256 {
      LeavesSpec(f, v + 1);
      var rest := Leaves(f, v + 1);
      if f[v] > 0 {
        assert (v as byte) !in PresentFrom(f, v + 1);
        assert ([Leaf(v, f[v])] + rest)[1..] == rest;
      }
    }
  }

  // ---------------------------------------------------------------------
  // Stable sort by weight (`nodes.sort((a, b) => a.f - b.f)`)

  predicate Sorted(s: seq<Tree>)
  {
    forall i, j :: 0 <= i < j < |s| ==> s[i].weight <= s[j].weight
  }

  /** Inserts `t` before the first strictly heavier tree, that is after
      every tree of the same weight. */
  function Insert(s: seq<Tree>, t: Tree): (r: seq<Tree>)
    ensures |r| == |s| + 1
  {
    if s == [] then [t]
    else if t.weight < s[0].weight then [t] + s
    else [s[0]] + Insert(s[1..], t)
  }

  /** Insertion sort: each tree is inserted, in order, into the sorted
      prefix before it. */
  function Sort(ns: seq<Tree>): (r: seq<Tree>)
    ensures |r| == |ns|
  {
    if ns == [] then [] else Insert(Sort(ns[..|ns| - 1]), ns[|ns| - 1])
  }

  lemma {:induction false} InsertPermutes(s: seq<Tree>, t: Tree)
    ensures multiset(Insert(s, t)) == multiset(s) + multiset{t}
  {
    if s != [] && t.weight >= s[0].weight {
      InsertPermutes(s[1..], t);
      assert s == [s[0]] + s[1..];
    }
  }

  /** The sort permutes the forest. */
  lemma {:induction false} SortPermutes(ns: seq<Tree>)
    ensures multiset(Sort(ns)) == multiset(ns)
  {
    if ns != [] {
      var init, last := ns[..|ns| - 1], ns[|ns| - 1];
      SortPermutes(init);
      InsertPermutes(Sort(init), last);
      assert ns == init + [last];
    }
  }

  /** Inserting keeps a lower bound on the weights. */
  lemma {:induction false} InsertAbove(s: seq<Tree>, t: Tree, lo: nat)
    requires forall k :: 0 <= k < |s| ==> lo <= s[k].weight
    requires lo <= t.weight
    ensures forall k :: 0 <= k < |Insert(s, t)| ==> lo <= Insert(s, t)[k].weight
  {
    if s != [] && t.weight >= s[0].weight {
      InsertAbove(s[1..], t, lo);
    }
  }

  /** Inserting and sorting keep every tree weighted by `f`. */
  lemma {:induction false} InsertWeighted(s: seq<Tree>, t: Tree, f: seq<nat>)
    requires |f| == 256
    requires forall k :: 0 <= k < |s| ==> Weighted(s[k], f)
    requires Weighted(t, f)
    ensures forall k :: 0 <= k < |Insert(s, t)| ==> Weighted(Insert(s, t)[k], f)
  {
    if s != [] && t.weight >= s[0].weight {
      InsertWeighted(s[1..], t, f);
    }
  }

  lemma {:induction false} SortWeighted(ns: seq<Tree>, f: seq<nat>)
    requires |f| == 256
    requires forall k :: 0 <= k < |ns| ==> Weighted(ns[k], f)
    ensures forall k :: 0 <= k < |Sort(ns)| ==> Weighted(Sort(ns)[k], f)
  {
    if ns != [] {
      var init := ns[..|ns| - 1];
      SortWeighted(init, f);
      InsertWeighted(Sort(init), ns[|ns| - 1], f);
    }
  }

  lemma {:induction false} InsertSorted(s: seq<Tree>, t: Tree)
    requires Sorted(s)
    ensures Sorted(Insert(s, t))
  {
    if s != [] && t.weight >= s[0].weight {
      InsertSorted(s[1..], t);
      InsertAbove(s[1..], t, s[0].weight);
    }
  }

  /** Trees of one weight, in order. */
  function OfWeight(s: seq<Tree>, w: nat): seq<Tree>
  {
    if s == [] then []
    else if s[0].weight == w then [s[0]] + OfWeight(s[1..], w)
    else OfWeight(s[1..], w)
  }

  lemma {:induction false} OfWeightAppend(a: seq<Tree>, b: seq<Tree>, w: nat)
    ensures OfWeight(a + b, w) == OfWeight(a, w) + OfWeight(b, w)
  {
    if a == [] {
      assert a + b == b;
    } else {
      assert (a + b)[1..] == a[1..] + b;
      OfWeightAppend(a[1..], b, w);
    }
  }

  lemma {:induction false} OfWeightHeavier(s: seq<Tree>, w: nat)
    requires forall k :: 0 <= k < |s| ==> s[k].weight > w
    ensures OfWeight(s, w) == []
  {
    if s != [] {
      OfWeightHeavier(s[1..], w);
    }
  }

  /** Inserting keeps the trees of each weight in order, the new one last. */
  lemma {:induction false} InsertStable(s: seq<Tree>, t: Tree, w: nat)
    requires Sorted(s)
    ensures OfWeight(Insert(s, t), w) == OfWeight(s, w) + OfWeight([t], w)
  {
    if s == [] {
    } else if t.weight < s[0].weight {
      assert ([t] + s)[1..] == s;
      if t.weight == w {
        OfWeightHeavier(s, w);
      }
    } else {
      InsertStable(s[1..], t, w);
      assert ([s[0]] + Insert(s[1..], t))[1..] == Insert(s[1..], t);
    }
  }

  /** The sort orders by weight and is stable: trees of equal weight keep
      their relative order. */
  lemma {:induction false} SortSpec(ns: seq<Tree>)
    ensures Sorted(Sort(ns))
    ensures forall w :: OfWeight(Sort(ns), w) == OfWeight(ns, w)
  {
    if ns != [] {
      var init, last := ns[..|ns| - 1], ns[|ns| - 1];
      SortSpec(init);
      InsertSorted(Sort(init), last);
      forall w
        ensures OfWeight(Sort(ns), w) == OfWeight(ns, w)
      {
        InsertStable(Sort(init), last, w);
        OfWeightAppend(init, [last], w);
        assert init + [last] == ns;
      }
    }
  }

  lemma {:induction false} InsertForest(s: seq<Tree>, t: Tree)
    ensures ForestSyms(Insert(s, t)) == ForestSyms(s) + Syms(t)
    ensures ForestWeight(Insert(s, t)) == ForestWeight(s) + t.weight
  {
    if s == [] {
    } else if t.weight < s[0].weight {
      assert ([t] + s)[1..] == s;
    } else {
      InsertForest(s[1..], t);
      assert ([s[0]] + Insert(s[1..], t))[1..] == Insert(s[1..], t);
    }
  }

  /** Sorting keeps the forest's values and weight. */
  lemma {:induction false} SortForest(ns: seq<Tree>)
    ensures ForestSyms(Sort(ns)) == ForestSyms(ns)
    ensures ForestWeight(Sort(ns)) == ForestWeight(ns)
  {
    if ns != [] {
      var init, last := ns[..|ns| - 1], ns[|ns| - 1];
      SortForest(init);
      InsertForest(Sort(init), last);
      ForestAppend(init, [last]);
      assert init + [last] == ns;
    }
  }

  // ---------------------------------------------------------------------
  // Merging (huffman.js:27-32)

  /** The merge loop: sort, take the two lightest trees, append their
      parent, until one tree is left. */
  function Merge(ns: seq<Tree>): (t: Tree)
    requires ns != []
    ensures |ns| >= 2 ==> t.Node?
    decreases |ns|
  {
    if |ns| == 1 then ns[0]
    else
      var sorted := Sort(ns);
      var a, b := sorted[0], sorted[1];
      Merge(sorted[2..] + [Node(a.weight + b.weight, a, b)])
  }

  /** One round of the merge loop keeps the forest's values and weight. */
  lemma MergeRound(ns: seq<Tree>)
    requires |ns| >= 2
    ensures var sorted := Sort(ns);
            var a, b := sorted[0], sorted[1];
            var next := sorted[2..] + [Node(a.weight + b.weight, a, b)];
            ForestSyms(next) == ForestSyms(ns) && ForestWeight(next) == ForestWeight(ns)
  {
    var sorted := Sort(ns);
    var a, b := sorted[0], sorted[1];
    SortForest(ns);
    ForestAppend(sorted[2..], [Node(a.weight + b.weight, a, b)]);
    assert sorted[1..][1..] == sorted[2..];
  }

  /** One round keeps every tree of the forest weighted by `f`. */
  lemma MergeRoundWeighted(ns: seq<Tree>, f: seq<nat>)
    requires |ns| >= 2 && |f| == 256
    requires forall k :: 0 <= k < |ns| ==> Weighted(ns[k], f)
    ensures var sorted := Sort(ns);
            var a, b := sorted[0], sorted[1];
            var next := sorted[2..] + [Node(a.weight + b.weight, a, b)];
            forall k :: 0 <= k < |next| ==> Weighted(next[k], f)
  {
    var sorted := Sort(ns);
    var a, b := sorted[0], sorted[1];
    var next := sorted[2..] + [Node(a.weight + b.weight, a, b)];
    SortWeighted(ns, f);
    assert Weighted(next[|next| - 1], f);
    assert forall k :: 0 <= k < |next| - 1 ==> next[k] == sorted[k + 2];
  }

  /** The merged tree holds the forest's values, weighs as much, and stays
      weighted by `f`. */
  lemma {:induction false} MergeSpec(ns: seq<Tree>, f: seq<nat>)
    requires ns != [] && |f| == 256
    requires forall k :: 0 <= k < |ns| ==> Weighted(ns[k], f)
    ensures Syms(Merge(ns)) == ForestSyms(ns)
    ensures Merge(ns).weight == ForestWeight(ns)
    ensures Weighted(Merge(ns), f)
    decreases |ns|
  {
    if |ns| == 1 {
      assert ns[1..] == [];
    } else {
      var sorted := Sort(ns);
      var a, b := sorted[0], sorted[1];
      var next := sorted[2..] + [Node(a.weight + b.weight, a, b)];
      MergeRound(ns);
      MergeRoundWeighted(ns, f);
      MergeSpec(next, f);
    }
  }

  // ---------------------------------------------------------------------
  // buildTree (huffman.js:21-34)

  /** `buildTree`: `null` for an empty table, otherwise the merged tree of
      the seeded leaves. */
  function BuildTree(f: seq<nat>): Option<Tree>
    requires |f| == 256
  {
    var ns := Leaves(f, 0);
    if ns == [] then None else Some(Merge(ns))
  }

  /** The tree holds exactly the present values, its root weighs the sum of
      the table, and every node weighs what its children weigh. */
  lemma BuildTreeContents(f: seq<nat>)
    requires |f| == 256
    ensures BuildTree(f).None? <==> Present(f) == {}
    ensures BuildTree(f).Some? ==>
              var t := BuildTree(f).value;
              && Syms(t) == Present(f)
              && t.weight == SumFrom(f, 0)
              && Weighted(t, f)
  {
    var ns := Leaves(f, 0);
    LeavesSpec(f, 0);
    if ns != [] {
      MergeSpec(ns, f);
    }
  }

  /** One leaf per present value. */
  lemma {:induction false} LeavesCount(f: seq<nat>, v: nat)
    requires |f| == 256 && v <= 256
    ensures |Leaves(f, v)| == |PresentFrom(f, v)|
    decreases 256 - v
  {
    if v < 256 {
      LeavesCount(f, v + 1);
      if f[v] > 0 {
        assert (v as byte) !in PresentFrom(f, v + 1);
      }
    }
  }

  /** The tree is a single leaf exactly when one value is present. */
  lemma BuildTreeLeaf(f: seq<nat>)
    requires |f| == 256
    ensures BuildTree(f).Some? ==> (BuildTree(f).value.Leaf? <==> |Present(f)| == 1)
  {
    LeavesSpec(f, 0);
    LeavesCount(f, 0);
  }

  /** Everything `buildTree` promises about its result. */
  lemma BuildTreeSpec(f: seq<nat>)
    requires |f| == 256
    ensures BuildTree(f).None? <==> Present(f) == {}
    ensures BuildTree(f).Some? ==>
              var t := BuildTree(f).value;
              && Syms(t) == Present(f)
              && t.weight == SumFrom(f, 0)
              && Weighted(t, f)
              && (t.Leaf? <==> |Present(f)| == 1)
  {
    BuildTreeContents(f);
    BuildTreeLeaf(f);
  }

  /** The values present in the frequency table of `data` are its bytes. */
  lemma PresentOfData(data: seq<byte>)
    ensures forall b: byte :: b in Present(Freqs(data)) <==> b in data
  {
    FreqsCount(data);
    assert forall b: byte :: b in data <==> multiset(data)[b] > 0;
  }

  /** There is no tree for the frequencies of `data` exactly when `data` is
      empty. */
  lemma TreeAbsent(data: seq<byte>)
    ensures BuildTree(Freqs(data)).None? <==> data == []
  {
    BuildTreeContents(Freqs(data));
    PresentOfData(data);
    if data != [] {
      assert data[0] in Present(Freqs(data));
    }
  }

  /** The tree of the frequencies of `data`: none for empty input; otherwise
      holding every byte of `data` and weighing `|data|` in all. */
  lemma TreeOfData(data: seq<byte>)
    ensures var f := Freqs(data);
            && (forall b: byte :: b in Present(f) <==> b in data)
            && (BuildTree(f).None? <==> data == [])
            && (BuildTree(f).Some? ==> BuildTree(f).value.weight == |data|)
  {
    BuildTreeContents(Freqs(data));
    FreqsSum(data);
    PresentOfData(data);
    TreeAbsent(data);
  }
}
