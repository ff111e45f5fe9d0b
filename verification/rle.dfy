/** Run-length coding (`RunLengthEncoding` in server/src/algorithms/rle.js).
    A compressed buffer is a sequence of `(count, value)` byte pairs; a run
    longer than 255 is split into several pairs. */
module RunLength {
  import opened Bytes

  /** The largest count a single pair can carry. */
  const MaxRun: nat := 255

  /** One `(count, value)` pair. */
  datatype Run = Run(count: nat, value: byte)

  // ---------------------------------------------------------------------
  // Runs and their meaning

  /** The bytes a list of runs stands for. */
  function Expand(runs: seq<Run>): seq<byte>
  {
    if runs == [] then []
    else Expand(runs[..|runs| - 1]) + Repeat(runs[|runs| - 1].value, runs[|runs| - 1].count)
  }

  /** Every count fits a pair and is a real run length. */
  predicate ValidCounts(runs: seq<Run>)
  {
    forall k :: 0 <= k < |runs| ==> 1 <= runs[k].count <= MaxRun
  }

  /** Runs are maximal: a run is followed by one of the same value only
      when the first one is full. */
  predicate Maximal(runs: seq<Run>)
  {
    forall k :: 0 <= k < |runs| - 1 && runs[k].count < MaxRun ==> runs[k].value != runs[k + 1].value
  }

  /** The pairs as bytes, in order (`o.push(cnt, run)`). */
  function Encode(runs: seq<Run>): (r: seq<byte>)
    requires ValidCounts(runs)
  {
    if runs == [] then []
    else Encode(runs[..|runs| - 1]) + [runs[|runs| - 1].count, runs[|runs| - 1].value]
  }

  // ---------------------------------------------------------------------
  // Shape of a compressed buffer

  /** Whole pairs only, and every count is a real run length (1..255). */
  predicate WellFormed(buf: seq<byte>)
  {
    && |buf| % 2 == 0
    && forall k :: 0 <= k < |buf| / 2 ==> 1 <= buf[2 * k] <= MaxRun
  }

  /** At the byte level: a count below 255 is never followed by a pair of
      the same value. */
  predicate MaximalPairs(buf: seq<byte>)
  {
    forall k :: 0 <= k < |buf| / 2 - 1 && buf[2 * k] < MaxRun ==> buf[2 * k + 1] != buf[2 * k + 3]
  }

  /** The byte form of valid, maximal runs is well formed and maximal. */
  lemma {:induction false} EncodeShape(runs: seq<Run>)
    requires ValidCounts(runs) && Maximal(runs)
    ensures |Encode(runs)| == 2 * |runs|
    ensures forall k :: 0 <= k < |runs| ==> Encode(runs)[2 * k] == runs[k].count && Encode(runs)[2 * k + 1] == runs[k].value
    ensures WellFormed(Encode(runs)) && MaximalPairs(Encode(runs))
  {
    if runs != [] {
      var init := runs[..|runs| - 1];
      EncodeShape(init);
      var r := Encode(runs);
      assert forall k :: 0 <= k < |init| ==> r[2 * k] == init[k].count && r[2 * k + 1] == init[k].value;
    }
  }

  // ---------------------------------------------------------------------
  // decompress (rle.js:20-29)

  /** Every complete pair `(count, value)` expands to `value` repeated
      `count` times; a trailing odd byte is not a pair and is dropped. */
  function Decompress(buf: seq<byte>): seq<byte>
    decreases |buf|
  {
    if |buf| < 2 then [] else Repeat(buf[1], buf[0]) + Decompress(buf[2..])
  }

  /** Sum of the counts of the complete pairs. */
  function CountSum(buf: seq<byte>): nat
    decreases |buf|
  {
    if |buf| < 2 then 0 else buf[0] as nat + CountSum(buf[2..])
  }

  /** The output length is the sum of the counts of the complete pairs. */
  lemma {:induction false} DecompressLength(buf: seq<byte>)
    ensures |Decompress(buf)| == CountSum(buf)
    decreases |buf|
  {
    if |buf| >= 2 {
      DecompressLength(buf[2..]);
    }
  }

  /** A trailing odd byte changes nothing. */
  lemma {:induction false} DecompressIgnoresTrailingByte(buf: seq<byte>, extra: byte)
    requires |buf| % 2 == 0
    ensures Decompress(buf + [extra]) == Decompress(buf)
    decreases |buf|
  {
    if |buf| >= 2 {
      assert (buf + [extra])[2..] == buf[2..] + [extra];
      DecompressIgnoresTrailingByte(buf[2..], extra);
    }
  }

  /** Decompression distributes over a split at a pair boundary. */
  lemma {:induction false} DecompressAppend(a: seq<byte>, b: seq<byte>)
    requires |a| % 2 == 0
    ensures Decompress(a + b) == Decompress(a) + Decompress(b)
    decreases |a|
  {
    if |a| >= 2 {
      assert (a + b)[2..] == a[2..] + b;
      DecompressAppend(a[2..], b);
    } else {
      assert a + b == b;
    }
  }

  lemma {:induction false} EncodeLength(runs: seq<Run>)
    requires ValidCounts(runs)
    ensures |Encode(runs)| == 2 * |runs|
  {
    if runs != [] {
      EncodeLength(runs[..|runs| - 1]);
    }
  }

  /** Decoding the byte form of runs gives back the bytes they stand for. */
  lemma {:induction false} DecompressEncode(runs: seq<Run>)
    requires ValidCounts(runs)
    ensures Decompress(Encode(runs)) == Expand(runs)
  {
    if runs != [] {
      var init, last := runs[..|runs| - 1], runs[|runs| - 1];
      DecompressEncode(init);
      EncodeLength(init);
      DecompressAppend(Encode(init), [last.count, last.value]);
      assert Decompress([last.count, last.value]) == Repeat(last.value, last.count) + Decompress([]);
    }
  }

  // ---------------------------------------------------------------------
  // compress (rle.js:3-19)

  /** Closing the open run `(_, run)` after `acc` keeps the runs maximal. */
  predicate Fits(acc: seq<Run>, run: byte)
  {
    acc != [] && acc[|acc| - 1].count < MaxRun ==> acc[|acc| - 1].value != run
  }

  /** The scan loop (rle.js:9-16): `acc` holds the closed runs, `(cnt, run)`
      is the open run, `i` the next input index. */
  function Scan(data: seq<byte>, i: nat, run: byte, cnt: nat, acc: seq<Run>): seq<Run>
    requires i <= |data|
    decreases |data| - i
  {
    if i == |data| then acc + [Run(cnt, run)]
    else if data[i] == run && cnt < MaxRun then Scan(data, i + 1, run, cnt + 1, acc)
    else Scan(data, i + 1, data[i], 1, acc + [Run(cnt, run)])
  }

  /** What the scan loop keeps true: the closed runs and the open run
      spell out `data[..i]`, and closing the open run keeps runs maximal. */
  predicate ScanInvariant(data: seq<byte>, i: nat, run: byte, cnt: nat, acc: seq<Run>)
  {
    && 1 <= i <= |data|
    && 1 <= cnt <= MaxRun
    && ValidCounts(acc) && Maximal(acc) && Fits(acc, run)
    && Expand(acc) + Repeat(run, cnt) == data[..i]
  }

  /** Closing the open run preserves the invariant's run properties. */
  lemma CloseRun(acc: seq<Run>, run: byte, cnt: nat)
    requires 1 <= cnt <= MaxRun
    requires ValidCounts(acc) && Maximal(acc) && Fits(acc, run)
    ensures ValidCounts(acc + [Run(cnt, run)]) && Maximal(acc + [Run(cnt, run)])
    ensures Expand(acc + [Run(cnt, run)]) == Expand(acc) + Repeat(run, cnt)
  {
    assert (acc + [Run(cnt, run)])[..|acc|] == acc;
  }

  /** The scan yields valid, maximal runs that spell out the whole input. */
  lemma {:induction false} ScanSound(data: seq<byte>, i: nat, run: byte, cnt: nat, acc: seq<Run>)
    requires ScanInvariant(data, i, run, cnt, acc)
    ensures ValidCounts(Scan(data, i, run, cnt, acc)) && Maximal(Scan(data, i, run, cnt, acc))
    ensures Expand(Scan(data, i, run, cnt, acc)) == data
    decreases |data| - i
  {
    if i == |data| {
      CloseRun(acc, run, cnt);
    } else if data[i] == run && cnt < MaxRun {
      assert data[..i + 1] == data[..i] + [data[i]];
      assert Repeat(run, cnt + 1) == Repeat(run, cnt) + [run];
      ScanSound(data, i + 1, run, cnt + 1, acc);
    } else {
      CloseRun(acc, run, cnt);
      assert data[..i + 1] == data[..i] + [data[i]];
      assert [data[i]] == Repeat(data[i], 1);
      ScanSound(data, i + 1, data[i], 1, acc + [Run(cnt, run)]);
    }
  }

  /** The runs of `data` as the compressor closes them: valid, maximal, and
      spelling out `data` in encounter order. */
  function Runs(data: seq<byte>): (r: seq<Run>)
    ensures ValidCounts(r) && Maximal(r)
    ensures Expand(r) == data
    ensures data == [] <==> r == []
  {
    if |data| == 0 then []
    else
      assert data[..1] == [data[0]] == Repeat(data[0], 1);
      ScanSound(data, 1, data[0], 1, []);
      Scan(data, 1, data[0], 1, [])
  }

  /** `RunLengthEncoding.compress`: the empty buffer for empty input,
      otherwise the maximal runs of `data` in encounter order, each capped
      at 255, as `(count, value)` pairs. */
  function Compress(data: seq<byte>): (r: seq<byte>)
    ensures data == [] <==> r == []
    ensures WellFormed(r) && MaximalPairs(r)
    ensures Decompress(r) == data
  {
    var runs := Runs(data);
    EncodeShape(runs);
    DecompressEncode(runs);
    Encode(runs)
  }

  // ---------------------------------------------------------------------
  // Known vectors

  /** Chunks of `n` equal bytes: full 255-runs, then the remainder. */
  function Chunks(v: byte, n: nat): (r: seq<Run>)
    requires n >= 1
    decreases n
  {
    if n <= MaxRun then [Run(n, v)] else [Run(MaxRun, v)] + Chunks(v, n - MaxRun)
  }

  /** The scan over a stretch of equal bytes cuts it into 255-runs. */
  lemma {:induction false} ScanRepeat(data: seq<byte>, v: byte, i: nat, cnt: nat, acc: seq<Run>)
    requires forall k :: 0 <= k < |data| ==> data[k] == v
    requires i <= |data|
    requires 1 <= cnt <= MaxRun
    ensures Scan(data, i, v, cnt, acc) == acc + Chunks(v, cnt + |data| - i)
    decreases |data| - i
  {
    if i == |data| {
    } else if cnt < MaxRun {
      assert data[i] == v;
      ScanRepeat(data, v, i + 1, cnt + 1, acc);
    } else {
      assert data[i] == v;
      ScanRepeat(data, v, i + 1, 1, acc + [Run(MaxRun, v)]);
      assert Chunks(v, cnt + |data| - i) == [Run(MaxRun, v)] + Chunks(v, |data| - i);
    }
  }

  /** A stretch of `n` equal bytes is cut into `n / 255` full runs and one
      run for the remainder, if any. */
  lemma CompressRepeat(v: byte, n: nat)
    requires n >= 1
    ensures Runs(Repeat(v, n)) == Chunks(v, n)
  {
    ScanRepeat(Repeat(v, n), v, 1, 1, []);
  }

  /** The capped run: 300 equal bytes become `[255, v, 45, v]`. */
  lemma CompressThreeHundred(v: byte)
    ensures Compress(Repeat(v, 300)) == [255, v, 45, v]
  {
    CompressRepeat(v, 300);
    var runs := [Run(255, v), Run(45, v)];
    assert Chunks(v, 300) == runs;
    assert runs[..1] == [Run(255, v)];
    assert [Run(255, v)][..0] == [];
    assert Encode([Run(255, v)]) == [255, v];
    assert Encode(runs) == Encode([Run(255, v)]) + [45, v];
  }
}
