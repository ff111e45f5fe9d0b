/** The sliding-window LZ77 codec (`LZ77` in server/src/algorithms/lz77.js).
    A compressed buffer is a sequence of 4-byte records
    `(u16 distance BE, u8 length, u8 next)`; `(0, 0, _, b)` is the literal `b`,
    anything else copies `length` bytes from `distance` bytes back and then
    appends `next`. */
module Lz77 {
  import opened Bytes

  /** The constructor parameters. */
  datatype Config = Config(windowSize: nat, lookaheadSize: nat)

  /** `new LZ77()`: a 4096-byte window and a 16-byte lookahead. */
  const Default: Config := Config(4096, 16)

  /** Shortest back-reference the compressor emits. */
  const MinMatch: nat := 3

  /** Parameters under which every record field fits its byte width, so that
      no value is truncated on its way into the buffer. */
  predicate Encodable(cfg: Config)
  {
    cfg.windowSize < 0x1_0000 && cfg.lookaheadSize < 256
  }

  /** One record before serialization. */
  datatype Record = Record(dist: nat, len: nat, next: byte)

  // ---------------------------------------------------------------------
  // Match search (lz77.js:13-32)
  //
  // The source slices the window `buf[start..pos)` and the lookahead
  // `buf[pos..end)` out of the input; the model reads the same bytes by
  // their index in `data`, so window position `j` is `data[j]` and its
  // distance is `pos - j` (`window.length - i`).

  /** Start of the window, `Math.max(0, pos - windowSize)`. */
  function WindowStart(cfg: Config, pos: nat): nat
  {
    if pos < cfg.windowSize then 0 else pos - cfg.windowSize
  }

  /** End of the lookahead (`slice` clamps to the buffer). */
  function LookaheadEnd(cfg: Config, data: seq<byte>, pos: nat): nat
  {
    if pos + cfg.lookaheadSize < |data| then pos + cfg.lookaheadSize else |data|
  }

  /** The `m` bytes from `a` equal the `m` bytes from `b`, compared one by
      one. */
  predicate Agree(data: seq<byte>, a: nat, b: nat, m: nat)
    decreases m
  {
    m == 0 || (a < |data| && b < |data| && data[a] == data[b] && Agree(data, a + 1, b + 1, m - 1))
  }

  lemma {:induction false} AgreeAt(data: seq<byte>, a: nat, b: nat, m: nat, t: nat)
    ensures Agree(data, a, b, m) && t < m ==> a + t < |data| && b + t < |data| && data[a + t] == data[b + t]
    decreases m
  {
    if m > 0 && t > 0 {
      AgreeAt(data, a + 1, b + 1, m - 1, t - 1);
    }
  }

  lemma {:induction false} AgreeSnoc(data: seq<byte>, a: nat, b: nat, m: nat)
    requires Agree(data, a, b, m) && a + m < |data| && b + m < |data| && data[a + m] == data[b + m]
    ensures Agree(data, a, b, m + 1)
    decreases m
  {
    if m > 0 {
      AgreeSnoc(data, a + 1, b + 1, m - 1);
    }
  }

  lemma {:induction false} AgreeShorter(data: seq<byte>, a: nat, b: nat, m: nat, m': nat)
    ensures Agree(data, a, b, m) && m' <= m ==> Agree(data, a, b, m')
    decreases m
  {
    if m > 0 && m' > 0 {
      AgreeShorter(data, a + 1, b + 1, m - 1, m' - 1);
    }
  }

  /** The inner `while` at window position `j`: how many bytes from `j`
      agree with the lookahead from `pos`, starting from `k` matched bytes.
      It stops at the lookahead end `e` and at the window end `pos`, since
      reading past the window yields `undefined`, which equals no byte. */
  function MatchLen(data: seq<byte>, pos: nat, e: nat, j: nat, k: nat): (m: nat)
    requires j + k <= pos && pos + k <= e <= |data|
    ensures k <= m && j + m <= pos && pos + m <= e
    decreases e - (pos + k)
  {
    if pos + k < e && j + k < pos && data[j + k] == data[pos + k] then MatchLen(data, pos, e, j, k + 1)
    else k
  }

  /** The inner loop stops exactly at the first disagreement. */
  lemma {:induction false} MatchLenSpec(data: seq<byte>, pos: nat, e: nat, j: nat, k: nat)
    requires j + k <= pos && pos + k <= e <= |data|
    requires Agree(data, j, pos, k)
    ensures var m := MatchLen(data, pos, e, j, k);
            && Agree(data, j, pos, m)
            && (pos + m < e && j + m < pos ==> data[j + m] != data[pos + m])
    decreases e - (pos + k)
  {
    if pos + k < e && j + k < pos && data[j + k] == data[pos + k] {
      AgreeSnoc(data, j, pos, k);
      MatchLenSpec(data, pos, e, j, k + 1);
    }
  }

  /** Match length at window position `j`, from scratch. */
  function MatchAt(data: seq<byte>, pos: nat, e: nat, j: nat): (m: nat)
    requires j <= pos <= e <= |data|
    ensures j + m <= pos && pos + m <= e
  {
    MatchLen(data, pos, e, j, 0)
  }

  /** Match length at every window position `ws..pos`, indexed like the
      source's `window` (`lens[i]` is the length at `data[ws + i]`). */
  function Lengths(data: seq<byte>, ws: nat, pos: nat, e: nat): (lens: seq<nat>)
    requires ws <= pos <= e <= |data|
    ensures |lens| == pos - ws
    decreases pos - ws
  {
    if ws == pos then [] else [MatchAt(data, pos, e, ws)] + Lengths(data, ws + 1, pos, e)
  }

  lemma {:induction false} LengthsAt(data: seq<byte>, ws: nat, pos: nat, e: nat)
    requires ws <= pos <= e <= |data|
    ensures forall i :: 0 <= i < pos - ws ==> Lengths(data, ws, pos, e)[i] == MatchAt(data, pos, e, ws + i)
    decreases pos - ws
  {
    if ws < pos {
      LengthsAt(data, ws + 1, pos, e);
    }
  }

  /** The outer `for` over the window: a position replaces the best one
      only when strictly longer, and the distance of window index `i` is
      `|lens| - i`. `(bestLen, bestDist)` is the best so far. */
  function FindBest(lens: seq<nat>, i: nat, bestLen: nat, bestDist: nat): (r: (nat, nat))
    requires i <= |lens|
    requires bestLen == 0 ==> bestDist == 0
    requires bestLen > 0 ==> 1 <= bestDist <= |lens| && lens[|lens| - bestDist] == bestLen
    ensures r.0 == 0 ==> r.1 == 0
    ensures r.0 > 0 ==> 1 <= r.1 <= |lens| && lens[|lens| - r.1] == r.0
    decreases |lens| - i
  {
    if i == |lens| then (bestLen, bestDist)
    else if lens[i] > bestLen then FindBest(lens, i + 1, lens[i], |lens| - i)
    else FindBest(lens, i + 1, bestLen, bestDist)
  }

  /** The scan finds a longest match: no window index matches more. */
  lemma {:induction false} FindBestMax(lens: seq<nat>, i: nat, bestLen: nat, bestDist: nat)
    requires i <= |lens|
    requires bestLen == 0 ==> bestDist == 0
    requires bestLen > 0 ==> 1 <= bestDist <= |lens| && lens[|lens| - bestDist] == bestLen
    requires forall k :: 0 <= k < i ==> lens[k] <= bestLen
    ensures var r := FindBest(lens, i, bestLen, bestDist);
            forall k :: 0 <= k < |lens| ==> lens[k] <= r.0
    decreases |lens| - i
  {
    if i < |lens| {
      if lens[i] > bestLen {
        FindBestMax(lens, i + 1, lens[i], |lens| - i);
      } else {
        FindBestMax(lens, i + 1, bestLen, bestDist);
      }
    }
  }

  /** Among the longest matches the scan keeps the first, the one furthest
      back: every window index before it matches less. */
  lemma {:induction false} FindBestFirst(lens: seq<nat>, i: nat, bestLen: nat, bestDist: nat)
    requires i <= |lens|
    requires bestLen == 0 ==> bestDist == 0
    requires bestLen > 0 ==> 1 <= bestDist <= |lens| && |lens| - bestDist < i && lens[|lens| - bestDist] == bestLen
    requires forall k :: 0 <= k < i ==> lens[k] <= bestLen
    requires forall k :: 0 <= k < |lens| - bestDist && bestLen > 0 ==> lens[k] < bestLen
    ensures var r := FindBest(lens, i, bestLen, bestDist);
            forall k :: 0 <= k < |lens| - r.1 && r.0 > 0 ==> lens[k] < r.0
    decreases |lens| - i
  {
    if i < |lens| {
      if lens[i] > bestLen {
        FindBestFirst(lens, i + 1, lens[i], |lens| - i);
      } else {
        FindBestFirst(lens, i + 1, bestLen, bestDist);
      }
    }
  }

  /** The bytes `d` back from `pos` agree with the bytes at `pos` on `m`
      positions, without running past `pos` (the window end), the lookahead
      or the input. */
  predicate IsMatch(cfg: Config, data: seq<byte>, pos: nat, d: nat, m: nat)
  {
    && 1 <= d <= pos
    && m <= d && m <= cfg.lookaheadSize && pos + m <= |data|
    && Agree(data, pos - d, pos, m)
  }

  /** A match is also a match of any shorter length. */
  lemma IsMatchShorter(cfg: Config, data: seq<byte>, pos: nat, d: nat, m: nat, m': nat)
    ensures IsMatch(cfg, data, pos, d, m) && m' <= m ==> IsMatch(cfg, data, pos, d, m')
  {
    if 1 <= d <= pos {
      AgreeShorter(data, pos - d, pos, m, m');
    }
  }

  /** Distances the window at `pos` offers. */
  predicate InWindow(cfg: Config, pos: nat, d: nat)
  {
    1 <= d <= pos && d <= cfg.windowSize
  }

  /** The brute-force search at `pos`: `(bestLen, bestDist)`. */
  function Search(cfg: Config, data: seq<byte>, pos: nat): (r: (nat, nat))
    requires pos < |data|
    ensures r.0 <= cfg.lookaheadSize && pos + r.0 <= |data|
    ensures r.0 == 0 ==> r.1 == 0
    ensures r.0 > 0 ==> InWindow(cfg, pos, r.1) && r.0 <= r.1
  {
    var ws := WindowStart(cfg, pos);
    var lens := Lengths(data, ws, pos, LookaheadEnd(cfg, data, pos));
    LengthsAt(data, ws, pos, LookaheadEnd(cfg, data, pos));
    var r := FindBest(lens, 0, 0, 0);
    assert r.0 > 0 ==> lens[|lens| - r.1] == MatchAt(data, pos, LookaheadEnd(cfg, data, pos), pos - r.1);
    r
  }

  /** The match the search sees at distance `d` is an `IsMatch` of that
      length, and no `IsMatch` at `d` is longer. */
  lemma MatchAtMeaning(cfg: Config, data: seq<byte>, pos: nat, d: nat)
    requires pos < |data| && InWindow(cfg, pos, d)
    ensures var a := MatchAt(data, pos, LookaheadEnd(cfg, data, pos), pos - d);
            IsMatch(cfg, data, pos, d, a) && !IsMatch(cfg, data, pos, d, a + 1)
  {
    var e := LookaheadEnd(cfg, data, pos);
    var a := MatchAt(data, pos, e, pos - d);
    MatchLenSpec(data, pos, e, pos - d, 0);
    AgreeAt(data, pos - d, pos, a + 1, a);
  }

  /** The search result against the match the scan sees at one distance
      of the window: never shorter, and strictly longer further back. */
  lemma SearchScore(cfg: Config, data: seq<byte>, pos: nat, d: nat)
    requires pos < |data| && InWindow(cfg, pos, d)
    ensures var (len, dist) := Search(cfg, data, pos);
            var a := MatchAt(data, pos, LookaheadEnd(cfg, data, pos), pos - d);
            a <= len && (len > 0 && d > dist ==> a < len)
  {
    var ws, e := WindowStart(cfg, pos), LookaheadEnd(cfg, data, pos);
    var lens := Lengths(data, ws, pos, e);
    LengthsAt(data, ws, pos, e);
    FindBestMax(lens, 0, 0, 0);
    FindBestFirst(lens, 0, 0, 0);
    assert lens[pos - d - ws] == MatchAt(data, pos, e, pos - d);
  }

  /** No distance in the window holds a match longer than the search
      result, nor one as long further back. */
  lemma SearchBound(cfg: Config, data: seq<byte>, pos: nat, d: nat)
    requires pos < |data| && InWindow(cfg, pos, d)
    ensures var (len, dist) := Search(cfg, data, pos);
            && !IsMatch(cfg, data, pos, d, len + 1)
            && (len > 0 && d > dist ==> !IsMatch(cfg, data, pos, d, len))
  {
    var (len, dist) := Search(cfg, data, pos);
    SearchScore(cfg, data, pos, d);
    MatchAtMeaning(cfg, data, pos, d);
    var a := MatchAt(data, pos, LookaheadEnd(cfg, data, pos), pos - d);
    IsMatchShorter(cfg, data, pos, d, len + 1, a + 1);
    IsMatchShorter(cfg, data, pos, d, len, a + 1);
  }

  /** What the search result means in terms of the input. */
  lemma SearchMeaning(cfg: Config, data: seq<byte>, pos: nat)
    requires pos < |data|
    ensures var (len, dist) := Search(cfg, data, pos);
            && (len > 0 ==> IsMatch(cfg, data, pos, dist, len))
            && (forall d: nat :: InWindow(cfg, pos, d) ==> !IsMatch(cfg, data, pos, d, len + 1))
            && (len > 0 ==> forall d: nat :: InWindow(cfg, pos, d) && d > dist ==> !IsMatch(cfg, data, pos, d, len))
  {
    var (len, dist) := Search(cfg, data, pos);
    if len > 0 {
      var ws, e := WindowStart(cfg, pos), LookaheadEnd(cfg, data, pos);
      LengthsAt(data, ws, pos, e);
      assert Lengths(data, ws, pos, e)[pos - dist - ws] == MatchAt(data, pos, e, pos - dist);
      MatchAtMeaning(cfg, data, pos, dist);
    }
    forall d: nat | InWindow(cfg, pos, d)
      ensures !IsMatch(cfg, data, pos, d, len + 1)
      ensures len > 0 && d > dist ==> !IsMatch(cfg, data, pos, d, len)
    {
      SearchBound(cfg, data, pos, d);
    }
  }

  // ---------------------------------------------------------------------
  // compress (lz77.js:8-47)

  /** One iteration of the compressor loop at `pos`. A match of at least
      three bytes becomes a back-reference whose `next` is the byte after the
      match, or 0 when the match reaches the end of the input
      (`buf[pos + bestLen] ?? 0`); anything shorter becomes a literal. */
  function Step(cfg: Config, data: seq<byte>, pos: nat): (r: Record)
    requires pos < |data|
    ensures r.len == 0 ==> r.dist == 0 && r.next == data[pos]
    ensures r.len > 0 ==>
              && MinMatch <= r.len <= cfg.lookaheadSize
              && r.len <= r.dist && InWindow(cfg, pos, r.dist)
              && pos + r.len <= |data|
              && r.next == (if pos + r.len < |data| then data[pos + r.len] else 0)
  {
    var (bestLen, bestDist) := Search(cfg, data, pos);
    if bestLen >= MinMatch then
      Record(bestDist, bestLen, if pos + bestLen < |data| then data[pos + bestLen] else 0)
    else
      Record(0, 0, data[pos])
  }

  /** A back-reference copies bytes equal to the ones it stands for. */
  lemma StepMatches(cfg: Config, data: seq<byte>, pos: nat)
    requires pos < |data|
    ensures var r := Step(cfg, data, pos);
            r.len > 0 ==> IsMatch(cfg, data, pos, r.dist, r.len)
  {
    SearchMeaning(cfg, data, pos);
  }

  /** The greedy choice (lz77.js:20-31, 34): a back-reference is emitted
      exactly when the window holds a match of at least three bytes; it is
      the longest such match, and among the longest the one furthest back. */
  lemma StepIsLongest(cfg: Config, data: seq<byte>, pos: nat)
    requires pos < |data|
    ensures var r := Step(cfg, data, pos);
            && (r.len > 0 <==> exists d: nat :: InWindow(cfg, pos, d) && IsMatch(cfg, data, pos, d, MinMatch))
            && (r.len > 0 ==> forall d: nat :: InWindow(cfg, pos, d) ==> !IsMatch(cfg, data, pos, d, r.len + 1))
            && (r.len > 0 ==> forall d: nat :: InWindow(cfg, pos, d) && d > r.dist ==> !IsMatch(cfg, data, pos, d, r.len))
  {
    var r := Step(cfg, data, pos);
    SearchMeaning(cfg, data, pos);
    var (bestLen, bestDist) := Search(cfg, data, pos);
    if r.len > 0 {
      IsMatchShorter(cfg, data, pos, r.dist, r.len, MinMatch);
    } else {
      forall d: nat | InWindow(cfg, pos, d)
        ensures !IsMatch(cfg, data, pos, d, MinMatch)
      {
        IsMatchShorter(cfg, data, pos, d, MinMatch, bestLen + 1);
      }
    }
  }

  /** The record one iteration emits at every position of the input. The
      loop visits only some positions; the others are never looked at. */
  function Steps(cfg: Config, data: seq<byte>): (table: seq<Record>)
    ensures |table| == |data|
    ensures forall p :: 0 <= p < |data| ==> table[p] == Step(cfg, data, p)
  {
    seq(|data|, p requires 0 <= p < |data| => Step(cfg, data, p))
  }

  /** The compressor loop from `pos` on, given the record emitted at each
      position: emit, skip the copied bytes and the `next` byte, until `pos`
      passes the end. */
  function Walk(table: seq<Record>, pos: nat): seq<Record>
    decreases |table| - pos
  {
    if pos >= |table| then [] else [table[pos]] + Walk(table, pos + table[pos].len + 1)
  }

  /** The records `compress` emits for `data`. */
  function Records(cfg: Config, data: seq<byte>): seq<Record>
  {
    Walk(Steps(cfg, data), 0)
  }

  /** `out.push((d >> 8) & 0xff, d & 0xff, len, next)`; `Buffer.from` keeps
      the low 8 bits of the length. */
  function EncodeRecord(r: Record): (b: seq<byte>)
    ensures |b| == 4
  {
    [(r.dist / 256) % 256, r.dist % 256, r.len % 256, r.next]
  }

  function EncodeRecords(rs: seq<Record>): (b: seq<byte>)
    ensures |b| == 4 * |rs|
  {
    if rs == [] then [] else EncodeRecord(rs[0]) + EncodeRecords(rs[1..])
  }

  /** `LZ77.compress`. */
  function Compress(cfg: Config, data: seq<byte>): (b: seq<byte>)
    ensures |b| % 4 == 0
    ensures data == [] <==> b == []
  {
    EncodeRecords(Records(cfg, data))
  }

  // ---------------------------------------------------------------------
  // decompress (lz77.js:49-74)

  /** The records of a buffer; 1-3 trailing bytes do not form one and are
      dropped (`i + 3 < buf.length`). */
  function ParseRecords(buf: seq<byte>): (rs: seq<Record>)
    ensures |rs| == |buf| / 4
    decreases |buf|
  {
    if |buf| < 4 then []
    else [Record(buf[0] as nat * 256 + buf[1] as nat, buf[2], buf[3])] + ParseRecords(buf[4..])
  }

  /** `out[i]`, or 0 where the source reads `undefined` (outside the
      output), which `Buffer.from` stores as 0. */
  function ByteAt(out: seq<byte>, i: int): byte
  {
    if 0 <= i < |out| then out[i] else 0
  }

  /** The inner copy loop (lz77.js:64-67): byte `j` is read from the growing
      output at `start + j`. */
  function CopyBack(out: seq<byte>, start: int, n: nat): (r: seq<byte>)
    ensures |r| == |out| + n && r[..|out|] == out
    decreases n
  {
    if n == 0 then out
    else
      var r := CopyBack(out + [ByteAt(out, start)], start + 1, n - 1);
      assert r[..|out|] == r[..|out| + 1][..|out|];
      r
  }

  /** Each copied byte equals the byte `|out| - start` positions before it,
      so a distance below the length repeats the last `dist` bytes. */
  lemma {:induction false} CopyBackRepeats(out: seq<byte>, start: nat, n: nat)
    requires start < |out|
    ensures var r := CopyBack(out, start, n);
            forall k :: |out| <= k < |r| ==> r[k] == r[k - (|out| - start)]
    decreases n
  {
    if n > 0 {
      var out' := out + [ByteAt(out, start)];
      CopyBackRepeats(out', start + 1, n - 1);
      var r := CopyBack(out, start, n);
      assert r[..|out'|] == out';
      assert r == CopyBack(out', start + 1, n - 1);
      assert r[|out|] == out'[|out|] == out[start] == r[start];
    }
  }

  /** Replays records onto `out`: a literal appends its byte, anything else
      copies `len` bytes from `dist` back and appends `next`. */
  function Replay(rs: seq<Record>, out: seq<byte>): seq<byte>
    decreases |rs|
  {
    if rs == [] then out
    else
      var r := rs[0];
      if r.dist == 0 && r.len == 0 then Replay(rs[1..], out + [r.next])
      else Replay(rs[1..], CopyBack(out, |out| - r.dist, r.len) + [r.next])
  }

  /** Replaying only appends to the output: the bytes already there stay,
      and each record adds its length plus its `next` byte. */
  lemma {:induction false} ReplayGrows(rs: seq<Record>, out: seq<byte>)
    ensures |Replay(rs, out)| == |out| + Produced(rs)
    ensures Replay(rs, out)[..|out|] == out
    decreases |rs|
  {
    if rs != [] {
      var r := rs[0];
      var out' := if r.dist == 0 && r.len == 0 then out + [r.next]
                  else CopyBack(out, |out| - r.dist, r.len) + [r.next];
      assert Replay(rs, out) == Replay(rs[1..], out');
      ReplayGrows(rs[1..], out');
      assert out'[..|out|] == out;
      assert Replay(rs, out)[..|out|] == Replay(rs, out)[..|out'|][..|out|];
    }
  }

  /** `LZ77.decompress`. It never fails: every buffer decodes to some bytes. */
  function Decompress(buf: seq<byte>): seq<byte>
  {
    Replay(ParseRecords(buf), [])
  }

  // ---------------------------------------------------------------------
  // Format and bounds of the compressed records

  /** Bytes a list of records decodes to: each contributes its copied
      length plus its `next` byte. */
  function Produced(rs: seq<Record>): nat
  {
    if rs == [] then 0 else rs[0].len + 1 + Produced(rs[1..])
  }

  /** A literal `(0, 0, b)`, or a back-reference of 3..lookahead bytes whose
      distance lies in the window and is at least its length. */
  predicate WellShaped(cfg: Config, r: Record)
  {
    || (r.dist == 0 && r.len == 0)
    || (MinMatch <= r.len <= cfg.lookaheadSize && r.len <= r.dist <= cfg.windowSize)
  }

  /** What the compressor may emit at `pos`: a well-shaped literal of the
      byte at `pos`, or a well-shaped back-reference to a copy of the bytes
      at `pos` that lies inside the bytes before `pos`, carrying the byte
      after the match or 0 at the end of the input. */
  predicate Emits(cfg: Config, data: seq<byte>, pos: nat, r: Record)
  {
    && pos < |data| && WellShaped(cfg, r) && r.dist <= pos
    && (r.len == 0 ==> r.next == data[pos])
    && (r.len > 0 ==>
          && pos + r.len <= |data|
          && Agree(data, pos - r.dist, pos, r.len)
          && r.next == (if pos + r.len < |data| then data[pos + r.len] else 0))
  }

  /** One compressor step emits such a record. */
  lemma StepEmits(cfg: Config, data: seq<byte>, pos: nat)
    requires pos < |data|
    ensures Emits(cfg, data, pos, Step(cfg, data, pos))
  {
    StepMatches(cfg, data, pos);
  }

  /** `rs` rebuilds `data` from `pos` on, record by record: each record is
      one the compressor may emit at its position, the next record starts
      after its copy and its `next` byte, and the list ends exactly at the
      end of the input; `pad` says whether it ends with a back-reference
      reaching the end, whose `next` is the padding 0. */
  predicate Decodes(cfg: Config, rs: seq<Record>, data: seq<byte>, pos: nat, pad: bool)
    decreases |rs|
  {
    if rs == [] then pos == |data| && !pad
    else
      var r := rs[0];
      && Emits(cfg, data, pos, r)
      && if r.len > 0 && pos + r.len == |data| then rs[1..] == [] && pad
         else Decodes(cfg, rs[1..], data, pos + r.len + 1, pad)
  }

  /** Every record of `table` is one the compressor may emit at its
      position. */
  predicate EmitsAll(cfg: Config, data: seq<byte>, table: seq<Record>)
  {
    |table| == |data| && forall p :: 0 <= p < |data| ==> Emits(cfg, data, p, table[p])
  }

  lemma StepsEmit(cfg: Config, data: seq<byte>)
    ensures EmitsAll(cfg, data, Steps(cfg, data))
  {
    forall p | 0 <= p < |data|
      ensures Emits(cfg, data, p, Steps(cfg, data)[p])
    {
      StepEmits(cfg, data, p);
    }
  }

  /** Whether the walk from `pos` ends with a match that reaches the end of
      the input, so that its `next` byte is the padding 0. */
  predicate EndsInMatch(table: seq<Record>, pos: nat)
    decreases |table| - pos
  {
    if pos >= |table| then false
    else
      var r := table[pos];
      if r.len > 0 && pos + r.len == |table| then true
      else EndsInMatch(table, pos + r.len + 1)
  }

  /** Whether the last record `compress` emits for `data` is a match that
      reaches the end of the input. */
  predicate LastMatchReachesEnd(cfg: Config, data: seq<byte>)
  {
    EndsInMatch(Steps(cfg, data), 0)
  }

  /** `Decodes` of a nonempty list, from its head and its tail. */
  lemma DecodesCons(cfg: Config, r: Record, rest: seq<Record>, data: seq<byte>, pos: nat, pad: bool)
    requires Emits(cfg, data, pos, r)
    requires if r.len > 0 && pos + r.len == |data| then rest == [] && pad
             else Decodes(cfg, rest, data, pos + r.len + 1, pad)
    ensures Decodes(cfg, [r] + rest, data, pos, pad)
  {
    assert ([r] + rest)[0] == r && ([r] + rest)[1..] == rest;
  }

  /** The records the loop emits from `pos` on rebuild the input from `pos`
      on. */
  lemma {:induction false} WalkDecodes(cfg: Config, data: seq<byte>, table: seq<Record>, pos: nat)
    requires EmitsAll(cfg, data, table) && pos <= |data|
    ensures Decodes(cfg, Walk(table, pos), data, pos, EndsInMatch(table, pos))
    decreases |data| - pos
  {
    if pos < |data| {
      var r := table[pos];
      var pos' := pos + r.len + 1;
      if r.len > 0 && pos + r.len == |data| {
        assert Walk(table, pos') == [];
        DecodesCons(cfg, r, [], data, pos, true);
      } else {
        WalkDecodes(cfg, data, table, pos');
        DecodesCons(cfg, r, Walk(table, pos'), data, pos, EndsInMatch(table, pos'));
      }
    }
  }

  /** The records `compress` emits rebuild the whole input. */
  lemma RecordsDecode(cfg: Config, data: seq<byte>)
    ensures Decodes(cfg, Records(cfg, data), data, 0, LastMatchReachesEnd(cfg, data))
  {
    StepsEmit(cfg, data);
    WalkDecodes(cfg, data, Steps(cfg, data), 0);
  }

  /** Records that rebuild the input are well shaped and never reach before
      the bytes decoded ahead of them. */
  lemma {:induction false} DecodesShaped(cfg: Config, rs: seq<Record>, data: seq<byte>, pos: nat, pad: bool)
    requires Decodes(cfg, rs, data, pos, pad)
    ensures forall k :: 0 <= k < |rs| ==> WellShaped(cfg, rs[k])
    ensures forall k :: 0 <= k < |rs| ==> rs[k].dist <= pos + Produced(rs[..k])
    decreases |rs|
  {
    if rs != [] {
      var r, rest := rs[0], rs[1..];
      if r.len > 0 && pos + r.len == |data| {
        assert rs == [r];
      } else {
        DecodesShaped(cfg, rest, data, pos + r.len + 1, pad);
        forall k | 0 < k < |rs|
          ensures WellShaped(cfg, rs[k]) && rs[k].dist <= pos + Produced(rs[..k])
        {
          assert rs[k] == rest[k - 1];
          assert rs[..k][0] == r && rs[..k][1..] == rest[..k - 1];
        }
      }
    }
  }

  /** Format of the emitted records (lz77.js:14-41): each is a literal
      `(0, 0, b)` or a back-reference of 3..lookahead bytes whose distance
      lies in the window, is at least its length, and reaches no further back
      than the bytes decoded before it. */
  lemma CompressedRecordsValid(cfg: Config, data: seq<byte>)
    ensures var rs := Records(cfg, data);
            && (forall k :: 0 <= k < |rs| ==> WellShaped(cfg, rs[k]))
            && (forall k :: 0 <= k < |rs| ==> rs[k].dist <= Produced(rs[..k]))
  {
    RecordsDecode(cfg, data);
    DecodesShaped(cfg, Records(cfg, data), data, 0, LastMatchReachesEnd(cfg, data));
  }

  /** Serializing and parsing records are inverse when every field fits. */
  lemma {:induction false} ParseEncode(rs: seq<Record>)
    requires forall k :: 0 <= k < |rs| ==> rs[k].dist < 0x1_0000 && rs[k].len < 256
    ensures ParseRecords(EncodeRecords(rs)) == rs
  {
    if rs != [] {
      var b := EncodeRecords(rs);
      assert b[4..] == EncodeRecords(rs[1..]);
      ParseEncode(rs[1..]);
    }
  }

  // ---------------------------------------------------------------------
  // Round trip

  /** A prefix grows by its next element. */
  lemma PrefixSnoc(data: seq<byte>, i: nat)
    requires i < |data|
    ensures data[..i] + [data[i]] == data[..i + 1]
  {
  }

  /** Copying a match from the growing output reproduces the matched bytes. */
  lemma {:induction false} CopyMatch(data: seq<byte>, p: nat, d: nat, n: nat)
    requires 1 <= d <= p && p + n <= |data|
    requires Agree(data, p - d, p, n)
    ensures CopyBack(data[..p], p - d, n) == data[..p + n]
    decreases n
  {
    if n > 0 {
      assert data[..p] + [data[..p][p - d]] == data[..p + 1];
      CopyMatch(data, p + 1, d, n - 1);
    }
  }

  /** Replaying a literal appends its byte. */
  lemma ReplayLiteral(r: Record, rest: seq<Record>, out: seq<byte>)
    requires r.dist == 0 && r.len == 0
    ensures Replay([r] + rest, out) == Replay(rest, out + [r.next])
  {
    var rs := [r] + rest;
    assert rs[0] == r && rs[1..] == rest;
    assert Replay(rs, out) == Replay(rs[1..], out + [r.next]);
  }

  /** Replaying a back-reference within the output copies and then appends
      its `next` byte. */
  lemma ReplayCopy(r: Record, rest: seq<Record>, out: seq<byte>)
    requires r.dist > 0 || r.len > 0
    ensures Replay([r] + rest, out) == Replay(rest, CopyBack(out, |out| - r.dist, r.len) + [r.next])
  {
    var rs := [r] + rest;
    assert rs[0] == r && rs[1..] == rest;
    var out' := CopyBack(out, |out| - r.dist, r.len) + [r.next];
    assert Replay(rs, out) == Replay(rs[1..], out');
  }

  /** Replaying a record that matches the input at `p` and carries the byte
      after the match restores the input up to the next position. */
  lemma ReplayMatched(data: seq<byte>, p: nat, r: Record, rest: seq<Record>)
    requires 1 <= r.dist <= p && p + r.len < |data|
    requires Agree(data, p - r.dist, p, r.len)
    requires r.next == data[p + r.len]
    ensures Replay([r] + rest, data[..p]) == Replay(rest, data[..p + r.len + 1])
  {
    ReplayCopy(r, rest, data[..p]);
    CopyMatch(data, p, r.dist, r.len);
    PrefixSnoc(data, p + r.len);
  }

  /** The first record of a list that rebuilds the input, and what
      `Decodes` says about the rest. */
  lemma DecodesUncons(cfg: Config, rs: seq<Record>, data: seq<byte>, pos: nat, pad: bool)
    requires rs != [] && Decodes(cfg, rs, data, pos, pad)
    ensures Emits(cfg, data, pos, rs[0])
    ensures rs == [rs[0]] + rs[1..]
    ensures var r := rs[0];
            if r.len > 0 && pos + r.len == |data| then rs[1..] == [] && pad
            else Decodes(cfg, rs[1..], data, pos + r.len + 1, pad)
  {
  }

  /** Replaying a back-reference that matches the input at `p` up to its end
      restores the whole input and appends its `next` byte. */
  lemma ReplayEnd(data: seq<byte>, p: nat, r: Record)
    requires 1 <= r.dist <= p && p + r.len == |data|
    requires Agree(data, p - r.dist, p, r.len)
    ensures Replay([r], data[..p]) == data + [r.next]
  {
    ReplayCopy(r, [], data[..p]);
    CopyMatch(data, p, r.dist, r.len);
    assert data[..p + r.len] == data;
    assert [r] + [] == [r];
  }

  /** The bytes replaying records that rebuild `data` yields: all of it,
      plus the padding 0 if any. */
  function Rebuilt(data: seq<byte>, pad: bool): seq<byte>
  {
    if pad then data + [0] else data
  }

  /** Replaying records that rebuild the input from `pos` on, after the
      first `pos` bytes, yields the whole input, plus the padding 0 if any.
      The induction is split by the kind of the first record. */
  lemma {:induction false} ReplayDecodes(cfg: Config, rs: seq<Record>, data: seq<byte>, pos: nat, pad: bool)
    requires pos <= |data| && Decodes(cfg, rs, data, pos, pad)
    ensures Replay(rs, data[..pos]) == Rebuilt(data, pad)
    decreases |rs|, 1
  {
    if rs == [] {
      assert data[..pos] == data;
    } else {
      var r := rs[0];
      DecodesUncons(cfg, rs, data, pos, pad);
      if r.len == 0 {
        ReplayDecodesLiteral(cfg, rs, data, pos, pad);
      } else if pos + r.len < |data| {
        ReplayDecodesMatch(cfg, rs, data, pos, pad);
      } else {
        ReplayEnd(data, pos, r);
      }
    }
  }

  /** `ReplayDecodes` when the first record is a literal. */
  lemma {:induction false} ReplayDecodesLiteral(cfg: Config, rs: seq<Record>, data: seq<byte>, pos: nat, pad: bool)
    requires rs != [] && rs[0].len == 0
    requires pos <= |data| && Decodes(cfg, rs, data, pos, pad)
    ensures Replay(rs, data[..pos]) == Rebuilt(data, pad)
    decreases |rs|, 0
  {
    var r, rest := rs[0], rs[1..];
    DecodesUncons(cfg, rs, data, pos, pad);
    ReplayDecodes(cfg, rest, data, pos + 1, pad);
    ReplayLiteral(r, rest, data[..pos]);
    PrefixSnoc(data, pos);
  }

  /** `ReplayDecodes` when the first record is a back-reference that stops
      before the end of the input. */
  lemma {:induction false} ReplayDecodesMatch(cfg: Config, rs: seq<Record>, data: seq<byte>, pos: nat, pad: bool)
    requires rs != [] && rs[0].len > 0 && pos + rs[0].len < |data|
    requires Decodes(cfg, rs, data, pos, pad)
    ensures Replay(rs, data[..pos]) == Rebuilt(data, pad)
    decreases |rs|, 0
  {
    var r, rest := rs[0], rs[1..];
    DecodesUncons(cfg, rs, data, pos, pad);
    ReplayDecodes(cfg, rest, data, pos + r.len + 1, pad);
    ReplayMatched(data, pos, r, rest);
  }

  /** Round trip: decompressing gives back the input, followed by one 0 byte
      exactly when the last record is a match that reaches the end of the
      input. */
  lemma RoundTrip(cfg: Config, data: seq<byte>)
    requires Encodable(cfg)
    ensures Decompress(Compress(cfg, data))
         == data + if LastMatchReachesEnd(cfg, data) then [0] else []
  {
    var rs := Records(cfg, data);
    var pad := LastMatchReachesEnd(cfg, data);
    RecordsDecode(cfg, data);
    DecodesShaped(cfg, rs, data, 0, pad);
    ParseEncode(rs);
    ReplayDecodes(cfg, rs, data, 0, pad);
    assert data[..0] == [];
    assert Rebuilt(data, pad) == data + if pad then [0] else [];
  }

  /** In the first three positions the window is too short for a
      back-reference. */
  lemma EarlyLiteral(cfg: Config, data: seq<byte>, pos: nat)
    requires pos < MinMatch && pos < |data|
    ensures Step(cfg, data, pos).len == 0
  {
  }

  /** A repeated half: an input made of two copies of a three-byte block
      ends in a back-reference that reaches its end. */
  lemma RepeatedBlockPads(cfg: Config, data: seq<byte>)
    requires MinMatch <= cfg.windowSize && MinMatch <= cfg.lookaheadSize
    requires |data| == 2 * MinMatch && Agree(data, 0, MinMatch, MinMatch)
    ensures LastMatchReachesEnd(cfg, data)
  {
    var table := Steps(cfg, data);
    EarlyLiteral(cfg, data, 0);
    EarlyLiteral(cfg, data, 1);
    EarlyLiteral(cfg, data, 2);
    assert InWindow(cfg, MinMatch, MinMatch) && IsMatch(cfg, data, MinMatch, MinMatch, MinMatch);
    StepIsLongest(cfg, data, MinMatch);
    assert table[MinMatch].len == MinMatch;
    assert EndsInMatch(table, 3);
    assert EndsInMatch(table, 2) && EndsInMatch(table, 1);
  }

  /** The as-written loss of the round trip: in `[1, 2, 3, 1, 2, 3]` the
      second `1, 2, 3` is a back-reference that reaches the end of the input,
      so its `next` is the padding 0 and decompression appends it. */
  lemma TrailingZero(data: seq<byte>)
    requires data == [1, 2, 3, 1, 2, 3]
    ensures Decompress(Compress(Default, data)) == data + [0]
  {
    RepeatedBlockPads(Default, data);
    RoundTrip(Default, data);
  }

  // ---------------------------------------------------------------------
  // Corrected compressor
  //
  // The evident intent is that a back-reference always leaves the byte
  // after it for `next`: the lookahead stops one byte before the end of the
  // input (`buf.slice(pos, Math.min(pos + lookaheadSize, buf.length - 1))`).
  // The search then runs on the input without its last byte.

  /** Bytes that agree in a prefix of the input agree in the input. */
  lemma {:induction false} AgreePrefix(data: seq<byte>, n: nat, a: nat, b: nat, m: nat)
    requires n <= |data|
    ensures Agree(data[..n], a, b, m) ==> Agree(data, a, b, m)
    decreases m
  {
    if m > 0 {
      AgreePrefix(data, n, a + 1, b + 1, m - 1);
    }
  }

  /** The corrected loop body: the search sees the input up to its last byte,
      so a match always ends before the end of the input and `next` is the
      byte after it. At the last byte the lookahead is empty: a literal. */
  function StepFixed(cfg: Config, data: seq<byte>, pos: nat): (r: Record)
    requires pos < |data|
    ensures r.len > 0 ==> pos + r.len < |data|
  {
    if pos + 1 == |data| then Record(0, 0, data[pos])
    else
      var r := Step(cfg, data[..|data| - 1], pos);
      if r.len == 0 then r else Record(r.dist, r.len, data[pos + r.len])
  }

  /** The corrected step emits a record the decoder turns back into the
      input. */
  lemma StepFixedEmits(cfg: Config, data: seq<byte>, pos: nat)
    requires pos < |data|
    ensures Emits(cfg, data, pos, StepFixed(cfg, data, pos))
  {
    if pos + 1 < |data| {
      var r := Step(cfg, data[..|data| - 1], pos);
      StepMatches(cfg, data[..|data| - 1], pos);
      if r.len > 0 {
        AgreePrefix(data, |data| - 1, pos - r.dist, pos, r.len);
      }
    }
  }

  function StepsFixed(cfg: Config, data: seq<byte>): (table: seq<Record>)
    ensures EmitsAll(cfg, data, table)
    ensures forall p :: 0 <= p < |table| && table[p].len > 0 ==> p + table[p].len < |table|
  {
    var table := seq(|data|, p requires 0 <= p < |data| => StepFixed(cfg, data, p));
    forall p | 0 <= p < |data|
      ensures Emits(cfg, data, p, table[p])
    {
      StepFixedEmits(cfg, data, p);
    }
    table
  }

  /** No walk ends in a match reaching the end when no record does. */
  lemma {:induction false} NoEndMatch(table: seq<Record>, pos: nat)
    requires forall p :: 0 <= p < |table| && table[p].len > 0 ==> p + table[p].len < |table|
    ensures !EndsInMatch(table, pos)
    decreases |table| - pos
  {
    if pos < |table| {
      NoEndMatch(table, pos + table[pos].len + 1);
    }
  }

  /** `compress` with the corrected loop body. */
  function CompressFixed(cfg: Config, data: seq<byte>): (b: seq<byte>)
    ensures |b| % 4 == 0
  {
    EncodeRecords(Walk(StepsFixed(cfg, data), 0))
  }

  /** The corrected compressor round-trips every input exactly. */
  lemma RoundTripFixed(cfg: Config, data: seq<byte>)
    requires Encodable(cfg)
    ensures Decompress(CompressFixed(cfg, data)) == data
  {
    var table := StepsFixed(cfg, data);
    var rs := Walk(table, 0);
    WalkDecodes(cfg, data, table, 0);
    NoEndMatch(table, 0);
    DecodesShaped(cfg, rs, data, 0, false);
    ParseEncode(rs);
    ReplayDecodes(cfg, rs, data, 0, false);
    assert data[..0] == [];
  }

  // ---------------------------------------------------------------------
  // Decompression details

  /** One to three trailing bytes that do not form a record are ignored. */
  lemma {:induction false} ParseIgnoresTail(buf: seq<byte>)
    ensures ParseRecords(buf) == ParseRecords(buf[..|buf| - |buf| % 4])
    decreases |buf|
  {
    if |buf| >= 4 {
      var cut := buf[..|buf| - |buf| % 4];
      assert cut[4..] == buf[4..][..|buf[4..]| - |buf[4..]| % 4];
      ParseIgnoresTail(buf[4..]);
    }
  }

  lemma DecompressIgnoresTail(buf: seq<byte>)
    ensures Decompress(buf) == Decompress(buf[..|buf| - |buf| % 4])
  {
    ParseIgnoresTail(buf);
  }

  /** A copy that starts `n` or more bytes before the output reads only
      `undefined`: it appends `n` zero bytes. */
  lemma {:induction false} CopyBackDangling(out: seq<byte>, start: int, n: nat)
    requires start + n <= 0
    ensures CopyBack(out, start, n) == out + Repeat(0, n)
    decreases n
  {
    if n > 0 {
      CopyBackDangling(out + [0], start + 1, n - 1);
      assert out + [0] + Repeat(0, n - 1) == out + Repeat(0, n);
    }
  }

  /** A zero distance with a nonzero length reads just past the end of the
      output at every step: it appends `n` zero bytes. */
  lemma {:induction false} CopyBackPastEnd(out: seq<byte>, n: nat)
    ensures CopyBack(out, |out|, n) == out + Repeat(0, n)
    decreases n
  {
    if n > 0 {
      CopyBackPastEnd(out + [0], n - 1);
      assert out + [0] + Repeat(0, n - 1) == out + Repeat(0, n);
    }
  }

  /** A back-reference before the start of the output is no error: the
      record `(5, 3, 'a')` as the first record yields three 0 bytes and
      `a`. */
  lemma DanglingReference()
    ensures Decompress([0, 5, 3, 97]) == [0, 0, 0, 97]
  {
    var buf: seq<byte> := [0, 5, 3, 97];
    var r := Record(5, 3, 97);
    assert buf[4..] == [];
    assert ParseRecords(buf) == [r] + [];
    ReplayCopy(r, [], []);
    CopyBackDangling([], -5, 3);
    assert Repeat(0, 3) + [97] == [0, 0, 0, 97];
  }

  /** Copying five bytes from distance 1 repeats the last byte. */
  lemma CopyRepeatsByte()
    ensures CopyBack([97], 0, 5) == [97, 97, 97, 97, 97, 97]
  {
    var copied := CopyBack([97], 0, 5);
    CopyBackRepeats([97], 0, 5);
    assert |copied| == 6 && copied[..1] == [97];
    assert copied[1] == copied[0] && copied[2] == copied[1] && copied[3] == copied[2];
    assert copied[4] == copied[3] && copied[5] == copied[4];
  }

  /** An overlapping copy repeats a pattern: after a literal `a`, the record
      `(1, 5, 'b')` yields `aaaaaab`. */
  lemma OverlappingCopy()
    ensures Decompress([0, 0, 0, 97, 0, 1, 5, 98]) == [97, 97, 97, 97, 97, 97, 98]
  {
    var buf: seq<byte> := [0, 0, 0, 97, 0, 1, 5, 98];
    var rs := [Record(0, 0, 97), Record(1, 5, 98)];
    assert buf[4..][4..] == [];
    assert ParseRecords(buf[4..]) == [rs[1]] + ParseRecords([]);
    assert ParseRecords(buf) == rs;
    CopyRepeatsByte();
    ReplayLiteral(rs[0], [rs[1]], []);
    ReplayCopy(rs[1], [], [97]);
    assert [rs[0]] + [rs[1]] == rs && [rs[1]] + [] == [rs[1]] && [] + [97] == [97];
    var copied := CopyBack([97], 0, 5);
    assert Replay(rs, []) == Replay([rs[1]], [97]) == Replay([], copied + [98]);
    assert Decompress(buf) == copied + [98];
    assert copied + [98] == [97, 97, 97, 97, 97, 97, 98];
  }
}
