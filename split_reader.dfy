/**
 * The offset-based file splitter: a file of `size` bytes is cut into
 * contiguous byte ranges, each range is read on its own from its first
 * offset, and the reader of a range that does not start at offset 0 throws
 * its first (partial) line away, since the reader of the preceding range
 * finishes that line by reading past its own end.
 *
 * The file is a `string`, one character per byte. The goroutine per range
 * becomes a call, run one after another in range order, and the counts the
 * ranges report on a channel are summed in that order.
 */
module SplitReading {
  import opened Wrappers
  import opened Text
  import opened Compression

  /** An inclusive byte range `[BeginOffset, EndOffset]` of a file. */
  datatype SplitPoint = SplitPoint(BeginOffset: nat, EndOffset: nat)

  /** The minimum block size used when a reader's MinBlockSize is 0. */
  const DefaultMinBlockSize: nat := 1024

  // ------------------------------------------------------------------ the plan of ranges

  /** `size / splitCount`, raised to the minimum block size when it is not larger. */
  function BlockSize(splitCount: nat, size: int, minBlockSize: nat): (bs: nat)
    requires splitCount > 0 && size > 0
    ensures bs >= 1
    ensures bs >= size / splitCount
    ensures bs >= (if minBlockSize == 0 then DefaultMinBlockSize else minBlockSize)
    ensures bs == size / splitCount || bs == (if minBlockSize == 0 then DefaultMinBlockSize else minBlockSize)
  {
    var minimum := if minBlockSize == 0 then DefaultMinBlockSize else minBlockSize;
    var b := size / splitCount;
    if b <= minimum then minimum else b
  }

  /**
   * Where the range that iteration `i` of CalcSplitPoint's loop starts at
   * `begin` ends: one block on, except that the range reaching the last byte
   * and the range of the last iteration are clamped to the end of the file.
   */
  function RangeEnd(i: nat, begin: nat, splitCount: nat, size: int, bs: nat): nat
    requires bs >= 1 && begin < size
  {
    if begin + bs - 1 >= size - 1 || i == splitCount - 1 then size - 1 else begin + bs - 1
  }

  /**
   * The ranges CalcSplitPoint's loop appends from iteration `i` on, when
   * that iteration's range begins at `begin`.
   */
  function Walk(i: nat, begin: nat, splitCount: nat, size: int, bs: nat): seq<SplitPoint>
    requires bs >= 1
    decreases splitCount - i
  {
    if i < splitCount && begin < size then
      var end := RangeEnd(i, begin, splitCount, size, bs);
      [SplitPoint(begin, end)] + Walk(i + 1, end + 1, splitCount, size, bs)
    else []
  }

  lemma WalkStep(i: nat, begin: nat, splitCount: nat, size: int, bs: nat)
    requires bs >= 1 && i < splitCount && begin < size
    ensures Walk(i, begin, splitCount, size, bs)
         == [SplitPoint(begin, RangeEnd(i, begin, splitCount, size, bs))]
            + Walk(i + 1, RangeEnd(i, begin, splitCount, size, bs) + 1, splitCount, size, bs)
  {
  }

  /** What CalcSplitPoint returns for a split count and a file size. */
  function SplitPoints(splitCount: nat, size: int, minBlockSize: nat): Reply<seq<SplitPoint>>
  {
    if splitCount == 0 then Err("splitCount must > 0")
    else if size <= 0 then Err("size must > 0")
    else Ok(Walk(0, 0, splitCount, size, BlockSize(splitCount, size, minBlockSize)))
  }

  /**
   * `ps` are contiguous, non-empty ranges that start at `from` and end at
   * `size - 1` (no ranges at all when `from == size`).
   */
  predicate Covers(ps: seq<SplitPoint>, from: nat, size: int)
  {
    if ps == [] then from == size
    else
      && ps[0].BeginOffset == from
      && ps[0].BeginOffset <= ps[0].EndOffset
      && Covers(ps[1..], ps[0].EndOffset + 1, size)
  }

  lemma {:induction false} WalkShape(i: nat, begin: nat, n: nat, size: int, bs: nat)
    requires bs >= 1 && begin <= size && i <= n
    requires i < n || begin == size
    ensures var w := Walk(i, begin, n, size, bs);
      && Covers(w, begin, size)
      && |w| <= n - i
      && (forall j :: 0 <= j < |w| - 1 ==> w[j].EndOffset == w[j].BeginOffset + bs - 1)
      && (|w| == n - i || begin == size || w[|w| - 1].BeginOffset + bs >= size)
      && (begin < size ==> w != [])
    decreases n - i
  {
    if i < n && begin < size {
      var end := RangeEnd(i, begin, n, size, bs);
      WalkShape(i + 1, end + 1, n, size, bs);
      var w' := Walk(i + 1, end + 1, n, size, bs);
      var w := [SplitPoint(begin, end)] + w';
      assert Walk(i, begin, n, size, bs) == w;
      assert w[1..] == w';
      forall j | 0 <= j < |w| - 1 ensures w[j].EndOffset == w[j].BeginOffset + bs - 1 {
        if j > 0 {
          assert w[j] == w'[j - 1];
        } else {
          assert end + 1 < size;
        }
      }
      if w' != [] {
        assert w[|w| - 1] == w'[|w'| - 1];
      }
    }
  }

  /** Contiguous ranges of width `bs` from offset 0 begin at the multiples of `bs`. */
  lemma {:induction false} BeginsAtMultiples(ps: seq<SplitPoint>, bs: nat, j: nat)
    requires j < |ps| && ps[0].BeginOffset == 0
    requires forall m :: 0 <= m < |ps| - 1 ==> ps[m + 1].BeginOffset == ps[m].EndOffset + 1
    requires forall m :: 0 <= m < |ps| - 1 ==> ps[m].EndOffset == ps[m].BeginOffset + bs - 1
    ensures ps[j].BeginOffset == j * bs
  {
    if j > 0 {
      BeginsAtMultiples(ps, bs, j - 1);
      assert j * bs == (j - 1) * bs + bs;
    }
  }

  /** A plan: contiguous ranges covering every byte offset from 0 to `size - 1`. */
  predicate IsPlan(ps: seq<SplitPoint>, size: int)
  {
    |ps| >= 1 && Covers(ps, 0, size)
  }

  lemma {:induction false} CoversBound(ps: seq<SplitPoint>, from: nat, size: int)
    requires Covers(ps, from, size)
    ensures from <= size
    ensures ps != [] ==> ps[|ps| - 1].EndOffset == size - 1
    ensures forall j :: 0 <= j < |ps| ==> from <= ps[j].BeginOffset <= ps[j].EndOffset < size
    ensures forall j :: 0 <= j < |ps| - 1 ==> ps[j + 1].BeginOffset == ps[j].EndOffset + 1
  {
    if ps != [] {
      CoversBound(ps[1..], ps[0].EndOffset + 1, size);
      forall j | 0 <= j < |ps| - 1 ensures ps[j + 1].BeginOffset == ps[j].EndOffset + 1 {
        if j > 0 {
          assert ps[j] == ps[1..][j - 1] && ps[j + 1] == ps[1..][j];
        }
      }
      forall j | 0 <= j < |ps| ensures from <= ps[j].BeginOffset <= ps[j].EndOffset < size {
        if j > 0 {
          assert ps[j] == ps[1..][j - 1];
        }
      }
      if |ps| > 1 {
        assert ps[|ps| - 1] == ps[1..][|ps| - 2];
      }
    }
  }

  /**
   * CalcSplitPoint's ranges for a positive split count and size form a plan
   * of at most `splitCount` ranges, every range but the last spans exactly
   * `blockSize` bytes, and there are fewer than `splitCount` ranges only when
   * the last one starts within a block of the end of the file.
   */
  lemma SplitPointsShape(splitCount: nat, size: int, minBlockSize: nat)
    requires splitCount > 0 && size > 0
    ensures SplitPoints(splitCount, size, minBlockSize).Ok?
    ensures var ps := SplitPoints(splitCount, size, minBlockSize).value;
      var bs := BlockSize(splitCount, size, minBlockSize);
      && IsPlan(ps, size)
      && |ps| <= splitCount
      && (forall j :: 0 <= j < |ps| - 1 ==> ps[j].EndOffset - ps[j].BeginOffset + 1 == bs)
      && (|ps| == splitCount || ps[|ps| - 1].BeginOffset + bs >= size)
  {
    var bs := BlockSize(splitCount, size, minBlockSize);
    WalkShape(0, 0, splitCount, size, bs);
    assert Walk(0, 0, splitCount, size, bs) != [];
  }

  /** In CalcSplitPoint's ranges, range `j` begins at `j * blockSize`. */
  lemma SplitPointsBegins(splitCount: nat, size: int, minBlockSize: nat)
    requires splitCount > 0 && size > 0
    ensures SplitPoints(splitCount, size, minBlockSize).Ok?
    ensures var ps := SplitPoints(splitCount, size, minBlockSize).value;
      var bs := BlockSize(splitCount, size, minBlockSize);
      && (forall j :: 0 <= j < |ps| ==> ps[j].BeginOffset == j * bs)
      && (|ps| == splitCount || |ps| * bs >= size)
  {
    var bs := BlockSize(splitCount, size, minBlockSize);
    var ps := SplitPoints(splitCount, size, minBlockSize).value;
    SplitPointsShape(splitCount, size, minBlockSize);
    CoversBound(ps, 0, size);
    forall j | 0 <= j < |ps| ensures ps[j].BeginOffset == j * bs {
      BeginsAtMultiples(ps, bs, j);
    }
    if |ps| != splitCount {
      var last := |ps| - 1;
      assert ps[last].BeginOffset == last * bs;
      assert |ps| * bs == last * bs + bs;
    }
  }

  // The cases the repository's tests check, one lemma per case.

  lemma CalcSplitPointOneRange()
    ensures SplitPoints(1, 100, 1) == Ok([SplitPoint(0, 99)])
  {
    assert BlockSize(1, 100, 1) == 100;
    assert SplitPoints(1, 100, 1) == Ok(Walk(0, 0, 1, 100, 100));
    assert RangeEnd(0, 0, 1, 100, 100) == 99;
    WalkStep(0, 0, 1, 100, 100);
    assert Walk(1, 100, 1, 100, 100) == [];
    Nest1(SplitPoint(0, 99));
  }

  lemma CalcSplitPointTwoRanges()
    ensures SplitPoints(2, 100, 1) == Ok([SplitPoint(0, 49), SplitPoint(50, 99)])
  {
    assert BlockSize(2, 100, 1) == 50;
    assert SplitPoints(2, 100, 1) == Ok(Walk(0, 0, 2, 100, 50));
    assert RangeEnd(0, 0, 2, 100, 50) == 49;
    WalkStep(0, 0, 2, 100, 50);
    assert RangeEnd(1, 50, 2, 100, 50) == 99;
    WalkStep(1, 50, 2, 100, 50);
    assert Walk(2, 100, 2, 100, 50) == [];
    Nest2(SplitPoint(0, 49), SplitPoint(50, 99));
  }

  lemma CalcSplitPointEightRanges()
    ensures SplitPoints(8, 100, 1) == Ok([SplitPoint(0, 11), SplitPoint(12, 23), SplitPoint(24, 35),
                                         SplitPoint(36, 47), SplitPoint(48, 59), SplitPoint(60, 71),
                                         SplitPoint(72, 83), SplitPoint(84, 99)])
  {
    assert BlockSize(8, 100, 1) == 12;
    assert SplitPoints(8, 100, 1) == Ok(Walk(0, 0, 8, 100, 12));
    assert RangeEnd(0, 0, 8, 100, 12) == 11;
    WalkStep(0, 0, 8, 100, 12);
    assert RangeEnd(1, 12, 8, 100, 12) == 23;
    WalkStep(1, 12, 8, 100, 12);
    assert RangeEnd(2, 24, 8, 100, 12) == 35;
    WalkStep(2, 24, 8, 100, 12);
    assert RangeEnd(3, 36, 8, 100, 12) == 47;
    WalkStep(3, 36, 8, 100, 12);
    assert RangeEnd(4, 48, 8, 100, 12) == 59;
    WalkStep(4, 48, 8, 100, 12);
    assert RangeEnd(5, 60, 8, 100, 12) == 71;
    WalkStep(5, 60, 8, 100, 12);
    assert RangeEnd(6, 72, 8, 100, 12) == 83;
    WalkStep(6, 72, 8, 100, 12);
    assert RangeEnd(7, 84, 8, 100, 12) == 99;
    WalkStep(7, 84, 8, 100, 12);
    assert Walk(8, 100, 8, 100, 12) == [];
    Nest8(SplitPoint(0, 11), SplitPoint(12, 23), SplitPoint(24, 35), SplitPoint(36, 47),
          SplitPoint(48, 59), SplitPoint(60, 71), SplitPoint(72, 83), SplitPoint(84, 99));
  }

  lemma CalcSplitPointRejects()
    ensures SplitPoints(0, 100, 1) == Err("splitCount must > 0")
    ensures SplitPoints(3, 0, 0) == Err("size must > 0")
  {
  }

  lemma CalcSplitPointTinyFile(n: nat)
    requires n == 3 || n == 5
    ensures SplitPoints(n, 3, 1) == Ok([SplitPoint(0, 0), SplitPoint(1, 1), SplitPoint(2, 2)])
  {
    if n == 3 {
      assert BlockSize(3, 3, 1) == 1;
    } else {
      assert BlockSize(5, 3, 1) == 1;
    }
    assert SplitPoints(n, 3, 1) == Ok(Walk(0, 0, n, 3, 1));
    assert RangeEnd(0, 0, n, 3, 1) == 0;
    WalkStep(0, 0, n, 3, 1);
    assert RangeEnd(1, 1, n, 3, 1) == 1;
    WalkStep(1, 1, n, 3, 1);
    assert RangeEnd(2, 2, n, 3, 1) == 2;
    WalkStep(2, 2, n, 3, 1);
    assert Walk(3, 3, n, 3, 1) == [];
    Nest3(SplitPoint(0, 0), SplitPoint(1, 1), SplitPoint(2, 2));
  }

  lemma CalcSplitPointMinimumBlock()
    ensures SplitPoints(3, 512, 0) == Ok([SplitPoint(0, 511)])
  {
    assert BlockSize(3, 512, 0) == 1024;
    assert SplitPoints(3, 512, 0) == Ok(Walk(0, 0, 3, 512, 1024));
    assert RangeEnd(0, 0, 3, 512, 1024) == 511;
    WalkStep(0, 0, 3, 512, 1024);
    assert Walk(1, 512, 3, 512, 1024) == [];
    Nest1(SplitPoint(0, 511));
  }

  // Singletons prepended one by one make the list of their elements.

  lemma Nest1<T>(a: T)
    ensures [a] + [] == [a]
  {
  }

  lemma Nest2<T>(a: T, b: T)
    ensures [a] + ([b] + []) == [a, b]
  {
  }

  lemma Nest3<T>(a: T, b: T, c: T)
    ensures [a] + ([b] + ([c] + [])) == [a, b, c]
  {
  }

  lemma Nest8<T>(a: T, b: T, c: T, d: T, e: T, f: T, g: T, h: T)
    ensures [a] + ([b] + ([c] + ([d] + ([e] + ([f] + ([g] + ([h] + []))))))) == [a, b, c, d, e, f, g, h]
  {
  }

  /** CalcSplitPoint of a reader whose MinBlockSize is `minBlockSize`. */
  method CalcSplitPoint(minBlockSize: nat, splitCount: nat, size: int) returns (r: Reply<seq<SplitPoint>>)
    ensures r == SplitPoints(splitCount, size, minBlockSize)
    ensures splitCount == 0 ==> r == Err("splitCount must > 0")
    ensures splitCount > 0 && size <= 0 ==> r == Err("size must > 0")
    ensures r.Ok? <==> splitCount > 0 && size > 0
    ensures r.Ok? ==> IsPlan(r.value, size) && |r.value| <= splitCount
  {
    if splitCount <= 0 {
      return Err("splitCount must > 0");
    }
    if size <= 0 {
      return Err("size must > 0");
    }
    var blockSize: nat := size / splitCount;
    var minimum := minBlockSize;
    if minimum == 0 {
      minimum := 1024;
    }
    if blockSize <= minimum {
      blockSize := minimum;
    }
    assert blockSize == BlockSize(splitCount, size, minBlockSize);
    var ret: seq<SplitPoint> := [];
    var i: nat, beginOffset: nat := 0, 0;
    while i < splitCount && beginOffset < size
      invariant i <= splitCount
      invariant ret + Walk(i, beginOffset, splitCount, size, blockSize) == Walk(0, 0, splitCount, size, blockSize)
      decreases splitCount - i
    {
      var endOffset: nat := beginOffset + blockSize - 1;
      if endOffset >= size - 1 || i == splitCount - 1 {
        endOffset := size - 1;
      }
      assert endOffset == RangeEnd(i, beginOffset, splitCount, size, blockSize);
      WalkAppend(ret, i, beginOffset, splitCount, size, blockSize);
      ret := ret + [SplitPoint(beginOffset, endOffset)];
      beginOffset := endOffset + 1;
      i := i + 1;
    }
    WalkDone(ret, i, beginOffset, splitCount, size, blockSize);
    SplitPointsShape(splitCount, size, minBlockSize);
    return Ok(ret);
  }

  /** One iteration of CalcSplitPoint's loop keeps its invariant. */
  lemma WalkAppend(ret: seq<SplitPoint>, i: nat, begin: nat, n: nat, size: int, bs: nat)
    requires bs >= 1 && i < n && begin < size
    requires ret + Walk(i, begin, n, size, bs) == Walk(0, 0, n, size, bs)
    ensures (ret + [SplitPoint(begin, RangeEnd(i, begin, n, size, bs))])
            + Walk(i + 1, RangeEnd(i, begin, n, size, bs) + 1, n, size, bs)
         == Walk(0, 0, n, size, bs)
  {
    var end := RangeEnd(i, begin, n, size, bs);
    WalkStep(i, begin, n, size, bs);
    AppendAssoc(ret, [SplitPoint(begin, end)], Walk(i + 1, end + 1, n, size, bs));
  }

  /** When CalcSplitPoint's loop stops, it has appended the whole walk. */
  lemma WalkDone(ret: seq<SplitPoint>, i: nat, begin: nat, n: nat, size: int, bs: nat)
    requires bs >= 1 && !(i < n && begin < size)
    requires ret + Walk(i, begin, n, size, bs) == Walk(0, 0, n, size, bs)
    ensures ret == Walk(0, 0, n, size, bs)
  {
    assert Walk(i, begin, n, size, bs) == [];
    assert ret + [] == ret;
  }

  // ------------------------------------------------------------------ reading one range

  /** Offset of the first line feed at or after `pos`: where `ReadString('\n')` from `pos` stops. */
  function NextNL(f: string, pos: nat): Option<nat>
    decreases |f| - pos
  {
    if pos >= |f| then None
    else if f[pos] == '\n' then Some(pos)
    else NextNL(f, pos + 1)
  }

  /** What NextNL finds is a line feed at or after `pos`. */
  lemma {:induction false} NextNLBound(f: string, pos: nat)
    ensures NextNL(f, pos).Some? ==> pos <= NextNL(f, pos).value < |f| && f[NextNL(f, pos).value] == '\n'
    decreases |f| - pos
  {
    if pos < |f| && f[pos] != '\n' {
      NextNLBound(f, pos + 1);
    }
  }

  /** NextNL finds the first line feed: none lies between `pos` and it. */
  lemma {:induction false} NextNLIsFirst(f: string, pos: nat)
    ensures NextNL(f, pos).Some? ==> NextNL(f, pos).value < |f| && forall j :: pos <= j < NextNL(f, pos).value ==> f[j] != '\n'
    ensures NextNL(f, pos).None? ==> forall j :: pos <= j < |f| ==> f[j] != '\n'
    decreases |f| - pos
  {
    if pos < |f| && f[pos] != '\n' {
      NextNLIsFirst(f, pos + 1);
    }
  }

  /** Starting later, but not past the line feed, finds the same line feed. */
  lemma {:induction false} NextNLFrom(f: string, pos: nat, q: nat)
    requires pos <= q
    requires NextNL(f, pos).None? || q <= NextNL(f, pos).value
    ensures NextNL(f, q) == NextNL(f, pos)
    decreases q - pos
  {
    if pos < q {
      NextNLFrom(f, pos + 1, q);
    }
  }

  /**
   * `bufio.Reader.ReadString('\n')` on a reader standing at `pos`: the text up
   * to and including the next line feed, or, when there is none, the rest of
   * the file together with `io.EOF`.
   */
  method ReadString(f: string, pos: nat) returns (text: string, eof: bool)
    ensures eof <==> NextNL(f, pos).None?
    ensures !eof ==> pos <= NextNL(f, pos).value < |f| && text == f[pos..NextNL(f, pos).value + 1]
    ensures eof ==> text == if pos < |f| then f[pos..] else ""
  {
    NextNLBound(f, pos);
    var next := NextNL(f, pos);
    if next.Some? {
      text, eof := f[pos..next.value + 1], false;
    } else {
      text, eof := if pos < |f| then f[pos..] else "", true;
    }
  }

  /**
   * The lines a reader standing at `pos` emits while its position is at
   * most `limit`: each LF-terminated segment without its trailing CR/LF.
   */
  function Chain(f: string, pos: nat, limit: int): seq<string>
    decreases |f| - pos
  {
    if pos > limit then []
    else
      NextNLBound(f, pos);
      match NextNL(f, pos)
      case None => []
      case Some(k) => [TrimEOL(f[pos..k + 1])] + Chain(f, k + 1, limit)
  }

  /**
   * The lines the reader of range `[begin, end]` emits: it reads while its
   * position is at most `end + 1`, and if `begin != 0` it drops the first
   * segment it reads.
   */
  function RangeOutput(f: string, begin: nat, end: nat): seq<string>
  {
    Chain(f, FirstLineStart(f, begin), end + 1)
  }

  /**
   * Where the first line a range's reader emits starts: the range's own
   * start for the first range, otherwise just past the first line feed at or
   * after it (the end of the file when there is none).
   */
  function FirstLineStart(f: string, begin: nat): nat
  {
    if begin == 0 then 0
    else
      match NextNL(f, begin)
      case None => |f|
      case Some(k) => k + 1
  }

  /**
   * The per-range closure of LoadSeeker: seek to `beginOffset`, then read
   * LF-terminated segments while the position is at most `endOffset + 1`,
   * dropping the first one when `beginOffset != 0`; returns the emitted lines
   * (what is sent on the line channel) and their count.
   */
  method ReadRange(f: string, beginOffset: nat, endOffset: nat) returns (emitted: seq<string>, lc: nat)
    ensures emitted == RangeOutput(f, beginOffset, endOffset)
    ensures lc == |emitted|
  {
    emitted := [];
    lc := 0;
    var first := true;
    var currentPos := beginOffset;
    while true
      invariant currentPos >= beginOffset
      invariant currentPos == beginOffset ==> first && emitted == []
      invariant currentPos > beginOffset ==> emitted + Chain(f, currentPos, endOffset + 1) == RangeOutput(f, beginOffset, endOffset)
      invariant lc == |emitted|
      decreases |f| - currentPos
    {
      if currentPos > endOffset + 1 {
        if currentPos == beginOffset {
          RangeOutputEmpty(f, beginOffset, endOffset);
        } else {
          StopPastLimit(f, beginOffset, endOffset, currentPos, emitted);
        }
        break;
      }
      var text, eof := ReadString(f, currentPos);
      if eof {
        if currentPos == beginOffset {
          RangeOutputEmpty(f, beginOffset, endOffset);
        } else {
          StopAtEOF(f, beginOffset, endOffset, currentPos, emitted);
        }
        break;
      }
      ghost var k := NextNL(f, currentPos).value;
      if first && currentPos == beginOffset && beginOffset != 0 {
        first := false;
        DropFirst(f, beginOffset, endOffset, k);
      } else {
        lc := lc + 1;
        if currentPos == beginOffset {
          EmitFirst(f, endOffset, k);
        } else {
          EmitNext(f, beginOffset, endOffset, currentPos, k, emitted);
        }
        emitted := emitted + [TrimEOL(text)];
      }
      currentPos := currentPos + |text|;
      assert currentPos == k + 1;
    }
  }

  // The steps of ReadRange's loop, each stated in the form of its invariant.

  lemma StopPastLimit(f: string, b: nat, e: nat, pos: nat, emitted: seq<string>)
    requires pos > e + 1
    requires emitted + Chain(f, pos, e + 1) == RangeOutput(f, b, e)
    ensures emitted == RangeOutput(f, b, e)
  {
    ChainPast(f, pos, e + 1);
    assert emitted + [] == emitted;
  }

  lemma StopAtEOF(f: string, b: nat, e: nat, pos: nat, emitted: seq<string>)
    requires NextNL(f, pos).None?
    requires emitted + Chain(f, pos, e + 1) == RangeOutput(f, b, e)
    ensures emitted == RangeOutput(f, b, e)
  {
    ChainAtEOF(f, pos, e + 1);
    assert emitted + [] == emitted;
  }

  lemma DropFirst(f: string, b: nat, e: nat, k: nat)
    requires 0 < b <= e + 1 && b <= k < |f| && NextNL(f, b) == Some(k)
    ensures [] + Chain(f, k + 1, e + 1) == RangeOutput(f, b, e)
  {
    RangeOutputFirst(f, b, e, k);
    assert [] + Chain(f, k + 1, e + 1) == Chain(f, k + 1, e + 1);
  }

  lemma EmitFirst(f: string, e: nat, k: nat)
    requires k < |f| && NextNL(f, 0) == Some(k)
    ensures ([] + [TrimEOL(f[0..k + 1])]) + Chain(f, k + 1, e + 1) == RangeOutput(f, 0, e)
  {
    RangeOutputFirst(f, 0, e, k);
    assert [] + [TrimEOL(f[0..k + 1])] == [TrimEOL(f[0..k + 1])];
  }

  lemma EmitNext(f: string, b: nat, e: nat, pos: nat, k: nat, emitted: seq<string>)
    requires pos <= e + 1 && pos <= k < |f| && NextNL(f, pos) == Some(k)
    requires emitted + Chain(f, pos, e + 1) == RangeOutput(f, b, e)
    ensures (emitted + [TrimEOL(f[pos..k + 1])]) + Chain(f, k + 1, e + 1) == RangeOutput(f, b, e)
  {
    ChainStep(f, pos, k, e + 1);
    AppendAssoc(emitted, [TrimEOL(f[pos..k + 1])], Chain(f, k + 1, e + 1));
  }

  lemma RangeOutputEmpty(f: string, b: nat, e: nat)
    requires b > e + 1 || NextNL(f, b).None?
    ensures RangeOutput(f, b, e) == []
  {
    NextNLBound(f, b);
    if b != 0 && NextNL(f, b).Some? {
      ChainPast(f, NextNL(f, b).value + 1, e + 1);
    }
  }

  lemma RangeOutputFirst(f: string, b: nat, e: nat, k: nat)
    requires b <= e + 1 && b <= k < |f| && NextNL(f, b) == Some(k)
    ensures b == 0 ==> RangeOutput(f, b, e) == [TrimEOL(f[b..k + 1])] + Chain(f, k + 1, e + 1)
    ensures b != 0 ==> RangeOutput(f, b, e) == Chain(f, k + 1, e + 1)
  {
    if b == 0 {
      ChainStep(f, b, k, e + 1);
    }
  }

  lemma ChainAtEOF(f: string, p: nat, l: int)
    requires NextNL(f, p).None?
    ensures Chain(f, p, l) == []
  {
  }

  lemma AppendAssoc<T>(a: seq<T>, b: seq<T>, c: seq<T>)
    ensures (a + b) + c == a + (b + c)
  {
  }


  // ------------------------------------------------------------------ all ranges of a file

  /** The lines the readers of all ranges `ps` emit, in range order. */
  function AllRangesOutput(f: string, ps: seq<SplitPoint>): seq<string>
  {
    if ps == [] then [] else RangeOutput(f, ps[0].BeginOffset, ps[0].EndOffset) + AllRangesOutput(f, ps[1..])
  }

  function TrimAll(pieces: seq<string>): (r: seq<string>)
    ensures |r| == |pieces|
  {
    if pieces == [] then [] else [TrimEOL(pieces[0])] + TrimAll(pieces[1..])
  }

  /**
   * The lines of a file read in one pass: the pieces between line feeds,
   * except the text after the last line feed, each without trailing CR/LF
   * characters.
   */
  function FileLines(f: string): seq<string>
  {
    var pieces := Split(f, '\n');
    TrimAll(pieces[..|pieces| - 1])
  }

  /** The lines that begin after offset `l`: those after the first line feed at or after `l`. */
  function LinesAfter(f: string, l: nat): seq<string>
  {
    match NextNL(f, l)
    case None => []
    case Some(k) => Chain(f, k + 1, |f|)
  }

  /** One step of a reader's walk: the segment up to the next line feed, then the rest. */
  lemma ChainStep(f: string, p: nat, k: nat, limit: int)
    requires p <= limit && p <= k < |f| && NextNL(f, p) == Some(k)
    ensures Chain(f, p, limit) == [TrimEOL(f[p..k + 1])] + Chain(f, k + 1, limit)
  {
  }

  lemma TrimAllCons(line: string, rest: seq<string>)
    ensures TrimAll([line] + rest) == [TrimEOL(line)] + TrimAll(rest)
  {
    assert ([line] + rest)[1..] == rest;
  }

  lemma {:induction false} ChainIsLines(f: string, p: nat)
    requires p <= |f|
    ensures Chain(f, p, |f|) == FileLines(f[p..])
    decreases |f| - p
  {
    if NextNL(f, p).None? {
      ChainIsLinesAtEOF(f, p);
    } else {
      var k := NextNL(f, p).value;
      NextNLBound(f, p);
      ChainIsLines(f, k + 1);
      ChainIsLinesStep(f, p, k);
    }
  }

  lemma ChainIsLinesAtEOF(f: string, p: nat)
    requires p <= |f| && NextNL(f, p).None?
    ensures Chain(f, p, |f|) == FileLines(f[p..])
  {
    NextNLIsFirst(f, p);
    assert '\n' !in f[p..] by {
      forall j | 0 <= j < |f[p..]| ensures f[p..][j] != '\n' {
        assert f[p..][j] == f[p + j];
      }
    }
    assert Split(f[p..], '\n') == [f[p..]];
    ChainAtEOF(f, p, |f|);
  }

  lemma ChainIsLinesStep(f: string, p: nat, k: nat)
    requires p <= k < |f| && NextNL(f, p) == Some(k)
    requires Chain(f, k + 1, |f|) == FileLines(f[k + 1..])
    ensures Chain(f, p, |f|) == FileLines(f[p..])
  {
    var line := f[p..k];
    NextNLBound(f, p);
    NextNLIsFirst(f, p);
    assert '\n' !in line by {
      forall j | 0 <= j < |line| ensures line[j] != '\n' {
        assert line[j] == f[p + j];
      }
    }
    assert f[p..] == line + ['\n'] + f[k + 1..];
    FileLinesCons(line, f[k + 1..]);
    ChainStep(f, p, k, |f|);
    SliceAtNewline(f, p, k);
    NewlineTrimmed(line);
  }

  /** A line followed by a line feed contributes that line, trimmed, ahead of the rest. */
  lemma FileLinesCons(line: string, s: string)
    requires '\n' !in line
    ensures FileLines(line + ['\n'] + s) == [TrimEOL(line)] + FileLines(s)
  {
    var rest := Split(s, '\n');
    SplitConcat(line, s, '\n');
    SplitAbsent(line, '\n');
    ConsInit(line, rest);
    TrimAllCons(line, rest[..|rest| - 1]);
  }

  lemma ConsInit<T>(x: T, r: seq<T>)
    requires |r| >= 1
    ensures ([x] + r)[..|r|] == [x] + r[..|r| - 1]
  {
  }

  lemma SliceAtNewline(f: string, p: nat, k: nat)
    requires p <= k < |f| && f[k] == '\n'
    ensures f[p..k + 1] == f[p..k] + ['\n']
  {
  }

  lemma NewlineTrimmed(line: string)
    ensures TrimEOL(line + ['\n']) == TrimEOL(line)
  {
    assert (line + ['\n'])[..|line|] == line;
  }

  /**
   * Cutting a reader's walk at a limit: the lines up to the limit, followed
   * by the lines that begin after it, are all the lines from the start.
   */
  lemma {:induction false} ChainSplit(f: string, p: nat, l: nat)
    requires p <= |f| && p <= l + 1
    requires p == 0 || f[p - 1] == '\n'
    ensures Chain(f, p, |f|) == Chain(f, p, l) + LinesAfter(f, l)
    decreases |f| - p
  {
    if p == l + 1 {
      ChainSplitAtLimit(f, p, l);
    } else if NextNL(f, p).None? {
      ChainSplitBeyond(f, p, l);
    } else {
      var k := NextNL(f, p).value;
      NextNLBound(f, p);
      if k <= l {
        ChainSplit(f, k + 1, l);
        ChainSplitStep(f, p, k, l);
      } else {
        ChainSplitBeyond(f, p, l);
      }
    }
  }

  lemma ChainSplitAtLimit(f: string, p: nat, l: nat)
    requires 0 < p == l + 1 <= |f| && f[p - 1] == '\n'
    ensures Chain(f, p, |f|) == Chain(f, p, l) + LinesAfter(f, l)
  {
    assert NextNL(f, l) == Some(l);
    assert Chain(f, p, l) == [];
  }

  lemma ChainSplitBeyond(f: string, p: nat, l: nat)
    requires p <= l
    requires NextNL(f, p).None? || l < NextNL(f, p).value
    ensures Chain(f, p, |f|) == Chain(f, p, l) + LinesAfter(f, l)
  {
    NextNLFrom(f, p, l);
    NextNLBound(f, p);
    if NextNL(f, p).Some? {
      ChainSplitLongLine(f, p, NextNL(f, p).value, l);
    } else {
      ChainAtEOF(f, p, |f|);
      ChainAtEOF(f, p, l);
      LinesAfterNone(f, l);
    }
  }

  lemma ChainSplitLongLine(f: string, p: nat, k: nat, l: nat)
    requires p <= l < k < |f| && NextNL(f, p) == Some(k) && NextNL(f, l) == Some(k)
    ensures Chain(f, p, |f|) == Chain(f, p, l) + LinesAfter(f, l)
  {
    ChainStep(f, p, k, |f|);
    ChainStep(f, p, k, l);
    ChainPast(f, k + 1, l);
    LinesAfterAt(f, l, k);
  }

  lemma ChainSplitStep(f: string, p: nat, k: nat, l: nat)
    requires p <= k <= l && k < |f| && NextNL(f, p) == Some(k)
    requires Chain(f, k + 1, |f|) == Chain(f, k + 1, l) + LinesAfter(f, l)
    ensures Chain(f, p, |f|) == Chain(f, p, l) + LinesAfter(f, l)
  {
    ChainStep(f, p, k, |f|);
    ChainStep(f, p, k, l);
    AppendAssoc([TrimEOL(f[p..k + 1])], Chain(f, k + 1, l), LinesAfter(f, l));
  }

  /**
   * The ranges after the first one, from offset `b != 0` on, emit exactly the
   * lines that begin after `b`.
   */
  lemma {:induction false} TailCoverage(f: string, ps: seq<SplitPoint>, b: nat)
    requires 1 <= b
    requires Covers(ps, b, |f|)
    ensures AllRangesOutput(f, ps) == LinesAfter(f, b)
  {
    if ps == [] {
      LinesAfterNone(f, b);
    } else {
      var e := ps[0].EndOffset;
      TailCoverage(f, ps[1..], e + 1);
      AllRangesCons(f, ps);
      RangeThenRest(f, b, e);
      Glue(AllRangesOutput(f, ps), RangeOutput(f, b, e), AllRangesOutput(f, ps[1..]), LinesAfter(f, e + 1), LinesAfter(f, b));
    }
  }

  /** Rewriting the second part of a concatenation. */
  lemma Glue<T>(whole: seq<T>, head: seq<T>, tail: seq<T>, tail': seq<T>, result: seq<T>)
    requires whole == head + tail && tail == tail' && head + tail' == result
    ensures whole == result
  {
  }

  /**
   * The lines the reader of `[b, e]` emits, then the lines that begin after
   * `e + 1`, are the lines that begin after `b`.
   */
  lemma RangeThenRest(f: string, b: nat, e: nat)
    requires 1 <= b <= e
    ensures RangeOutput(f, b, e) + LinesAfter(f, e + 1) == LinesAfter(f, b)
  {
    NextNLBound(f, b);
    if NextNL(f, b).None? {
      NextNLFrom(f, b, e + 1);
      LinesAfterNone(f, b);
      LinesAfterNone(f, e + 1);
      RangeOutputEmpty(f, b, e);
    } else {
      var k := NextNL(f, b).value;
      RangeOutputAt(f, b, e, k);
      LinesAfterAt(f, b, k);
      if k <= e + 1 {
        ChainSplit(f, k + 1, e + 1);
      } else {
        NextNLFrom(f, b, e + 1);
        ChainPast(f, k + 1, e + 1);
        LinesAfterAt(f, e + 1, k);
      }
    }
  }

  lemma AllRangesCons(f: string, ps: seq<SplitPoint>)
    requires ps != []
    ensures AllRangesOutput(f, ps) == RangeOutput(f, ps[0].BeginOffset, ps[0].EndOffset) + AllRangesOutput(f, ps[1..])
  {
  }

  lemma RangeOutputAt(f: string, b: nat, e: nat, k: nat)
    requires b != 0 && b <= k < |f| && NextNL(f, b) == Some(k)
    ensures RangeOutput(f, b, e) == Chain(f, k + 1, e + 1)
  {
  }

  lemma LinesAfterAt(f: string, l: nat, k: nat)
    requires l <= k < |f| && NextNL(f, l) == Some(k)
    ensures LinesAfter(f, l) == Chain(f, k + 1, |f|)
  {
  }

  lemma LinesAfterNone(f: string, l: nat)
    requires NextNL(f, l).None?
    ensures LinesAfter(f, l) == []
  {
  }

  lemma ChainPast(f: string, p: nat, l: int)
    requires p > l
    ensures Chain(f, p, l) == []
  {
  }

  /**
   * The coverage property: for every plan of ranges over a file, the lines
   * emitted by all range readers are exactly the lines of the file, each
   * once, in order.
   */
  lemma {:induction false} PlanCoverage(f: string, ps: seq<SplitPoint>)
    requires Covers(ps, 0, |f|)
    ensures AllRangesOutput(f, ps) == FileLines(f)
  {
    ChainIsLines(f, 0);
    assert f[0..] == f;
    if ps != [] {
      var b' := ps[0].EndOffset + 1;
      CoversBound(ps[1..], b', |f|);
      ChainSplit(f, 0, b');
      TailCoverage(f, ps[1..], b');
    }
  }

  /** A file has as many lines as it has line feeds. */
  lemma FileLinesCount(f: string)
    ensures |FileLines(f)| == Count(f, '\n')
  {
    SplitCount(f, '\n');
  }

  /**
   * For every split count and minimum block size, the ranges CalcSplitPoint
   * computes emit every LF-terminated line of a non-empty file exactly once,
   * and their counts sum to the number of line feeds in the file.
   */
  lemma SplitCoverage(f: string, splitCount: nat, minBlockSize: nat)
    requires splitCount > 0 && |f| > 0
    ensures SplitPoints(splitCount, |f|, minBlockSize).Ok?
    ensures AllRangesOutput(f, SplitPoints(splitCount, |f|, minBlockSize).value) == FileLines(f)
    ensures multiset(AllRangesOutput(f, SplitPoints(splitCount, |f|, minBlockSize).value)) == multiset(FileLines(f))
    ensures |AllRangesOutput(f, SplitPoints(splitCount, |f|, minBlockSize).value)| == Count(f, '\n')
  {
    SplitPointsShape(splitCount, |f|, minBlockSize);
    PlanCoverage(f, SplitPoints(splitCount, |f|, minBlockSize).value);
    FileLinesCount(f);
  }

  /** Text after the last line feed is never delivered. */
  lemma NoTrailingFragment(f: string, tail: string)
    requires f == [] || f[|f| - 1] == '\n'
    requires '\n' !in tail
    ensures FileLines(f + tail) == FileLines(f)
  {
    if f == [] {
      assert f + tail == tail;
    } else {
      var a := f[..|f| - 1];
      assert f == a + ['\n'] + [];
      assert f + tail == a + ['\n'] + tail;
      SplitConcat(a, [], '\n');
      SplitConcat(a, tail, '\n');
      var pa := Split(a, '\n');
      assert Split(f, '\n')[..|pa|] == pa;
      assert Split(f + tail, '\n')[..|pa|] == pa;
    }
  }

  /**
   * LoadSeeker: compute the ranges for a file of `fileSize` bytes, read each
   * range, and return the lines sent on the line channel together with the
   * summed count (Go panics where this returns Err).
   */
  method LoadSeeker(minBlockSize: nat, splitCount: nat, fileSize: int, f: string)
    returns (lines: seq<string>, lineCount: Reply<nat>)
    ensures lineCount.Err? <==> splitCount == 0 || fileSize <= 0
    ensures splitCount == 0 ==> lineCount == Err("splitCount must > 0")
    ensures splitCount > 0 && fileSize <= 0 ==> lineCount == Err("size must > 0")
    ensures lineCount.Ok? ==> lines == AllRangesOutput(f, SplitPoints(splitCount, fileSize, minBlockSize).value)
    ensures lineCount.Ok? ==> lineCount.value == |lines|
    ensures lineCount.Ok? && fileSize == |f| ==> multiset(lines) == multiset(FileLines(f)) && lineCount.value == Count(f, '\n')
  {
    var splitPoints := CalcSplitPoint(minBlockSize, splitCount, fileSize);
    if splitPoints.Err? {
      return [], Err(splitPoints.msg);
    }
    var ps := splitPoints.value;
    lines := [];
    var total: nat := 0;
    var i := 0;
    while i < |ps|
      invariant 0 <= i <= |ps|
      invariant lines + AllRangesOutput(f, ps[i..]) == AllRangesOutput(f, ps)
      invariant total == |lines|
    {
      assert ps[i..][1..] == ps[i + 1..];
      var emitted, lc := ReadRange(f, ps[i].BeginOffset, ps[i].EndOffset);
      lines := lines + emitted;
      total := total + lc;
      i := i + 1;
    }
    if fileSize == |f| {
      SplitCoverage(f, splitCount, minBlockSize);
    }
    return lines, Ok(total);
  }

  /** LoadFile: LoadSeeker with the file's own size as the size. */
  method LoadFile(minBlockSize: nat, splitCount: nat, f: string) returns (lines: seq<string>, lineCount: Reply<nat>)
    ensures lineCount.Err? <==> splitCount == 0 || |f| == 0
    ensures lineCount.Ok? ==> multiset(lines) == multiset(FileLines(f))
    ensures lineCount.Ok? ==> lineCount.value == |lines| == Count(f, '\n')
  {
    lines, lineCount := LoadSeeker(minBlockSize, splitCount, |f|, f);
  }

  // ------------------------------------------------------------------ decorators


  /** The decompressor DecorateReader puts in front of an input file. */
  datatype Decoding = Passthrough | Gunzip | Bunzip2

  /** DecorateReader's choice, by file name suffix. */
  function DecorateReader(fn: string): (d: Decoding)
    ensures d == Gunzip <==> HasSuffix(fn, ".gz")
    ensures d == Bunzip2 <==> HasSuffix(fn, ".bz2")
    ensures d == Passthrough <==> !HasSuffix(fn, ".gz") && !HasSuffix(fn, ".bz2")
  {
    if HasSuffix(fn, ".gz") then
      assert !HasSuffix(fn, ".bz2") by {
        assert fn[|fn| - 1] == 'z';
      }
      Gunzip
    else if HasSuffix(fn, ".bz2") then Bunzip2
    else Passthrough
  }

  /** An output a shard writes through: a file, or a gzip writer over another sink. */
  datatype Sink = File(path: string) | GzipOver(inner: Sink)

  /** A release action registered in a cleanup list. */
  datatype Release = Close(sink: Sink) | NoRelease

  /**
   * DecorateWriter: no compression passes the sink through with a no-op
   * cleanup, gzip wraps it and its cleanup closes the gzip writer; any other
   * type is an error.
   */
  function DecorateWriter(compression: CompressionType, w: Sink): (r: Reply<(Sink, Release)>)
    ensures r.Err? <==> compression == CompressionUnknown
    ensures compression == CompressionNone ==> r == Ok((w, NoRelease))
    ensures compression == CompressionGzip ==> r == Ok((GzipOver(w), Close(GzipOver(w))))
  {
    match compression
    case CompressionNone => Ok((w, NoRelease))
    case CompressionGzip => Ok((GzipOver(w), Close(GzipOver(w))))
    case CompressionUnknown => Err("unknown compression type: " + TypeName(compression))
  }
}
