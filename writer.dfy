// writer.go: StartWriters opens one output shard per index, each with its own
// cleanup list, and each shard's writer prints every record it receives on a
// line of its own. Directory creation and the files themselves are not modelled;
// a created file is the sink `File(path)`.
module Writer {
  import opened Wrappers
  import opened Text
  import opened Compression
  import opened Cleanup
  import opened SplitReading

  // ------------------------------------------------------------------ shard names

  /** `fmt.Sprintf("%s%03d", out, i)` followed by the compression's extension. */
  function ShardPath(out: string, i: nat, compress: string): string
  {
    out + ZeroPad(NatToString(i), 3) + GetCompressionType(compress).Ext
  }

  /** The part of a shard path between the prefix and the extension. */
  function ShardNumber(out: string, path: string, compress: string): string
    requires |out| + |GetCompressionType(compress).Ext| <= |path|
  {
    path[|out|..|path| - |GetCompressionType(compress).Ext|]
  }

  /**
   * A shard path starts with `out`, ends with the extension, and in between
   * holds at least three decimal digits that denote the shard index.
   */
  lemma ShardPathShape(out: string, i: nat, compress: string)
    ensures var p := ShardPath(out, i, compress);
      |out| + 3 + |GetCompressionType(compress).Ext| <= |p| &&
      p[..|out|] == out &&
      HasSuffix(p, GetCompressionType(compress).Ext) &&
      AllDigits(ShardNumber(out, p, compress)) &&
      DigitsValue(ShardNumber(out, p, compress)) == i
  {
    var d := ZeroPad(NatToString(i), 3);
    var e := GetCompressionType(compress).Ext;
    var p := ShardPath(out, i, compress);
    assert p == out + d + e;
    assert p[|out|..|p| - |e|] == d;
    assert p[|p| - |e|..] == e;
    ZeroPadValue(i, 3);
  }

  /** Distinct shard indices give distinct paths, so no two shards write one file. */
  lemma ShardPathsDistinct(out: string, i: nat, j: nat, compress: string)
    requires i != j
    ensures ShardPath(out, i, compress) != ShardPath(out, j, compress)
  {
    ShardPathShape(out, i, compress);
    ShardPathShape(out, j, compress);
  }

  lemma ShardPathExamples()
    ensures ShardPath("out-", 7, "gzip") == "out-007.gz"
    ensures ShardPath("out-", 1234, "none") == "out-1234"
  {
    assert NatToString(7) == "7";
    assert ZeroPad("7", 3) == "007";
    assert NatToString(123) == "123" by {
      assert NatToString(12) == "12" by {
        assert NatToString(1) == "1";
      }
    }
    assert NatToString(1234) == "1234";
  }

  // ------------------------------------------------------------------ setting up one shard

  /** An open shard: its path, the writer records go through, and its cleanup list. */
  datatype Shard = Shard(path: string, writer: Sink, cleanups: Cleanups<Release>)

  /** Setting up a shard either opens it or aborts after running the cleanups registered so far. */
  datatype Setup = Opened(shard: Shard) | Aborted(released: seq<Release>, msg: string)

  /**
   * One iteration of StartWriters' loop after the path is known: create the
   * file and register its close, decorate it, and register the decorator's
   * cleanup. If decorating fails, the cleanups already registered run and the
   * setup aborts (Go panics with the error).
   */
  method OpenShard(path: string, t: CompressionType) returns (r: Setup)
    ensures r.Opened? <==> t != CompressionUnknown
    ensures r.Opened? ==> fresh(r.shard.cleanups) && r.shard.path == path
    ensures r.Opened? ==> DecorateWriter(t, File(path)).Ok? &&
                          r.shard.writer == DecorateWriter(t, File(path)).value.0
    ensures r.Opened? ==> r.shard.cleanups.funcs == [Close(File(path)), DecorateWriter(t, File(path)).value.1]
    ensures r.Aborted? ==> r.released == [Close(File(path))] && r.msg == DecorateWriter(t, File(path)).msg
  {
    var cleanups := new Cleanups<Release>();
    var f := File(path);
    cleanups.Add(Close(f));
    var d := DecorateWriter(t, f);
    if d.Err? {
      var ran := cleanups.Do();
      assert [] + [Close(f)] == [Close(f)];
      return Aborted(ran, d.msg);
    }
    cleanups.Add(d.value.1);
    r := Opened(Shard(path, d.value.0, cleanups));
  }

  /**
   * StartWriters' loop: exactly one shard per index `0..outSplit-1`, at the
   * index's path, each with its own cleanup list holding the file's close and
   * then the decorator's release.
   */
  method StartWriters(outSplit: nat, out: string, compress: string) returns (shards: seq<Shard>)
    ensures |shards| == outSplit
    ensures forall i :: 0 <= i < outSplit ==> shards[i].path == ShardPath(out, i, compress)
    ensures forall i :: 0 <= i < outSplit ==>
      shards[i].cleanups.funcs == ShardReleases(shards[i].path, GetCompressionType(compress).Type)
    ensures forall i, j :: 0 <= i < j < outSplit ==> shards[i].cleanups != shards[j].cleanups
  {
    shards := [];
    var i := 0;
    while i < outSplit
      invariant 0 <= i <= outSplit && |shards| == i
      invariant forall k :: 0 <= k < i ==> shards[k].path == ShardPath(out, k, compress)
      invariant forall k :: 0 <= k < i ==>
        shards[k].cleanups.funcs == ShardReleases(shards[k].path, GetCompressionType(compress).Type)
      invariant forall k, l :: 0 <= k < l < i ==> shards[k].cleanups != shards[l].cleanups
    {
      var ct := GetCompressionType(compress);
      var path := out + ZeroPad(NatToString(i), 3) + ct.Ext;
      var setup := OpenShard(path, ct.Type);
      shards := shards + [setup.shard];
      i := i + 1;
    }
  }

  /** What a shard's cleanup list holds: the file's close, then the decorator's release. */
  function ShardReleases(path: string, t: CompressionType): seq<Release>
    requires t != CompressionUnknown
  {
    [Close(File(path)), DecorateWriter(t, File(path)).value.1]
  }

  /**
   * Running a shard's cleanups releases the decorator first and closes the
   * file last, so a gzip writer is flushed before its file is closed.
   */
  lemma ReleaseOrder(path: string, t: CompressionType)
    requires t != CompressionUnknown
    ensures Reverse(ShardReleases(path, t)) == [DecorateWriter(t, File(path)).value.1, Close(File(path))]
    ensures t == CompressionGzip ==> Reverse(ShardReleases(path, t)) == [Close(GzipOver(File(path))), Close(File(path))]
  {
    var rs := ShardReleases(path, t);
    assert rs[..1] == [rs[0]];
  }

  // ------------------------------------------------------------------ a shard's writer

  /** What a writer receives for `records`: each one followed by a line feed (`fmt.Fprintln`). */
  function Framed(records: seq<string>): string
  {
    if records == [] then "" else records[0] + "\n" + Framed(records[1..])
  }

  lemma {:induction false} FramedSnoc(records: seq<string>, e: string)
    ensures Framed(records + [e]) == Framed(records) + e + "\n"
    decreases |records|
  {
    if records == [] {
      assert [] + [e] == [e];
    } else {
      assert (records + [e])[1..] == records[1..] + [e];
      FramedSnoc(records[1..], e);
    }
  }

  /**
   * The writer goroutine: print every record received, then (deferred) run
   * the shard's cleanup list.
   */
  method RunShard(s: Shard, records: seq<string>) returns (written: string, released: seq<Release>)
    ensures written == Framed(records)
    ensures released == Reverse(s.cleanups.funcs)
  {
    written := "";
    var i := 0;
    while i < |records|
      invariant 0 <= i <= |records|
      invariant written == Framed(records[..i])
    {
      FramedSnoc(records[..i], records[i]);
      assert records[..i + 1] == records[..i] + [records[i]];
      written := written + records[i] + "\n";
      i := i + 1;
    }
    assert records[..i] == records;
    released := s.cleanups.Do();
  }

  /** Every record written is one line feed in the output. */
  lemma {:induction false} FramedCount(records: seq<string>)
    ensures Count(Framed(records), '\n') == |records| + CountIn(records)
    decreases |records|
  {
    if records != [] {
      var r := records[0];
      FramedCount(records[1..]);
      assert Framed(records) == (r + "\n") + Framed(records[1..]);
      CountConcat(r + "\n", Framed(records[1..]), '\n');
      CountConcat(r, "\n", '\n');
    }
  }

  /** Line feeds inside the records themselves. */
  function CountIn(records: seq<string>): nat
  {
    if records == [] then 0 else Count(records[0], '\n') + CountIn(records[1..])
  }

  /** A record that reads back as itself: no line feed inside, no CR or LF at its end. */
  predicate PlainRecord(r: string)
  {
    '\n' !in r && TrimEOL(r) == r
  }

  /**
   * Reading a shard's output back line by line gives back its records, when
   * every record holds no line feed and does not end in a carriage return.
   */
  lemma {:induction false} FramedLines(records: seq<string>)
    requires forall k :: 0 <= k < |records| ==> PlainRecord(records[k])
    ensures FileLines(Framed(records)) == records
    decreases |records|
  {
    if records == [] {
      assert Split("", '\n') == [""];
    } else {
      var r := records[0];
      FramedLines(records[1..]);
      assert PlainRecord(r);
      assert Framed(records) == r + ['\n'] + Framed(records[1..]);
      FileLinesCons(r, Framed(records[1..]));
    }
  }

  /** The release order of a gzip shard, end to end through Do. */
  method GzipShardReleases() returns (released: seq<Release>)
    ensures released == [Close(GzipOver(File("out-007.gz"))), Close(File("out-007.gz"))]
  {
    var setup := OpenShard("out-007.gz", CompressionGzip);
    ReleaseOrder("out-007.gz", CompressionGzip);
    released := setup.shard.cleanups.Do();
  }
}
