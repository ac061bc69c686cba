// What the command-line tools under cmd/ share: the effect of handling one
// input line, the startup outcome, Go's truncating integer division, and the
// fold with which `main` combines the workers' results.
module Workers {
  import opened Wrappers
  import opened Text
  import opened Results

  // ------------------------------------------------------------------ effect of one line

  /**
   * What handling one input line amounts to: the error messages recorded,
   * the Redis commands issued and the lines sent for output, each in order.
   */
  datatype Step<C> = Step(errors: seq<string>, calls: seq<C>, output: seq<string>)

  /** The effect of one line followed by that of another. */
  function Then<C>(a: Step<C>, b: Step<C>): Step<C>
  {
    Step(a.errors + b.errors, a.calls + b.calls, a.output + b.output)
  }

  function NoStep<C>(): Step<C>
  {
    Step([], [], [])
  }

  /** A single error message is a single increment. */
  lemma RecordOne(m: map<string, nat>, e: string)
    ensures Record(m, [e]) == Bump(m, e)
  {
    assert [e][1..] == [];
  }

  /** Recording a line's messages after earlier ones is tallying them all. */
  lemma TallyThen(earlier: seq<string>, more: seq<string>)
    ensures Record(Tally(earlier), more) == Tally(earlier + more)
  {
    RecordConcat(map[], earlier, more);
  }

  /** The text before the first tab holds no tab, and joining back the two sides gives the line. */
  lemma SplitAtTab(k: string, v: string)
    requires '\t' !in k
    ensures SplitN(k + "\t" + v, '\t', 2) == [k, v]
  {
    SplitNConcat(k, v, '\t', 2);
  }

  /** Two tab-free fields joined by a tab split back into those fields. */
  lemma SplitTwoFields(a: string, b: string)
    requires '\t' !in a && '\t' !in b
    ensures Split(a + "\t" + b, '\t') == [a, b]
  {
    SplitConcat(a, b, '\t');
    SplitAbsent(a, '\t');
    SplitAbsent(b, '\t');
  }

  /** Three tab-free fields joined by tabs split back into those fields. */
  lemma SplitThreeFields(a: string, b: string, c: string)
    requires '\t' !in a && '\t' !in b && '\t' !in c
    ensures Split(a + "\t" + b + "\t" + c, '\t') == [a, b, c]
  {
    var rest := b + "\t" + c;
    assert a + "\t" + b + "\t" + c == a + ['\t'] + rest;
    SplitConcat(a, rest, '\t');
    SplitAbsent(a, '\t');
    SplitTwoFields(b, c);
  }

  /** The pieces of a line split at its first tab: a tab-free key and the rest. */
  lemma FirstTab(line: string)
    requires '\t' in line
    ensures var t := SplitN(line, '\t', 2);
      |t| == 2 && '\t' !in t[0] && t[0] + "\t" + t[1] == line
  {
    var i := IndexOf(line, '\t');
    SplitNTwo(line, '\t');
    IndexOfIsFirst(line, '\t');
    PrefixAbsent(line, '\t', i);
    AroundSeparator(line, '\t', i);
  }

  // ------------------------------------------------------------------ startup

  /** How `main` ends its option checks: print the version, exit fatally, or run against `nodes`. */
  datatype Launch = ShowVersion | Fatal(msg: string) | Run(nodes: seq<string>)

  const DefaultNode: string := "127.0.0.1:6379"
  const NoFiles: string := "*** Files to load must be specified"
  const NoKey: string := "*** key must be specified"
  const BadInSplit: string := "*** --in-split must be >= 1"
  const BadOutSplit: string := "*** --out-split must be >= 1"
  const BadWorker: string := "*** --worker must be >= 1"

  /** The message pttl and hgetall record for a key Redis does not hold. */
  const KeyMissing: string := "Key does not exist"

  /** The Redis nodes to use: those given with --node, else the local default. */
  function DefaultNodes(nodes: seq<string>): (r: seq<string>)
    ensures r != []
    ensures nodes != [] ==> r == nodes
  {
    if nodes == [] then [DefaultNode] else nodes
  }

  /** The input check of the tools that only read files: at least one file. */
  function RequireFiles(files: seq<string>): (err: Option<string>)
    ensures err.None? <==> files != []
  {
    if |files| == 0 then Some(NoFiles) else None
  }

  /**
   * `main`'s option checks, in the order they are made: --version wins,
   * then the tool's own input check (`inputError`), then --in-split,
   * --out-split for the tools that write output shards (`outSplit` is None
   * for the others) and --worker; the first failing check is fatal.
   */
  function StartupCheck(showVersion: bool, inputError: Option<string>, inSplit: nat,
                        outSplit: Option<nat>, worker: nat, nodes: seq<string>): (l: Launch)
    ensures l.Run? <==> !showVersion && inputError.None? && inSplit >= 1 &&
                        (outSplit.Some? ==> outSplit.value >= 1) && worker >= 1
    ensures l.Run? ==> l.nodes == DefaultNodes(nodes)
    ensures l.Fatal? && inputError.Some? ==> l.msg == inputError.value
    ensures l.Fatal? && inputError.None? ==> l.msg in {BadInSplit, BadOutSplit, BadWorker}
    ensures l.Fatal? && inputError.None? && inSplit == 0 ==> l.msg == BadInSplit
    ensures l.Fatal? && inputError.None? && inSplit >= 1 && outSplit.Some? && outSplit.value == 0 ==>
              l.msg == BadOutSplit
    ensures l.Fatal? && inputError.None? && inSplit >= 1 && (outSplit.Some? ==> outSplit.value >= 1) ==>
              l.msg == BadWorker
  {
    if showVersion then ShowVersion
    else if inputError.Some? then Fatal(inputError.value)
    else if inSplit <= 0 then Fatal(BadInSplit)
    else if outSplit.Some? && outSplit.value <= 0 then Fatal(BadOutSplit)
    else if worker <= 0 then Fatal(BadWorker)
    else Run(DefaultNodes(nodes))
  }

  // ------------------------------------------------------------------ integer arithmetic

  const NanosPerMilli: int := 1_000_000

  /** Go's `/` on integers, which truncates toward zero. */
  function Quot(a: int, b: int): int
    requires b > 0
  {
    if a >= 0 then a / b else -((-a) / b)
  }

  /** Truncating a non-negative quotient rounds down: less than one divisor is dropped. */
  lemma QuotNonNegative(a: int, b: int)
    requires b > 0 && a >= 0
    ensures 0 <= Quot(a, b) * b <= a < Quot(a, b) * b + b
  {
    var q := a / b;
    var r := a % b;
    assert a == q * b + r && 0 <= r < b;
    assert q * b >= 0;
  }

  /** Truncating a negative quotient rounds up, toward zero, unlike Dafny's `/`. */
  lemma QuotNegative(a: int, b: int)
    requires b > 0 && a < 0
    ensures Quot(a, b) * b - b < a <= Quot(a, b) * b <= 0
  {
    QuotNonNegative(-a, b);
    assert Quot(a, b) == -Quot(-a, b);
    assert Quot(a, b) * b == -(Quot(-a, b) * b);
  }

  // ------------------------------------------------------------------ combining the workers' results

  /** The tables of a sequence of results. */
  function Tables(rs: seq<Result>): set<ErrorCounts>
  {
    set k | 0 <= k < |rs| :: rs[k].Errors
  }

  lemma TablesPrefix(rs: seq<Result>, i: nat)
    requires i <= |rs|
    ensures Tables(rs[..i]) <= Tables(rs)
  {
    var init := rs[..i];
    forall k | 0 <= k < |init| ensures init[k].Errors in Tables(rs) {
      assert init[k] == rs[k];
    }
  }

  /** The merged histogram of a sequence of results. */
  function MergeAll(rs: seq<Result>): map<string, nat>
    reads Tables(rs)
    decreases |rs|
  {
    if rs == [] then map[]
    else
      TablesPrefix(rs, |rs| - 1);
      Merge(MergeAll(rs[..|rs| - 1]), rs[|rs| - 1].Errors.counts)
  }

  function SumLines(rs: seq<Result>): nat
  {
    if rs == [] then 0 else SumLines(rs[..|rs| - 1]) + rs[|rs| - 1].Lines
  }

  function SumBad(rs: seq<Result>): nat
  {
    if rs == [] then 0 else SumBad(rs[..|rs| - 1]) + rs[|rs| - 1].BadCount
  }

  /** Results whose bad-line counters stayed at zero sum to zero. */
  lemma {:induction false} SumBadZero(rs: seq<Result>)
    requires forall k :: 0 <= k < |rs| ==> rs[k].BadCount == 0
    ensures SumBad(rs) == 0
    decreases |rs|
  {
    if rs != [] {
      SumBadZero(rs[..|rs| - 1]);
    }
  }

  /**
   * `main`'s collection loop: start from NewResult and replace the total by
   * `total.Combine(result)` for each worker's result. The total counts every
   * worker's lines, bad lines and error messages.
   */
  method Gather(results: seq<Result>) returns (total: Result)
    ensures total.Lines == SumLines(results)
    ensures total.BadCount == SumBad(results)
    ensures total.Errors.counts == MergeAll(results)
  {
    total := NewResult();
    var i := 0;
    while i < |results|
      invariant 0 <= i <= |results|
      invariant fresh(total.Errors) && total.Errors !in Tables(results)
      invariant total.Lines == SumLines(results[..i])
      invariant total.BadCount == SumBad(results[..i])
      invariant total.Errors.counts == MergeAll(results[..i])
    {
      var result := results[i];
      TablesPrefix(results, i);
      ghost var before := MergeAll(results[..i]);
      assert result.Errors in Tables(results);
      total := Combine(total, result);
      assert MergeAll(results[..i]) == before;
      assert results[..i + 1][..i] == results[..i];
      i := i + 1;
    }
    assert results[..i] == results;
  }
}
