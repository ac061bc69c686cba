// cmd/set/main.go: each input line is `key TAB value`, stored with SET.
// The Redis command is an oracle: `redis(i, c)` is the reply to command `c`
// issued for the `i`-th line the worker receives.
module SetCmd {
  import opened Wrappers
  import opened Text
  import opened Results
  import opened Workers

  datatype Command = Set(key: string, value: string)

  const BadTokens: string := "Number of tokens != 2"

  /** The loop body of `set` for one line: split at the first tab, then SET. */
  function SetStep(line: string, i: nat, redis: (nat, Command) -> Outcome): Step<Command>
  {
    var token := SplitN(line, '\t', 2);
    if |token| != 2 then Step([BadTokens], [], [])
    else
      var c := Set(token[0], token[1]);
      match redis(i, c)
      case Fail(msg) => Step([msg], [c], [])
      case Pass => Step([], [c], [])
  }

  /** The effect of a worker's whole input, line after line. */
  function SetRun(lines: seq<string>, redis: (nat, Command) -> Outcome): Step<Command>
  {
    if lines == [] then NoStep()
    else Then(SetRun(lines[..|lines| - 1], redis), SetStep(lines[|lines| - 1], |lines| - 1, redis))
  }

  /**
   * A line without a tab is rejected without a command; any other line SETs
   * the text before its first tab to everything after it, tabs included.
   * At most one error is recorded per line.
   */
  lemma SetStepSplits(line: string, i: nat, redis: (nat, Command) -> Outcome)
    ensures var s := SetStep(line, i, redis);
      |s.errors| <= 1 && s.output == [] &&
      ('\t' !in line <==> s.calls == []) &&
      ('\t' !in line ==> s.errors == [BadTokens]) &&
      ('\t' in line ==> |s.calls| == 1 && '\t' !in s.calls[0].key &&
                        s.calls[0].key + "\t" + s.calls[0].value == line)
  {
    SplitNTwo(line, '\t');
    if '\t' in line {
      FirstTab(line);
    }
  }

  /** A failing SET records exactly the server's message. */
  lemma SetFailureRecorded(line: string, i: nat, redis: (nat, Command) -> Outcome)
    requires '\t' in line
    ensures var s := SetStep(line, i, redis);
      s.errors == if redis(i, s.calls[0]).Fail? then [redis(i, s.calls[0]).msg] else []
  {
    SetStepSplits(line, i, redis);
  }

  /** One line of the worker loop, on the worker's shared result. */
  method SetLine(result: Result, line: string, i: nat, redis: (nat, Command) -> Outcome)
    returns (calls: seq<Command>)
    modifies result.Errors
    ensures result.Errors.counts == Record(old(result.Errors.counts), SetStep(line, i, redis).errors)
    ensures calls == SetStep(line, i, redis).calls
  {
    calls := [];
    var token := SplitN(line, '\t', 2);
    if |token| != 2 {
      AddError(result, BadTokens);
      RecordOne(old(result.Errors.counts), BadTokens);
      return;
    }
    var c := Set(token[0], token[1]);
    calls := [c];
    var err := redis(i, c);
    if err.Fail? {
      AddError(result, err.msg);
      RecordOne(old(result.Errors.counts), err.msg);
      return;
    }
  }

  /**
   * The worker `set`: `Lines` counts every line received, the errors are
   * those of the lines in order, and `BadCount` stays zero because AddError's
   * increment of it is lost.
   */
  method SetWorker(lines: seq<string>, redis: (nat, Command) -> Outcome)
    returns (result: Result, calls: seq<Command>)
    ensures result.Lines == |lines| && result.BadCount == 0
    ensures result.Errors.counts == Tally(SetRun(lines, redis).errors)
    ensures calls == SetRun(lines, redis).calls
  {
    result := NewResult();
    calls := [];
    var lc := 0;
    while lc < |lines|
      invariant 0 <= lc <= |lines|
      invariant fresh(result.Errors)
      invariant result.Lines == 0 && result.BadCount == 0
      invariant result.Errors.counts == Tally(SetRun(lines[..lc], redis).errors)
      invariant calls == SetRun(lines[..lc], redis).calls
    {
      var line := lines[lc];
      ghost var before := SetRun(lines[..lc], redis);
      var more := SetLine(result, line, lc, redis);
      TallyThen(before.errors, SetStep(line, lc, redis).errors);
      calls := calls + more;
      assert lines[..lc + 1][..lc] == lines[..lc];
      lc := lc + 1;
    }
    assert lines[..lc] == lines;
    result := result.(Lines := lc);
  }

  /** A random-mode line: `prefix+uuid TAB uuid`. */
  function RandomLine(prefix: string, uuid: string): string
  {
    prefix + uuid + "\t" + uuid
  }

  /** A random-mode line SETs key `prefix+uuid` to the uuid. */
  lemma RandomLineStored(prefix: string, uuid: string, i: nat, redis: (nat, Command) -> Outcome)
    requires '\t' !in prefix + uuid
    ensures SetStep(RandomLine(prefix, uuid), i, redis).calls == [Set(prefix + uuid, uuid)]
  {
    SplitAtTab(prefix + uuid, uuid);
  }

  /** set's input check: files to load, unless --random generates the lines. */
  function SetInput(files: seq<string>, random: nat): (err: Option<string>)
    ensures err.None? <==> files != [] || random > 0
    ensures err.Some? ==> err.value == NoFiles
  {
    if |files| == 0 && random == 0 then Some(NoFiles) else None
  }
}
