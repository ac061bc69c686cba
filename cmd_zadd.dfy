// cmd/zadd/main.go: each input line is `key TAB score TAB member ...`, added
// to a sorted set with one ZADD per line. Float parsing (`strconv.ParseFloat`)
// is the oracle `parse`; the Redis command is the oracle `redis(i, c)` for the
// `i`-th line received.
module ZaddCmd {
  import opened Wrappers
  import opened Text
  import opened Results
  import opened Workers

  /** `redis.Z`: a member with its score. */
  datatype Z = Z(Score: real, Member: string)

  datatype Command = ZAdd(key: string, members: seq<Z>)

  /** `fmt.Sprintf("Number of tokens = %d", tokenCount)` */
  function TokenCountMessage(n: nat): string
  {
    "Number of tokens = " + NatToString(n)
  }

  /** A token count the worker accepts: a key and at least one score/member pair. */
  predicate PairedCount(n: nat)
  {
    n >= 3 && n % 2 == 1
  }

  /**
   * The pair loop over the first `n` pairs, tokens `1..2n`: a score that
   * parses adds its member, with that score, after those before it; a score
   * that does not records the parser's message and drops only that pair.
   */
  function Pairs(tokens: seq<string>, n: nat, parse: string -> Reply<real>): (r: (seq<Z>, seq<string>))
    requires 2 * n < |tokens|
  {
    if n == 0 then ([], [])
    else
      var (members, errors) := Pairs(tokens, n - 1, parse);
      match parse(tokens[2 * n - 1])
      case Err(msg) => (members, errors + [msg])
      case Ok(score) => (members + [Z(score, tokens[2 * n])], errors)
  }

  /** The pair whose score is token `j` extends the pairs before it. */
  lemma PairsNext(tokens: seq<string>, j: nat, parse: string -> Reply<real>)
    requires 1 <= j && j + 1 < |tokens| && j % 2 == 1
    ensures var (members, errors) := Pairs(tokens, (j - 1) / 2, parse);
      Pairs(tokens, (j + 1) / 2, parse) ==
        if parse(tokens[j]).Err? then (members, errors + [parse(tokens[j]).msg])
        else (members + [Z(parse(tokens[j]).value, tokens[j + 1])], errors)
  {
    assert (j + 1) / 2 - 1 == (j - 1) / 2 && 2 * ((j + 1) / 2) - 1 == j;
  }

  /** The loop body of `zadd` for one line. */
  function ZaddStep(line: string, i: nat, parse: string -> Reply<real>,
                    redis: (nat, Command) -> Outcome): Step<Command>
  {
    var tokens := Split(line, '\t');
    var n := |tokens|;
    if !PairedCount(n) then Step([TokenCountMessage(n)], [], [])
    else
      var (members, errors) := Pairs(tokens, (n - 1) / 2, parse);
      var c := ZAdd(tokens[0], members);
      match redis(i, c)
      case Fail(msg) => Step(errors + [msg], [c], [])
      case Pass => Step(errors, [c], [])
  }

  function ZaddRun(lines: seq<string>, parse: string -> Reply<real>,
                   redis: (nat, Command) -> Outcome): Step<Command>
  {
    if lines == [] then NoStep()
    else Then(ZaddRun(lines[..|lines| - 1], parse, redis),
              ZaddStep(lines[|lines| - 1], |lines| - 1, parse, redis))
  }

  /** Every pair either adds a member or records an error. */
  lemma {:induction false} PairsAccount(tokens: seq<string>, n: nat, parse: string -> Reply<real>)
    requires 2 * n < |tokens|
    ensures |Pairs(tokens, n, parse).0| + |Pairs(tokens, n, parse).1| == n
    decreases n
  {
    if n > 0 {
      PairsAccount(tokens, n - 1, parse);
    }
  }

  /**
   * When every score parses, the members are the pairs in line order: the
   * `k`-th member is token `2k+2` with the score of token `2k+1`.
   */
  lemma {:induction false} PairsInOrder(tokens: seq<string>, n: nat, parse: string -> Reply<real>)
    requires 2 * n < |tokens|
    requires forall k :: 0 <= k < n ==> parse(tokens[2 * k + 1]).Ok?
    ensures Pairs(tokens, n, parse).1 == []
    ensures |Pairs(tokens, n, parse).0| == n
    ensures forall k :: 0 <= k < n ==>
      Pairs(tokens, n, parse).0[k] == Z(parse(tokens[2 * k + 1]).value, tokens[2 * k + 2])
    decreases n
  {
    if n > 0 {
      PairsInOrder(tokens, n - 1, parse);
      assert parse(tokens[2 * (n - 1) + 1]).Ok?;
    }
  }

  /** A member comes from a member token, never from the key or a score token. */
  lemma {:induction false} PairsFromTokens(tokens: seq<string>, n: nat, parse: string -> Reply<real>)
    requires 2 * n < |tokens|
    ensures forall z :: z in Pairs(tokens, n, parse).0 ==>
      exists k :: 0 <= k < n && z.Member == tokens[2 * k + 2] && parse(tokens[2 * k + 1]) == Ok(z.Score)
    decreases n
  {
    if n > 0 {
      PairsFromTokens(tokens, n - 1, parse);
      var (members, errors) := Pairs(tokens, n - 1, parse);
      forall z | z in Pairs(tokens, n, parse).0
        ensures exists k :: 0 <= k < n && z.Member == tokens[2 * k + 2] && parse(tokens[2 * k + 1]) == Ok(z.Score)
      {
        if z !in members {
          var k := n - 1;
          assert z.Member == tokens[2 * k + 2] && parse(tokens[2 * k + 1]) == Ok(z.Score);
        }
      }
    }
  }

  /**
   * ZADD is skipped exactly when the line does not split on every tab into a
   * key and whole pairs, and then the token count is recorded. Otherwise ZADD
   * goes to the first token with the parsed pairs, even if none parsed, and
   * the line records one error per bad score, in order, followed by ZADD's
   * failure message when it fails.
   */
  lemma ZaddStepChecks(line: string, i: nat, parse: string -> Reply<real>,
                       redis: (nat, Command) -> Outcome)
    ensures var s := ZaddStep(line, i, parse, redis);
      var tokens := Split(line, '\t');
      s.output == [] &&
      (s.calls == [] <==> !PairedCount(|tokens|)) &&
      (!PairedCount(|tokens|) ==> s.errors == [TokenCountMessage(|tokens|)]) &&
      (PairedCount(|tokens|) ==>
        var (members, errors) := Pairs(tokens, (|tokens| - 1) / 2, parse);
        var c := ZAdd(tokens[0], members);
        s.calls == [c] &&
        |members| + |errors| == (|tokens| - 1) / 2 &&
        s.errors == errors + if redis(i, c).Fail? then [redis(i, c).msg] else [])
  {
    var tokens := Split(line, '\t');
    if PairedCount(|tokens|) {
      PairsAccount(tokens, (|tokens| - 1) / 2, parse);
    }
  }

  /** The key of a ZADD is the text before the line's first tab. */
  lemma ZaddKey(line: string, i: nat, parse: string -> Reply<real>, redis: (nat, Command) -> Outcome)
    requires ZaddStep(line, i, parse, redis).calls != []
    ensures var key := ZaddStep(line, i, parse, redis).calls[0].key;
      '\t' !in key && HasTabAfter(line, key)
  {
    SplitHead(line, '\t');
  }

  /** `line` is `key`, a tab, and more. */
  predicate HasTabAfter(line: string, key: string)
  {
    |key| < |line| && line[..|key|] == key && line[|key|] == '\t'
  }

  /**
   * The inner loop of `zadd` over tokens `1, 3, 5, ...`: parse each score,
   * record a parse error, or append the member with its score.
   */
  method AddPairs(result: Result, tokens: seq<string>, parse: string -> Reply<real>)
    returns (members: seq<Z>)
    requires |tokens| % 2 == 1
    modifies result.Errors
    ensures members == Pairs(tokens, (|tokens| - 1) / 2, parse).0
    ensures result.Errors.counts == Record(old(result.Errors.counts), Pairs(tokens, (|tokens| - 1) / 2, parse).1)
  {
    ghost var errors: seq<string> := [];
    members := [];
    var j := 1;
    while j < |tokens|
      invariant 1 <= j <= |tokens| && j % 2 == 1
      invariant (members, errors) == Pairs(tokens, (j - 1) / 2, parse)
      invariant result.Errors.counts == Record(old(result.Errors.counts), errors)
    {
      var score := parse(tokens[j]);
      PairsNext(tokens, j, parse);
      if score.Err? {
        AddError(result, score.msg);
        RecordSnoc(old(result.Errors.counts), errors, score.msg);
        errors := errors + [score.msg];
      } else {
        members := members + [Z(score.value, tokens[j + 1])];
      }
      j := j + 2;
    }
  }

  /** One line of the worker loop: validate, build the members, ZADD. */
  method ZaddLine(result: Result, line: string, i: nat, parse: string -> Reply<real>,
                  redis: (nat, Command) -> Outcome) returns (calls: seq<Command>)
    modifies result.Errors
    ensures result.Errors.counts == Record(old(result.Errors.counts), ZaddStep(line, i, parse, redis).errors)
    ensures calls == ZaddStep(line, i, parse, redis).calls
  {
    calls := [];
    var tokens := Split(line, '\t');
    var tokenCount := |tokens|;
    if tokenCount < 3 || tokenCount % 2 == 0 {
      AddError(result, TokenCountMessage(tokenCount));
      RecordOne(old(result.Errors.counts), TokenCountMessage(tokenCount));
      return;
    }
    var members := AddPairs(result, tokens, parse);
    var c := ZAdd(tokens[0], members);
    calls := [c];
    var err := redis(i, c);
    if err.Fail? {
      ghost var errors := Pairs(tokens, (tokenCount - 1) / 2, parse).1;
      AddError(result, err.msg);
      RecordSnoc(old(result.Errors.counts), errors, err.msg);
    }
  }

  /** The worker `zadd`: every line counted, errors tallied in order, `BadCount` zero. */
  method ZaddWorker(lines: seq<string>, parse: string -> Reply<real>, redis: (nat, Command) -> Outcome)
    returns (result: Result, calls: seq<Command>)
    ensures result.Lines == |lines| && result.BadCount == 0
    ensures result.Errors.counts == Tally(ZaddRun(lines, parse, redis).errors)
    ensures calls == ZaddRun(lines, parse, redis).calls
  {
    result := NewResult();
    calls := [];
    var lc := 0;
    while lc < |lines|
      invariant 0 <= lc <= |lines|
      invariant fresh(result.Errors)
      invariant result.Lines == 0 && result.BadCount == 0
      invariant result.Errors.counts == Tally(ZaddRun(lines[..lc], parse, redis).errors)
      invariant calls == ZaddRun(lines[..lc], parse, redis).calls
    {
      var line := lines[lc];
      ghost var before := ZaddRun(lines[..lc], parse, redis);
      var more := ZaddLine(result, line, lc, parse, redis);
      TallyThen(before.errors, ZaddStep(line, lc, parse, redis).errors);
      calls := calls + more;
      assert lines[..lc + 1][..lc] == lines[..lc];
      lc := lc + 1;
    }
    assert lines[..lc] == lines;
    result := result.(Lines := lc);
  }

  /**
   * A random-mode line, `key TAB score TAB prefix+member`, with the score as
   * `%f` prints it (`scoreText`; float formatting is not modelled).
   */
  function RandomLine(key: string, scoreText: string, prefix: string, member: string): string
  {
    key + "\t" + scoreText + "\t" + prefix + member
  }

  /** A random-mode line is one well-formed pair for the given key. */
  lemma RandomLineAccepted(key: string, scoreText: string, prefix: string, member: string,
                           i: nat, parse: string -> Reply<real>, redis: (nat, Command) -> Outcome)
    requires '\t' !in key && '\t' !in scoreText && '\t' !in prefix + member
    requires parse(scoreText).Ok?
    ensures ZaddStep(RandomLine(key, scoreText, prefix, member), i, parse, redis).calls
         == [ZAdd(key, [Z(parse(scoreText).value, prefix + member)])]
  {
    var line := RandomLine(key, scoreText, prefix, member);
    assert line == key + "\t" + scoreText + "\t" + (prefix + member);
    SplitThreeFields(key, scoreText, prefix + member);
    var tokens := Split(line, '\t');
    assert tokens == [key, scoreText, prefix + member];
    assert (|tokens| - 1) / 2 == 1;
    assert Pairs(tokens, 0, parse) == ([], []);
    assert tokens[2 * 1 - 1] == scoreText && tokens[2 * 1] == prefix + member;
    var z := Z(parse(scoreText).value, prefix + member);
    assert parse(tokens[1]) == Ok(z.Score);
    assert [] + [z] == [z];
    assert Pairs(tokens, 1, parse) == ([Z(parse(scoreText).value, prefix + member)], []);
  }

  /** zadd's input check: --random needs --key, otherwise files are needed. */
  function ZaddInput(random: nat, key: string, files: seq<string>): (err: Option<string>)
    ensures err.None? <==> (if random > 0 then key != "" else files != [])
    ensures err.Some? ==> err.value == (if random > 0 then NoKey else NoFiles)
  {
    if random > 0 then
      if key == "" then Some(NoKey) else None
    else if |files| == 0 then Some(NoFiles)
    else None
  }
}
