// cmd/pttl/main.go: each input line is a key; PTTL it and send
// `key TAB expiry` to the output shards, where the expiry is the Unix time in
// milliseconds at which the key expires, or "-1" for a key without one. The
// Redis command is an oracle answered for the `i`-th key received, a TTL is a
// Go `time.Duration` in nanoseconds, and `now(i)` is the clock, in Unix
// nanoseconds, when that answer arrives.
module PttlCmd {
  import opened Wrappers
  import opened Text
  import opened Results
  import opened Workers

  datatype Command = PTTL(key: string)

  /** `ttlNotExist`: the TTL Redis reports for a missing key, -2 milliseconds. */
  const TtlNotExist: int := -2 * NanosPerMilli

  /** `neverExpire`: what is printed for a key without an expiry. */
  const NeverExpire: string := "-1"

  /** `time.Now().Add(d).UnixNano() / int64(time.Millisecond)`, in decimal. */
  function ExpireAt(now: int, d: int): string
  {
    IntToString(Quot(now + d, NanosPerMilli))
  }

  /** The loop body of `pttl` for one key. */
  function PttlStep(key: string, i: nat, pttl: (nat, string) -> Reply<int>, now: nat -> int): Step<Command>
  {
    match pttl(i, key)
    case Err(msg) => Step([msg], [PTTL(key)], [])
    case Ok(d) =>
      if d == TtlNotExist then Step([KeyMissing], [PTTL(key)], [])
      else
        var ms := if d >= 0 then ExpireAt(now(i), d) else NeverExpire;
        Step([], [PTTL(key)], [key + "\t" + ms])
  }

  function PttlRun(keys: seq<string>, pttl: (nat, string) -> Reply<int>, now: nat -> int): Step<Command>
  {
    if keys == [] then NoStep()
    else Then(PttlRun(keys[..|keys| - 1], pttl, now), PttlStep(keys[|keys| - 1], |keys| - 1, pttl, now))
  }

  /**
   * A failing command records its message and a missing key records
   * "Key does not exist", both without output; any other answer yields one
   * line `key TAB expiry`: "-1" for a negative TTL, else the expiry instant.
   */
  lemma PttlStepOutcome(key: string, i: nat, pttl: (nat, string) -> Reply<int>, now: nat -> int)
    ensures var s := PttlStep(key, i, pttl, now);
      s.calls == [PTTL(key)] && |s.errors| + |s.output| == 1 &&
      (s.output == [] <==> pttl(i, key).Err? || pttl(i, key).value == TtlNotExist) &&
      (pttl(i, key).Err? ==> s.errors == [pttl(i, key).msg]) &&
      (pttl(i, key) == Ok(TtlNotExist) ==> s.errors == [KeyMissing]) &&
      (pttl(i, key).Ok? && pttl(i, key).value < 0 && pttl(i, key).value != TtlNotExist ==>
         s.output == [key + "\t" + NeverExpire]) &&
      (pttl(i, key).Ok? && pttl(i, key).value >= 0 ==>
         s.output == [key + "\t" + ExpireAt(now(i), pttl(i, key).value)])
  {
  }

  /** The expiry printed is the instant `now + d` in whole milliseconds, rounded down after 1970. */
  lemma ExpireAtValue(now: int, d: int)
    requires now + d >= 0
    ensures var q := Quot(now + d, NanosPerMilli);
      ExpireAt(now, d) == IntToString(q) && q * NanosPerMilli <= now + d < q * NanosPerMilli + NanosPerMilli
  {
    QuotNonNegative(now + d, NanosPerMilli);
  }

  /** With a tab-free key, an output line reads back as the key and the expiry. */
  lemma PttlOutputFields(key: string, i: nat, pttl: (nat, string) -> Reply<int>, now: nat -> int)
    requires '\t' !in key
    requires pttl(i, key).Ok? && pttl(i, key).value >= 0
    ensures Split(PttlStep(key, i, pttl, now).output[0], '\t') == [key, ExpireAt(now(i), pttl(i, key).value)]
  {
    IntToStringNoTab(Quot(now(i) + pttl(i, key).value, NanosPerMilli));
    SplitTwoFields(key, ExpireAt(now(i), pttl(i, key).value));
  }

  method PttlLine(result: Result, key: string, i: nat, pttl: (nat, string) -> Reply<int>, now: nat -> int)
    returns (calls: seq<Command>, out: seq<string>)
    modifies result.Errors
    ensures result.Errors.counts == Record(old(result.Errors.counts), PttlStep(key, i, pttl, now).errors)
    ensures calls == PttlStep(key, i, pttl, now).calls
    ensures out == PttlStep(key, i, pttl, now).output
  {
    out := [];
    calls := [PTTL(key)];
    var d := pttl(i, key);
    if d.Err? {
      AddError(result, d.msg);
      RecordOne(old(result.Errors.counts), d.msg);
      return;
    } else if d.value == TtlNotExist {
      AddError(result, KeyMissing);
      RecordOne(old(result.Errors.counts), KeyMissing);
      return;
    }
    var ms := NeverExpire;
    if d.value >= 0 {
      var expireAtMsec := Quot(now(i) + d.value, NanosPerMilli);
      ms := IntToString(expireAtMsec);
    }
    out := [key + "\t" + ms];
  }

  /** The worker `pttl`: every key counted, errors tallied in order, `BadCount` zero. */
  method PttlWorker(keys: seq<string>, pttl: (nat, string) -> Reply<int>, now: nat -> int)
    returns (result: Result, calls: seq<Command>, out: seq<string>)
    ensures result.Lines == |keys| && result.BadCount == 0
    ensures result.Errors.counts == Tally(PttlRun(keys, pttl, now).errors)
    ensures calls == PttlRun(keys, pttl, now).calls
    ensures out == PttlRun(keys, pttl, now).output
  {
    result := NewResult();
    calls := [];
    out := [];
    var lc := 0;
    while lc < |keys|
      invariant 0 <= lc <= |keys|
      invariant fresh(result.Errors)
      invariant result.Lines == 0 && result.BadCount == 0
      invariant result.Errors.counts == Tally(PttlRun(keys[..lc], pttl, now).errors)
      invariant calls == PttlRun(keys[..lc], pttl, now).calls
      invariant out == PttlRun(keys[..lc], pttl, now).output
    {
      var key := keys[lc];
      ghost var before := PttlRun(keys[..lc], pttl, now);
      var moreCalls, moreOut := PttlLine(result, key, lc, pttl, now);
      TallyThen(before.errors, PttlStep(key, lc, pttl, now).errors);
      calls := calls + moreCalls;
      out := out + moreOut;
      assert keys[..lc + 1][..lc] == keys[..lc];
      lc := lc + 1;
    }
    assert keys[..lc] == keys;
    result := result.(Lines := lc);
  }
}
