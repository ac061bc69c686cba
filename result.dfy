// The per-worker tally of result.go: a line counter, a bad-line counter and a
// histogram of error messages. In Go, `Result` is a struct passed by value whose
// `Errors` field is a map, that is, a reference to one shared table. The model
// keeps that split: `Result` is a datatype, and the table is an `ErrorCounts`
// object that every copy of the struct shares.
module Results {

  /** How often `k` was recorded in `m`: Go's `m[k]`, zero for an absent key. */
  function Entry(m: map<string, nat>, k: string): nat
  {
    if k in m then m[k] else 0
  }

  /** The histogram after one more occurrence of `k` (Go's `m[k]++`). */
  function Bump(m: map<string, nat>, k: string): map<string, nat>
  {
    m[k := Entry(m, k) + 1]
  }

  /** One more occurrence of `k`, and no change for any other key. */
  lemma BumpEntry(m: map<string, nat>, k: string, j: string)
    ensures Entry(Bump(m, k), j) == if j == k then Entry(m, k) + 1 else Entry(m, j)
    ensures Bump(m, k).Keys == m.Keys + {k}
  {
  }

  /** Key-wise sum of two histograms over the union of their keys. */
  function Merge(a: map<string, nat>, b: map<string, nat>): map<string, nat>
  {
    map k | k in a.Keys + b.Keys :: Entry(a, k) + Entry(b, k)
  }

  lemma MergeEntry(a: map<string, nat>, b: map<string, nat>, k: string)
    ensures Entry(Merge(a, b), k) == Entry(a, k) + Entry(b, k)
    ensures Merge(a, b).Keys == a.Keys + b.Keys
  {
  }

  lemma MergeCommutes(a: map<string, nat>, b: map<string, nat>)
    ensures Merge(a, b) == Merge(b, a)
  {
  }

  lemma MergeAssociates(a: map<string, nat>, b: map<string, nat>, c: map<string, nat>)
    ensures Merge(Merge(a, b), c) == Merge(a, Merge(b, c))
  {
    var l := Merge(Merge(a, b), c);
    var r := Merge(a, Merge(b, c));
    forall k | k in l.Keys
      ensures k in r && l[k] == r[k]
    {
      MergeEntry(a, b, k);
      MergeEntry(b, c, k);
    }
    forall k | k in r.Keys
      ensures k in l
    {
      MergeEntry(a, b, k);
      MergeEntry(b, c, k);
    }
  }

  /** An empty histogram is the identity of `Merge`. */
  lemma MergeEmpty(a: map<string, nat>)
    ensures Merge(a, map[]) == a
    ensures Merge(map[], a) == a
  {
  }

  /** The shared `map[string]uint64` of error messages. */
  class ErrorCounts {
    var counts: map<string, nat>

    /** `map[string]uint64{}` */
    constructor()
      ensures counts == map[]
    {
      counts := map[];
    }

    /** `m[k] += n`, the one update Go code performs on this table. */
    method Add(k: string, n: nat)
      modifies this
      ensures counts == old(counts)[k := Entry(old(counts), k) + n]
    {
      counts := counts[k := Entry(counts, k) + n];
    }
  }

  datatype Result = Result(Lines: nat, BadCount: nat, Errors: ErrorCounts)

  /** `NewResult`: zero counters and a fresh, empty table. */
  method NewResult() returns (r: Result)
    ensures fresh(r.Errors)
    ensures r.Lines == 0 && r.BadCount == 0 && r.Errors.counts == map[]
  {
    var e := new ErrorCounts();
    r := Result(0, 0, e);
  }

  /**
   * `AddError` has a value receiver: the increment of `BadCount` lands on the
   * method's own copy of the struct and is lost, while the increment of the
   * message's entry lands in the shared table.
   */
  method AddError(r: Result, emes: string)
    modifies r.Errors
    ensures r.Errors.counts == Bump(old(r.Errors.counts), emes)
  {
    var receiver := r;
    receiver := receiver.(BadCount := receiver.BadCount + 1);
    receiver.Errors.Add(emes, 1);
  }

  /**
   * `Combine` builds its answer with the receiver's table, then adds every
   * entry of `o`'s table into the receiver's table: the answer and `r` share the
   * merged table. This holds even when `o` and `r` share one table, because each
   * key is read before anything is added to it.
   */
  method Combine(r: Result, o: Result) returns (ret: Result)
    modifies r.Errors
    ensures ret == Result(r.Lines + o.Lines, r.BadCount + o.BadCount, r.Errors)
    ensures r.Errors.counts == Merge(old(r.Errors.counts), old(o.Errors.counts))
    ensures o.Errors != r.Errors ==> o.Errors.counts == old(o.Errors.counts)
  {
    ret := Result(r.Lines + o.Lines, r.BadCount + o.BadCount, r.Errors);
    ghost var mine := r.Errors.counts;
    ghost var theirs := o.Errors.counts;
    var todo := o.Errors.counts.Keys;
    while todo != {}
      invariant todo <= theirs.Keys
      invariant o.Errors != r.Errors ==> o.Errors.counts == theirs
      invariant forall k :: k in todo ==> Entry(o.Errors.counts, k) == Entry(theirs, k)
      invariant r.Errors.counts == MergeExcept(mine, theirs, todo)
      decreases |todo|
    {
      var k :| k in todo;
      var n := Entry(o.Errors.counts, k);
      r.Errors.Add(k, n);
      MergeExceptStep(mine, theirs, todo, k);
      todo := todo - {k};
    }
    MergeExceptDone(mine, theirs);
  }

  /** `Merge(a, b)` with the keys still in `todo` not yet added from `b`. */
  function MergeExcept(a: map<string, nat>, b: map<string, nat>, todo: set<string>): map<string, nat>
  {
    map k | k in a.Keys + (b.Keys - todo) :: Entry(a, k) + (if k in todo then 0 else Entry(b, k))
  }

  lemma MergeExceptStep(a: map<string, nat>, b: map<string, nat>, todo: set<string>, k: string)
    requires k in todo && todo <= b.Keys
    ensures MergeExcept(a, b, todo)[k := Entry(MergeExcept(a, b, todo), k) + Entry(b, k)]
         == MergeExcept(a, b, todo - {k})
  {
  }

  lemma MergeExceptDone(a: map<string, nat>, b: map<string, nat>)
    ensures MergeExcept(a, b, {}) == Merge(a, b)
  {
  }

  /** The histogram of `msgs`, recorded one after another into `m`. */
  function Record(m: map<string, nat>, msgs: seq<string>): map<string, nat>
    decreases |msgs|
  {
    if msgs == [] then m else Record(Bump(m, msgs[0]), msgs[1..])
  }

  /** The histogram a fresh table holds after recording `msgs`. */
  function Tally(msgs: seq<string>): map<string, nat>
  {
    Record(map[], msgs)
  }

  /** Recording one more message is one `Bump`. */
  lemma {:induction false} RecordSnoc(m: map<string, nat>, msgs: seq<string>, e: string)
    ensures Record(m, msgs + [e]) == Bump(Record(m, msgs), e)
    decreases |msgs|
  {
    if msgs == [] {
      assert msgs + [e] == [e];
    } else {
      assert (msgs + [e])[1..] == msgs[1..] + [e];
      RecordSnoc(Bump(m, msgs[0]), msgs[1..], e);
    }
  }

  lemma {:induction false} RecordConcat(m: map<string, nat>, a: seq<string>, b: seq<string>)
    ensures Record(m, a + b) == Record(Record(m, a), b)
    decreases |a|
  {
    if a == [] {
      assert a + b == b;
    } else {
      assert (a + b)[1..] == a[1..] + b;
      RecordConcat(Bump(m, a[0]), a[1..], b);
    }
  }

  /** Each message's entry in a tally is the number of times it occurs. */
  lemma {:induction false} RecordEntry(m: map<string, nat>, msgs: seq<string>, k: string)
    ensures Entry(Record(m, msgs), k) == Entry(m, k) + multiset(msgs)[k]
    decreases |msgs|
  {
    if msgs != [] {
      assert msgs == [msgs[0]] + msgs[1..];
      RecordEntry(Bump(m, msgs[0]), msgs[1..], k);
      BumpEntry(m, msgs[0], k);
    }
  }

  lemma TallyEntry(msgs: seq<string>, k: string)
    ensures Entry(Tally(msgs), k) == multiset(msgs)[k]
  {
    RecordEntry(map[], msgs, k);
  }

  /** Tallying two runs of messages and merging is tallying them back to back. */
  lemma {:induction false} RecordMerge(m: map<string, nat>, msgs: seq<string>)
    ensures Record(m, msgs) == Merge(m, Tally(msgs))
  {
    var l := Record(m, msgs);
    var r := Merge(m, Tally(msgs));
    forall k
      ensures Entry(l, k) == Entry(r, k)
    {
      RecordEntry(m, msgs, k);
      TallyEntry(msgs, k);
      MergeEntry(m, Tally(msgs), k);
    }
    RecordKeys(m, msgs);
    RecordKeys(map[], msgs);
    EntriesEqual(l, r);
  }

  /** Recording never forgets a key and every message becomes a key. */
  lemma {:induction false} RecordKeys(m: map<string, nat>, msgs: seq<string>)
    ensures Record(m, msgs).Keys == m.Keys + set e | e in msgs
    decreases |msgs|
  {
    if msgs != [] {
      RecordKeys(Bump(m, msgs[0]), msgs[1..]);
      assert (set e | e in msgs) == {msgs[0]} + set e | e in msgs[1..];
    }
  }

  lemma EntriesEqual(a: map<string, nat>, b: map<string, nat>)
    requires a.Keys == b.Keys
    requires forall k :: Entry(a, k) == Entry(b, k)
    ensures a == b
  {
    forall k | k in a
      ensures a[k] == b[k]
    {
      assert Entry(a, k) == Entry(b, k);
    }
  }

  lemma TallyConcat(a: seq<string>, b: seq<string>)
    ensures Tally(a + b) == Merge(Tally(a), Tally(b))
  {
    RecordConcat(map[], a, b);
    RecordMerge(Tally(a), b);
  }
}
