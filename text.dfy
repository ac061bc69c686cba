/**
 * The parts of Go's `strings` and `strconv` packages that the core relies on,
 * over `string` (one character per byte of the original program's strings).
 */
module Text {
  import opened Wrappers

  // ------------------------------------------------------------------ counting and searching

  /** Number of occurrences of `c` in `s`. */
  function Count(s: string, c: char): nat
  {
    if s == [] then 0 else (if s[0] == c then 1 else 0) + Count(s[1..], c)
  }

  lemma {:induction false} CountConcat(a: string, b: string, c: char)
    ensures Count(a + b, c) == Count(a, c) + Count(b, c)
  {
    if a == [] {
      assert a + b == b;
    } else {
      assert (a + b)[1..] == a[1..] + b;
      CountConcat(a[1..], b, c);
    }
  }

  lemma {:induction false} CountAbsent(s: string, c: char)
    requires c !in s
    ensures Count(s, c) == 0
  {
    if s != [] {
      assert c !in s[1..] by {
        forall k | 0 <= k < |s| - 1 ensures s[1..][k] != c {
          assert s[1..][k] == s[k + 1];
        }
      }
      CountAbsent(s[1..], c);
    }
  }

  /** Position of the first `c` in `s` (Go's `strings.IndexByte` when `c` occurs). */
  function IndexOf(s: string, c: char): (i: nat)
    requires c in s
    ensures i < |s| && s[i] == c
  {
    if s[0] == c then 0
    else
      assert c in s[1..] by {
        var j :| 0 <= j < |s| && s[j] == c;
        assert s[1..][j - 1] == c;
      }
      1 + IndexOf(s[1..], c)
  }

  /** No `c` comes before the position IndexOf finds. */
  lemma {:induction false} IndexOfIsFirst(s: string, c: char)
    requires c in s
    ensures forall k :: 0 <= k < IndexOf(s, c) ==> s[k] != c
    decreases |s|
  {
    if s[0] != c {
      var t := s[1..];
      assert c in t by {
        var j :| 0 <= j < |s| && s[j] == c;
        assert t[j - 1] == c;
      }
      IndexOfIsFirst(t, c);
      assert IndexOf(s, c) == 1 + IndexOf(t, c);
      forall k | 0 <= k < IndexOf(s, c) ensures s[k] != c {
        if k > 0 {
          assert s[k] == t[k - 1];
        }
      }
    }
  }

  /** The first occurrence is the only position with no earlier occurrence. */
  lemma {:induction false} IndexOfUnique(s: string, c: char, i: nat)
    requires i < |s| && s[i] == c
    requires forall k :: 0 <= k < i ==> s[k] != c
    ensures IndexOf(s, c) == i
    decreases i
  {
    if i > 0 {
      var t := s[1..];
      assert t[i - 1] == c;
      forall k | 0 <= k < i - 1 ensures t[k] != c {
        assert t[k] == s[k + 1];
      }
      IndexOfUnique(t, c, i - 1);
    }
  }

  lemma PrefixAbsent(s: string, c: char, i: nat)
    requires i <= |s|
    requires forall k :: 0 <= k < i ==> s[k] != c
    ensures c !in s[..i]
  {
    forall k | 0 <= k < i ensures s[..i][k] != c {
      assert s[..i][k] == s[k];
    }
  }

  // ------------------------------------------------------------------ strings.Split / SplitN / Join

  /** Go's `strings.Split(s, string(c))`, also `strings.SplitN(s, string(c), -1)`. */
  function Split(s: string, c: char): (parts: seq<string>)
    ensures |parts| >= 1
    decreases |s|
  {
    if c !in s then [s]
    else
      var i := IndexOf(s, c);
      [s[..i]] + Split(s[i + 1..], c)
  }

  /** Without a separator, Split yields the whole text as its single piece. */
  lemma SplitAbsent(s: string, c: char)
    requires c !in s
    ensures Split(s, c) == [s]
  {
  }

  /** No piece of Split contains the separator. */
  lemma {:induction false} SplitPiecesFree(s: string, c: char)
    ensures forall k :: 0 <= k < |Split(s, c)| ==> c !in Split(s, c)[k]
    decreases |s|
  {
    if c in s {
      var i := IndexOf(s, c);
      IndexOfIsFirst(s, c);
      PrefixAbsent(s, c, i);
      SplitPiecesFree(s[i + 1..], c);
      var rest := Split(s[i + 1..], c);
      assert Split(s, c) == [s[..i]] + rest;
      forall k | 0 <= k < |Split(s, c)| ensures c !in Split(s, c)[k] {
        if k > 0 {
          assert Split(s, c)[k] == rest[k - 1];
        }
      }
    }
  }

  /** Go's `strings.SplitN(s, string(c), n)` for `n >= 1`: at most `n` pieces, the last one unsplit. */
  function SplitN(s: string, c: char, n: nat): (parts: seq<string>)
    requires n >= 1
    ensures 1 <= |parts| <= n
    decreases n
  {
    if n == 1 || c !in s then [s]
    else
      var i := IndexOf(s, c);
      [s[..i]] + SplitN(s[i + 1..], c, n - 1)
  }

  /** Go's `strings.Join(parts, sep)`. */
  function Join(parts: seq<string>, sep: string): string
  {
    if |parts| == 0 then ""
    else if |parts| == 1 then parts[0]
    else Join(parts[..|parts| - 1], sep) + sep + parts[|parts| - 1]
  }

  lemma {:induction false} JoinCons(a: string, rest: seq<string>, sep: string)
    requires rest != []
    ensures Join([a] + rest, sep) == a + sep + Join(rest, sep)
    decreases |rest|
  {
    if |rest| == 1 {
      assert ([a] + rest)[..1] == [a];
    } else {
      var init := rest[..|rest| - 1];
      assert ([a] + rest)[..|rest|] == [a] + init;
      JoinCons(a, init, sep);
    }
  }

  /** Splitting and joining back with the same separator gives the original text. */
  lemma {:induction false} JoinSplit(s: string, c: char)
    ensures Join(Split(s, c), [c]) == s
    decreases |s|
  {
    if c in s {
      var i := IndexOf(s, c);
      SplitFirst(s, c);
      JoinSplit(s[i + 1..], c);
      JoinCons(s[..i], Split(s[i + 1..], c), [c]);
      AroundSeparator(s, c, i);
    }
  }

  /** Split's first piece ends at the first separator. */
  lemma SplitFirst(s: string, c: char)
    requires c in s
    ensures Split(s, c) == [s[..IndexOf(s, c)]] + Split(s[IndexOf(s, c) + 1..], c)
  {
  }

  /** With a separator present, the first piece is the tab-free text before the first one. */
  lemma SplitHead(s: string, c: char)
    requires |Split(s, c)| >= 2
    ensures var h := Split(s, c)[0];
      c !in h && |h| < |s| && s[..|h|] == h && s[|h|] == c
  {
    if c !in s {
      SplitAbsent(s, c);
    }
    var i := IndexOf(s, c);
    SplitFirst(s, c);
    IndexOfIsFirst(s, c);
    PrefixAbsent(s, c, i);
  }

  /** The text is what lies before position `i`, the separator there, and what follows. */
  lemma AroundSeparator(s: string, c: char, i: nat)
    requires i < |s| && s[i] == c
    ensures s[..i] + [c] + s[i + 1..] == s
  {
  }

  /** There is one more piece than there are separators. */
  lemma {:induction false} SplitCount(s: string, c: char)
    ensures |Split(s, c)| == Count(s, c) + 1
    decreases |s|
  {
    if c !in s {
      CountAbsent(s, c);
    } else {
      SplitCount(s[IndexOf(s, c) + 1..], c);
      CountAfterFirst(s, c);
    }
  }

  /** A separator splits the text into the pieces of each side. */
  lemma {:induction false} SplitConcat(a: string, b: string, c: char)
    ensures Split(a + [c] + b, c) == Split(a, c) + Split(b, c)
    decreases |a|
  {
    var s := a + [c] + b;
    assert c in s by { assert s[|a|] == c; }
    if c !in a {
      forall k | 0 <= k < |a| ensures s[k] != c {
        assert s[k] == a[k];
      }
      IndexOfUnique(s, c, |a|);
      assert s[..|a|] == a && s[|a| + 1..] == b;
      assert Split(s, c) == [a] + Split(b, c);
    } else {
      var i := IndexOf(a, c);
      IndexOfIsFirst(a, c);
      forall k | 0 <= k < i ensures s[k] != c {
        assert s[k] == a[k];
      }
      assert s[i] == c;
      IndexOfUnique(s, c, i);
      assert s[..i] == a[..i];
      assert s[i + 1..] == a[i + 1..] + [c] + b;
      SplitConcat(a[i + 1..], b, c);
      SplitConcatStep(a[..i], Split(s[i + 1..], c), Split(a[i + 1..], c), Split(b, c));
    }
  }

  lemma SplitConcatStep(x: string, r: seq<string>, p: seq<string>, q: seq<string>)
    requires r == p + q
    ensures [x] + r == ([x] + p) + q
  {
  }

  function Min(a: int, b: int): int { if a <= b then a else b }

  /** The first separator accounts for one occurrence; the rest lie after it. */
  lemma CountAfterFirst(s: string, c: char)
    requires c in s
    ensures Count(s, c) == 1 + Count(s[IndexOf(s, c) + 1..], c)
  {
    var i := IndexOf(s, c);
    IndexOfIsFirst(s, c);
    PrefixAbsent(s, c, i);
    CountAbsent(s[..i], c);
    assert s == s[..i] + ([c] + s[i + 1..]);
    CountConcat(s[..i], [c] + s[i + 1..], c);
    assert ([c] + s[i + 1..])[1..] == s[i + 1..];
  }

  /** SplitN yields all pieces up to its limit `n`. */
  lemma {:induction false} SplitNCount(s: string, c: char, n: nat)
    requires n >= 1
    ensures |SplitN(s, c, n)| == Min(n, Count(s, c) + 1)
    decreases n
  {
    if c !in s {
      CountAbsent(s, c);
    } else if n > 1 {
      SplitNCount(s[IndexOf(s, c) + 1..], c, n - 1);
      CountAfterFirst(s, c);
    }
  }

  /** Joining SplitN's pieces back with the separator gives the original text. */
  lemma {:induction false} JoinSplitN(s: string, c: char, n: nat)
    requires n >= 1
    ensures Join(SplitN(s, c, n), [c]) == s
    decreases n
  {
    if n > 1 && c in s {
      var i := IndexOf(s, c);
      SplitNFirst(s, c, n);
      JoinSplitN(s[i + 1..], c, n - 1);
      JoinCons(s[..i], SplitN(s[i + 1..], c, n - 1), [c]);
      AroundSeparator(s, c, i);
    }
  }

  /** With room for more than one piece, SplitN's first piece ends at the first separator. */
  lemma SplitNFirst(s: string, c: char, n: nat)
    requires n > 1 && c in s
    ensures SplitN(s, c, n) == [s[..IndexOf(s, c)]] + SplitN(s[IndexOf(s, c) + 1..], c, n - 1)
  {
  }

  /** When the first piece holds no separator, SplitN cuts right after it. */
  lemma SplitNConcat(a: string, b: string, c: char, n: nat)
    requires n > 1 && c !in a
    ensures SplitN(a + [c] + b, c, n) == [a] + SplitN(b, c, n - 1)
  {
    var s := a + [c] + b;
    assert s[|a|] == c;
    forall k | 0 <= k < |a| ensures s[k] != c {
      assert s[k] == a[k];
    }
    IndexOfUnique(s, c, |a|);
    assert s[..|a|] == a && s[|a| + 1..] == b;
  }

  /** SplitN into two: the text before the first separator, and everything after it. */
  lemma SplitNTwo(s: string, c: char)
    ensures c !in s ==> SplitN(s, c, 2) == [s]
    ensures c in s ==> SplitN(s, c, 2) == [s[..IndexOf(s, c)], s[IndexOf(s, c) + 1..]]
  {
  }

  // ------------------------------------------------------------------ strings.HasSuffix / strings.TrimRight

  predicate HasSuffix(s: string, suffix: string)
  {
    |suffix| <= |s| && s[|s| - |suffix|..] == suffix
  }

  predicate IsEOL(ch: char) { ch == '\r' || ch == '\n' }

  /**
   * Go's `strings.TrimRight(s, "\r\n")`: the longest prefix of `s` whose
   * removed tail consists of carriage returns and line feeds only.
   */
  function TrimEOL(s: string): string
  {
    if |s| > 0 && IsEOL(s[|s| - 1]) then TrimEOL(s[..|s| - 1]) else s
  }

  /** TrimEOL keeps a prefix that does not end in CR or LF and drops only CRs and LFs. */
  lemma {:induction false} TrimEOLIsTrim(s: string)
    ensures TrimEOL(s) <= s
    ensures TrimEOL(s) == [] || !IsEOL(TrimEOL(s)[|TrimEOL(s)| - 1])
    ensures forall k :: |TrimEOL(s)| <= k < |s| ==> IsEOL(s[k])
  {
    if |s| > 0 && IsEOL(s[|s| - 1]) {
      var u := s[..|s| - 1];
      TrimEOLIsTrim(u);
      assert forall k :: 0 <= k < |u| ==> u[k] == s[k];
    }
  }

  // ------------------------------------------------------------------ decimal formatting

  predicate IsDigit(ch: char) { '0' <= ch <= '9' }

  predicate AllDigits(s: string) { forall k :: 0 <= k < |s| ==> IsDigit(s[k]) }

  function DigitChar(d: nat): (ch: char)
    requires d < 10
    ensures IsDigit(ch) && ch as int - '0' as int == d
  {
    ('0' as int + d) as char
  }

  function DigitValue(ch: char): (d: nat)
    requires IsDigit(ch)
    ensures d < 10
  {
    ch as int - '0' as int
  }

  /** The number a run of decimal digits denotes (leading zeros allowed). */
  function DigitsValue(s: string): nat
    requires AllDigits(s)
  {
    if s == [] then 0 else 10 * DigitsValue(s[..|s| - 1]) + DigitValue(s[|s| - 1])
  }

  /** Go's `strconv.FormatUint(n, 10)` and `fmt`'s `%d` of an unsigned value. */
  function NatToString(n: nat): (s: string)
    ensures |s| >= 1 && AllDigits(s)
    ensures DigitsValue(s) == n
    ensures s[0] == '0' ==> s == "0"
  {
    if n < 10 then [DigitChar(n)]
    else
      var s := NatToString(n / 10) + [DigitChar(n % 10)];
      assert s[..|s| - 1] == NatToString(n / 10);
      s
  }

  /** Go's `strconv.FormatInt(i, 10)` and `fmt`'s `%d` of a signed value. */
  function IntToString(i: int): (s: string)
    ensures |s| >= 1
    ensures i < 0 <==> s[0] == '-'
  {
    if i < 0 then "-" + NatToString(-i) else NatToString(i)
  }

  /** A formatted integer holds only a sign and digits, so no separator such as a tab. */
  lemma IntToStringNoTab(i: int)
    ensures forall k :: 0 <= k < |IntToString(i)| ==> IntToString(i)[k] == '-' || IsDigit(IntToString(i)[k])
    ensures '\t' !in IntToString(i)
  {
    var s := IntToString(i);
    forall k | 0 <= k < |s|
      ensures s[k] == '-' || IsDigit(s[k])
    {
      if i < 0 && k > 0 {
        assert s[k] == NatToString(-i)[k - 1];
      }
    }
  }

  function Zeros(k: nat): (z: string)
    ensures |z| == k && forall j :: 0 <= j < k ==> z[j] == '0'
  {
    seq(k, _ => '0')
  }

  /** `fmt`'s `%0<w>d`: the digits, left-padded with zeros to at least `w` characters. */
  function ZeroPad(digits: string, w: nat): (s: string)
    ensures |s| == if |digits| >= w then |digits| else w
  {
    if |digits| >= w then digits else Zeros(w - |digits|) + digits
  }

  /** Leading zeros do not change the value of a digit string. */
  lemma {:induction false} LeadingZeros(k: nat, s: string)
    requires AllDigits(s)
    ensures AllDigits(Zeros(k) + s)
    ensures DigitsValue(Zeros(k) + s) == DigitsValue(s)
    decreases |s|, k
  {
    var t := Zeros(k) + s;
    if s == [] {
      assert t == Zeros(k);
      if k > 0 {
        assert t[..|t| - 1] == Zeros(k - 1) + [];
        LeadingZeros(k - 1, []);
      }
    } else {
      assert t[..|t| - 1] == Zeros(k) + s[..|s| - 1];
      LeadingZeros(k, s[..|s| - 1]);
    }
  }

  /** Zero padding keeps the value, so numbers padded to the same width are told apart. */
  lemma ZeroPadValue(n: nat, w: nat)
    ensures AllDigits(ZeroPad(NatToString(n), w))
    ensures DigitsValue(ZeroPad(NatToString(n), w)) == n
  {
    var d := NatToString(n);
    if |d| < w {
      LeadingZeros(w - |d|, d);
    }
  }

  // ------------------------------------------------------------------ strconv.ParseInt(s, 10, 64)

  const MaxUint64: nat := 0xFFFF_FFFF_FFFF_FFFF
  const MinInt64: int := -0x8000_0000_0000_0000
  const MaxInt64: int := 0x7FFF_FFFF_FFFF_FFFF

  /** What Go's `strconv.ParseUint(s, 10, 64)` concludes about a digit run. */
  datatype UintScan = Value(n: nat) | SyntaxError | RangeError

  /**
   * The digit loop of `strconv.ParseUint` with the value read so far in `n`:
   * a non-digit is a syntax error, and a value above 2^64-1 is a range error
   * the moment it occurs, even if a non-digit follows.
   */
  function ScanDigits(s: string, n: nat): (r: UintScan)
    requires n <= MaxUint64
    ensures r.Value? ==> r.n <= MaxUint64
    decreases |s|
  {
    if s == [] then Value(n)
    else if !IsDigit(s[0]) then SyntaxError
    else if n >= MaxUint64 / 10 + 1 then RangeError
    else
      var n1 := 10 * n + DigitValue(s[0]);
      if n1 > MaxUint64 then RangeError else ScanDigits(s[1..], n1)
  }

  /** Go's `strconv.Quote`, for the characters the model distinguishes. */
  function Quote(s: string): string
  {
    "\"" + Escape(s) + "\""
  }

  function Escape(s: string): string
  {
    if s == [] then ""
    else
      var ch := s[0];
      var e := if ch == '"' then "\\\"" else if ch == '\\' then "\\\\"
               else if ch == '\t' then "\\t" else if ch == '\n' then "\\n"
               else if ch == '\r' then "\\r" else [ch];
      e + Escape(s[1..])
  }

  function ParseIntError(s: string, what: string): string
  {
    "strconv.ParseInt: parsing " + Quote(s) + ": " + what
  }

  function SyntaxMessage(s: string): string { ParseIntError(s, "invalid syntax") }

  function RangeMessage(s: string): string { ParseIntError(s, "value out of range") }

  /**
   * Go's `strconv.ParseInt(s, 10, 64)`: an optional sign, decimal digits, and a
   * value inside the int64 range; the error texts are those of `*strconv.NumError`.
   */
  function ParseInt64(s: string): (r: Reply<int>)
    ensures r.Ok? ==> MinInt64 <= r.value <= MaxInt64
    ensures r.Err? ==> r.msg == SyntaxMessage(s) || r.msg == RangeMessage(s)
  {
    if s == [] then Err(SyntaxMessage(s))
    else
      var neg := s[0] == '-';
      var digits := if s[0] == '+' || s[0] == '-' then s[1..] else s;
      var un := if digits == [] then SyntaxError else ScanDigits(digits, 0);
      if un.SyntaxError? then Err(SyntaxMessage(s))
      else
        var u := if un.Value? then un.n else MaxUint64;
        if !neg && u >= 0x8000_0000_0000_0000 then Err(RangeMessage(s))
        else if neg && u > 0x8000_0000_0000_0000 then Err(RangeMessage(s))
        else Ok(if neg then -u else u)
  }

  /** The value ScanDigits accumulates from `n` over an all-digit run, before any range check. */
  function Accumulate(n: nat, s: string): nat
    requires AllDigits(s)
    decreases |s|
  {
    if s == [] then n else Accumulate(10 * n + DigitValue(s[0]), s[1..])
  }

  lemma {:induction false} AccumulateAtLeast(n: nat, s: string)
    requires AllDigits(s)
    ensures Accumulate(n, s) >= n
    decreases |s|
  {
    if s != [] {
      AccumulateAtLeast(10 * n + DigitValue(s[0]), s[1..]);
    }
  }

  /** Appending a digit multiplies the accumulated value by ten and adds the digit. */
  lemma {:induction false} AccumulateSnoc(n: nat, s: string, ch: char)
    requires AllDigits(s) && IsDigit(ch)
    ensures AllDigits(s + [ch])
    ensures Accumulate(n, s + [ch]) == 10 * Accumulate(n, s) + DigitValue(ch)
    decreases |s|
  {
    if s == [] {
      assert (s + [ch])[1..] == [];
    } else {
      assert (s + [ch])[1..] == s[1..] + [ch];
      AccumulateSnoc(10 * n + DigitValue(s[0]), s[1..], ch);
    }
  }

  /** Read from the left as ScanDigits does, a digit run denotes DigitsValue. */
  lemma {:induction false} AccumulateValue(s: string)
    requires AllDigits(s)
    ensures Accumulate(0, s) == DigitsValue(s)
    decreases |s|
  {
    if s != [] {
      var init := s[..|s| - 1];
      AccumulateValue(init);
      AccumulateSnoc(0, init, s[|s| - 1]);
      assert init + [s[|s| - 1]] == s;
    }
  }

  /**
   * ScanDigits on digits: the accumulated value when it fits in 64 bits, a
   * range error otherwise (the running value only grows, so an early range
   * error means the whole value is too large).
   */
  lemma {:induction false} ScanDigitsValue(s: string, n: nat)
    requires AllDigits(s) && n <= MaxUint64
    ensures ScanDigits(s, n) == if Accumulate(n, s) <= MaxUint64 then Value(Accumulate(n, s)) else RangeError
    decreases |s|
  {
    if s != [] {
      var n1 := 10 * n + DigitValue(s[0]);
      AccumulateAtLeast(n1, s[1..]);
      if n < MaxUint64 / 10 + 1 && n1 <= MaxUint64 {
        ScanDigitsValue(s[1..], n1);
      }
    }
  }

  /** A non-digit in the run makes ScanDigits fail. */
  lemma {:induction false} ScanDigitsOnlyDigits(s: string, n: nat)
    requires n <= MaxUint64
    ensures ScanDigits(s, n).Value? ==> AllDigits(s)
    decreases |s|
  {
    if s != [] && IsDigit(s[0]) && n < MaxUint64 / 10 + 1 && 10 * n + DigitValue(s[0]) <= MaxUint64 {
      ScanDigitsOnlyDigits(s[1..], 10 * n + DigitValue(s[0]));
    }
  }

  /** The text after an optional leading sign. */
  function Unsigned(s: string): string
  {
    if |s| > 0 && (s[0] == '+' || s[0] == '-') then s[1..] else s
  }

  /** `s` is an optional sign followed by one or more decimal digits. */
  predicate DecimalSyntax(s: string)
  {
    Unsigned(s) != [] && AllDigits(Unsigned(s))
  }

  /**
   * ParseInt64 succeeds exactly on an optional sign followed by digits whose
   * value, negated after a '-', lies in the int64 range, and then returns
   * that value.
   */
  lemma ParseInt64Value(s: string)
    ensures ParseInt64(s).Ok? <==>
      DecimalSyntax(s) &&
      (if s[0] == '-' then DigitsValue(Unsigned(s)) <= -MinInt64 else DigitsValue(Unsigned(s)) <= MaxInt64)
    ensures ParseInt64(s).Ok? ==>
      ParseInt64(s).value == if s[0] == '-' then -(DigitsValue(Unsigned(s)) as int) else DigitsValue(Unsigned(s)) as int
  {
    if s != [] {
      var d := Unsigned(s);
      if d != [] {
        ScanDigitsOnlyDigits(d, 0);
        if AllDigits(d) {
          ScanDigitsValue(d, 0);
          AccumulateValue(d);
        }
      }
    }
  }

  /** Formatting an int64 in decimal and parsing it back gives the number. */
  lemma ParseInt64RoundTrip(v: int)
    requires MinInt64 <= v <= MaxInt64
    ensures ParseInt64(IntToString(v)) == Ok(v)
  {
    var s := IntToString(v);
    ParseInt64Value(s);
    if v < 0 {
      assert Unsigned(s) == NatToString(-v);
    } else {
      assert Unsigned(s) == NatToString(v);
    }
  }
}
