/** Option, as the signature parser and the integer parser return it. */
module Wrappers {

  datatype Option<+T> = None | Some(value: T)
}

/**
 The string primitives of Rust's standard library that the type-reconstruction
 code relies on (`split_once`, `split`, `join`, `replace`, `matches().count()`,
 `starts_with`, `ends_with`, `parse::<usize>()`), and the crate helper
 `replace_last`, each stated over `seq<char>`.
 */
module Strings {

  import opened Wrappers

  /** Largest `usize` on the 64-bit targets the decompiler is built for. */
  const USIZE_MAX: nat := 0xFFFF_FFFF_FFFF_FFFF

  predicate StartsWith(s: string, p: string) {
    |p| <= |s| && s[..|p|] == p
  }

  predicate EndsWith(s: string, p: string) {
    |p| <= |s| && s[|s| - |p|..] == p
  }

  /** `pat` occurs somewhere in `s` (Rust's `str::contains` with a string pattern). */
  predicate Contains(s: string, pat: string)
  {
    ContainsFrom(s, pat, 0)
  }

  /** `pat` occurs in `s` at some position `k` or later. */
  predicate ContainsFrom(s: string, pat: string, k: nat)
    decreases |s| - k
  {
    k + |pat| <= |s| && (MatchesAt(s, pat, k) || (k < |s| && ContainsFrom(s, pat, k + 1)))
  }

  /** Position of the first `c` in `s`, as `split_once` finds it. */
  function IndexOf(s: string, c: char): (r: Option<nat>)
    ensures r.Some? ==> r.value < |s| && s[r.value] == c
  {
    IndexFrom(s, c, 0)
  }

  /** Position of the first `c` in `s` at or after `k`. */
  function IndexFrom(s: string, c: char, k: nat): (r: Option<nat>)
    ensures r.Some? ==> k <= r.value < |s| && s[r.value] == c
    decreases |s| - k
  {
    if k >= |s| then None
    else if s[k] == c then Some(k)
    else IndexFrom(s, c, k + 1)
  }

  /** Position of the last `c` in `s`. */
  function LastIndexOf(s: string, c: char): (r: Option<nat>)
    ensures r.Some? ==> r.value < |s| && s[r.value] == c
  {
    LastIndexBefore(s, c, |s|)
  }

  /** Position of the last `c` in `s` before `k`. */
  function LastIndexBefore(s: string, c: char, k: nat): (r: Option<nat>)
    requires k <= |s|
    ensures r.Some? ==> r.value < k && s[r.value] == c
  {
    if k == 0 then None
    else if s[k - 1] == c then Some(k - 1)
    else LastIndexBefore(s, c, k - 1)
  }

  /**
   `replace_last(s, c, "")`: the crate helper replaces the last occurrence of
   its pattern; with a one-character pattern and an empty replacement it
   deletes the last `c`, and leaves `s` alone when there is none.
   */
  function RemoveLast(s: string, c: char): (r: string)
  {
    match LastIndexOf(s, c)
    case None => s
    case Some(i) =>
      s[..i] + s[i + 1..]
  }

  /**
   `s.replace(pat, rep)`: every non-overlapping occurrence of `pat`, found
   from left to right, is replaced by `rep`.
   */
  function ReplaceAll(s: string, pat: string, rep: string): (r: string)
    requires |pat| > 0
  {
    ReplaceFrom(s, pat, rep, 0)
  }

  /** `pat` occurs in `s` at position `k`. */
  predicate MatchesAt(s: string, pat: string, k: nat)
    requires k + |pat| <= |s|
  {
    MatchesFrom(s, pat, k, 0)
  }

  /** `pat[i..]` occurs in `s` at position `k + i`. */
  predicate MatchesFrom(s: string, pat: string, k: nat, i: nat)
    requires k + |pat| <= |s|
    decreases |pat| - i
  {
    i >= |pat| || (s[k + i] == pat[i] && MatchesFrom(s, pat, k, i + 1))
  }

  /** `s[k..].replace(pat, rep)`, scanning by position. */
  function ReplaceFrom(s: string, pat: string, rep: string, k: nat): (r: string)
    requires |pat| > 0
    decreases |s| - k
  {
    if k >= |s| then []
    else if k + |pat| <= |s| && MatchesAt(s, pat, k) then
      rep + ReplaceFrom(s, pat, rep, k + |pat|)
    else
      [s[k]] + ReplaceFrom(s, pat, rep, k + 1)
  }

  /** `s.matches(pat).count()`: the number of non-overlapping occurrences, left to right. */
  function CountMatches(s: string, pat: string): (r: nat)
    requires |pat| > 0
    ensures r * |pat| <= |s|
    ensures !Contains(s, pat) ==> r == 0
  {
    CountFrom(s, pat, 0)
  }

  /** The occurrences counted by a scan from position `k`. */
  function CountFrom(s: string, pat: string, k: nat): (r: nat)
    requires |pat| > 0
    ensures k <= |s| ==> r * |pat| <= |s| - k
    ensures !ContainsFrom(s, pat, k) ==> r == 0
    decreases |s| - k
  {
    if k >= |s| then 0
    else if k + |pat| <= |s| && MatchesAt(s, pat, k) then
      var rest := CountFrom(s, pat, k + |pat|);
      assert (1 + rest) * |pat| == |pat| + rest * |pat|;
      1 + rest
    else CountFrom(s, pat, k + 1)
  }

  /** The pieces separated by `sep`, joined back with `sep` between them (`join`). */
  function JoinWith(parts: seq<string>, sep: char): string
  {
    if |parts| == 0 then ""
    else if |parts| == 1 then parts[0]
    else parts[0] + [sep] + JoinWith(parts[1..], sep)
  }

  /**
   `s.split(sep)`: always at least one piece (the empty string gives one
   empty piece), no piece holds `sep`, and joining the pieces with `sep`
   gives `s` back.
   */
  function SplitOn(s: string, sep: char): (r: seq<string>)
    ensures |r| >= 1
    decreases |s|
  {
    match IndexOf(s, sep)
    case None => [s]
    case Some(i) =>
      var rest := SplitOn(s[i + 1..], sep);
      [s[..i]] + rest
  }

  predicate IsDigit(ch: char) {
    '0' <= ch <= '9'
  }

  predicate AllDigits(s: string) {
    forall i :: 0 <= i < |s| ==> IsDigit(s[i])
  }

  /** The value of a run of decimal digits, most significant first. */
  function DigitsValue(s: string): nat
    requires AllDigits(s)
  {
    if |s| == 0 then 0
    else DigitsValue(s[..|s| - 1]) * 10 + (s[|s| - 1] as int - '0' as int)
  }

  /**
   `s.parse::<usize>()`: an optional leading `+`, then one or more ASCII
   digits whose value fits in a `usize`; anything else is an error.
   */
  function ParseUsize(s: string): (r: Option<nat>)
    ensures r.Some? ==> r.value <= USIZE_MAX
    ensures |s| == 0 ==> r.None?
  {
    var digits := if |s| > 0 && s[0] == '+' then s[1..] else s;
    if |digits| == 0 || !AllDigits(digits) then None
    else if DigitsValue(digits) > USIZE_MAX then None
    else Some(DigitsValue(digits))
  }

  /** The decimal text of `n`, most significant digit first, without sign or leading zeros. */
  function Decimal(n: nat): (r: string)
    ensures |r| > 0 && AllDigits(r)
  {
    if n < 10 then [('0' as int + n) as char]
    else Decimal(n / 10) + [('0' as int + n % 10) as char]
  }


  // Properties of the primitives above, kept out of their contracts so that
  // unfolding the parser does not drag them into every proof.

  lemma IndexOfFirst(s: string, c: char)
    ensures IndexOf(s, c).None? <==> c !in s
    ensures IndexOf(s, c).Some? ==> c !in s[..IndexOf(s, c).value]
  {
    IndexFromFirst(s, c, 0);
    if IndexOf(s, c).Some? {
      var i := IndexOf(s, c).value;
      assert forall j :: 0 <= j < i ==> s[..i][j] == s[j];
    }
  }

  lemma {:induction false} IndexFromFirst(s: string, c: char, k: nat)
    ensures IndexFrom(s, c, k).None? <==> forall j :: k <= j < |s| ==> s[j] != c
    ensures IndexFrom(s, c, k).Some? ==> forall j :: k <= j < IndexFrom(s, c, k).value ==> s[j] != c
    decreases |s| - k
  {
    if k < |s| && s[k] != c {
      IndexFromFirst(s, c, k + 1);
    }
  }

  lemma LastIndexOfLast(s: string, c: char)
    ensures LastIndexOf(s, c).None? <==> c !in s
    ensures LastIndexOf(s, c).Some? ==> c !in s[LastIndexOf(s, c).value + 1..]
  {
    LastIndexBeforeLast(s, c, |s|);
    if LastIndexOf(s, c).Some? {
      var i := LastIndexOf(s, c).value;
      var after := s[i + 1..];
      forall j | 0 <= j < |after|
        ensures after[j] != c
      {
        assert after[j] == s[i + 1 + j];
      }
    }
  }

  lemma {:induction false} LastIndexBeforeLast(s: string, c: char, k: nat)
    requires k <= |s|
    ensures LastIndexBefore(s, c, k).None? <==> forall j :: 0 <= j < k ==> s[j] != c
    ensures LastIndexBefore(s, c, k).Some? ==> forall j :: LastIndexBefore(s, c, k).value < j < k ==> s[j] != c
  {
    if k > 0 && s[k - 1] != c {
      LastIndexBeforeLast(s, c, k - 1);
    }
  }

  /** `replace_last(s, ")", "")` removes exactly one `)` when there is one, and nothing otherwise. */
  lemma RemoveLastRemovesOne(s: string, c: char)
    ensures c !in s ==> RemoveLast(s, c) == s
    ensures c in s ==> |RemoveLast(s, c)| == |s| - 1
    ensures c in s ==> multiset(RemoveLast(s, c)) == multiset(s) - multiset{c}
    ensures c in s ==> c !in RemoveLast(s, c)[LastIndexOf(s, c).value..]
  {
    LastIndexOfLast(s, c);
    if c in s {
      var i := LastIndexOf(s, c).value;
      assert s == s[..i] + [s[i]] + s[i + 1..];
      assert RemoveLast(s, c)[i..] == s[i + 1..];
    }
  }

  /** `t` is the suffix of `s` from position `m`, told character by character. */
  predicate SuffixAt(s: string, t: string, m: nat)
  {
    |s| == m + |t| && forall i :: 0 <= i < |t| ==> t[i] == s[m + i]
  }

  /** Scanning `s` from `k` is scanning its suffix `t` from `m` on from `k - m`. */
  lemma {:induction false} ReplaceFromShift(s: string, t: string, pat: string, rep: string, m: nat, k: nat)
    requires |pat| > 0 && m <= k <= |s| && SuffixAt(s, t, m)
    ensures ReplaceFrom(s, pat, rep, k) == ReplaceFrom(t, pat, rep, k - m)
    decreases |s| - k
  {
    if k < |s| {
      ShiftStep(s, t, pat, rep, m, k);
      if k + |pat| <= |s| && MatchesAt(s, pat, k) {
        calc {
          ReplaceFrom(s, pat, rep, k);
          rep + ReplaceFrom(s, pat, rep, k + |pat|);
          { ReplaceFromShift(s, t, pat, rep, m, k + |pat|); }
          rep + ReplaceFrom(t, pat, rep, k + |pat| - m);
        }
      } else {
        calc {
          ReplaceFrom(s, pat, rep, k);
          [s[k]] + ReplaceFrom(s, pat, rep, k + 1);
          { ReplaceFromShift(s, t, pat, rep, m, k + 1); }
          [s[k]] + ReplaceFrom(t, pat, rep, k + 1 - m);
        }
      }
    }
  }

  /** One step of the scan of the suffix `t`, told in positions of `s`. */
  lemma ShiftStep(s: string, t: string, pat: string, rep: string, m: nat, k: nat)
    requires |pat| > 0 && m <= k < |s| && SuffixAt(s, t, m)
    ensures ReplaceFrom(t, pat, rep, k - m) ==
      if k + |pat| <= |s| && MatchesAt(s, pat, k) then rep + ReplaceFrom(t, pat, rep, k + |pat| - m)
      else [s[k]] + ReplaceFrom(t, pat, rep, k + 1 - m)
  {
    if k + |pat| <= |s| {
      MatchesShift(s, t, pat, m, k);
    }
    assert k + |pat| - m == k - m + |pat|;
    assert t[k - m] == s[m + (k - m)];
  }

  lemma MatchesShift(s: string, t: string, pat: string, m: nat, k: nat)
    requires m <= k && k + |pat| <= |s| && SuffixAt(s, t, m)
    ensures MatchesAt(t, pat, k - m) == MatchesAt(s, pat, k)
  {
    MatchesFromShift(s, t, pat, m, k, 0);
  }

  lemma {:induction false} MatchesFromShift(s: string, t: string, pat: string, m: nat, k: nat, i: nat)
    requires m <= k && k + |pat| <= |s| && SuffixAt(s, t, m)
    ensures MatchesFrom(t, pat, k - m, i) == MatchesFrom(s, pat, k, i)
    decreases |pat| - i
  {
    if i < |pat| {
      assert t[k - m + i] == s[m + (k - m + i)];
      MatchesFromShift(s, t, pat, m, k, i + 1);
    }
  }

  /** `MatchesAt` compares `pat` with `s` character by character. */
  lemma MatchesAtSlice(s: string, pat: string, k: nat)
    requires k + |pat| <= |s|
    ensures MatchesAt(s, pat, k) <==> s[k..k + |pat|] == pat
  {
    MatchesFromSlice(s, pat, k, 0);
    assert s[k..k + |pat|][0..] == s[k..k + |pat|];
    assert pat[0..] == pat;
  }

  lemma {:induction false} MatchesFromSlice(s: string, pat: string, k: nat, i: nat)
    requires k + |pat| <= |s| && i <= |pat|
    ensures MatchesFrom(s, pat, k, i) <==> s[k + i..k + |pat|] == pat[i..]
    decreases |pat| - i
  {
    if i < |pat| {
      MatchesFromSlice(s, pat, k, i + 1);
      assert s[k + i..k + |pat|] == [s[k + i]] + s[k + i + 1..k + |pat|];
      assert pat[i..] == [pat[i]] + pat[i + 1..];
    }
  }

  /** The slice `s[m..]` is the suffix of `s` from `m`. */
  lemma SliceSuffix(s: string, m: nat)
    requires m <= |s|
    ensures SuffixAt(s, s[m..], m)
  {
  }

  /** Once no match fits, the rest of `s` is kept as it is. */
  lemma {:induction false} ReplaceTail(s: string, pat: string, rep: string, k: nat)
    requires |pat| > 0 && k <= |s| < k + |pat|
    ensures ReplaceFrom(s, pat, rep, k) == s[k..]
    decreases |s| - k
  {
    if k < |s| {
      ReplaceTail(s, pat, rep, k + 1);
      assert s[k..] == [s[k]] + s[k + 1..];
    }
  }

  /** `replace` looks at the front of `s`: a match there is replaced, otherwise one character is kept. */
  lemma ReplaceStep(s: string, pat: string, rep: string)
    requires |pat| > 0
    ensures ReplaceAll(s, pat, rep) ==
      if |s| < |pat| then s
      else if s[..|pat|] == pat then rep + ReplaceAll(s[|pat|..], pat, rep)
      else [s[0]] + ReplaceAll(s[1..], pat, rep)
  {
    if |s| >= |pat| {
      MatchesAtSlice(s, pat, 0);
      assert s[0..|pat|] == s[..|pat|];
      if s[..|pat|] == pat {
        SliceSuffix(s, |pat|);
        ReplaceFromShift(s, s[|pat|..], pat, rep, |pat|, |pat|);
      } else {
        SliceSuffix(s, 1);
        ReplaceFromShift(s, s[1..], pat, rep, 1, 1);
      }
    } else {
      ReplaceTail(s, pat, rep, 0);
    }
  }

  /** Searching `s` from `k` is searching its suffix `t` from `m` on from `k - m`. */
  lemma {:induction false} ContainsFromShift(s: string, t: string, pat: string, m: nat, k: nat)
    requires m <= k <= |s| && SuffixAt(s, t, m)
    ensures ContainsFrom(s, pat, k) == ContainsFrom(t, pat, k - m)
    decreases |s| - k
  {
    if k + |pat| <= |s| {
      MatchesShift(s, t, pat, m, k);
      if k < |s| {
        ContainsFromShift(s, t, pat, m, k + 1);
        assert k + 1 - m == k - m + 1;
      }
    }
  }

  /** `contains` looks at the front of `s`, then at the rest. */
  lemma ContainsStep(s: string, pat: string)
    requires |pat| > 0
    ensures Contains(s, pat) == (|pat| <= |s| && (s[..|pat|] == pat || Contains(s[1..], pat)))
  {
    if |pat| <= |s| {
      MatchesAtSlice(s, pat, 0);
      assert s[0..|pat|] == s[..|pat|];
      SliceSuffix(s, 1);
      ContainsFromShift(s, s[1..], pat, 1, 1);
    }
  }

  /** Replacing by nothing never adds a character, and removes at least one when the pattern occurs. */
  lemma {:induction false} ReplaceAllShrinks(s: string, pat: string, rep: string)
    requires |pat| > 0
    ensures !Contains(s, pat) ==> ReplaceAll(s, pat, rep) == s
    ensures rep == [] ==> multiset(ReplaceAll(s, pat, rep)) <= multiset(s)
    ensures rep == [] && Contains(s, pat) ==> |ReplaceAll(s, pat, rep)| < |s|
    decreases |s|
  {
    ReplaceStep(s, pat, rep);
    ContainsStep(s, pat);
    if |s| >= |pat| {
      if s[..|pat|] == pat {
        ReplaceAllShrinks(s[|pat|..], pat, rep);
        assert s == s[..|pat|] + s[|pat|..];
      } else {
        ReplaceAllShrinks(s[1..], pat, rep);
        assert s == [s[0]] + s[1..];
      }
    }
  }

  /** `split` loses nothing: no piece holds the separator and joining the pieces gives `s` back. */
  lemma SplitOnJoin(s: string, sep: char)
    ensures forall i :: 0 <= i < |SplitOn(s, sep)| ==> sep !in SplitOn(s, sep)[i]
    ensures JoinWith(SplitOn(s, sep), sep) == s
  {
    SplitOnPieces(s, sep);
    SplitOnRejoin(s, sep);
  }

  lemma {:induction false} SplitOnPieces(s: string, sep: char)
    ensures forall i :: 0 <= i < |SplitOn(s, sep)| ==> sep !in SplitOn(s, sep)[i]
    decreases |s|
  {
    IndexOfFirst(s, sep);
    match IndexOf(s, sep)
    case None =>
    case Some(i) =>
      var rest := SplitOn(s[i + 1..], sep);
      SplitOnPieces(s[i + 1..], sep);
      assert forall k :: 1 <= k < |rest| + 1 ==> ([s[..i]] + rest)[k] == rest[k - 1];
  }

  lemma {:induction false} SplitOnRejoin(s: string, sep: char)
    ensures JoinWith(SplitOn(s, sep), sep) == s
    decreases |s|
  {
    match IndexOf(s, sep)
    case None =>
    case Some(i) =>
      var rest := SplitOn(s[i + 1..], sep);
      SplitOnRejoin(s[i + 1..], sep);
      assert ([s[..i]] + rest)[1..] == rest;
      assert s == s[..i] + [sep] + s[i + 1..];
  }

  /** Appending one piece adds one separator and the piece at the end. */
  lemma {:induction false} JoinAppend(parts: seq<string>, x: string, sep: char)
    requires |parts| > 0
    ensures JoinWith(parts + [x], sep) == JoinWith(parts, sep) + [sep] + x
  {
    if |parts| > 1 {
      assert (parts + [x])[1..] == parts[1..] + [x];
      JoinAppend(parts[1..], x, sep);
    }
  }

  /** Every piece's characters are found in the joined string. */
  lemma {:induction false} PartWithinJoin(parts: seq<string>, k: nat, sep: char)
    requires k < |parts|
    ensures multiset(parts[k]) <= multiset(JoinWith(parts, sep))
    ensures |parts[k]| <= |JoinWith(parts, sep)|
  {
    if k > 0 {
      PartWithinJoin(parts[1..], k - 1, sep);
    }
    assert |multiset(parts[k])| == |parts[k]|;
    assert |multiset(JoinWith(parts, sep))| == |JoinWith(parts, sep)|;
  }

  lemma IndexOfAfter(p: string, c: char, rest: string)
    requires c !in p
    ensures IndexOf(p + [c] + rest, c) == Some(|p|)
  {
    var s := p + [c] + rest;
    IndexFromFirst(s, c, 0);
    assert s[|p|] == c;
  }

  lemma LastIndexOfBefore(p: string, c: char, rest: string)
    requires c !in rest
    ensures LastIndexOf(p + [c] + rest, c) == Some(|p|)
  {
    var s := p + [c] + rest;
    LastIndexBeforeLast(s, c, |s|);
    assert s[|p|] == c;
  }

  /** `split` undoes `join` when no piece holds the separator. */
  lemma {:induction false} SplitJoin(parts: seq<string>, sep: char)
    requires |parts| >= 1
    requires forall i :: 0 <= i < |parts| ==> sep !in parts[i]
    ensures SplitOn(JoinWith(parts, sep), sep) == parts
  {
    if |parts| > 1 {
      var rest := JoinWith(parts[1..], sep);
      assert JoinWith(parts, sep) == parts[0] + [sep] + rest;
      SplitOnFront(parts[0], sep, rest);
      SplitJoin(parts[1..], sep);
      assert [parts[0]] + parts[1..] == parts;
    } else {
      IndexOfFirst(parts[0], sep);
    }
  }

  /** Splitting at a first separator that follows `p0`. */
  lemma SplitOnFront(p0: string, sep: char, rest: string)
    requires sep !in p0
    ensures SplitOn(p0 + [sep] + rest, sep) == [p0] + SplitOn(rest, sep)
  {
    var s := p0 + [sep] + rest;
    IndexOfAfter(p0, sep, rest);
    assert s[..|p0|] == p0;
    assert s[|p0| + 1..] == rest;
  }

  lemma {:induction false} DigitsValueOfDecimal(n: nat)
    ensures DigitsValue(Decimal(n)) == n
  {
    if n >= 10 {
      DigitsValueOfDecimal(n / 10);
      var d := Decimal(n);
      assert d[..|d| - 1] == Decimal(n / 10);
    }
  }

  /** `parse::<usize>()` reads back every value it could have printed. */
  lemma DecimalRoundTrip(n: nat)
    requires n <= USIZE_MAX
    ensures ParseUsize(Decimal(n)) == Some(n)
  {
    DigitsValueOfDecimal(n);
  }

  lemma EndsWithContains(s: string, p: string)
    requires |p| > 0 && EndsWith(s, p)
    ensures Contains(s, p)
    decreases |s|
  {
    ContainsStep(s, p);
    if s[..|p|] != p {
      assert s[1..][|s[1..]| - |p|..] == s[|s| - |p|..];
      EndsWithContains(s[1..], p);
    }
  }

  /** A string without the pattern's first character does not hold the pattern. */
  lemma {:induction false} MissingHeadNotContained(s: string, pat: string)
    requires |pat| > 0 && pat[0] !in s
    ensures !Contains(s, pat)
    decreases |s|
  {
    ContainsStep(s, pat);
    if |s| >= |pat| {
      assert s[..|pat|][0] == s[0];
      if |s| > 0 {
        MissingHeadNotContained(s[1..], pat);
      }
    }
  }

  /** The `n` characters of `s` from position `i`. */
  function Window(s: string, i: nat, n: nat): string
    requires i + n <= |s|
  {
    s[i..i + n]
  }

  /** A pattern found at no position is not contained. */
  lemma {:induction false} NowhereNotContained(s: string, pat: string)
    requires |pat| > 0
    requires forall i: nat :: i + |pat| <= |s| ==> Window(s, i, |pat|) != pat
    ensures !Contains(s, pat)
    decreases |s|
  {
    if |s| >= |pat| {
      ContainsStep(s, pat);
      assert Window(s, 0, |pat|) == s[..|pat|];
      if |s| > 0 {
        forall i: nat | i + |pat| <= |s[1..]| ensures Window(s[1..], i, |pat|) != pat {
          assert Window(s[1..], i, |pat|) == Window(s, i + 1, |pat|);
        }
        NowhereNotContained(s[1..], pat);
      }
    }
  }

  /** Replacing starts past a prefix that cannot begin a match. */
  lemma {:induction false} ReplaceAfterPlain(t: string, r: string, pat: string, rep: string)
    requires |pat| > 0 && pat[0] !in t
    ensures ReplaceAll(t + r, pat, rep) == t + ReplaceAll(r, pat, rep)
    decreases |t|
  {
    if |t| == 0 {
      assert t + r == r;
    } else if |t + r| < |pat| {
      ReplaceStep(t + r, pat, rep);
      ReplaceStep(r, pat, rep);
    } else {
      var s := t + r;
      ReplaceStep(s, pat, rep);
      assert s[..|pat|][0] == t[0];
      assert ReplaceAll(s, pat, rep) == [t[0]] + ReplaceAll(s[1..], pat, rep);
      assert s[1..] == t[1..] + r;
      ReplaceAfterPlain(t[1..], r, pat, rep);
      assert [t[0]] + (t[1..] + ReplaceAll(r, pat, rep)) == t + ReplaceAll(r, pat, rep);
    }
  }

  /** A match at the front is replaced and the rest is scanned on. */
  lemma ReplaceLeading(r: string, pat: string, rep: string)
    requires |pat| > 0
    ensures ReplaceAll(pat + r, pat, rep) == rep + ReplaceAll(r, pat, rep)
  {
    ReplaceStep(pat + r, pat, rep);
    assert (pat + r)[..|pat|] == pat;
    assert (pat + r)[|pat|..] == r;
  }

  /** Removing a word from the front of a run of digits leaves the digits. */
  lemma StripWordFromDigits(w: string, d: string)
    requires |w| > 0 && !IsDigit(w[0]) && AllDigits(d)
    ensures ReplaceAll(w + d, w, "") == d
  {
    ReplaceLeading(d, w, "");
    assert w[0] !in d;
    MissingHeadNotContained(d, w);
    ReplaceAllShrinks(d, w, "");
  }

  /** Counting a one-character pattern counts that character. */
  lemma CountChar(s: string, c: char)
    ensures CountMatches(s, [c]) == multiset(s)[c]
  {
    CountCharFrom(s, c, 0);
    assert s[0..] == s;
  }

  lemma {:induction false} CountCharFrom(s: string, c: char, k: nat)
    requires k <= |s|
    ensures CountFrom(s, [c], k) == multiset(s[k..])[c]
    decreases |s| - k
  {
    if k < |s| {
      CountCharFrom(s, c, k + 1);
      assert MatchesFrom(s, [c], k, 1);
      assert MatchesAt(s, [c], k) == (s[k] == c);
      assert s[k..] == [s[k]] + s[k + 1..];
      assert multiset(s[k..]) == multiset([s[k]]) + multiset(s[k + 1..]);
    }
  }
}
