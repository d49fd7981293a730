/**
 * The score matcher: `re.search(prefix + r"(\d+)" + suffix, reply)` for a
 * fixed literal `prefix` and `suffix`, followed by `int()` of the captured
 * digits. Digits are the ASCII digits only.
 */
module ScoreMatch {
  import opened Wrappers
  import opened Strings
  import opened Decimal

  /** The regular expression `prefix(\d+)suffix`, both parts literal. */
  datatype Pattern = Pattern(prefix: string, suffix: string)

  /**
   * The suffix cannot begin with a digit, so a greedy `\d+` never has to
   * give a digit back. Both patterns of the program are of this kind.
   */
  predicate SuffixAfterDigits(p: Pattern) {
    p.suffix == [] || !IsDigit(p.suffix[0])
  }

  /**
   * What the regular expression means: at index `i` stand the prefix, `m >= 1`
   * digits and the suffix.
   */
  ghost predicate MatchesWith(s: string, p: Pattern, i: nat, m: nat) {
    OccursAt(s, i, p.prefix) && 1 <= m && i + |p.prefix| + m <= |s|
    && AllDigits(s[i + |p.prefix|..i + |p.prefix| + m])
    && OccursAt(s, i + |p.prefix| + m, p.suffix)
  }

  /** The greedy matcher at index `i`: the prefix, the longest run of digits, the suffix. */
  predicate MatchAt(s: string, p: Pattern, i: nat) {
    OccursAt(s, i, p.prefix)
    && var j := i + |p.prefix|;
       var n := DigitRun(s[j..]);
       n >= 1 && OccursAt(s, j + n, p.suffix)
  }

  /** Where the greedy matcher matches, the regular expression matches with the longest digit run. */
  lemma GreedyIsRegex(s: string, p: Pattern, i: nat)
    requires MatchAt(s, p, i)
    ensures MatchesWith(s, p, i, DigitRun(s[i + |p.prefix|..]))
  {
    var j := i + |p.prefix|;
    var n := DigitRun(s[j..]);
    DigitRunIsRun(s[j..]);
    assert s[j..][..n] == s[j..j + n];
  }

  /**
   * Where the regular expression matches with some digit run, the greedy
   * matcher matches too, and that run is no longer than the greedy one. So
   * the group captured, the longest run that leads to a match, is the
   * greedy run.
   */
  lemma RegexIsGreedy(s: string, p: Pattern, i: nat, m: nat)
    requires SuffixAfterDigits(p) && MatchesWith(s, p, i, m)
    ensures MatchAt(s, p, i) && m <= DigitRun(s[i + |p.prefix|..])
  {
    var j := i + |p.prefix|;
    var t := s[j..];
    assert t[..m] == s[j..j + m];
    DigitRunIsMaximal(t, m);
    DigitRunIsRun(t);
    var n := DigitRun(t);
    if m < n {
      assert IsDigit(t[..n][m]);
      if p.suffix != [] {
        assert false;
      }
    }
  }

  /** The leftmost index from `from` on where the matcher matches. */
  function FirstMatch(s: string, p: Pattern, from: nat): (r: Option<nat>)
    ensures r.Some? ==> from <= r.value && MatchAt(s, p, r.value)
    ensures r.Some? ==> forall k :: from <= k < r.value ==> !MatchAt(s, p, k)
    ensures r.None? ==> forall k :: from <= k ==> !MatchAt(s, p, k)
    decreases |s| + 1 - from
  {
    if from > |s| then None
    else if MatchAt(s, p, from) then Some(from)
    else FirstMatch(s, p, from + 1)
  }

  /** `re.search`: the index of the leftmost match. */
  function Search(s: string, p: Pattern): Option<nat> {
    FirstMatch(s, p, 0)
  }

  /** `int(m.group(1))` for a match at `i`: the value of the digit run after the prefix. */
  function Group(s: string, p: Pattern, i: nat): nat
    requires i + |p.prefix| <= |s|
  {
    var t := s[i + |p.prefix|..];
    DigitRunIsRun(t);
    Value(t[..DigitRun(t)])
  }

  /** `int(m.group(1))` if `re.search` matches, nothing otherwise. */
  function Score(s: string, p: Pattern): Option<nat> {
    match Search(s, p)
    case None => None
    case Some(i) => Some(Group(s, p, i))
  }

  /** There is no score exactly when the regular expression matches nowhere. */
  lemma NoScoreIffNoMatch(s: string, p: Pattern)
    requires SuffixAfterDigits(p)
    ensures Score(s, p).None? <==> forall i: nat, m: nat :: !MatchesWith(s, p, i, m)
  {
    if Score(s, p).None? {
      forall i: nat, m: nat | MatchesWith(s, p, i, m) ensures false {
        RegexIsGreedy(s, p, i, m);
      }
    } else {
      GreedyIsRegex(s, p, Search(s, p).value);
    }
  }

  /** `re.search` finds the first index from `from` on where the matcher matches. */
  lemma {:induction false} FirstMatchFinds(s: string, p: Pattern, from: nat, i: nat)
    requires from <= i && MatchAt(s, p, i)
    requires forall k :: from <= k < i ==> !MatchAt(s, p, k)
    ensures FirstMatch(s, p, from) == Some(i)
    decreases i - from
  {
    if from < i {
      FirstMatchFinds(s, p, from + 1, i);
    }
  }

  /**
   * If the leftmost match is at `i`, the score is the value of the longest
   * digit run after the prefix there.
   */
  lemma ScoreOfFirstMatch(s: string, p: Pattern, i: nat)
    requires MatchAt(s, p, i) && forall k :: 0 <= k < i ==> !MatchAt(s, p, k)
    ensures Score(s, p) == Some(Group(s, p, i))
  {
    FirstMatchFinds(s, p, 0, i);
  }

  /**
   * The score of a reply `a + prefix + ds + suffix + rest`, where `ds` are
   * digits not followed by another digit and nothing matches earlier, is
   * `int(ds)`.
   */
  lemma ScoreOfReply(a: string, p: Pattern, ds: string, rest: string)
    requires ds != [] && AllDigits(ds)
    requires SuffixAfterDigits(p) && (p.suffix != [] || rest == [] || !IsDigit(rest[0]))
    requires forall k :: 0 <= k < |a| ==> !MatchAt(a + p.prefix + ds + p.suffix + rest, p, k)
    ensures Score(a + p.prefix + ds + p.suffix + rest, p) == Some(Value(ds))
  {
    var s := a + p.prefix + ds + p.suffix + rest;
    ReplyMatches(s, a, p, ds, rest);
    ScoreOfFirstMatch(s, p, |a|);
  }

  /** With an empty suffix, a reply opening with the prefix and digits scores their value. */
  lemma ScoreOfOpening(p: Pattern, ds: string, rest: string)
    requires p.suffix == [] && ds != [] && AllDigits(ds) && (rest == [] || !IsDigit(rest[0]))
    ensures Score(p.prefix + ds + rest, p) == Some(Value(ds))
  {
    ScoreOfReply([], p, ds, rest);
    Regroup3(p.prefix, ds, rest);
  }

  /** The same regrouping with an empty suffix. */
  lemma Regroup3(x: string, ds: string, rest: string)
    ensures [] + x + ds + [] + rest == x + ds + rest
  {
  }

  /** A reply that opens with the prefix, digits and the suffix scores the value of the digits. */
  lemma ScoreOfLine(p: Pattern, ds: string, rest: string)
    requires ds != [] && AllDigits(ds)
    requires SuffixAfterDigits(p) && (p.suffix != [] || rest == [] || !IsDigit(rest[0]))
    ensures Score(p.prefix + ds + p.suffix + rest, p) == Some(Value(ds))
  {
    ScoreOfReply([], p, ds, rest);
    Regroup4(p.prefix, ds, p.suffix, rest);
  }

  /**
   * `ScoreOfReply` with no text before the match, regrouped. Stated apart so
   * that the concatenation is not unfolded where `Score` is.
   */
  lemma Regroup4(x: string, ds: string, y: string, rest: string)
    ensures [] + x + ds + y + rest == x + ds + y + rest
  {
  }

  /** The matcher matches right after `a`, and captures `ds` there. */
  lemma ReplyMatches(s: string, a: string, p: Pattern, ds: string, rest: string)
    requires ds != [] && AllDigits(ds)
    requires SuffixAfterDigits(p) && (p.suffix != [] || rest == [] || !IsDigit(rest[0]))
    requires s == a + p.prefix + ds + p.suffix + rest
    ensures MatchAt(s, p, |a|) && Group(s, p, |a|) == Value(ds)
  {
    ReplyParts(s, a, p.prefix, ds, p.suffix, rest);
    PartsMatch(s, p, |a|, ds, p.suffix + rest);
    PartsGroup(s, p, |a|, ds, p.suffix + rest);
  }

  /** The matcher matches at `i` where the prefix, the digits `ds` and the suffix stand ... */
  lemma PartsMatch(s: string, p: Pattern, i: nat, ds: string, v: string)
    requires ds != [] && AllDigits(ds) && (v == [] || !IsDigit(v[0]))
    requires i + |p.prefix| + |ds| + |p.suffix| <= |s|
    requires s[i..i + |p.prefix|] == p.prefix && s[i + |p.prefix|..] == ds + v
    requires s[i + |p.prefix| + |ds|..i + |p.prefix| + |ds| + |p.suffix|] == p.suffix
    ensures MatchAt(s, p, i)
  {
    RunOfParts(s, i + |p.prefix|, ds, v);
    MatchOfParts(s, p, i, |ds|);
  }

  /** ... and the group captured there is `ds`. */
  lemma PartsGroup(s: string, p: Pattern, i: nat, ds: string, v: string)
    requires AllDigits(ds) && (v == [] || !IsDigit(v[0]))
    requires i + |p.prefix| + |ds| <= |s| && s[i + |p.prefix|..] == ds + v
    ensures Group(s, p, i) == Value(ds)
  {
    RunOfParts(s, i + |p.prefix|, ds, v);
    GroupOfParts(s, p, i, ds);
  }

  /** Where the parts of `s` stand. */
  lemma ReplyParts(s: string, a: string, x: string, ds: string, y: string, rest: string)
    requires s == a + x + ds + y + rest
    ensures |a| + |x| + |ds| + |y| <= |s|
    ensures s[|a|..|a| + |x|] == x
    ensures s[|a| + |x|..] == ds + (y + rest)
    ensures s[|a| + |x| + |ds|..|a| + |x| + |ds| + |y|] == y
  {
    assert s[|a| + |x|..] == ds + (y + rest);
  }

  /** The digit run at `j` is `ds` when `ds` stands there and no digit follows it. */
  lemma RunOfParts(s: string, j: nat, ds: string, v: string)
    requires j <= |s| && s[j..] == ds + v && AllDigits(ds) && (v == [] || !IsDigit(v[0]))
    ensures DigitRun(s[j..]) == |ds| && s[j..][..|ds|] == ds
  {
    DigitRunOfDigits(ds, v);
  }

  /** The matcher matches where the prefix, a digit run and the suffix stand. */
  lemma MatchOfParts(s: string, p: Pattern, i: nat, n: nat)
    requires 1 <= n && i + |p.prefix| + n + |p.suffix| <= |s|
    requires s[i..i + |p.prefix|] == p.prefix
    requires DigitRun(s[i + |p.prefix|..]) == n
    requires s[i + |p.prefix| + n..i + |p.prefix| + n + |p.suffix|] == p.suffix
    ensures MatchAt(s, p, i)
  {
    LiteralAt(s, i, p.prefix);
    LiteralAt(s, i + |p.prefix| + n, p.suffix);
  }

  /** The group captured where the digit run is `ds`. */
  lemma GroupOfParts(s: string, p: Pattern, i: nat, ds: string)
    requires AllDigits(ds) && i + |p.prefix| + |ds| <= |s|
    requires DigitRun(s[i + |p.prefix|..]) == |ds| && s[i + |p.prefix|..][..|ds|] == ds
    ensures Group(s, p, i) == Value(ds)
  {
  }

  /** A literal placed at index `i` of `s` occurs there. */
  lemma LiteralAt(s: string, i: nat, t: string)
    requires i + |t| <= |s| && s[i..i + |t|] == t
    ensures OccursAt(s, i, t)
  {
    StartsWithIsPrefix(s[i..], t);
    assert s[i..][..|t|] == s[i..i + |t|];
  }

  /** A reply in which the suffix occurs nowhere has no score. */
  lemma NoSuffixNoScore(s: string, p: Pattern)
    requires forall k: nat :: !OccursAt(s, k, p.suffix)
    ensures Score(s, p) == None
  {
    forall i: nat ensures !MatchAt(s, p, i) {
      var j := i + |p.prefix|;
      if j <= |s| {
        assert !OccursAt(s, j + DigitRun(s[j..]), p.suffix);
      }
    }
  }

  /** A reply shorter than the shortest possible match has no score. */
  lemma ShortReplyHasNoScore(s: string, p: Pattern)
    requires |s| < |p.prefix| + 1 + |p.suffix|
    ensures Score(s, p) == None
  {
  }
}
