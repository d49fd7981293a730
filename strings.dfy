/**
 * The few Python `str` operations the pipeline uses: `strip()`, `split()`,
 * `sep.join(...)` and `replace(old, new)`, on strings as sequences of characters.
 */
module Strings {

  import opened Wrappers

  /**
   * The ASCII whitespace of `str.strip()` and `str.split()`: space, tab, line
   * feed, vertical tab, form feed, carriage return, and the four separators
   * U+001C to U+001F. The non-ASCII whitespace of `str.isspace()` is left out.
   */
  predicate IsSpace(c: char) {
    c == ' ' || '\t' <= c <= '\r' || '\U{1C}' <= c <= '\U{1F}'
  }

  predicate AllSpace(s: string) {
    forall i :: 0 <= i < |s| ==> IsSpace(s[i])
  }

  predicate NoSpace(s: string) {
    forall i :: 0 <= i < |s| ==> !IsSpace(s[i])
  }

  /** No leading and no trailing whitespace. */
  predicate Trimmed(s: string) {
    s == [] || (!IsSpace(s[0]) && !IsSpace(s[|s| - 1]))
  }

  // ---------------------------------------------------------------- strip

  /** `s.lstrip()`: the suffix left after dropping the leading whitespace. */
  function TrimLeft(s: string): (r: string)
    ensures |r| <= |s| && r == s[|s| - |r|..]
    ensures AllSpace(s[..|s| - |r|])
    ensures r == [] || !IsSpace(r[0])
    decreases |s|
  {
    if s != [] && IsSpace(s[0]) then
      var r := TrimLeft(s[1..]);
      assert s[..|s| - |r|] == [s[0]] + s[1..][..|s| - 1 - |r|];
      r
    else s
  }

  /** `s.rstrip()`: the prefix left after dropping the trailing whitespace. */
  function TrimRight(s: string): (r: string)
    ensures |r| <= |s| && r == s[..|r|]
    ensures AllSpace(s[|r|..])
    ensures r == [] || !IsSpace(r[|r| - 1])
    decreases |s|
  {
    if s != [] && IsSpace(s[|s| - 1]) then
      var r := TrimRight(s[..|s| - 1]);
      assert s[|r|..] == s[..|s| - 1][|r|..] + [s[|s| - 1]];
      r
    else s
  }

  /** `s.strip()`. */
  function Strip(s: string): string {
    TrimRight(TrimLeft(s))
  }

  /**
   * What `strip()` returns: the slice `s[i..j]`, with only whitespace cut off
   * on either side.
   */
  lemma StripIsSlice(s: string) returns (i: nat, j: nat)
    ensures i <= j <= |s| && Strip(s) == s[i..j]
    ensures AllSpace(s[..i]) && AllSpace(s[j..])
  {
    var l := TrimLeft(s);
    var r := TrimRight(l);
    i, j := |s| - |l|, |s| - |l| + |r|;
    PrefixOfSuffix(s, l, r);
    assert AllSpace(s[..i]);
    assert s[j..] == l[|r|..] && AllSpace(l[|r|..]);
  }

  /** A prefix `r` of a suffix `l` of `s` is a slice of `s`, and so are the parts around it. */
  lemma PrefixOfSuffix(s: string, l: string, r: string)
    requires |l| <= |s| && l == s[|s| - |l|..] && |r| <= |l| && r == l[..|r|]
    ensures r == s[|s| - |l|..|s| - |l| + |r|]
    ensures s[|s| - |l| + |r|..] == l[|r|..]
  {
  }

  /** ... and no whitespace is left at either end. */
  lemma StripIsTrimmed(s: string)
    ensures Trimmed(Strip(s))
  {
    var l := TrimLeft(s);
    var r := TrimRight(l);
    if r != [] {
      assert r[0] == l[0];
    }
  }

  /** A string without leading or trailing whitespace is returned unchanged. */
  lemma StripTrimmed(s: string)
    requires Trimmed(s)
    ensures Strip(s) == s
  {
    assert TrimLeft(s) == s;
  }

  /** ... and only such a string: `Strip(s) == s` iff `s` is already trimmed. */
  lemma StripFixedPoints(s: string)
    ensures Strip(s) == s <==> Trimmed(s)
  {
    StripIsTrimmed(s);
    if Trimmed(s) {
      StripTrimmed(s);
    }
  }

  /** `s.strip()` is empty exactly when `s` is nothing but whitespace. */
  lemma StripEmptyIff(s: string)
    ensures Strip(s) == [] <==> AllSpace(s)
  {
    var i, j := StripIsSlice(s);
    if Strip(s) == [] {
      assert s == s[..i] + s[j..];
    } else {
      StripIsTrimmed(s);
      assert s[i] == Strip(s)[0] && !IsSpace(s[i]);
    }
  }

  lemma StripIdempotent(s: string)
    ensures Strip(Strip(s)) == Strip(s)
  {
    StripIsTrimmed(s);
    StripTrimmed(Strip(s));
  }

  // ---------------------------------------------------------------- split

  /** Length of the leading run of non-whitespace characters. */
  function WordLength(s: string): (n: nat)
    ensures n <= |s| && NoSpace(s[..n])
    ensures n < |s| ==> IsSpace(s[n])
    decreases |s|
  {
    if s == [] || IsSpace(s[0]) then 0 else 1 + WordLength(s[1..])
  }

  /** `s.split()` with no separator: the maximal runs of non-whitespace, in order. */
  function Words(s: string): (ws: seq<string>)
    decreases |s|
  {
    if s == [] then []
    else if IsSpace(s[0]) then Words(s[1..])
    else
      var n := WordLength(s);
      [s[..n]] + Words(s[n..])
  }

  /** `len(s.split())`. */
  function WordCount(s: string): nat {
    |Words(s)|
  }

  /** A word of `split()`: non-empty and free of whitespace. */
  predicate IsWord(w: string) {
    w != [] && NoSpace(w)
  }

  lemma {:induction false} WordsAreWords(s: string)
    ensures forall k :: 0 <= k < |Words(s)| ==> IsWord(Words(s)[k])
    decreases |s|
  {
    if s == [] {
    } else if IsSpace(s[0]) {
      WordsAreWords(s[1..]);
    } else {
      var n := WordLength(s);
      WordsAreWords(s[n..]);
    }
  }

  lemma {:induction false} AllSpaceHasNoWords(s: string)
    requires AllSpace(s)
    ensures Words(s) == []
    decreases |s|
  {
    if s != [] {
      AllSpaceHasNoWords(s[1..]);
    }
  }

  lemma {:induction false} WordLengthAcross(a: string, c: char, b: string)
    requires IsSpace(c)
    ensures WordLength(a + [c] + b) == WordLength(a)
    decreases |a|
  {
    if a == [] {
      assert (a + [c] + b)[0] == c;
    } else if !IsSpace(a[0]) {
      assert (a + [c] + b)[1..] == a[1..] + [c] + b;
      WordLengthAcross(a[1..], c, b);
    }
  }

  /** A whitespace character separates words: `(a + c + b).split() == a.split() + b.split()`. */
  lemma {:induction false} WordsAcrossSpace(a: string, c: char, b: string)
    requires IsSpace(c)
    ensures Words(a + [c] + b) == Words(a) + Words(b)
    decreases |a|
  {
    var s := a + [c] + b;
    if a == [] {
      assert s[1..] == b;
    } else if IsSpace(a[0]) {
      assert s[1..] == a[1..] + [c] + b;
      WordsAcrossSpace(a[1..], c, b);
    } else {
      var n := WordLength(a);
      WordLengthAcross(a, c, b);
      assert s[..n] == a[..n];
      assert s[n..] == a[n..] + [c] + b;
      WordsAcrossSpace(a[n..], c, b);
    }
  }

  lemma {:induction false} WordsOfTrimLeft(s: string)
    ensures Words(TrimLeft(s)) == Words(s)
    decreases |s|
  {
    if s != [] && IsSpace(s[0]) {
      WordsOfTrimLeft(s[1..]);
    }
  }

  lemma {:induction false} WordsOfTrimRight(s: string)
    ensures Words(TrimRight(s)) == Words(s)
    decreases |s|
  {
    if s != [] && IsSpace(s[|s| - 1]) {
      var a := s[..|s| - 1];
      assert s == a + [s[|s| - 1]] + [];
      WordsAcrossSpace(a, s[|s| - 1], []);
      assert Words(a) + Words([]) == Words(a);
      WordsOfTrimRight(a);
    }
  }

  /** Stripping never changes the words, hence never the word count. */
  lemma WordsOfStrip(s: string)
    ensures Words(Strip(s)) == Words(s)
  {
    WordsOfTrimLeft(s);
    WordsOfTrimRight(TrimLeft(s));
  }

  // ---------------------------------------------------------------- join

  /** `sep.join(ws)`. */
  function JoinWith(ws: seq<string>, sep: string): string
    decreases |ws|
  {
    if ws == [] then ""
    else if |ws| == 1 then ws[0]
    else ws[0] + sep + JoinWith(ws[1..], sep)
  }

  /** The lists in `wss` one after the other. */
  function Flatten(wss: seq<seq<string>>): (r: seq<string>)
    decreases |wss|
  {
    if wss == [] then [] else wss[0] + Flatten(wss[1..])
  }

  /** `[t.split() for t in ts]`. */
  function WordsOfEach(ts: seq<string>): (wss: seq<seq<string>>)
    ensures |wss| == |ts|
    ensures forall k :: 0 <= k < |ts| ==> wss[k] == Words(ts[k])
    decreases |ts|
  {
    if ts == [] then [] else [Words(ts[0])] + WordsOfEach(ts[1..])
  }

  /** The words of `" ".join(ts)` are the words of each part, in order. */
  lemma {:induction false} WordsOfJoinedTexts(ts: seq<string>)
    ensures Words(JoinWith(ts, " ")) == Flatten(WordsOfEach(ts))
    decreases |ts|
  {
    if ts == [] {
    } else if |ts| == 1 {
      assert Flatten(WordsOfEach(ts)) == Words(ts[0]) + [];
    } else {
      var rest := JoinWith(ts[1..], " ");
      assert ts[0] + " " + rest == ts[0] + [' '] + rest;
      WordsAcrossSpace(ts[0], ' ', rest);
      WordsOfJoinedTexts(ts[1..]);
      assert WordsOfEach(ts)[1..] == WordsOfEach(ts[1..]);
    }
  }

  /** `split()` undoes `" ".join(...)` for a list of words. */
  lemma {:induction false} WordsOfJoin(ws: seq<string>)
    requires forall k :: 0 <= k < |ws| ==> IsWord(ws[k])
    ensures Words(JoinWith(ws, " ")) == ws
    decreases |ws|
  {
    if ws == [] {
    } else if |ws| == 1 {
      WordsOfWord(ws[0]);
    } else {
      WordsAcrossSpace(ws[0], ' ', JoinWith(ws[1..], " "));
      assert ws[0] + " " + JoinWith(ws[1..], " ") == ws[0] + [' '] + JoinWith(ws[1..], " ");
      WordsOfWord(ws[0]);
      WordsOfJoin(ws[1..]);
      assert ws == [ws[0]] + ws[1..];
    }
  }

  lemma WordsOfWord(w: string)
    requires IsWord(w)
    ensures Words(w) == [w]
  {
    var n := WordLength(w);
    if n < |w| {
      assert false;
    }
    assert w[..n] == w;
  }

  // ---------------------------------------------------------------- find, replace

  /** `s.startswith(p)`, one character at a time. */
  predicate StartsWith(s: string, p: string) {
    |p| <= |s| && (p == [] || (s[0] == p[0] && StartsWith(s[1..], p[1..])))
  }

  lemma {:induction false} StartsWithIsPrefix(s: string, p: string)
    ensures StartsWith(s, p) <==> |p| <= |s| && s[..|p|] == p
    decreases |p|
  {
    if p != [] && |p| <= |s| {
      StartsWithIsPrefix(s[1..], p[1..]);
      assert s[..|p|] == [s[0]] + s[1..][..|p| - 1];
      assert p == [p[0]] + p[1..];
    }
  }

  /** `t` occurs in `s` at index `i`. */
  predicate OccursAt(s: string, i: nat, t: string) {
    i <= |s| && StartsWith(s[i..], t)
  }

  /** `s.find(pat)`: the index where `pat` first occurs, if any. */
  function IndexOf(s: string, pat: string): Option<nat>
    decreases |s|
  {
    if OccursAt(s, 0, pat) then Some(0)
    else if s == [] then None
    else
      match IndexOf(s[1..], pat)
      case None => None
      case Some(i) => Some(i + 1)
  }

  lemma OccursAtTail(s: string, i: nat, t: string)
    requires s != []
    ensures OccursAt(s, i + 1, t) <==> OccursAt(s[1..], i, t)
  {
    if i + 1 <= |s| {
      assert s[i + 1..] == s[1..][i..];
    }
  }

  /** `find` answers the leftmost occurrence, and nothing exactly when there is none. */
  lemma {:induction false} IndexOfIsLeftmost(s: string, pat: string)
    ensures IndexOf(s, pat).Some? ==> OccursAt(s, IndexOf(s, pat).value, pat)
    ensures IndexOf(s, pat).Some? ==> forall k: nat :: k < IndexOf(s, pat).value ==> !OccursAt(s, k, pat)
    ensures IndexOf(s, pat).None? ==> forall k: nat :: !OccursAt(s, k, pat)
    decreases |s|
  {
    if !OccursAt(s, 0, pat) && s != [] {
      IndexOfIsLeftmost(s[1..], pat);
      forall k: nat | 0 < k ensures OccursAt(s, k, pat) <==> OccursAt(s[1..], k - 1, pat) {
        OccursAtTail(s, k - 1, pat);
      }
    }
  }

  /** A find that does not answer 0 moved one character on. */
  lemma IndexOfStep(s: string, pat: string, i: nat)
    requires IndexOf(s, pat) == Some(i) && 0 < i
    ensures s != [] && !OccursAt(s, 0, pat) && IndexOf(s[1..], pat) == Some(i - 1)
  {
  }

  lemma {:induction false} IndexOfFits(s: string, pat: string, i: nat)
    requires IndexOf(s, pat) == Some(i)
    ensures i + |pat| <= |s|
    decreases |s|
  {
    if i > 0 {
      IndexOfStep(s, pat, i);
      IndexOfFits(s[1..], pat, i - 1);
    }
  }

  /**
   * `s.replace(pat, sub)`: scanning from the left, each occurrence of `pat`
   * is replaced by `sub` and scanning resumes right after it, so the
   * occurrences replaced do not overlap. An empty `pat` matches at every
   * position: `sub` goes before every character and at the end.
   */
  function Replace(s: string, pat: string, sub: string): string
    decreases |s|
  {
    if pat == [] then
      sub + (if s == [] then [] else [s[0]] + Replace(s[1..], pat, sub))
    else if OccursAt(s, 0, pat) then sub + Replace(s[|pat|..], pat, sub)
    else if s == [] then []
    else [s[0]] + Replace(s[1..], pat, sub)
  }

  /** A string in which `pat` does not occur is left unchanged. */
  lemma {:induction false} ReplaceAbsent(s: string, pat: string, sub: string)
    requires pat != [] && forall k: nat :: !OccursAt(s, k, pat)
    ensures Replace(s, pat, sub) == s
    decreases |s|
  {
    assert !OccursAt(s, 0, pat);
    if s != [] {
      forall k: nat ensures !OccursAt(s[1..], k, pat) {
        OccursAtTail(s, k, pat);
      }
      ReplaceAbsent(s[1..], pat, sub);
    }
  }

  /** Where `pat` does not start, one character is copied and scanning moves on. */
  lemma ReplaceSkip(s: string, pat: string, sub: string)
    requires pat != [] && s != [] && !OccursAt(s, 0, pat)
    ensures Replace(s, pat, sub) == [s[0]] + Replace(s[1..], pat, sub)
  {
  }

  /**
   * The first occurrence of `pat`, at `s.find(pat)`, is the first one
   * replaced: the text before it is copied unchanged, `sub` takes its place,
   * and the rest is the replacement of what follows it.
   */
  lemma {:induction false} ReplaceAtFirst(s: string, pat: string, sub: string, i: nat)
    requires pat != [] && IndexOf(s, pat) == Some(i)
    ensures i + |pat| <= |s|
    ensures Replace(s, pat, sub) == s[..i] + sub + Replace(s[i + |pat|..], pat, sub)
    decreases i, 1
  {
    IndexOfFits(s, pat, i);
    if i == 0 {
      ReplaceAtStart(s, pat, sub);
    } else {
      IndexOfStep(s, pat, i);
      ReplaceAfterSkip(s, pat, sub, i);
    }
  }

  lemma ReplaceAtStart(s: string, pat: string, sub: string)
    requires pat != [] && OccursAt(s, 0, pat)
    ensures Replace(s, pat, sub) == s[..0] + sub + Replace(s[|pat|..], pat, sub)
  {
    assert s[..0] + sub == sub;
  }

  /** One step of `ReplaceAtFirst`: from the tail `s[1..]` back to `s`. */
  lemma {:induction false} ReplaceAfterSkip(s: string, pat: string, sub: string, i: nat)
    requires pat != [] && 0 < i && i + |pat| <= |s| && !OccursAt(s, 0, pat)
    requires IndexOf(s[1..], pat) == Some(i - 1)
    ensures Replace(s, pat, sub) == s[..i] + sub + Replace(s[i + |pat|..], pat, sub)
    decreases i, 0
  {
    var t := s[1..];
    ReplaceAtFirst(t, pat, sub, i - 1);
    ReplaceSkip(s, pat, sub);
    ConsSlices(s, i, |pat|);
    Regroup(Replace(s, pat, sub), Replace(t, pat, sub), s[0], t[..i - 1], sub,
            Replace(t[i - 1 + |pat|..], pat, sub), s[..i]);
  }

  /**
   * `s.split(pat)` for a non-empty `pat`: the pieces between the occurrences
   * of `pat` found scanning from the left.
   */
  function Split(s: string, pat: string): (ps: seq<string>)
    requires pat != []
    ensures |ps| >= 1
    decreases |s|
  {
    match IndexOf(s, pat)
    case None => [s]
    case Some(i) =>
      IndexOfFits(s, pat, i);
      [s[..i]] + Split(s[i + |pat|..], pat)
  }

  /** `pat.join(s.split(pat)) == s`: splitting loses nothing. */
  lemma {:induction false} SplitJoin(s: string, pat: string)
    requires pat != []
    ensures JoinWith(Split(s, pat), pat) == s
    decreases |s|
  {
    match IndexOf(s, pat)
    case None =>
    case Some(i) =>
      IndexOfFits(s, pat, i);
      IndexOfIsLeftmost(s, pat);
      var rest := s[i + |pat|..];
      SplitJoin(rest, pat);
      JoinCons(s[..i], Split(rest, pat), pat);
      StartsWithIsPrefix(s[i..], pat);
      Reassemble(s, i, pat);
  }

  /**
   * `s.replace(pat, sub) == sub.join(s.split(pat))`: the pieces between the
   * occurrences are kept and every occurrence the scan finds becomes `sub`.
   */
  lemma {:induction false} ReplaceIsJoinOfSplit(s: string, pat: string, sub: string)
    requires pat != []
    ensures Replace(s, pat, sub) == JoinWith(Split(s, pat), sub)
    decreases |s|
  {
    match IndexOf(s, pat)
    case None =>
      IndexOfIsLeftmost(s, pat);
      ReplaceAbsent(s, pat, sub);
    case Some(i) =>
      ReplaceAtFirst(s, pat, sub, i);
      var rest := s[i + |pat|..];
      ReplaceIsJoinOfSplit(rest, pat, sub);
      JoinCons(s[..i], Split(rest, pat), sub);
  }

  /** No piece of `s.split(pat)` contains `pat`. */
  lemma {:induction false} SplitPiecesFree(s: string, pat: string)
    requires pat != []
    ensures forall j: nat, k: nat :: j < |Split(s, pat)| ==> !OccursAt(Split(s, pat)[j], k, pat)
    decreases |s|
  {
    IndexOfIsLeftmost(s, pat);
    match IndexOf(s, pat)
    case None =>
    case Some(i) =>
      IndexOfFits(s, pat, i);
      var rest := s[i + |pat|..];
      SplitPiecesFree(rest, pat);
      forall k: nat ensures !OccursAt(s[..i], k, pat) {
        OccursInPrefix(s, i, k, pat);
      }
      assert Split(s, pat)[1..] == Split(rest, pat);
  }

  /** An occurrence in a prefix of `s` is an occurrence in `s`, ending within the prefix. */
  lemma OccursInPrefix(s: string, n: nat, k: nat, t: string)
    requires n <= |s|
    ensures OccursAt(s[..n], k, t) ==> k + |t| <= n && OccursAt(s, k, t)
  {
    if k <= n {
      StartsWithIsPrefix(s[..n][k..], t);
      StartsWithIsPrefix(s[k..], t);
      if |t| <= n - k {
        assert s[..n][k..][..|t|] == s[k..][..|t|];
      }
    }
  }

  /** An occurrence at index 0 is a prefix. */
  lemma OccursAtStart(s: string, t: string)
    ensures OccursAt(s, 0, t) <==> |t| <= |s| && s[..|t|] == t
  {
    assert s[0..] == s;
    StartsWithIsPrefix(s, t);
  }

  /**
   * A two-character pattern that cannot straddle the seam between `a` and
   * `b` is replaced in `a + b` as in `a` and in `b` apart.
   */
  lemma {:induction false} ReplaceConcat(a: string, b: string, pat: string, sub: string)
    requires |pat| == 2
    requires a == [] || b == [] || a[|a| - 1] != pat[0] || b[0] != pat[1]
    ensures Replace(a + b, pat, sub) == Replace(a, pat, sub) + Replace(b, pat, sub)
    decreases |a|
  {
    if a == [] {
      assert a + b == b;
    } else {
      SeamAtStart(a, b, pat);
      var n := if OccursAt(a, 0, pat) then 2 else 1;
      var out := if OccursAt(a, 0, pat) then sub else [a[0]];
      if OccursAt(a, 0, pat) {
        ReplaceStepMatch(a, b, pat, sub);
      } else {
        ReplaceStepSkip(a, b, pat, sub);
      }
      ReplaceConcat(a[n..], b, pat, sub);
      Reassociate(Replace(a + b, pat, sub), Replace(a, pat, sub), Replace(b, pat, sub),
                  out, Replace(a[n..], pat, sub), Replace(a[n..] + b, pat, sub));
    }
  }

  /** `out + (x + y) == (out + x) + y`, with the three sides given by name. */
  lemma Reassociate(w: string, v: string, y: string, out: string, x: string, r: string)
    requires w == out + r && v == out + x && r == x + y
    ensures w == v + y
  {
  }

  /** Where both `a` and `a + b` start with the pattern, the scan writes `sub` for both. */
  lemma ReplaceStepMatch(a: string, b: string, pat: string, sub: string)
    requires |pat| == 2 && |a| >= 2 && OccursAt(a, 0, pat) && OccursAt(a + b, 0, pat)
    ensures Replace(a, pat, sub) == sub + Replace(a[2..], pat, sub)
    ensures Replace(a + b, pat, sub) == sub + Replace(a[2..] + b, pat, sub)
  {
    assert (a + b)[2..] == a[2..] + b;
  }

  /** Where neither starts with the pattern, the scan copies the first character of both. */
  lemma ReplaceStepSkip(a: string, b: string, pat: string, sub: string)
    requires |pat| == 2 && a != [] && !OccursAt(a, 0, pat) && !OccursAt(a + b, 0, pat)
    ensures Replace(a, pat, sub) == [a[0]] + Replace(a[1..], pat, sub)
    ensures Replace(a + b, pat, sub) == [a[0]] + Replace(a[1..] + b, pat, sub)
  {
    assert (a + b)[1..] == a[1..] + b;
    assert (a + b)[0] == a[0];
  }

  /** Under the same condition, `a + b` starts with the pattern exactly when `a` does. */
  lemma SeamAtStart(a: string, b: string, pat: string)
    requires |pat| == 2 && a != []
    requires b == [] || a[|a| - 1] != pat[0] || b[0] != pat[1]
    ensures OccursAt(a + b, 0, pat) <==> OccursAt(a, 0, pat)
    ensures OccursAt(a, 0, pat) ==> |a| >= 2
  {
    var s := a + b;
    OccursAtStart(s, pat);
    OccursAtStart(a, pat);
    if |a| >= 2 {
      assert s[..2] == a[..2];
    } else if |s| >= 2 {
      assert s[..2] == [a[0], b[0]];
    }
  }

  /** A string without the first character of `pat` is left unchanged by `replace`. */
  lemma ReplaceWithoutFirstChar(s: string, pat: string, sub: string)
    requires pat != [] && forall i :: 0 <= i < |s| ==> s[i] != pat[0]
    ensures Replace(s, pat, sub) == s
  {
    forall k: nat ensures !OccursAt(s, k, pat) {
      if k <= |s| {
        StartsWithIsPrefix(s[k..], pat);
        if |pat| <= |s| - k {
          assert s[k..][..|pat|][0] == s[k];
        }
      }
    }
    ReplaceAbsent(s, pat, sub);
  }

  /** `[t.replace(pat, sub) for t in ts]`. */
  function ReplaceEach(ts: seq<string>, pat: string, sub: string): (rs: seq<string>)
    ensures |rs| == |ts|
    ensures forall k :: 0 <= k < |ts| ==> rs[k] == Replace(ts[k], pat, sub)
    decreases |ts|
  {
    if ts == [] then [] else [Replace(ts[0], pat, sub)] + ReplaceEach(ts[1..], pat, sub)
  }

  /**
   * Where the separator is left unchanged and a two-character pattern can
   * straddle neither of its ends, replacing in a joined list is joining the
   * replaced pieces.
   */
  lemma {:induction false} ReplaceOverJoin(ps: seq<string>, sep: string, pat: string, sub: string)
    requires |pat| == 2 && sep != [] && sep[0] != pat[1] && sep[|sep| - 1] != pat[0]
    requires Replace(sep, pat, sub) == sep
    ensures Replace(JoinWith(ps, sep), pat, sub) == JoinWith(ReplaceEach(ps, pat, sub), sep)
    decreases |ps|
  {
    if |ps| >= 2 {
      var rest := JoinWith(ps[1..], sep);
      ReplaceConcat(ps[0], sep, pat, sub);
      ReplaceConcat(ps[0] + sep, rest, pat, sub);
      ReplaceOverJoin(ps[1..], sep, pat, sub);
      var rs := ReplaceEach(ps, pat, sub);
      assert rs[1..] == ReplaceEach(ps[1..], pat, sub);
    }
  }

  /** Joining a list with at least one more element after `w`. */
  lemma JoinCons(w: string, ws: seq<string>, sep: string)
    requires |ws| >= 1
    ensures JoinWith([w] + ws, sep) == w + sep + JoinWith(ws, sep)
  {
    assert ([w] + ws)[1..] == ws;
  }

  lemma Reassemble(s: string, i: nat, pat: string)
    requires i + |pat| <= |s| && s[i..][..|pat|] == pat
    ensures s[..i] + pat + s[i + |pat|..] == s
  {
    assert s[i..i + |pat|] == pat;
  }

  lemma ConsSlices(s: string, i: nat, n: nat)
    requires 0 < i && i + n <= |s|
    ensures [s[0]] + s[1..][..i - 1] == s[..i]
    ensures s[1..][i - 1 + n..] == s[i + n..]
  {
  }

  lemma Regroup(whole: string, tail: string, c: char, a: string, b: string, r: string, p: string)
    requires whole == [c] + tail && tail == a + b + r && [c] + a == p
    ensures whole == p + b + r
  {
  }

}
