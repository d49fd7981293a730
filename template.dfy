/**
 * A prompt template with two holes, as an f-string `head{a}mid{b}tail`
 * with fixed literal text around the two inputs.
 */
module Template {
  import opened Wrappers

  datatype Template = Template(head: string, mid: string, tail: string)

  /** The f-string with `a` and `b` interpolated, each verbatim. */
  function Fill(t: Template, a: string, b: string): string {
    t.head + a + t.mid + b + t.tail
  }

  /**
   * Reads the two inputs back from a prompt, given the length `n` of the
   * first; fails when the fixed text is not where the template puts it.
   */
  function Unfill(t: Template, p: string, n: nat): Option<(string, string)> {
    var i := |t.head| + n;
    if |p| < i + |t.mid| + |t.tail| then None
    else if p[..|t.head|] != t.head || p[i..i + |t.mid|] != t.mid || p[|p| - |t.tail|..] != t.tail then None
    else Some((p[|t.head|..i], p[i + |t.mid|..|p| - |t.tail|]))
  }

  /** Where each part stands in a filled template. */
  lemma FillLayout(t: Template, a: string, b: string)
    ensures var p := Fill(t, a, b);
      var i := |t.head| + |a|;
      var k := i + |t.mid|;
      && |p| == k + |b| + |t.tail|
      && p[..|t.head|] == t.head
      && p[|t.head|..i] == a
      && p[i..k] == t.mid
      && p[k..k + |b|] == b
      && p[k + |b|..] == t.tail
  {
    var p := Fill(t, a, b);
    var i := |t.head| + |a|;
    var k := i + |t.mid|;
    assert p == (t.head + a + t.mid) + b + t.tail;
    assert p[..k] == t.head + a + t.mid;
  }

  /** Both inputs can be read back from the prompt: they are interpolated verbatim. */
  lemma UnfillFill(t: Template, a: string, b: string)
    ensures Unfill(t, Fill(t, a, b), |a|) == Some((a, b))
  {
    FillLayout(t, a, b);
  }

  /** What is read back from a prompt fills the template to that very prompt. */
  lemma FillUnfill(t: Template, p: string, n: nat)
    requires Unfill(t, p, n).Some?
    ensures Fill(t, Unfill(t, p, n).value.0, Unfill(t, p, n).value.1) == p
  {
    var (a, b) := Unfill(t, p, n).value;
    var i := |t.head| + n;
    var k := i + |t.mid|;
    assert p == p[..|t.head|] + p[|t.head|..i] + p[i..k] + p[k..|p| - |t.tail|] + p[|p| - |t.tail|..];
  }

  /** Literal markers at the end of `head` and the start of `mid` enclose the first input. */
  lemma FirstInputBetween(t: Template, a: string, b: string, h: string, m1: string, m2: string, r: string)
    requires t.head == h + m1 && t.mid == m2 + r
    ensures var p := Fill(t, a, b);
      var i := |t.head|;
      && i + |a| + |m2| <= |p|
      && p[i - |m1|..i] == m1
      && p[i..i + |a|] == a
      && p[i + |a|..i + |a| + |m2|] == m2
  {
    FillLayout(t, a, b);
    var p := Fill(t, a, b);
    var i := |t.head|;
    Ends(h, m1);
    Ends(m2, r);
    SliceEnd(p, i, m1);
    SliceStart(p, i + |a|, i + |a| + |t.mid|, m2);
  }

  /** Literal markers at the end of `mid` and the start of `tail` enclose the second input. */
  lemma SecondInputBetween(t: Template, a: string, b: string, h: string, m3: string, m4: string, r: string)
    requires t.mid == h + m3 && t.tail == m4 + r
    ensures var p := Fill(t, a, b);
      var k := |t.head| + |a| + |t.mid|;
      && k + |b| + |m4| <= |p|
      && p[k - |m3|..k] == m3
      && p[k..k + |b|] == b
      && p[k + |b|..k + |b| + |m4|] == m4
      && |p| - |r| == k + |b| + |m4|
  {
    FillLayout(t, a, b);
    var p := Fill(t, a, b);
    var k := |t.head| + |a| + |t.mid|;
    Ends(h, m3);
    Ends(m4, r);
    SliceEnd(p[..k], k, m3);
    SliceStart(p, k + |b|, |p|, m4);
  }

  /** A filled template ends with whatever `tail` ends with. */
  lemma FillEndsWith(t: Template, a: string, b: string, g: string, r: string)
    requires t.tail == g + r
    ensures var p := Fill(t, a, b);
      |r| <= |p| && p[|p| - |r|..] == r
  {
    var p := Fill(t, a, b);
    assert p == (t.head + a + t.mid + b + g) + r;
  }

  /** The last characters of `p[..i]` stand just before `i`. */
  lemma SliceEnd(p: string, i: nat, m: string)
    requires |m| <= i <= |p| && p[..i][i - |m|..] == m
    ensures p[i - |m|..i] == m
  {
    assert p[..i][i - |m|..] == p[i - |m|..i];
  }

  /** The first characters of `p[i..j]` stand at `i`. */
  lemma SliceStart(p: string, i: nat, j: nat, m: string)
    requires i + |m| <= j <= |p| && p[i..j][..|m|] == m
    ensures p[i..i + |m|] == m
  {
    assert p[i..j][..|m|] == p[i..i + |m|];
  }

  /** `x + y` starts with `x` and ends with `y`. */
  lemma Ends(x: string, y: string)
    ensures (x + y)[..|x|] == x && (x + y)[|x + y| - |y|..] == y
  {
  }
}
