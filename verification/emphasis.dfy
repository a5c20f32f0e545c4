/**
 * The bold rewrite of a primary item (backend/index.ts line 90): every
 * `**X**` run, found left to right with the shortest `X` that stays on one
 * line, becomes `<strong>X</strong>`.
 */
module Emphasis {

  import opened Wrappers
  import opened Text
  import opened Classify

  /** The global, lazy `**(.*?)**` replacement, position by position. */
  function Bold(s: string): (r: string)
    decreases |s|
  {
    if |s| == 0 then ""
    else if StarsAt(s, 0) && CloseAt(s, 2).Some? then
      var j := CloseAt(s, 2).value;
      "<strong>" + s[2..j] + "</strong>" + Bold(s[j + 2..])
    else [s[0]] + Bold(s[1..])
  }

  /** Turns both tags back into `**`: the partner used to show that `Bold` loses no text. */
  function Unbold(r: string): string
    decreases |r|
  {
    if |r| == 0 then ""
    else if StartsWith(r, "<strong>") then "**" + Unbold(r[8..])
    else if StartsWith(r, "</strong>") then "**" + Unbold(r[9..])
    else [r[0]] + Unbold(r[1..])
  }

  lemma UnboldCons(c: char, r: string)
    requires c != '<'
    ensures Unbold([c] + r) == [c] + Unbold(r)
  {
    var s := [c] + r;
    assert s[1..] == r;
    assert !StartsWith(s, "<strong>") by {
      if |s| >= 8 {
        assert s[..8][0] == c;
      }
    }
    assert !StartsWith(s, "</strong>") by {
      if |s| >= 9 {
        assert s[..9][0] == c;
      }
    }
  }

  lemma UnboldOpen(r: string)
    ensures Unbold("<strong>" + r) == "**" + Unbold(r)
  {
    var s := "<strong>" + r;
    assert s[..8] == "<strong>" && s[8..] == r;
  }

  lemma UnboldClose(r: string)
    ensures Unbold("</strong>" + r) == "**" + Unbold(r)
  {
    var s := "</strong>" + r;
    assert s[..9] == "</strong>" && s[9..] == r;
    assert s[..8] != "<strong>" by {
      assert s[..8][1] == '/';
    }
  }

  /** Tag-free text passes through `Unbold` unchanged. */
  lemma {:induction false} UnboldPlain(x: string, y: string)
    requires NoLt(x)
    ensures Unbold(x + y) == x + Unbold(y)
    decreases |x|
  {
    if |x| > 0 {
      var c, x' := x[0], x[1..];
      assert x + y == [c] + (x' + y);
      UnboldCons(c, x' + y);
      NoLtSlice(x, 1, |x|);
      assert x[1..|x|] == x';
      UnboldPlain(x', y);
      assert [c] + (x' + Unbold(y)) == x + Unbold(y);
    } else {
      assert x + y == y;
    }
  }

  /** The match case of `Bold`, unfolded once. */
  lemma BoldMatchStep(s: string)
    requires StarsAt(s, 0) && CloseAt(s, 2).Some?
    ensures var j := CloseAt(s, 2).value;
      Bold(s) == "<strong>" + s[2..j] + "</strong>" + Bold(s[j + 2..])
  {
  }

  /** Undoing one strong span and the text after it. */
  lemma UnboldRun(x: string, b: string)
    requires NoLt(x)
    ensures Unbold("<strong>" + x + "</strong>" + b) == "**" + x + "**" + Unbold(b)
  {
    assert "<strong>" + x + "</strong>" + b == "<strong>" + (x + ("</strong>" + b));
    UnboldOpen(x + ("</strong>" + b));
    UnboldPlain(x, "</strong>" + b);
    UnboldClose(b);
  }

  /** On text without `<`, undoing the rewrite gives the line back: no character is lost or reordered. */
  lemma {:induction false} BoldRoundTrip(s: string)
    requires NoLt(s)
    ensures Unbold(Bold(s)) == s
    decreases |s|
  {
    if |s| > 0 {
      if StarsAt(s, 0) && CloseAt(s, 2).Some? {
        var j := CloseAt(s, 2).value;
        NoLtSlice(s, j + 2, |s|);
        assert s[j + 2..|s|] == s[j + 2..];
        BoldRoundTrip(s[j + 2..]);
        RoundTripRunStep(s, j);
      } else {
        NoLtSlice(s, 1, |s|);
        assert s[1..|s|] == s[1..];
        BoldRoundTrip(s[1..]);
        RoundTripCharStep(s);
      }
    }
  }

  lemma RoundTripRunStep(s: string, j: nat)
    requires NoLt(s) && StarsAt(s, 0) && CloseAt(s, 2) == Some(j)
    requires Unbold(Bold(s[j + 2..])) == s[j + 2..]
    ensures Unbold(Bold(s)) == s
  {
    var x := s[2..j];
    var rest := s[j + 2..];
    NoLtSlice(s, 2, j);
    calc {
      Unbold(Bold(s));
      { BoldMatchStep(s); }
      Unbold("<strong>" + x + "</strong>" + Bold(rest));
      { UnboldRun(x, Bold(rest)); }
      "**" + x + "**" + rest;
      { StarsSplit(s, j); }
      s;
    }
  }

  /** A line that opens with `**` and has `**` again at `j` is cut into the two markers and the text around them. */
  lemma StarsSplit(s: string, j: nat)
    requires StarsAt(s, 0) && 2 <= j && StarsAt(s, j)
    ensures s == "**" + s[2..j] + "**" + s[j + 2..]
  {
    assert s[..2] == "**" && s[j..j + 2] == "**";
    assert s == s[..2] + s[2..j] + s[j..j + 2] + s[j + 2..];
  }

  lemma RoundTripCharStep(s: string)
    requires NoLt(s) && |s| > 0 && !(StarsAt(s, 0) && CloseAt(s, 2).Some?)
    requires Unbold(Bold(s[1..])) == s[1..]
    ensures Unbold(Bold(s)) == s
  {
    assert Bold(s) == [s[0]] + Bold(s[1..]);
    UnboldCons(s[0], Bold(s[1..]));
    assert s == [s[0]] + s[1..];
  }

  /** Every `<` of `s` opens a `<strong>` or a `</strong>` tag. */
  predicate StrongOnly(s: string)
  {
    forall i :: 0 <= i < |s| && s[i] == '<' ==> StartsWith(s[i..], "<strong>") || StartsWith(s[i..], "</strong>")
  }

  lemma {:induction false} StrongOnlyConcat(a: string, b: string)
    requires StrongOnly(a) && StrongOnly(b)
    ensures StrongOnly(a + b)
  {
    var s := a + b;
    forall i | 0 <= i < |s| && s[i] == '<'
      ensures StartsWith(s[i..], "<strong>") || StartsWith(s[i..], "</strong>")
    {
      if i < |a| {
        assert s[i..] == a[i..] + b;
        assert a[i] == '<';
      } else {
        assert s[i..] == b[i - |a|..];
        assert b[i - |a|] == '<';
      }
    }
  }

  /** A tag whose only `<` is its first character. */
  lemma TagStrongOnly(t: string)
    requires t == "<strong>" || t == "</strong>"
    requires forall k :: 1 <= k < |t| ==> t[k] != '<'
    ensures StrongOnly(t)
  {
    forall i | 0 <= i < |t| && t[i] == '<'
      ensures StartsWith(t[i..], "<strong>") || StartsWith(t[i..], "</strong>")
    {
      assert i == 0;
      assert t[0..] == t;
    }
  }

  lemma TagsStrongOnly()
    ensures StrongOnly("<strong>") && StrongOnly("</strong>")
  {
    var open := "<strong>";
    var close := "</strong>";
    TagStrongOnly(open);
    TagStrongOnly(close);
  }

  /** On a line without `<`, the only markup the rewrite produces is the strong tags. */
  lemma {:induction false} BoldStrongOnly(s: string)
    requires NoLt(s)
    ensures StrongOnly(Bold(s))
    decreases |s|
  {
    if |s| > 0 {
      if StarsAt(s, 0) && CloseAt(s, 2).Some? {
        var j := CloseAt(s, 2).value;
        NoLtSlice(s, j + 2, |s|);
        assert s[j + 2..|s|] == s[j + 2..];
        BoldStrongOnly(s[j + 2..]);
        NoLtSlice(s, 2, j);
        StrongOnlyRun(s[2..j], Bold(s[j + 2..]));
        BoldMatchStep(s);
      } else {
        NoLtSlice(s, 1, |s|);
        assert s[1..|s|] == s[1..];
        BoldStrongOnly(s[1..]);
        assert StrongOnly([s[0]]);
        StrongOnlyConcat([s[0]], Bold(s[1..]));
      }
    }
  }

  lemma StrongOnlyRun(x: string, b: string)
    requires NoLt(x) && StrongOnly(b)
    ensures StrongOnly("<strong>" + x + "</strong>" + b)
  {
    TagsStrongOnly();
    StrongOnlyConcat("<strong>", x);
    StrongOnlyConcat("<strong>" + x, "</strong>");
    StrongOnlyConcat("<strong>" + x + "</strong>", b);
  }

  /** Text with no `*` in it is copied as it stands. */
  lemma {:induction false} BoldPlainPrefix(p: string, rest: string)
    requires forall i :: 0 <= i < |p| ==> p[i] != '*'
    ensures Bold(p + rest) == p + Bold(rest)
    decreases |p|
  {
    if |p| > 0 {
      var s := p + rest;
      assert s[0] == p[0] && s[1..] == p[1..] + rest;
      assert !StarsAt(s, 0);
      assert Bold(s) == [p[0]] + Bold(p[1..] + rest);
      assert forall i :: 0 <= i < |p[1..]| ==> p[1..][i] == p[i + 1];
      BoldPlainPrefix(p[1..], rest);
      calc {
        Bold(p + rest);
        [p[0]] + (p[1..] + Bold(rest));
        { assert p == [p[0]] + p[1..]; }
        p + Bold(rest);
      }
    } else {
      assert p + rest == rest;
    }
  }

  /** A one-line run `**X**` whose `X` holds no `*` becomes one strong span. */
  lemma BoldRun(x: string, rest: string)
    requires forall i :: 0 <= i < |x| ==> x[i] != '*' && !IsLineTerminator(x[i])
    ensures Bold("**" + x + "**" + rest) == "<strong>" + x + "</strong>" + Bold(rest)
  {
    var s := "**" + x + "**" + rest;
    var j := 2 + |x|;
    assert forall k :: 2 <= k < j ==> s[k] == x[k - 2];
    CloseAtFirst(s, 2, j);
    assert s[2..j] == x && s[j + 2..] == rest;
  }

  /**
   * Two bold runs on one line give two strong spans, not one: for instance
   * `3. **A** and **B**` becomes `3. <strong>A</strong> and <strong>B</strong>`.
   */
  lemma TwoRuns(p: string, x: string, q: string, y: string)
    requires forall i :: 0 <= i < |p| ==> p[i] != '*'
    requires forall i :: 0 <= i < |q| ==> q[i] != '*'
    requires forall i :: 0 <= i < |x| ==> x[i] != '*' && !IsLineTerminator(x[i])
    requires forall i :: 0 <= i < |y| ==> y[i] != '*' && !IsLineTerminator(y[i])
    ensures Bold(p + "**" + x + "**" + q + "**" + y + "**")
         == p + "<strong>" + x + "</strong>" + q + "<strong>" + y + "</strong>"
  {
    var second := "**" + y + "**" + "";
    var first := "**" + x + "**" + (q + second);
    calc {
      Bold(p + "**" + x + "**" + q + "**" + y + "**");
      { Regroup(p, x, q, y); }
      Bold(p + first);
      { BoldPlainPrefix(p, first); }
      p + Bold(first);
      { BoldRun(x, q + second); }
      p + ("<strong>" + x + "</strong>" + Bold(q + second));
      { BoldPlainPrefix(q, second); }
      p + ("<strong>" + x + "</strong>" + (q + Bold(second)));
      { BoldRun(y, ""); }
      p + ("<strong>" + x + "</strong>" + (q + ("<strong>" + y + "</strong>" + "")));
      { RegroupTags(p, x, q, y); }
      p + "<strong>" + x + "</strong>" + q + "<strong>" + y + "</strong>";
    }
  }

  lemma Regroup(p: string, x: string, q: string, y: string)
    ensures p + "**" + x + "**" + q + "**" + y + "**" == p + ("**" + x + "**" + (q + ("**" + y + "**" + "")))
  {
  }

  lemma RegroupTags(p: string, x: string, q: string, y: string)
    ensures p + ("<strong>" + x + "</strong>" + (q + ("<strong>" + y + "</strong>" + "")))
         == p + "<strong>" + x + "</strong>" + q + "<strong>" + y + "</strong>"
  {
  }
}
