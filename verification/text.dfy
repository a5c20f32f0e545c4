/** The small option type the model uses for "found / not found" answers. */
module Wrappers {

  datatype Option<+T> = None | Some(value: T)
}

/**
 * String primitives shared by the formatter and the validator: the
 * JavaScript whitespace class used by `String.prototype.trim` and by `\s`,
 * the line terminators that a regular-expression `.` refuses, `split('\n')`,
 * `join`, `startsWith` / `endsWith` / `includes`, and `trim`.
 *
 * Strings are sequences of code points; none of the patterns of the
 * formatter tell a surrogate pair apart from a single code point.
 */
module Text {

  import opened Wrappers

  /** ECMAScript WhiteSpace plus LineTerminator: what `trim` strips and `\s` matches. */
  predicate IsWhite(c: char)
  {
    var n := c as int;
    n == 0x09 || n == 0x0A || n == 0x0B || n == 0x0C || n == 0x0D || n == 0x20
    || n == 0xA0 || n == 0x1680 || (0x2000 <= n <= 0x200A)
    || n == 0x2028 || n == 0x2029 || n == 0x202F || n == 0x205F
    || n == 0x3000 || n == 0xFEFF
  }

  /** The characters a regular-expression `.` (without the `s` flag) does not match. */
  predicate IsLineTerminator(c: char)
  {
    var n := c as int;
    n == 0x0A || n == 0x0D || n == 0x2028 || n == 0x2029
  }

  /** `\d`: the ASCII decimal digits only. */
  predicate IsDigit(c: char)
  {
    '0' <= c <= '9'
  }

  predicate AllWhite(s: string)
  {
    forall i :: 0 <= i < |s| ==> IsWhite(s[i])
  }

  /** No character of `s[from..to]` is a line terminator. */
  predicate TerminatorFree(s: string, from: int, to: int)
    requires 0 <= from <= to <= |s|
  {
    forall k :: from <= k < to ==> !IsLineTerminator(s[k])
  }

  /** No `<` anywhere in `s`: text that cannot be mistaken for markup. */
  predicate NoLt(s: string)
  {
    forall i :: 0 <= i < |s| ==> s[i] != '<'
  }

  lemma NoLtSlice(s: string, a: int, b: int)
    requires NoLt(s) && 0 <= a <= b <= |s|
    ensures NoLt(s[a..b])
  {
    assert forall i :: 0 <= i < b - a ==> s[a..b][i] == s[a + i];
  }

  predicate StartsWith(s: string, p: string)
  {
    |p| <= |s| && s[..|p|] == p
  }

  predicate EndsWith(s: string, p: string)
  {
    |p| <= |s| && s[|s| - |p|..] == p
  }

  /** `p` occurs in `s` at index `i`. */
  predicate OccursAt(s: string, p: string, i: int)
  {
    0 <= i && i + |p| <= |s| && s[i..i + |p|] == p
  }

  /** Whether `p` occurs in `s`, scanning the start positions of `s` from the left. */
  predicate Includes(s: string, p: string)
    decreases |s|
  {
    StartsWith(s, p) || (|s| > 0 && Includes(s[1..], p))
  }

  /** An occurrence at any index makes `includes` hold. */
  lemma {:induction false} OccursIncludes(s: string, p: string, i: int)
    requires OccursAt(s, p, i)
    ensures Includes(s, p)
    decreases i
  {
    if i > 0 {
      assert s[1..][i - 1..i - 1 + |p|] == s[i..i + |p|];
      OccursIncludes(s[1..], p, i - 1);
    }
  }

  /** `includes` holds exactly when `p` occurs at some index of `s`. */
  lemma {:induction false} IncludesIffOccurs(s: string, p: string)
    ensures Includes(s, p) <==> exists i :: OccursAt(s, p, i)
    decreases |s|
  {
    if StartsWith(s, p) {
      assert OccursAt(s, p, 0);
    } else if |s| > 0 {
      IncludesIffOccurs(s[1..], p);
      if Includes(s[1..], p) {
        var i :| OccursAt(s[1..], p, i);
        assert s[i + 1..i + 1 + |p|] == s[1..][i..i + |p|];
        assert OccursAt(s, p, i + 1);
      }
    }
    if exists i :: OccursAt(s, p, i) {
      var i :| OccursAt(s, p, i);
      OccursIncludes(s, p, i);
    }
  }

  /** The strings of `ss` joined with nothing between them. */
  function Concat(ss: seq<string>): string
  {
    if |ss| == 0 then "" else Concat(ss[..|ss| - 1]) + ss[|ss| - 1]
  }

  lemma {:induction false} ConcatAppend(a: seq<string>, b: seq<string>)
    ensures Concat(a + b) == Concat(a) + Concat(b)
    decreases |b|
  {
    if |b| == 0 {
      assert a + b == a;
    } else {
      var init := b[..|b| - 1];
      var last := b[|b| - 1];
      assert (a + b)[..|a + b| - 1] == a + init;
      assert (a + b)[|a + b| - 1] == last;
      ConcatAppend(a, init);
      calc {
        Concat(a + b);
        Concat(a + init) + last;
        Concat(a) + Concat(init) + last;
        Concat(a) + Concat(b);
      }
    }
  }

  /** Number of leading decimal digits of `s`. */
  function LeadingDigits(s: string): (n: nat)
    ensures n <= |s|
    decreases |s|
  {
    if |s| > 0 && IsDigit(s[0]) then 1 + LeadingDigits(s[1..]) else 0
  }

  /** Number of leading whitespace characters of `s`. */
  function LeadingWhite(s: string): (n: nat)
    ensures n <= |s|
    decreases |s|
  {
    if |s| > 0 && IsWhite(s[0]) then 1 + LeadingWhite(s[1..]) else 0
  }

  /** Number of trailing whitespace characters of `s`. */
  function TrailingWhite(s: string): (n: nat)
    ensures n <= |s|
    decreases |s|
  {
    if |s| > 0 && IsWhite(s[|s| - 1]) then 1 + TrailingWhite(s[..|s| - 1]) else 0
  }

  /** `LeadingDigits` is the longest all-digit prefix. */
  lemma {:induction false} LeadingDigitsRun(s: string)
    ensures var n := LeadingDigits(s);
      (forall i :: 0 <= i < n ==> IsDigit(s[i])) && (n < |s| ==> !IsDigit(s[n]))
    decreases |s|
  {
    if |s| > 0 && IsDigit(s[0]) {
      LeadingDigitsRun(s[1..]);
      assert forall i :: 1 <= i < |s| ==> s[i] == s[1..][i - 1];
    }
  }

  /** `LeadingWhite` is the longest all-white prefix. */
  lemma {:induction false} LeadingWhiteRun(s: string)
    ensures var n := LeadingWhite(s);
      (forall i :: 0 <= i < n ==> IsWhite(s[i])) && (n < |s| ==> !IsWhite(s[n]))
    decreases |s|
  {
    if |s| > 0 && IsWhite(s[0]) {
      LeadingWhiteRun(s[1..]);
      assert forall i :: 1 <= i < |s| ==> s[i] == s[1..][i - 1];
    }
  }

  /** `TrailingWhite` is the longest all-white suffix. */
  lemma {:induction false} TrailingWhiteRun(s: string)
    ensures var n := TrailingWhite(s);
      (forall i :: |s| - n <= i < |s| ==> IsWhite(s[i])) && (n < |s| ==> !IsWhite(s[|s| - 1 - n]))
    decreases |s|
  {
    if |s| > 0 && IsWhite(s[|s| - 1]) {
      TrailingWhiteRun(s[..|s| - 1]);
    }
  }

  /** A digit prefix that ends at a non-digit is exactly the leading run. */
  lemma {:induction false} LeadingDigitsExact(s: string, n: nat)
    requires n < |s| && !IsDigit(s[n])
    requires forall i :: 0 <= i < n ==> IsDigit(s[i])
    ensures LeadingDigits(s) == n
    decreases n
  {
    if n > 0 {
      LeadingDigitsExact(s[1..], n - 1);
    }
  }

  /** A white prefix that ends at a non-white character is exactly the leading run. */
  lemma {:induction false} LeadingWhiteExact(s: string, n: nat)
    requires n < |s| && !IsWhite(s[n])
    requires forall i :: 0 <= i < n ==> IsWhite(s[i])
    ensures LeadingWhite(s) == n
    decreases n
  {
    if n > 0 {
      LeadingWhiteExact(s[1..], n - 1);
    }
  }

  /** Trimming: drop the leading and the trailing whitespace. */
  function Trim(s: string): (r: string)
    ensures |r| <= |s|
  {
    var a := LeadingWhite(s);
    if a == |s| then "" else s[a..|s| - TrailingWhite(s[a..])]
  }

  /** Trimming leaves nothing exactly when the text is all whitespace. */
  lemma TrimEmptyIff(s: string)
    ensures Trim(s) == "" <==> AllWhite(s)
  {
    LeadingWhiteRun(s);
    var a := LeadingWhite(s);
    if a < |s| {
      var u := s[a..];
      TrailingWhiteRun(u);
      assert u[0] == s[a];
      assert Trim(s)[0] == s[a];
    }
  }

  /**
   * The trimmed text is the slice of `s` left once the whitespace on both
   * sides is removed: everything cut off is white, and the slice neither
   * starts nor ends with whitespace.
   */
  lemma TrimIsSlice(s: string)
    ensures var r := Trim(s);
      exists i :: 0 <= i <= |s| - |r| && r == s[i..i + |r|] && AllWhite(s[..i]) && AllWhite(s[i + |r|..])
    ensures var r := Trim(s);
      r != "" ==> !IsWhite(r[0]) && !IsWhite(r[|r| - 1])
  {
    var a := LeadingWhite(s);
    if a == |s| {
      LeadingWhiteRun(s);
      assert AllWhite(s[..|s|]) && AllWhite(s[|s|..]);
      assert Trim(s) == s[|s|..|s|];
    } else {
      TrimCut(s, a);
    }
  }

  /** The cut of `Trim` when some character is not white: it starts at the leading run's end. */
  lemma TrimCut(s: string, a: nat)
    requires a == LeadingWhite(s) < |s|
    ensures var r := Trim(s);
      a + |r| <= |s| && r == s[a..a + |r|] && AllWhite(s[..a]) && AllWhite(s[a + |r|..])
      && r != "" && !IsWhite(r[0]) && !IsWhite(r[|r| - 1])
  {
    var u := s[a..];
    var b := TrailingWhite(u);
    TrimInner(s, a);
    LeadingWhitePrefix(s);
    TrailingWhiteSuffix(u);
    assert s[a + (|u| - b)..] == u[|u| - b..];
  }

  /** What `Trim` keeps of `s[a..]`: everything but the trailing run, which is shorter than `s[a..]`. */
  lemma TrimInner(s: string, a: nat)
    requires a == LeadingWhite(s) < |s|
    ensures var u := s[a..]; var b := TrailingWhite(u);
      b < |u| && Trim(s) == u[..|u| - b]
      && !IsWhite(u[0]) && !IsWhite(u[|u| - 1 - b])
  {
    var u := s[a..];
    LeadingWhiteStop(s);
    assert u[0] == s[a];
    TrailingWhiteShort(u);
    TrailingWhiteStop(u);
    TrimKeeps(s, a);
  }

  lemma TrimKeeps(s: string, a: nat)
    requires a == LeadingWhite(s) < |s|
    ensures var u := s[a..]; Trim(s) == u[..|u| - TrailingWhite(u)]
  {
    var u := s[a..];
    var b := TrailingWhite(u);
    assert s[a..|s| - b] == u[..|u| - b];
  }

  lemma {:induction false} LeadingWhiteStop(s: string)
    ensures LeadingWhite(s) < |s| ==> !IsWhite(s[LeadingWhite(s)])
    decreases |s|
  {
    if |s| > 0 && IsWhite(s[0]) {
      LeadingWhiteStop(s[1..]);
    }
  }

  lemma {:induction false} TrailingWhiteStop(s: string)
    ensures TrailingWhite(s) < |s| ==> !IsWhite(s[|s| - 1 - TrailingWhite(s)])
    decreases |s|
  {
    if |s| > 0 && IsWhite(s[|s| - 1]) {
      TrailingWhiteStop(s[..|s| - 1]);
    }
  }

  /** A text that starts with a non-white character is not all trailing whitespace. */
  lemma {:induction false} TrailingWhiteShort(s: string)
    requires |s| > 0 && !IsWhite(s[0])
    ensures TrailingWhite(s) < |s|
    decreases |s|
  {
    if |s| > 1 && IsWhite(s[|s| - 1]) {
      TrailingWhiteShort(s[..|s| - 1]);
    }
  }

  lemma LeadingWhitePrefix(s: string)
    ensures AllWhite(s[..LeadingWhite(s)])
  {
    var a := LeadingWhite(s);
    LeadingWhiteRun(s);
    var head := s[..a];
    forall i | 0 <= i < |head|
      ensures IsWhite(head[i])
    {
      assert head[i] == s[i];
    }
  }

  lemma TrailingWhiteSuffix(u: string)
    ensures AllWhite(u[|u| - TrailingWhite(u)..])
  {
    var b := TrailingWhite(u);
    TrailingWhiteRun(u);
    var tail := u[|u| - b..];
    forall i | 0 <= i < |tail|
      ensures IsWhite(tail[i])
    {
      assert tail[i] == u[|u| - b + i];
    }
  }

  /** Index of the first `c` in `s`. */
  function IndexOf(s: string, c: char): (r: Option<nat>)
    ensures r.Some? ==> r.value < |s| && s[r.value] == c && c !in s[..r.value]
    ensures r.None? ==> c !in s
    decreases |s|
  {
    if |s| == 0 then None
    else if s[0] == c then Some(0)
    else match IndexOf(s[1..], c)
      case None => None
      case Some(i) =>
        assert s[..i + 1] == [s[0]] + s[1..][..i];
        Some(i + 1)
  }

  /** A `c` with no `c` before it is the first one. */
  lemma {:induction false} IndexOfFirst(s: string, c: char, k: nat)
    requires k < |s| && s[k] == c && c !in s[..k]
    ensures IndexOf(s, c) == Some(k)
    decreases k
  {
    if k > 0 {
      assert s[0] in s[..k];
      assert s[1..][..k - 1] == s[1..k];
      assert forall j :: 1 <= j < k ==> s[j] == s[..k][j];
      IndexOfFirst(s[1..], c, k - 1);
    }
  }

  /** Splitting on line feeds: the pieces between them, at least one. */
  function SplitLines(s: string): (r: seq<string>)
    ensures |r| >= 1
    ensures forall i :: 0 <= i < |r| ==> '\n' !in r[i]
    decreases |s|
  {
    match IndexOf(s, '\n')
    case None => [s]
    case Some(i) => [s[..i]] + SplitLines(s[i + 1..])
  }

  /** The pieces of `ls` joined with a line feed between each two. */
  function JoinLines(ls: seq<string>): string
    requires |ls| >= 1
  {
    if |ls| == 1 then ls[0] else ls[0] + "\n" + JoinLines(ls[1..])
  }

  /** Splitting on line feeds loses nothing: joining the pieces gives the text back. */
  lemma {:induction false} JoinSplitLines(s: string)
    ensures JoinLines(SplitLines(s)) == s
    decreases |s|
  {
    match IndexOf(s, '\n')
    case None =>
    case Some(i) =>
      var head, rest := s[..i], s[i + 1..];
      var ls := SplitLines(rest);
      JoinSplitLines(rest);
      assert SplitLines(s) == [head] + ls;
      assert ([head] + ls)[1..] == ls;
      assert JoinLines(SplitLines(s)) == head + "\n" + JoinLines(ls);
      assert s == head + "\n" + rest;
  }

  /** Splitting a join of line-feed-free pieces gives the pieces back. */
  lemma {:induction false} SplitJoinLines(ls: seq<string>)
    requires |ls| >= 1
    requires forall i :: 0 <= i < |ls| ==> '\n' !in ls[i]
    ensures SplitLines(JoinLines(ls)) == ls
    decreases |ls|
  {
    var s := JoinLines(ls);
    if |ls| == 1 {
      assert IndexOf(s, '\n').None?;
    } else {
      var rest := JoinLines(ls[1..]);
      assert s == ls[0] + "\n" + rest;
      assert s[|ls[0]|] == '\n';
      assert s[..|ls[0]|] == ls[0];
      IndexOfFirst(s, '\n', |ls[0]|);
      assert s[|ls[0]| + 1..] == rest;
      SplitJoinLines(ls[1..]);
    }
  }
}
