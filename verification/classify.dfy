/**
 * Classification of a trimmed reply line (backend/index.ts lines 80, 95, 98):
 * a primary item (`^\d+\.\s*\*\*.*\*\*`), a sub-item (`/^-\s.*$/`), or a
 * plain line. Each pattern is written out by hand as a scanner, and the
 * primary-item scanner is proved equal to a literal reading of the pattern.
 */
module Classify {

  import opened Wrappers
  import opened Text

  /** `**` starts at index `j` of `s`. */
  predicate StarsAt(s: string, j: int)
  {
    0 <= j && j + 2 <= |s| && s[j] == '*' && s[j + 1] == '*'
  }

  /**
   * The first `j >= from` where `**` starts, provided no line terminator
   * comes before it: what `.*?\*\*` (and, for existence, `.*\*\*`) finds.
   */
  function CloseAt(s: string, from: nat): (r: Option<nat>)
    requires from <= |s|
    ensures r.Some? ==> from <= r.value && StarsAt(s, r.value)
    decreases |s| - from
  {
    if from + 2 > |s| then None
    else if StarsAt(s, from) then Some(from)
    else if IsLineTerminator(s[from]) then None
    else CloseAt(s, from + 1)
  }

  /** Whatever `CloseAt` finds is reachable without crossing a line terminator, and is the first `**`. */
  lemma {:induction false} CloseAtSound(s: string, from: nat)
    requires from <= |s| && CloseAt(s, from).Some?
    ensures var j := CloseAt(s, from).value;
      TerminatorFree(s, from, j) && forall k :: from <= k < j ==> !StarsAt(s, k)
    decreases |s| - from
  {
    if !StarsAt(s, from) {
      CloseAtSound(s, from + 1);
    }
  }

  /** `CloseAt` finds nothing earlier than a `**` it could reach, and finds something whenever one is reachable. */
  lemma {:induction false} CloseAtFinds(s: string, from: nat, j: nat)
    requires from <= j && StarsAt(s, j) && TerminatorFree(s, from, j)
    ensures CloseAt(s, from).Some? && CloseAt(s, from).value <= j
    decreases j - from
  {
    if from < j && !StarsAt(s, from) {
      CloseAtFinds(s, from + 1, j);
    }
  }

  /** The first `**` with no line terminator before it is the one `CloseAt` finds. */
  lemma {:induction false} CloseAtFirst(s: string, from: nat, j: nat)
    requires from <= j && StarsAt(s, j) && TerminatorFree(s, from, j)
    requires forall k :: from <= k < j ==> !StarsAt(s, k)
    ensures CloseAt(s, from) == Some(j)
    decreases j - from
  {
    if from < j {
      CloseAtFirst(s, from + 1, j);
    }
  }

  /**
   * `test` of `^\d+\.\s*\*\*.*\*\*`: one or more digits, a period, optional
   * whitespace, `**`, and a later `**` on the same line. Digits and
   * whitespace runs are maximal, since neither `.` nor `*` can extend them.
   */
  predicate IsPrimary(t: string)
  {
    var d := LeadingDigits(t);
    1 <= d < |t| && t[d] == '.'
    && var w := d + 1 + LeadingWhite(t[d + 1..]);
    StarsAt(t, w) && CloseAt(t, w + 2).Some?
  }

  /**
   * The pattern read literally: `\d+` is `t[..d]`, `\.` is `t[d]`, `\s*` is
   * `t[d+1..w]`, `\*\*` is `t[w..w+2]`, `.*` is `t[w+2..j]`, `\*\*` is `t[j..j+2]`.
   */
  predicate PrimaryMatch(t: string, d: int, w: int, j: int)
  {
    1 <= d && d + 1 <= w && w + 2 <= j && j + 2 <= |t|
    && (forall k :: 0 <= k < d ==> IsDigit(t[k]))
    && t[d] == '.'
    && (forall k :: d < k < w ==> IsWhite(t[k]))
    && StarsAt(t, w)
    && TerminatorFree(t, w + 2, j)
    && StarsAt(t, j)
  }

  /** Whatever the scanner accepts, the regular expression matches. */
  lemma PrimaryHasMatch(t: string)
    requires IsPrimary(t)
    ensures exists d, w, j :: PrimaryMatch(t, d, w, j)
  {
    var d := LeadingDigits(t);
    LeadingDigitsRun(t);
    var w := d + 1 + LeadingWhite(t[d + 1..]);
    WhiteRunAt(t, d);
    var j := CloseAt(t, w + 2).value;
    CloseAtSound(t, w + 2);
    assert PrimaryMatch(t, d, w, j);
  }

  /** The leading whitespace run of `t[d + 1..]`, in the indices of `t`. */
  lemma WhiteRunAt(t: string, d: nat)
    requires d < |t|
    ensures forall k :: d < k < d + 1 + LeadingWhite(t[d + 1..]) ==> IsWhite(t[k])
  {
    var rest := t[d + 1..];
    LeadingWhiteRun(rest);
    forall k | d < k < d + 1 + LeadingWhite(rest)
      ensures IsWhite(t[k])
    {
      assert t[k] == rest[k - d - 1];
    }
  }

  /** A whitespace stretch of `t` after index `d` that ends at a `*` is the leading run of `t[d + 1..]`. */
  lemma WhiteRunExact(t: string, d: nat, w: nat)
    requires d < w < |t| && t[w] == '*'
    requires forall k :: d < k < w ==> IsWhite(t[k])
    ensures LeadingWhite(t[d + 1..]) == w - d - 1
  {
    var rest := t[d + 1..];
    forall i | 0 <= i < w - d - 1
      ensures IsWhite(rest[i])
    {
      assert rest[i] == t[d + 1 + i];
    }
    assert rest[w - d - 1] == '*';
    LeadingWhiteExact(rest, w - d - 1);
  }

  /** Whatever the regular expression matches, the scanner accepts. */
  lemma MatchIsPrimary(t: string, d: int, w: int, j: int)
    requires PrimaryMatch(t, d, w, j)
    ensures IsPrimary(t)
  {
    LeadingDigitsExact(t, d);
    WhiteRunExact(t, d, w);
    CloseAtFinds(t, w + 2, j);
    ScannerAccepts(t, d, w);
  }

  lemma ScannerAccepts(t: string, d: nat, w: nat)
    requires 1 <= d < |t| && t[d] == '.' && LeadingDigits(t) == d
    requires d + 1 + LeadingWhite(t[d + 1..]) == w
    requires StarsAt(t, w) && CloseAt(t, w + 2).Some?
    ensures IsPrimary(t)
  {
  }

  /** The scanner accepts exactly the lines the regular expression matches. */
  lemma PrimaryIffMatch(t: string)
    ensures IsPrimary(t) <==> exists d, w, j :: PrimaryMatch(t, d, w, j)
  {
    if IsPrimary(t) {
      PrimaryHasMatch(t);
    }
    if exists d, w, j :: PrimaryMatch(t, d, w, j) {
      var d, w, j :| PrimaryMatch(t, d, w, j);
      MatchIsPrimary(t, d, w, j);
    }
  }

  /** The sub-item pattern of line 95: a dash, one whitespace character, then no line terminator to the end. */
  predicate IsSubItem(t: string)
  {
    |t| >= 2 && t[0] == '-' && IsWhite(t[1]) && TerminatorFree(t, 2, |t|)
  }

  /** The entry text of a sub-item (line 98): a literal dash-space prefix is removed, then the whitespace at both ends. */
  function SubItemText(t: string): string
  {
    Trim(if StartsWith(t, "- ") then t[2..] else t)
  }

  /**
   * Only a literal dash-space prefix is removed: a sub-item whose dash is
   * followed by a tab or another whitespace character keeps its dash.
   */
  lemma SubItemKeepsDash(t: string)
    requires IsSubItem(t) && t[1] != ' '
    ensures |SubItemText(t)| > 0 && SubItemText(t)[0] == '-'
  {
    assert LeadingWhite(t) == 0;
    TrimCut(t, 0);
  }

  /** Where the stripping starts: after a literal dash-space, otherwise at the dash. */
  lemma SubItemTextFrom(t: string)
    requires |t| >= 2 && t[0] == '-'
    ensures SubItemText(t) == Trim(t[(if t[1] == ' ' then 2 else 0)..])
  {
    if t[1] == ' ' {
      assert t[..2] == "- ";
    } else {
      assert t[..2] != "- " by {
        assert t[..2][1] == t[1];
      }
      assert t[0..] == t;
    }
  }

  /** Trimming the tail `t[from..]` leaves a slice of `t` with only whitespace between `from` and it, and after it. */
  lemma TrimTail(t: string, from: nat)
    requires from <= |t|
    ensures var r := Trim(t[from..]);
      exists i :: from <= i <= |t| - |r| && r == t[i..i + |r|]
        && AllWhite(t[from..i]) && AllWhite(t[i + |r|..])
  {
    TrimIsSlice(t[from..]);
    TailSlice(t, from, Trim(t[from..]));
  }

  /** A whitespace-framed slice of the tail `t[from..]` is a whitespace-framed slice of `t` after `from`. */
  lemma TailSlice(t: string, from: nat, r: string)
    requires from <= |t|
    requires var u := t[from..];
      exists i :: 0 <= i <= |u| - |r| && r == u[i..i + |r|] && AllWhite(u[..i]) && AllWhite(u[i + |r|..])
    ensures exists i :: (from <= i <= |t| - |r| && r == t[i..i + |r|]
                         && AllWhite(t[from..i]) && AllWhite(t[i + |r|..]))
  {
    var u := t[from..];
    var i :| 0 <= i <= |u| - |r| && r == u[i..i + |r|] && AllWhite(u[..i]) && AllWhite(u[i + |r|..]);
    ShiftSlice(t, from, r, i);
  }

  lemma ShiftSlice(t: string, from: nat, r: string, i: nat)
    requires from <= |t| && i + |r| <= |t| - from
    requires r == t[from..][i..i + |r|] && AllWhite(t[from..][..i]) && AllWhite(t[from..][i + |r|..])
    ensures r == t[from + i..from + i + |r|]
    ensures AllWhite(t[from..from + i]) && AllWhite(t[from + i + |r|..])
  {
    var u := t[from..];
    assert u[i..i + |r|] == t[from + i..from + i + |r|];
    assert u[..i] == t[from..from + i];
    assert u[i + |r|..] == t[from + i + |r|..];
  }

  /**
   * The text of a sub-item is what is left of the line once a literal
   * dash-space prefix (if any) and then the whitespace at both ends are cut
   * off: a slice of the line, starting after the dash-space, with only
   * whitespace around it and no whitespace at its own ends.
   */
  lemma SubItemTextIsSlice(t: string)
    requires IsSubItem(t)
    ensures var r := SubItemText(t); var from := if t[1] == ' ' then 2 else 0;
      exists i :: from <= i <= |t| - |r| && r == t[i..i + |r|]
        && AllWhite(t[from..i]) && AllWhite(t[i + |r|..])
    ensures var r := SubItemText(t);
      r != "" ==> !IsWhite(r[0]) && !IsWhite(r[|r| - 1])
  {
    var from := if t[1] == ' ' then 2 else 0;
    SubItemTextFrom(t);
    TrimTail(t, from);
    TrimIsSlice(t[from..]);
  }

  /** A primary item starts with a digit and a sub-item with a dash, so the order of the two tests does not matter. */
  lemma PrimaryIsNotSubItem(t: string)
    ensures IsPrimary(t) ==> !IsSubItem(t)
  {
    if IsPrimary(t) {
      LeadingDigitsRun(t);
      assert IsDigit(t[0]);
    }
  }
}
