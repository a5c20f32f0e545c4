/**
 * The replacement-string expansion of `String.prototype.replace` (the
 * GetSubstitution operation of ECMA-262) for a pattern without capture
 * groups, as used by the sub-item insertion at backend/index.ts:107-110.
 */
module Replace {

  /**
   * Expands `tpl` for a match `matched` preceded by `before` and followed by
   * `after`: `$$` gives `$`, `$&` the match, `` $` `` the text before it and
   * `$'` the text after it; every other `$` is copied, since the pattern has
   * no numbered or named groups.
   */
  function Substitute(tpl: string, matched: string, before: string, after: string): string
    decreases |tpl|
  {
    if |tpl| == 0 then ""
    else if tpl[0] == '$' && |tpl| >= 2 && tpl[1] == '$' then "$" + Substitute(tpl[2..], matched, before, after)
    else if tpl[0] == '$' && |tpl| >= 2 && tpl[1] == '&' then matched + Substitute(tpl[2..], matched, before, after)
    else if tpl[0] == '$' && |tpl| >= 2 && tpl[1] == '`' then before + Substitute(tpl[2..], matched, before, after)
    else if tpl[0] == '$' && |tpl| >= 2 && tpl[1] == '\'' then after + Substitute(tpl[2..], matched, before, after)
    else [tpl[0]] + Substitute(tpl[1..], matched, before, after)
  }

  /** A replacement string without `$` is inserted literally. */
  lemma {:induction false} SubstituteLiteral(tpl: string, matched: string, before: string, after: string)
    requires '$' !in tpl
    ensures Substitute(tpl, matched, before, after) == tpl
    decreases |tpl|
  {
    if |tpl| > 0 {
      assert tpl[0] != '$';
      assert forall c :: c in tpl[1..] ==> c in tpl;
      SubstituteLiteral(tpl[1..], matched, before, after);
      assert tpl == [tpl[0]] + tpl[1..];
    }
  }
}

/**
 * One entry of `currentList` (backend/index.ts:89-126): an `<li>` string
 * edited in place. `Item` is its structured reading; `Render` turns an
 * `Item` into the string the source builds, and each in-place edit of the
 * source is proved to be the rendering of a structured edit.
 */
module ListItem {

  import opened Text
  import opened Emphasis
  import opened Replace

  /**
   * A primary item: its bold-converted title, whether a plain line closed it
   * before any sub-item arrived, its sub-items in arrival order, and whether
   * a plain line (or the end of the reply) closed it after its sub-list.
   */
  datatype Item = Item(title: string, closedEarly: bool, subs: seq<string>, closed: bool)

  /** The `<li>` entries of a sub-list, in order. */
  function Entries(subs: seq<string>): string
  {
    if |subs| == 0 then "" else Entries(subs[..|subs| - 1]) + "<li>" + subs[|subs| - 1] + "</li>"
  }

  function Nested(subs: seq<string>): string
  {
    if |subs| == 0 then "" else "<ul>" + Entries(subs) + "</ul>"
  }

  function Head(it: Item): string
  {
    "<li>" + it.title + (if it.closedEarly then "</li>" else "")
  }

  /** The string `currentList` holds for this item. */
  function Render(it: Item): string
  {
    Head(it) + Nested(it.subs) + (if it.closed then "</li>" else "")
  }

  /** The shapes the source can reach when the title carries no markup of its own. */
  predicate Wf(it: Item)
  {
    StrongOnly(it.title) && (it.closed ==> |it.subs| > 0)
  }

  /** The new entry a primary line opens (line 91): `<li>` and the title, nothing closed yet. */
  function Open(title: string): Item
  {
    Item(title, false, [], false)
  }

  /** A sub-item joins the item unless the item was closed after its sub-list. */
  function WithSubItem(it: Item, sub: string): Item
  {
    if |it.subs| == 0 then it.(subs := [sub])
    else if it.closed then it
    else it.(subs := it.subs + [sub])
  }

  /** A plain line closes the title if there is no sub-list yet, otherwise the whole item. */
  function Closed(it: Item): Item
  {
    if |it.subs| == 0 then it.(closedEarly := true) else it.(closed := true)
  }

  /**
   * Lines 104-110 with the new entry inserted literally: a first sub-item
   * appends a sub-list; a later one goes before a trailing `</ul>`, and is
   * lost when the item no longer ends with `</ul>`.
   */
  function AddSubItem(item: string, sub: string): string
  {
    if !Includes(item, "<ul>") then item + "<ul><li>" + sub + "</li></ul>"
    else if EndsWith(item, "</ul>") then item[..|item| - 5] + "<li>" + sub + "</li></ul>"
    else item
  }

  /**
   * Lines 104-110 as written: the second branch passes the new entry to
   * `replace` as a replacement string, so `$` patterns in it are expanded.
   */
  function AddSubItemAsWritten(item: string, sub: string): string
  {
    if !Includes(item, "<ul>") then item + "<ul><li>" + sub + "</li></ul>"
    else if EndsWith(item, "</ul>") then
      item[..|item| - 5] + Substitute("<li>" + sub + "</li></ul>", "</ul>", item[..|item| - 5], "")
    else item
  }

  /** Lines 117-118 and 124-125: append `</li>` unless the item already ends with it. */
  function CloseItem(item: string): string
  {
    if EndsWith(item, "</li>") then item else item + "</li>"
  }

  /** No `<` of `s` is directly followed by `u`. */
  predicate NoUlOpen(s: string)
  {
    forall i :: 0 <= i < |s| - 1 && s[i] == '<' ==> s[i + 1] != 'u'
  }

  lemma {:induction false} NoUlOpenExcludesUl(s: string)
    requires NoUlOpen(s)
    ensures !Includes(s, "<ul>")
    decreases |s|
  {
    if |s| > 0 {
      assert !StartsWith(s, "<ul>") by {
        if |s| >= 4 && s[0] == '<' {
          assert s[..4][1] == s[1] && s[1] != 'u';
        }
      }
      assert NoUlOpen(s[1..]) by {
        assert forall i :: 0 <= i < |s| - 1 ==> s[1..][i] == s[i + 1];
      }
      NoUlOpenExcludesUl(s[1..]);
    }
  }

  lemma NoUlOpenConcat(a: string, b: string)
    requires NoUlOpen(a) && NoUlOpen(b)
    requires |a| > 0 && |b| > 0 ==> a[|a| - 1] != '<' || b[0] != 'u'
    ensures NoUlOpen(a + b)
  {
    var s := a + b;
    forall i | 0 <= i < |s| - 1 && s[i] == '<'
      ensures s[i + 1] != 'u'
    {
      if i < |a| - 1 {
        assert s[i] == a[i] && s[i + 1] == a[i + 1];
      } else if i == |a| - 1 {
        assert s[i] == a[i] && s[i + 1] == b[0];
      } else {
        assert s[i] == b[i - |a|] && s[i + 1] == b[i - |a| + 1];
      }
    }
  }

  /** A strong-only title never shows `<u`, and never ends in `<`. */
  lemma StrongOnlyShape(l: string)
    requires StrongOnly(l)
    ensures NoUlOpen(l)
    ensures |l| > 0 ==> l[|l| - 1] != '<'
    ensures |l| >= 5 ==> l[|l| - 5] != '<'
  {
    forall i | 0 <= i < |l| - 1 && l[i] == '<'
      ensures l[i + 1] != 'u'
    {
      assert l[i..][1] == l[i + 1];
    }
  }

  /** The head of an item holds no `<ul>` and does not end in `<`. */
  lemma HeadShape(it: Item)
    requires StrongOnly(it.title)
    ensures NoUlOpen(Head(it))
    ensures Head(it)[|Head(it)| - 1] != '<'
  {
    var l := it.title;
    StrongOnlyShape(l);
    var li := "<li>";
    assert NoUlOpen(li);
    NoUlOpenConcat(li, l);
    var e := if it.closedEarly then "</li>" else "";
    assert NoUlOpen("</li>");
    NoUlOpenConcat(li + l, e);
    assert Head(it) == li + l + e;
  }

  /** An open title without sub-list ends neither in `</li>` nor in `</ul>`. */
  lemma OpenHeadEnding(l: string)
    requires StrongOnly(l)
    ensures !EndsWith("<li>" + l, "</li>") && !EndsWith("<li>" + l, "</ul>")
  {
    StrongOnlyShape(l);
    var s := "<li>" + l;
    var n := |s|;
    if |l| >= 5 {
      assert s[n - 5] == l[|l| - 5];
    } else if |l| == 1 {
      assert s[n - 4] == 'l';
    } else if |l| >= 2 {
      assert s[n - 5] == "<li>"[|l| - 1];
    }
    assert !(n >= 5 && s[n - 5] == '<' && s[n - 4] == '/');
  }

  /** `includes('<ul>')` on an item is true exactly when it has a sub-list. */
  lemma IncludesUlIff(it: Item)
    requires Wf(it)
    ensures Includes(Render(it), "<ul>") <==> |it.subs| > 0
  {
    var r := Render(it);
    var h := Head(it);
    if |it.subs| > 0 {
      assert r == h + ("<ul>" + Entries(it.subs) + "</ul>" + (if it.closed then "</li>" else ""));
      assert r[|h|..|h| + 4] == "<ul>";
      OccursIncludes(r, "<ul>", |h|);
    } else {
      assert r == h;
      HeadShape(it);
      NoUlOpenExcludesUl(r);
    }
  }

  /** `endsWith('</li>')` on an item: closed after its sub-list, or closed early with none. */
  lemma EndsLiIff(it: Item)
    requires Wf(it)
    ensures EndsWith(Render(it), "</li>") <==> it.closed || (|it.subs| == 0 && it.closedEarly)
  {
    var r := Render(it);
    if |it.subs| == 0 {
      assert r == Head(it);
      if !it.closedEarly {
        OpenHeadEnding(it.title);
        assert r == "<li>" + it.title;
      }
    } else if !it.closed {
      assert r == Head(it) + "<ul>" + Entries(it.subs) + "</ul>";
      assert r[|r| - 3] == 'u';
    }
  }

  /** The `</ul>$` anchor matches exactly when the item has an open sub-list. */
  lemma EndsUlIff(it: Item)
    requires Wf(it)
    ensures EndsWith(Render(it), "</ul>") <==> |it.subs| > 0 && !it.closed
  {
    var r := Render(it);
    if |it.subs| == 0 {
      assert r == Head(it);
      if it.closedEarly {
        assert r[|r| - 3] == 'l';
      } else {
        OpenHeadEnding(it.title);
        assert r == "<li>" + it.title;
      }
    } else if it.closed {
      assert r[|r| - 3] == 'l';
    } else {
      assert r == Head(it) + "<ul>" + Entries(it.subs) + "</ul>";
    }
  }

  /** The first sub-item opens a sub-list after the head. */
  lemma FirstSubItemRender(it: Item, sub: string)
    requires Wf(it) && |it.subs| == 0
    ensures AddSubItem(Render(it), sub) == Render(WithSubItem(it, sub))
  {
    var h := Head(it);
    IncludesUlIff(it);
    assert Render(it) == h;
    assert Entries([sub]) == "<li>" + sub + "</li>" by {
      assert [sub][..0] == [];
    }
    calc {
      AddSubItem(Render(it), sub);
      h + "<ul><li>" + sub + "</li></ul>";
      { FirstSubItemText(h, sub); }
      h + ("<ul>" + ("<li>" + sub + "</li>") + "</ul>") + "";
      Render(WithSubItem(it, sub));
    }
  }

  lemma FirstSubItemText(h: string, sub: string)
    ensures h + "<ul><li>" + sub + "</li></ul>" == h + ("<ul>" + ("<li>" + sub + "</li>") + "</ul>") + ""
  {
  }

  /** A later sub-item goes in front of the trailing `</ul>` of an open sub-list. */
  lemma NextSubItemRender(it: Item, sub: string)
    requires Wf(it) && |it.subs| > 0 && !it.closed
    ensures AddSubItem(Render(it), sub) == Render(WithSubItem(it, sub))
  {
    var r := Render(it);
    IncludesUlIff(it);
    EndsUlIff(it);
    var body := Head(it) + "<ul>" + Entries(it.subs);
    assert r == body + "</ul>";
    assert r[..|r| - 5] == body;
    var subs' := it.subs + [sub];
    assert subs'[..|subs'| - 1] == it.subs;
    assert Entries(subs') == Entries(it.subs) + "<li>" + sub + "</li>";
    calc {
      AddSubItem(r, sub);
      body + "<li>" + sub + "</li></ul>";
      { NextSubItemText(Head(it), Entries(it.subs), sub); }
      Head(it) + ("<ul>" + (Entries(it.subs) + "<li>" + sub + "</li>") + "</ul>") + "";
      Render(WithSubItem(it, sub));
    }
  }

  lemma NextSubItemText(h: string, e: string, sub: string)
    ensures h + "<ul>" + e + "<li>" + sub + "</li></ul>" == h + ("<ul>" + (e + "<li>" + sub + "</li>") + "</ul>") + ""
  {
  }

  /** The source's sub-item insertion is the structured one, seen through `Render`. */
  lemma AddSubItemRender(it: Item, sub: string)
    requires Wf(it)
    ensures AddSubItem(Render(it), sub) == Render(WithSubItem(it, sub))
    ensures Wf(WithSubItem(it, sub))
  {
    if |it.subs| == 0 {
      FirstSubItemRender(it, sub);
    } else if !it.closed {
      NextSubItemRender(it, sub);
    } else {
      IncludesUlIff(it);
      EndsUlIff(it);
    }
  }

  /** The insertion as written is the structured one too, as long as the sub-item text has no `$`. */
  lemma AsWrittenRender(it: Item, sub: string)
    requires Wf(it) && '$' !in sub
    ensures AddSubItemAsWritten(Render(it), sub) == Render(WithSubItem(it, sub))
  {
    AddSubItemRender(it, sub);
    AsWrittenAgrees(Render(it), sub);
  }

  /** The source's closing of an item is the structured one, seen through `Render`. */
  lemma CloseItemRender(it: Item)
    requires Wf(it)
    ensures CloseItem(Render(it)) == Render(Closed(it))
    ensures Wf(Closed(it))
  {
    EndsLiIff(it);
    if |it.subs| == 0 {
      assert Render(it) == Head(it);
    }
  }

  /** A plain line closes an item at most once: after the first, the item ends in `</li>` and stays as it is. */
  lemma CloseItemOnce(item: string)
    ensures EndsWith(CloseItem(item), "</li>")
    ensures CloseItem(CloseItem(item)) == CloseItem(item)
    ensures |CloseItem(item)| <= |item| + 5
  {
    var c := item + "</li>";
    assert c[|c| - 5..] == "</li>";
  }

  /**
   * A sub-item arriving after a plain line closed an item with a sub-list is
   * lost: the item no longer ends in `</ul>`, so the edit leaves it unchanged,
   * with the `replace` of the source as well as with the literal insertion.
   */
  lemma LateSubItemLost(it: Item, sub: string)
    requires Wf(it) && it.closed
    ensures AddSubItemAsWritten(Render(it), sub) == Render(it)
    ensures AddSubItem(Render(it), sub) == Render(it)
  {
    IncludesUlIff(it);
    EndsUlIff(it);
    AddSubItemRender(it, sub);
  }

  /** Without a `$` in the sub-item text, the code as written inserts it literally. */
  lemma AsWrittenAgrees(item: string, sub: string)
    requires '$' !in sub
    ensures AddSubItemAsWritten(item, sub) == AddSubItem(item, sub)
  {
    if Includes(item, "<ul>") && EndsWith(item, "</ul>") {
      var tpl := "<li>" + sub + "</li></ul>";
      assert '$' !in tpl;
      SubstituteLiteral(tpl, "</ul>", item[..|item| - 5], "");
    }
  }

  /**
   * A later sub-item reading `$&` is shown by the code as written as the
   * matched `</ul>`: the item gets the entry `<li></ul></li>` where the
   * literal insertion gives `<li>$&</li>`.
   */
  lemma AsWrittenExpandsDollar(item: string)
    requires Includes(item, "<ul>") && EndsWith(item, "</ul>")
    ensures AddSubItemAsWritten(item, "$&") == AddSubItem(item, "</ul>")
    ensures AddSubItemAsWritten(item, "$&") != AddSubItem(item, "$&")
  {
    ReplaceBranch(item, "$&");
    ReplaceBranch(item, "</ul>");
    var before := item[..|item| - 5];
    SubstituteMatch("<li>", "</li></ul>", "</ul>", before, "");
    DifferentInsertions(before, "<li>", "$&", "</ul>", "</li></ul>");
  }

  /** Inserting `x` or `y` between the same texts gives different results when `x` and `y` start differently. */
  lemma DifferentInsertions(before: string, open: string, x: string, y: string, close: string)
    requires |x| > 0 && |y| > 0 && x[0] != y[0]
    ensures before + (open + y + close) == before + open + y + close
    ensures before + open + x + close != before + open + y + close
  {
    var k := |before + open|;
    assert (before + open + x + close)[k] == x[0];
    assert (before + open + y + close)[k] == y[0];
  }

  /** Both readings of lines 107-110 when the anchor matches. */
  lemma ReplaceBranch(item: string, sub: string)
    requires Includes(item, "<ul>") && EndsWith(item, "</ul>")
    ensures AddSubItem(item, sub) == item[..|item| - 5] + "<li>" + sub + "</li></ul>"
    ensures AddSubItemAsWritten(item, sub)
         == item[..|item| - 5] + Substitute("<li>" + sub + "</li></ul>", "</ul>", item[..|item| - 5], "")
  {
  }

  /** `$&` in a replacement string stands for the matched text. */
  lemma SubstituteMatch(p: string, rest: string, matched: string, before: string, after: string)
    requires '$' !in p && '$' !in rest
    ensures Substitute(p + "$&" + rest, matched, before, after) == p + matched + rest
  {
    var amp := "$&" + rest;
    assert p + "$&" + rest == p + amp;
    SubstitutePrefix(p, amp, matched, before, after);
    assert amp[0] == '$' && amp[1] == '&' && amp[2..] == rest;
    SubstituteLiteral(rest, matched, before, after);
  }

  /** A `$`-free prefix of a replacement string is copied as it stands. */
  lemma {:induction false} SubstitutePrefix(p: string, rest: string, matched: string, before: string, after: string)
    requires '$' !in p
    ensures Substitute(p + rest, matched, before, after) == p + Substitute(rest, matched, before, after)
    decreases |p|
  {
    if |p| > 0 {
      var c, p' := p[0], p[1..];
      assert c != '$' by {
        assert p[0] in p;
      }
      assert '$' !in p' by {
        assert forall i :: 0 <= i < |p'| ==> p'[i] == p[i + 1];
      }
      var s := p + rest;
      assert s[0] == c && s[1..] == p' + rest;
      SubstitutePrefix(p', rest, matched, before, after);
      assert [c] + (p' + Substitute(rest, matched, before, after))
             == p + Substitute(rest, matched, before, after);
    } else {
      assert p + rest == rest;
    }
  }
}
