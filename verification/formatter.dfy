/**
 * The reply-to-HTML formatter of the `/recommend` handler
 * (backend/index.ts:63-139): keep the non-blank lines of the reply, take
 * the first and last as introduction and conclusion, fold every line into
 * `currentList` / `recomendacionesHTML`, and wrap the blocks in the result
 * template.
 *
 * The fold is modelled twice: `Run` edits strings in place as the source
 * does, `$` expansion of the sub-item insertion included, and `AbsRun`
 * builds structured `Item`s with the sub-item texts inserted literally. The
 * two agree (`BlocksAreRenderedItems`) whenever no primary line carries a
 * `<` of its own and no sub-item text a `$`; the properties of the items are
 * proved on the structured side.
 */
module Formatter {

  import opened Text
  import opened Classify
  import opened Emphasis
  import opened ListItem

  // ---------------------------------------------------------------- lines

  /** The filter of line 64: the lines whose trim is not empty, kept raw and in order. */
  function KeptLines(ls: seq<string>): seq<string>
  {
    if |ls| == 0 then []
    else KeptLines(ls[..|ls| - 1]) + (if Trim(ls[|ls| - 1]) != "" then [ls[|ls| - 1]] else [])
  }

  /** The filter distributes over concatenation... */
  lemma {:induction false} KeptLinesAppend(a: seq<string>, b: seq<string>)
    ensures KeptLines(a + b) == KeptLines(a) + KeptLines(b)
    decreases |b|
  {
    if |b| == 0 {
      assert a + b == a;
    } else {
      assert (a + b)[..|a + b| - 1] == a + b[..|b| - 1];
      KeptLinesAppend(a, b[..|b| - 1]);
    }
  }

  /** ...and, on a single line, keeps it exactly when its trim is non-empty. */
  lemma KeptLinesSingle(x: string)
    ensures KeptLines([x]) == if Trim(x) != "" then [x] else []
  {
    assert [x][..0] == [];
  }

  /** Every kept line is non-blank. */
  lemma {:induction false} KeptLinesNonBlank(ls: seq<string>)
    ensures forall i :: 0 <= i < |KeptLines(ls)| ==> Trim(KeptLines(ls)[i]) != ""
    decreases |ls|
  {
    if |ls| > 0 {
      KeptLinesNonBlank(ls[..|ls| - 1]);
    }
  }

  /** The positions of the lines of `ls` that satisfy `keep`, in increasing order. */
  function Positions(ls: seq<string>, keep: string -> bool): (r: seq<nat>)
    ensures forall j :: 0 <= j < |r| ==> r[j] < |ls|
  {
    if |ls| == 0 then []
    else Positions(ls[..|ls| - 1], keep) + (if keep(ls[|ls| - 1]) then [|ls| - 1] else [])
  }

  /** The positions of the non-blank lines of `ls`. */
  function NonBlankPositions(ls: seq<string>): seq<nat>
  {
    Positions(ls, s => Trim(s) != "")
  }

  /** The j-th kept line is the line at the j-th non-blank position. */
  lemma {:induction false} KeptLinesAt(ls: seq<string>)
    ensures var pos := NonBlankPositions(ls);
      |KeptLines(ls)| == |pos| && forall j :: 0 <= j < |pos| ==> KeptLines(ls)[j] == ls[pos[j]]
    decreases |ls|
  {
    if |ls| > 0 {
      var init := ls[..|ls| - 1];
      KeptLinesAt(init);
      var pos0 := NonBlankPositions(init);
      assert forall j :: 0 <= j < |pos0| ==> init[pos0[j]] == ls[pos0[j]];
    }
  }

  predicate Increasing(pos: seq<nat>)
  {
    forall j :: 0 < j < |pos| ==> pos[j - 1] < pos[j]
  }

  lemma IncreasingAppend(pos: seq<nat>, n: nat)
    requires Increasing(pos) && forall j :: 0 <= j < |pos| ==> pos[j] < n
    ensures Increasing(pos + [n])
  {
    var pos' := pos + [n];
    forall j | 0 < j < |pos'|
      ensures pos'[j - 1] < pos'[j]
    {
      assert pos'[j - 1] == pos[j - 1];
    }
  }

  lemma {:induction false} PositionsIncrease(ls: seq<string>, keep: string -> bool)
    ensures Increasing(Positions(ls, keep))
    decreases |ls|
  {
    if |ls| > 0 {
      var init := ls[..|ls| - 1];
      PositionsIncrease(init, keep);
      if keep(ls[|ls| - 1]) {
        IncreasingAppend(Positions(init, keep), |ls| - 1);
      }
    }
  }

  /** A position is listed exactly when its line satisfies `keep`. */
  lemma {:induction false} PositionsExact(ls: seq<string>, keep: string -> bool)
    ensures forall i :: 0 <= i < |ls| ==> (i in Positions(ls, keep) <==> keep(ls[i]))
    decreases |ls|
  {
    if |ls| > 0 {
      var init := ls[..|ls| - 1];
      PositionsExact(init, keep);
      assert forall i :: 0 <= i < |init| ==> init[i] == ls[i];
    }
  }

  /**
   * The filter keeps exactly the non-blank lines, in their order: the kept
   * lines are the lines at strictly increasing positions, and a position is
   * among them exactly when its line is not blank.
   */
  lemma KeptLinesSelects(ls: seq<string>)
    ensures var pos := NonBlankPositions(ls);
      |KeptLines(ls)| == |pos|
      && (forall j :: 0 <= j < |pos| ==> KeptLines(ls)[j] == ls[pos[j]])
      && Increasing(pos)
      && (forall i :: 0 <= i < |ls| ==> (i in pos <==> Trim(ls[i]) != ""))
  {
    KeptLinesAt(ls);
    PositionsIncrease(ls, s => Trim(s) != "");
    PositionsExact(ls, s => Trim(s) != "");
  }

  predicate AllBlank(ls: seq<string>)
  {
    forall i :: 0 <= i < |ls| ==> Trim(ls[i]) == ""
  }

  lemma {:induction false} KeptLinesOfBlank(ls: seq<string>)
    requires AllBlank(ls)
    ensures KeptLines(ls) == []
    decreases |ls|
  {
    if |ls| > 0 {
      KeptLinesOfBlank(ls[..|ls| - 1]);
    }
  }

  /** The first kept line (line 67), which is `undefined` (printed as such by the template) when no line is kept. */
  function Intro(lines: seq<string>): string
  {
    if |lines| > 0 then lines[0] else "undefined"
  }

  /** The last kept line (line 68), likewise `undefined` when none is kept. */
  function Conclusion(lines: seq<string>): string
  {
    if |lines| > 0 then lines[|lines| - 1] else "undefined"
  }

  /** A non-blank line between two stretches survives the filter between their filtered forms. */
  lemma KeptLinesAround(pre: seq<string>, x: string, post: seq<string>)
    requires Trim(x) != ""
    ensures KeptLines(pre + [x] + post) == KeptLines(pre) + [x] + KeptLines(post)
  {
    KeptLinesAppend(pre + [x], post);
    KeptLinesAppend(pre, [x]);
    KeptLinesSingle(x);
  }

  /**
   * The introduction is the first line that is not blank, untrimmed: in
   * lines `pre + [x] + post` where the filter keeps nothing of `pre` and
   * keeps `x`.
   */
  lemma IntroIsFirstNonBlank(pre: seq<string>, x: string, post: seq<string>)
    requires KeptLines(pre) == [] && Trim(x) != ""
    ensures Intro(KeptLines(pre + [x] + post)) == x
  {
    KeptLinesAround(pre, x, post);
  }

  /** The conclusion is the last line that is not blank, untrimmed. */
  lemma ConclusionIsLastNonBlank(pre: seq<string>, x: string, post: seq<string>)
    requires Trim(x) != "" && AllBlank(post)
    ensures Conclusion(KeptLines(pre + [x] + post)) == x
  {
    KeptLinesAround(pre, x, post);
    KeptLinesOfBlank(post);
  }

  // ------------------------------------------------------- classification

  /**
   * The branch of the loop body a line takes (lines 76-80, 95-98, 113),
   * with what that branch uses: the trimmed line of a primary item, the
   * text of a sub-item.
   */
  datatype Token = PrimaryLine(line: string) | SubLine(text: string) | PlainLine

  function Tokenize(line: string): Token
  {
    var t := Trim(line);
    if IsPrimary(t) then PrimaryLine(t)
    else if IsSubItem(t) then SubLine(SubItemText(t))
    else PlainLine
  }

  function Tokens(lines: seq<string>): (r: seq<Token>)
    ensures |r| == |lines|
  {
    seq(|lines|, i requires 0 <= i < |lines| => Tokenize(lines[i]))
  }

  /**
   * The token of a line against the readings of the two patterns: a primary
   * line is exactly a trimmed line the regular expression of line 80
   * matches, and keeps the whole trimmed line; a sub-item line is exactly a
   * trimmed line of the pattern of line 95, whatever the order of the tests.
   */
  lemma TokenizeMatches(line: string)
    ensures Tokenize(line).PrimaryLine? <==> exists d, w, j :: PrimaryMatch(Trim(line), d, w, j)
    ensures Tokenize(line).PrimaryLine? ==> Tokenize(line).line == Trim(line)
    ensures Tokenize(line).SubLine? <==> IsSubItem(Trim(line))
  {
    PrimaryIffMatch(Trim(line));
    PrimaryIsNotSubItem(Trim(line));
  }

  // ------------------------------------------------------ the fold as written

  /** The two variables of the loop: `currentList` and `recomendacionesHTML`. */
  datatype State = State(currentList: seq<string>, blocks: seq<string>)

  const Start: State := State([], [])

  /** Lines 84-87 and 129-131: a pending list becomes one `<ul>` block. */
  function Flush(st: State): State
  {
    if |st.currentList| > 0 then State([], st.blocks + ["<ul>" + Concat(st.currentList) + "</ul>"])
    else st
  }

  /** Lines 84-91: flush the pending list, then open a new entry with the emphasised title. */
  function Push(st: State, title: string): State
  {
    var f := Flush(st);
    f.(currentList := f.currentList + ["<li>" + title])
  }

  /**
   * Lines 98-112: add a sub-item to the open entry, with the `$` expansion of
   * the `replace` call as written; ignored when there is no entry.
   */
  function AddSub(st: State, sub: string): State
  {
    if |st.currentList| > 0 then
      var k := |st.currentList| - 1;
      st.(currentList := st.currentList[k := AddSubItemAsWritten(st.currentList[k], sub)])
    else st
  }

  /** Lines 117-119 and 124-126: close the last entry unless it already ends in `</li>`. */
  function CloseLast(st: State): State
  {
    if |st.currentList| > 0 then
      var k := |st.currentList| - 1;
      st.(currentList := st.currentList[k := CloseItem(st.currentList[k])])
    else st
  }

  /** One iteration of the loop over the kept lines (lines 75-121). */
  function Step(st: State, tok: Token): State
  {
    match tok
    case PrimaryLine(t) => Push(st, Bold(t))
    case SubLine(sub) => AddSub(st, sub)
    case PlainLine => CloseLast(st)
  }

  /** The loop, from the state `st`. */
  function Run(st: State, toks: seq<Token>): State
  {
    if |toks| == 0 then st else Step(Run(st, toks[..|toks| - 1]), toks[|toks| - 1])
  }

  /** `recomendacionesHTML` after the loop over `lines` and lines 123-131. */
  function Blocks(lines: seq<string>): seq<string>
  {
    Flush(CloseLast(Run(Start, Tokens(lines)))).blocks
  }

  /** The indentation of the result template (lines 134-139). */
  const Indent: string := "\n            "

  /** The template literal of lines 134-139. */
  function Page(nombre: string, intro: string, body: string, conclusion: string): string
  {
    Indent + "<h3>Recomendaciones para " + nombre + "</h3>"
    + Indent + "<p>" + intro + "</p>"
    + Indent + body
    + Indent + "<p>" + conclusion + "</p>"
    + "\n        "
  }

  /** The result page (lines 63-139) for the reply text and the name field. */
  function Format(reply: string, nombre: string): string
  {
    var lines := KeptLines(SplitLines(reply));
    Page(nombre, Intro(lines), Concat(Blocks(lines)), Conclusion(lines))
  }

  // -------------------------------------------------------- counting lemmas

  /** The trimmed primary lines, in order. */
  function Primaries(toks: seq<Token>): seq<string>
  {
    if |toks| == 0 then []
    else Primaries(toks[..|toks| - 1])
         + (if toks[|toks| - 1].PrimaryLine? then [toks[|toks| - 1].line] else [])
  }

  /**
   * Every primary line flushes before it pushes, so `currentList` never holds
   * more than one entry, it is empty until the first primary line, and the
   * flushed blocks plus the pending entry number the primary lines so far.
   */
  lemma {:induction false} RunShape(toks: seq<Token>)
    ensures var st := Run(Start, toks);
      |st.currentList| <= 1
      && (|st.currentList| == 0 <==> |Primaries(toks)| == 0)
      && |st.blocks| + |st.currentList| == |Primaries(toks)|
    decreases |toks|
  {
    if |toks| > 0 {
      RunShape(toks[..|toks| - 1]);
    }
  }

  /** One `<ul>` block per primary line: the number of blocks is the number of primary lines. */
  lemma BlockCount(lines: seq<string>)
    ensures |Blocks(lines)| == |Primaries(Tokens(lines))|
  {
    RunShape(Tokens(lines));
  }

  /** A sub-item seen before any primary item leaves the state unchanged. */
  lemma OrphanSubItem(st: State, line: string)
    requires st.currentList == [] && IsSubItem(Trim(line))
    ensures Step(st, Tokenize(line)) == st
  {
    PrimaryIsNotSubItem(Trim(line));
  }

  // ------------------------------------------------- the fold on structures

  /** One iteration on structured items: the last item is the one in `currentList`. */
  function AbsStep(items: seq<Item>, tok: Token): seq<Item>
  {
    match tok
    case PrimaryLine(t) => items + [Open(Bold(t))]
    case SubLine(sub) =>
      if |items| > 0 then items[..|items| - 1] + [WithSubItem(items[|items| - 1], sub)] else items
    case PlainLine =>
      if |items| > 0 then items[..|items| - 1] + [Closed(items[|items| - 1])] else items
  }

  function AbsRun(items: seq<Item>, toks: seq<Token>): seq<Item>
  {
    if |toks| == 0 then items else AbsStep(AbsRun(items, toks[..|toks| - 1]), toks[|toks| - 1])
  }

  /** The end of the loop: the last item is closed. */
  function AbsFinish(items: seq<Item>): seq<Item>
  {
    if |items| > 0 then items[..|items| - 1] + [Closed(items[|items| - 1])] else items
  }

  /** The structured reading of a reply: one item per primary line. */
  function Items(toks: seq<Token>): seq<Item>
  {
    AbsFinish(AbsRun([], toks))
  }

  function Block(it: Item): string
  {
    "<ul>" + Render(it) + "</ul>"
  }

  function Blocked(items: seq<Item>): seq<string>
  {
    if |items| == 0 then [] else Blocked(items[..|items| - 1]) + [Block(items[|items| - 1])]
  }

  lemma {:induction false} AbsRunAppend(items: seq<Item>, a: seq<Token>, b: seq<Token>)
    ensures AbsRun(items, a + b) == AbsRun(AbsRun(items, a), b)
    decreases |b|
  {
    if |b| == 0 {
      assert a + b == a;
    } else {
      assert (a + b)[..|a + b| - 1] == a + b[..|b| - 1];
      AbsRunAppend(items, a, b[..|b| - 1]);
    }
  }

  lemma AbsRunOne(items: seq<Item>, tok: Token)
    ensures AbsRun(items, [tok]) == AbsStep(items, tok)
  {
    assert [tok][..0] == [];
  }

  // ------------------------------------------------------------ simulation

  /** Primary lines carry no `<` of their own (the first hypothesis of the agreement theorem). */
  predicate PlainTitles(toks: seq<Token>)
  {
    forall i :: 0 <= i < |toks| && toks[i].PrimaryLine? ==> NoLt(toks[i].line)
  }

  /** Sub-item texts carry no `$`, so `replace` inserts them literally (the second hypothesis). */
  predicate DollarFree(toks: seq<Token>)
  {
    forall i :: 0 <= i < |toks| && toks[i].SubLine? ==> '$' !in toks[i].text
  }

  /** The string state is the rendering of the structured one. */
  predicate Sim(st: State, items: seq<Item>)
  {
    if |items| == 0 then st == Start
    else
      var last := items[|items| - 1];
      st.currentList == [Render(last)] && st.blocks == Blocked(items[..|items| - 1]) && Wf(last)
  }

  lemma OpenRender(title: string)
    ensures Render(Open(title)) == "<li>" + title
  {
  }

  lemma PushSim(st: State, items: seq<Item>, title: string)
    requires Sim(st, items) && StrongOnly(title)
    ensures Sim(Push(st, title), items + [Open(title)])
  {
    var items' := items + [Open(title)];
    OpenRender(title);
    assert items'[..|items'| - 1] == items;
    if |items| > 0 {
      var last := items[|items| - 1];
      assert Concat([Render(last)]) == Render(last) by {
        assert [Render(last)][..0] == [];
      }
      assert items == items[..|items| - 1] + [last];
    }
  }

  lemma AddSubSim(st: State, items: seq<Item>, sub: string)
    requires Sim(st, items) && |items| > 0 && '$' !in sub
    ensures Sim(AddSub(st, sub), items[..|items| - 1] + [WithSubItem(items[|items| - 1], sub)])
  {
    var last := items[|items| - 1];
    AsWrittenRender(last, sub);
    var items' := items[..|items| - 1] + [WithSubItem(last, sub)];
    assert items'[..|items'| - 1] == items[..|items| - 1];
  }

  lemma CloseLastSim(st: State, items: seq<Item>)
    requires Sim(st, items) && |items| > 0
    ensures Sim(CloseLast(st), items[..|items| - 1] + [Closed(items[|items| - 1])])
  {
    var last := items[|items| - 1];
    CloseItemRender(last);
    var items' := items[..|items| - 1] + [Closed(last)];
    assert items'[..|items'| - 1] == items[..|items| - 1];
  }

  lemma {:induction false} RunSim(toks: seq<Token>)
    requires PlainTitles(toks) && DollarFree(toks)
    ensures Sim(Run(Start, toks), AbsRun([], toks))
    decreases |toks|
  {
    if |toks| > 0 {
      var init := toks[..|toks| - 1];
      assert PlainTitles(init) && DollarFree(init) by {
        assert forall i :: 0 <= i < |init| ==> init[i] == toks[i];
      }
      RunSim(init);
      var st := Run(Start, init);
      var items := AbsRun([], init);
      match toks[|toks| - 1]
      case PrimaryLine(t) =>
        BoldStrongOnly(t);
        PushSim(st, items, Bold(t));
      case SubLine(sub) =>
        if |items| > 0 {
          AddSubSim(st, items, sub);
        }
      case PlainLine =>
        if |items| > 0 {
          CloseLastSim(st, items);
        }
    }
  }

  /**
   * When no primary line carries a `<` of its own and no sub-item text a
   * `$`, the blocks the source builds by string surgery are exactly the
   * renderings of the structured items, one `<ul>` block per item, in order.
   */
  lemma BlocksAreRenderedItems(lines: seq<string>)
    requires PlainTitles(Tokens(lines)) && DollarFree(Tokens(lines))
    ensures Blocks(lines) == Blocked(Items(Tokens(lines)))
  {
    var toks := Tokens(lines);
    RunSim(toks);
    var items := AbsRun([], toks);
    if |items| > 0 {
      var last := items[|items| - 1];
      CloseItemRender(last);
      var fin := Items(toks);
      assert fin[..|fin| - 1] == items[..|items| - 1];
      assert Concat([Render(Closed(last))]) == Render(Closed(last)) by {
        assert [Render(Closed(last))][..0] == [];
      }
    }
  }

  /** The whole result: heading, introduction, the rendered items in order, conclusion. */
  lemma FormatIsFramedItems(reply: string, nombre: string)
    requires PlainTitles(Tokens(KeptLines(SplitLines(reply))))
    requires DollarFree(Tokens(KeptLines(SplitLines(reply))))
    ensures var lines := KeptLines(SplitLines(reply));
      Format(reply, nombre)
      == Page(nombre, Intro(lines), Concat(Blocked(Items(Tokens(lines)))), Conclusion(lines))
  {
    BlocksAreRenderedItems(KeptLines(SplitLines(reply)));
  }

  /** A reply with no non-blank line still yields a page, with `undefined` as introduction and conclusion and no blocks. */
  lemma BlankReplyFormat(reply: string, nombre: string)
    requires AllBlank(SplitLines(reply))
    ensures Format(reply, nombre) == Page(nombre, "undefined", "", "undefined")
  {
    KeptLinesOfBlank(SplitLines(reply));
    NoLinesNoBlocks();
  }

  lemma NoLinesNoBlocks()
    ensures Blocks([]) == [] && Concat(Blocks([])) == ""
  {
    assert Tokens([]) == [];
  }

  // ------------------------------------------- properties of the structure

  predicate NoPrimary(toks: seq<Token>)
  {
    forall i :: 0 <= i < |toks| ==> !toks[i].PrimaryLine?
  }

  predicate AllSubItems(toks: seq<Token>)
  {
    forall i :: 0 <= i < |toks| ==> toks[i].SubLine?
  }

  /** The texts of a run of sub-item lines, in order. */
  function SubTexts(toks: seq<Token>): seq<string>
    requires AllSubItems(toks)
  {
    if |toks| == 0 then [] else SubTexts(toks[..|toks| - 1]) + [toks[|toks| - 1].text]
  }

  function Titles(items: seq<Item>): seq<string>
  {
    if |items| == 0 then [] else Titles(items[..|items| - 1]) + [items[|items| - 1].title]
  }

  function BoldAll(ts: seq<string>): seq<string>
  {
    if |ts| == 0 then [] else BoldAll(ts[..|ts| - 1]) + [Bold(ts[|ts| - 1])]
  }

  lemma TitlesLast(items: seq<Item>, it: Item)
    ensures Titles(items + [it]) == Titles(items) + [it.title]
  {
    assert (items + [it])[..|items|] == items;
  }

  /** Lines before the first primary line, sub-items and plain lines alike, produce nothing. */
  lemma {:induction false} LeadingNonPrimaryDropped(pre: seq<Token>)
    requires NoPrimary(pre)
    ensures AbsRun([], pre) == []
    decreases |pre|
  {
    if |pre| > 0 {
      var init := pre[..|pre| - 1];
      assert NoPrimary(init) by {
        assert forall i :: 0 <= i < |init| ==> init[i] == pre[i];
      }
      LeadingNonPrimaryDropped(init);
    }
  }

  /** So a prefix without primary lines does not change the items at all. */
  lemma ItemsIgnoreLeadingNonPrimary(pre: seq<Token>, rest: seq<Token>)
    requires NoPrimary(pre)
    ensures Items(pre + rest) == Items(rest)
  {
    AbsRunAppend([], pre, rest);
    LeadingNonPrimaryDropped(pre);
  }

  lemma AbsStepTitles(items: seq<Item>, tok: Token)
    ensures Titles(AbsStep(items, tok))
            == Titles(items) + (if tok.PrimaryLine? then [Bold(tok.line)] else [])
  {
    if tok.PrimaryLine? {
      TitlesLast(items, Open(Bold(tok.line)));
    } else if |items| > 0 {
      var last := items[|items| - 1];
      assert items == items[..|items| - 1] + [last];
      TitlesLast(items[..|items| - 1], last);
      if tok.SubLine? {
        TitlesLast(items[..|items| - 1], WithSubItem(last, tok.text));
      } else {
        TitlesLast(items[..|items| - 1], Closed(last));
      }
    }
  }

  lemma BoldAllLast(ts: seq<string>, t: string)
    ensures BoldAll(ts + [t]) == BoldAll(ts) + [Bold(t)]
  {
    assert (ts + [t])[..|ts|] == ts;
  }

  /** Every item stems from one primary line: its title is that line, trimmed and emphasised. */
  lemma {:induction false} AbsRunTitles(toks: seq<Token>)
    ensures Titles(AbsRun([], toks)) == BoldAll(Primaries(toks))
    decreases |toks|
  {
    if |toks| > 0 {
      var init := toks[..|toks| - 1];
      var tok := toks[|toks| - 1];
      AbsRunTitles(init);
      AbsStepTitles(AbsRun([], init), tok);
      assert toks[..|toks| - 1] == init;
      if tok.PrimaryLine? {
        assert Primaries(toks) == Primaries(init) + [tok.line];
        BoldAllLast(Primaries(init), tok.line);
      } else {
        assert Primaries(toks) == Primaries(init);
      }
    }
  }

  lemma {:induction false} TitlesIndex(items: seq<Item>, k: nat)
    requires k < |items|
    ensures |Titles(items)| == |items| && Titles(items)[k] == items[k].title
    decreases |items|
  {
    if k < |items| - 1 {
      TitlesIndex(items[..|items| - 1], k);
    } else if |items| > 1 {
      TitlesIndex(items[..|items| - 1], 0);
    }
  }

  lemma {:induction false} BoldAllIndex(ts: seq<string>, k: nat)
    requires k < |ts|
    ensures |BoldAll(ts)| == |ts| && BoldAll(ts)[k] == Bold(ts[k])
    decreases |ts|
  {
    if k < |ts| - 1 {
      BoldAllIndex(ts[..|ts| - 1], k);
    } else if |ts| > 1 {
      BoldAllIndex(ts[..|ts| - 1], 0);
    }
  }

  /**
   * The k-th item is the k-th primary line, trimmed and emphasised: one item
   * per primary line, in order, and closing the last item keeps its title.
   */
  lemma ItemTitles(toks: seq<Token>, k: nat)
    requires k < |Primaries(toks)|
    ensures |Items(toks)| == |Primaries(toks)|
    ensures Items(toks)[k].title == Bold(Primaries(toks)[k])
  {
    var items := AbsRun([], toks);
    AbsRunCount(toks);
    AbsRunTitles(toks);
    BoldAllIndex(Primaries(toks), k);
    TitlesIndex(items, k);
    if |items| > 0 {
      var fin := Items(toks);
      assert fin[..|fin| - 1] == items[..|items| - 1];
    }
  }

  lemma AbsStepSub(items: seq<Item>, it: Item, sub: string)
    ensures AbsStep(items + [it], SubLine(sub)) == items + [WithSubItem(it, sub)]
  {
    assert (items + [it])[..|items|] == items;
  }

  lemma AbsStepPlain(items: seq<Item>, it: Item)
    ensures AbsStep(items + [it], PlainLine) == items + [Closed(it)]
  {
    assert (items + [it])[..|items|] == items;
  }

  /**
   * Sub-item lines after an entry without a sub-list, freshly opened or
   * closed early, become its sub-items, in order.
   */
  lemma {:induction false} SubItemsCollect(items: seq<Item>, title: string, early: bool, ss: seq<Token>)
    requires AllSubItems(ss)
    ensures AbsRun(items + [Item(title, early, [], false)], ss) == items + [Item(title, early, SubTexts(ss), false)]
    decreases |ss|
  {
    if |ss| > 0 {
      var init := ss[..|ss| - 1];
      var sub := ss[|ss| - 1].text;
      assert AllSubItems(init) by {
        assert forall i :: 0 <= i < |init| ==> init[i] == ss[i];
      }
      SubItemsCollect(items, title, early, init);
      var it := Item(title, early, SubTexts(init), false);
      assert ss[|ss| - 1] == SubLine(sub);
      AbsStepSub(items, it, sub);
      assert WithSubItem(it, sub) == Item(title, early, SubTexts(init) + [sub], false) by {
        if |SubTexts(init)| == 0 {
          assert SubTexts(init) + [sub] == [sub];
        }
      }
    }
  }

  /** Once an item with sub-items is closed, no later non-primary line changes it. */
  lemma {:induction false} ClosedItemStays(items: seq<Item>, it: Item, post: seq<Token>)
    requires it.closed && |it.subs| > 0 && NoPrimary(post)
    ensures AbsRun(items + [it], post) == items + [it]
    decreases |post|
  {
    if |post| > 0 {
      var init := post[..|post| - 1];
      assert NoPrimary(init) by {
        assert forall i :: 0 <= i < |init| ==> init[i] == post[i];
      }
      ClosedItemStays(items, it, init);
      assert (items + [it])[..|items|] == items;
    }
  }

  /**
   * An entry without a sub-list (freshly opened or closed early), a non-empty
   * run of sub-item lines, then non-primary lines of which the first is
   * plain: the entry holds the run's texts and the plain line closes it;
   * later sub-items are ignored.
   */
  lemma SubItemRun(items: seq<Item>, title: string, early: bool, ss: seq<Token>, post: seq<Token>)
    requires AllSubItems(ss) && |ss| > 0 && NoPrimary(post)
    requires |post| > 0 ==> post[0] == PlainLine
    ensures AbsRun(items + [Item(title, early, [], false)], ss + post)
            == items + [Item(title, early, SubTexts(ss), |post| > 0)]
  {
    AbsRunAppend(items + [Item(title, early, [], false)], ss, post);
    SubItemsCollect(items, title, early, ss);
    var open := Item(title, early, SubTexts(ss), false);
    if |post| > 0 {
      var closed := open.(closed := true);
      assert post == [PlainLine] + post[1..];
      AbsRunAppend(items + [open], [PlainLine], post[1..]);
      AbsRunOne(items + [open], PlainLine);
      AbsStepPlain(items, open);
      assert NoPrimary(post[1..]) by {
        assert forall i :: 0 <= i < |post| - 1 ==> post[1..][i] == post[i + 1];
      }
      ClosedItemStays(items, closed, post[1..]);
    } else {
      assert ss + post == ss;
    }
  }

  /** Earlier items never change: every step edits only the last item or appends. */
  lemma {:induction false} AbsRunKeepsPrefix(items: seq<Item>, toks: seq<Token>)
    requires |items| > 0
    ensures |AbsRun(items, toks)| >= |items|
    ensures AbsRun(items, toks)[..|items| - 1] == items[..|items| - 1]
    decreases |toks|
  {
    if |toks| > 0 {
      AbsRunKeepsPrefix(items, toks[..|toks| - 1]);
    }
  }

  lemma {:induction false} AbsRunCount(toks: seq<Token>)
    ensures |AbsRun([], toks)| == |Primaries(toks)|
    decreases |toks|
  {
    if |toks| > 0 {
      AbsRunCount(toks[..|toks| - 1]);
    }
  }

  /** The run of a primary line, its sub-items and the plain lines after them appends exactly one item. */
  lemma PrimaryRun(pre: seq<Token>, p: string, ss: seq<Token>, post: seq<Token>)
    requires AllSubItems(ss) && |ss| > 0 && NoPrimary(post)
    requires |post| > 0 ==> post[0] == PlainLine
    ensures AbsRun([], pre + ([PrimaryLine(p)] + (ss + post)))
            == AbsRun([], pre) + [Item(Bold(p), false, SubTexts(ss), |post| > 0)]
  {
    var x := AbsRun([], pre);
    AbsRunAppend([], pre, [PrimaryLine(p)] + (ss + post));
    AbsRunAppend(x, [PrimaryLine(p)], ss + post);
    AbsRunOne(x, PrimaryLine(p));
    SubItemRun(x, Bold(p), false, ss, post);
  }

  /** The run of a primary line closed at once by a plain line, then sub-items and plain lines, appends one item. */
  lemma EarlyCloseRun(pre: seq<Token>, p: string, ss: seq<Token>, post: seq<Token>)
    requires AllSubItems(ss) && |ss| > 0 && NoPrimary(post)
    requires |post| > 0 ==> post[0] == PlainLine
    ensures AbsRun([], pre + ([PrimaryLine(p)] + ([PlainLine] + (ss + post))))
            == AbsRun([], pre) + [Item(Bold(p), true, SubTexts(ss), |post| > 0)]
  {
    var x := AbsRun([], pre);
    AbsRunAppend([], pre, [PrimaryLine(p)] + ([PlainLine] + (ss + post)));
    AbsRunAppend(x, [PrimaryLine(p)], [PlainLine] + (ss + post));
    AbsRunOne(x, PrimaryLine(p));
    AbsRunAppend(x + [Open(Bold(p))], [PlainLine], ss + post);
    AbsRunOne(x + [Open(Bold(p))], PlainLine);
    AbsStepPlain(x, Open(Bold(p)));
    SubItemRun(x, Bold(p), true, ss, post);
  }

  /** Items before the last one are never touched again once a new primary line opens another. */
  lemma LaterLinesKeep(y: seq<Item>, q: string, rest: seq<Token>)
    ensures |AbsRun(y, [PrimaryLine(q)] + rest)| > |y|
    ensures AbsRun(y, [PrimaryLine(q)] + rest)[..|y|] == y
  {
    AbsRunAppend(y, [PrimaryLine(q)], rest);
    AbsRunOne(y, PrimaryLine(q));
    var z := y + [Open(Bold(q))];
    AbsRunKeepsPrefix(z, rest);
    assert z[..|z| - 1] == y;
  }

  /**
   * The item of a primary line followed by a non-empty run of sub-item lines, then
   * non-primary lines of which the first is plain, then the next primary
   * line: it holds exactly the run's texts and it is closed exactly when
   * some plain line came before the next primary line. With no plain line
   * the entry stays unclosed in the output.
   */
  lemma ItemBetweenPrimaries(pre: seq<Token>, p: string, ss: seq<Token>, post: seq<Token>,
                             q: string, rest: seq<Token>)
    requires AllSubItems(ss) && |ss| > 0 && NoPrimary(post)
    requires |post| > 0 ==> post[0] == PlainLine
    ensures var toks := pre + [PrimaryLine(p)] + ss + post + [PrimaryLine(q)] + rest;
      |Primaries(pre)| < |Items(toks)|
      && Items(toks)[|Primaries(pre)|] == Item(Bold(p), false, SubTexts(ss), |post| > 0)
  {
    var b := pre + ([PrimaryLine(p)] + (ss + post));
    var toks := pre + [PrimaryLine(p)] + ss + post + [PrimaryLine(q)] + rest;
    assert toks == b + ([PrimaryLine(q)] + rest);
    AbsRunCount(pre);
    PrimaryRun(pre, p, ss, post);
    var y := AbsRun([], b);
    AbsRunAppend([], b, [PrimaryLine(q)] + rest);
    LaterLinesKeep(y, q, rest);
    var fin := AbsRun([], toks);
    assert fin[|Primaries(pre)|] == y[|Primaries(pre)|];
  }

  /**
   * A primary line closed at once by a plain line, then a run of sub-item
   * lines and non-primary lines of which the first is plain, then the next
   * primary line: the early `</li>` stays and the run's texts still join the
   * entry, as a sub-list after that `</li>`; the next plain line closes the
   * entry a second time.
   */
  lemma SubItemsAfterEarlyClose(pre: seq<Token>, p: string, ss: seq<Token>, post: seq<Token>,
                                q: string, rest: seq<Token>)
    requires AllSubItems(ss) && |ss| > 0 && NoPrimary(post)
    requires |post| > 0 ==> post[0] == PlainLine
    ensures var toks := pre + [PrimaryLine(p)] + [PlainLine] + ss + post + [PrimaryLine(q)] + rest;
      |Primaries(pre)| < |Items(toks)|
      && Items(toks)[|Primaries(pre)|] == Item(Bold(p), true, SubTexts(ss), |post| > 0)
      && Block(Items(toks)[|Primaries(pre)|])
         == "<ul>" + "<li>" + Bold(p) + "</li>" + Nested(SubTexts(ss))
            + (if |post| > 0 then "</li>" else "") + "</ul>"
  {
    var b := pre + ([PrimaryLine(p)] + ([PlainLine] + (ss + post)));
    var toks := pre + [PrimaryLine(p)] + [PlainLine] + ss + post + [PrimaryLine(q)] + rest;
    assert toks == b + ([PrimaryLine(q)] + rest);
    AbsRunCount(pre);
    EarlyCloseRun(pre, p, ss, post);
    var y := AbsRun([], b);
    AbsRunAppend([], b, [PrimaryLine(q)] + rest);
    LaterLinesKeep(y, q, rest);
    var fin := AbsRun([], toks);
    assert fin[|Primaries(pre)|] == y[|Primaries(pre)|];
    EarlyClosedBlock(Bold(p), SubTexts(ss), |post| > 0);
  }

  /** The block of an entry closed early: its sub-list, if any, follows the early `</li>`. */
  lemma EarlyClosedBlock(title: string, subs: seq<string>, closed: bool)
    ensures Block(Item(title, true, subs, closed))
            == "<ul>" + "<li>" + title + "</li>" + Nested(subs)
               + (if closed then "</li>" else "") + "</ul>"
  {
    var it := Item(title, true, subs, closed);
    var tail := if closed then "</li>" else "";
    var h := "<li>" + title + "</li>";
    assert Head(it) == h;
    assert Render(it) == h + Nested(subs) + tail;
  }

  /** The last primary line's item, followed by a non-empty run of sub-items and then non-primary lines, ends up closed. */
  lemma LastItemClosed(pre: seq<Token>, p: string, ss: seq<Token>, post: seq<Token>)
    requires AllSubItems(ss) && |ss| > 0 && NoPrimary(post)
    requires |post| > 0 ==> post[0] == PlainLine
    ensures var toks := pre + ([PrimaryLine(p)] + (ss + post));
      |Items(toks)| == |Primaries(pre)| + 1
      && Items(toks)[|Primaries(pre)|] == Item(Bold(p), false, SubTexts(ss), true)
  {
    AbsRunCount(pre);
    PrimaryRun(pre, p, ss, post);
    var x := AbsRun([], pre);
    var it := Item(Bold(p), false, SubTexts(ss), |post| > 0);
    assert (x + [it])[..|x|] == x;
  }

  /** A primary line directly followed by another leaves its entry open: its block has no `</li>`. */
  lemma ConsecutivePrimaries(pre: seq<Token>, p: string, q: string, rest: seq<Token>)
    ensures var toks := pre + [PrimaryLine(p)] + [PrimaryLine(q)] + rest;
      |Primaries(pre)| < |Items(toks)| && Items(toks)[|Primaries(pre)|] == Open(Bold(p))
  {
    var b := pre + [PrimaryLine(p)];
    var toks := pre + [PrimaryLine(p)] + [PrimaryLine(q)] + rest;
    assert toks == b + ([PrimaryLine(q)] + rest);
    AbsRunCount(pre);
    AbsRunAppend([], pre, [PrimaryLine(p)]);
    AbsRunOne(AbsRun([], pre), PrimaryLine(p));
    var y := AbsRun([], b);
    AbsRunAppend([], b, [PrimaryLine(q)] + rest);
    LaterLinesKeep(y, q, rest);
    var fin := AbsRun([], toks);
    assert fin[|Primaries(pre)|] == y[|Primaries(pre)|];
  }

  lemma {:induction false} BlockedIndex(items: seq<Item>, k: nat)
    requires k < |items|
    ensures |Blocked(items)| == |items| && Blocked(items)[k] == Block(items[k])
    decreases |items|
  {
    if k < |items| - 1 {
      BlockedIndex(items[..|items| - 1], k);
    } else if |items| > 1 {
      BlockedIndex(items[..|items| - 1], 0);
    }
  }

  lemma {:induction false} RunAppend(st: State, a: seq<Token>, b: seq<Token>)
    ensures Run(st, a + b) == Run(Run(st, a), b)
    decreases |b|
  {
    if |b| == 0 {
      assert a + b == a;
    } else {
      assert (a + b)[..|a + b| - 1] == a + b[..|b| - 1];
      RunAppend(st, a, b[..|b| - 1]);
    }
  }

  /** `b` starts with `a`. */
  predicate Extends(a: seq<string>, b: seq<string>)
  {
    |a| <= |b| && b[..|a|] == a
  }

  lemma ExtendsTrans(a: seq<string>, b: seq<string>, c: seq<string>)
    requires Extends(a, b) && Extends(b, c)
    ensures Extends(a, c)
  {
    assert c[..|a|] == c[..|b|][..|a|];
  }

  /** A step only appends to the flushed blocks. */
  lemma StepKeepsBlocks(st: State, tok: Token)
    ensures Extends(st.blocks, Step(st, tok).blocks)
    ensures Extends(st.blocks, Flush(CloseLast(st)).blocks)
  {
    assert st.blocks[..|st.blocks|] == st.blocks;
  }

  /** Flushed blocks are final: no later step of the loop edits one. */
  lemma {:induction false} RunKeepsBlocks(st: State, toks: seq<Token>)
    ensures Extends(st.blocks, Run(st, toks).blocks)
    decreases |toks|
  {
    if |toks| == 0 {
      assert st.blocks[..|st.blocks|] == st.blocks;
    } else {
      var mid := Run(st, toks[..|toks| - 1]);
      RunKeepsBlocks(st, toks[..|toks| - 1]);
      StepKeepsBlocks(mid, toks[|toks| - 1]);
      ExtendsTrans(st.blocks, mid.blocks, Run(st, toks).blocks);
    }
  }

  lemma ConcatOne(x: string)
    ensures Concat([x]) == x
  {
    assert [x][..0] == [];
  }

  /** Two entries opened in a row: the second flushes the first, bare, into a block. */
  lemma TwoPushes(st: State, a: string, b: string)
    ensures Push(Push(st, a), b).blocks == Flush(st).blocks + ["<ul><li>" + a + "</ul>"]
  {
    var entry := "<li>" + a;
    ConcatOne(entry);
    assert Push(st, a).currentList == [entry];
    assert "<ul>" + entry + "</ul>" == "<ul><li>" + a + "</ul>";
  }

  lemma RunTwo(st: State, x: Token, y: Token)
    ensures Run(st, [x, y]) == Step(Step(st, x), y)
  {
    assert [x][..0] == [];
    assert Run(st, [x]) == Step(st, x);
    assert [x, y][..1] == [x];
  }

  /** Whatever follows, the blocks flushed so far open the output. */
  lemma OutputKeepsBlocks(st: State, rest: seq<Token>)
    ensures Extends(st.blocks, Flush(CloseLast(Run(st, rest))).blocks)
  {
    var st' := Run(st, rest);
    RunKeepsBlocks(st, rest);
    StepKeepsBlocks(st', PlainLine);
    ExtendsTrans(st.blocks, st'.blocks, Flush(CloseLast(st')).blocks);
  }

  /**
   * The end of the loop (lines 123-131) closes the last entry whatever came
   * before it: with or without sub-items, with or without a trailing plain
   * line, the last block ends in `</li></ul>`.
   */
  lemma LastBlockClosed(lines: seq<string>)
    ensures |Blocks(lines)| > 0 ==> EndsWith(Blocks(lines)[|Blocks(lines)| - 1], "</li></ul>")
  {
    var st := Run(Start, Tokens(lines));
    RunShape(Tokens(lines));
    if |st.currentList| > 0 {
      FinalBlock(st);
      ClosedBlockEnds(st.currentList[0]);
    }
  }

  /** With one pending entry, the end of the loop appends the block of that entry, closed. */
  lemma FinalBlock(st: State)
    requires |st.currentList| == 1
    ensures var b := Flush(CloseLast(st)).blocks;
      |b| > 0 && b[|b| - 1] == "<ul>" + CloseItem(st.currentList[0]) + "</ul>"
  {
    ConcatOne(CloseItem(st.currentList[0]));
  }

  lemma ClosedBlockEnds(item: string)
    ensures EndsWith("<ul>" + CloseItem(item) + "</ul>", "</li></ul>")
  {
    var c := CloseItem(item);
    CloseItemOnce(item);
    var last := "<ul>" + c + "</ul>";
    assert last[|last| - 10..] == c[|c| - 5..] + "</ul>";
  }

  /** Before a primary line, flushing leaves one block per primary line so far. */
  lemma FlushCount(pre: seq<Token>)
    ensures |Flush(Run(Start, pre)).blocks| == |Primaries(pre)|
  {
    RunShape(pre);
  }

  lemma UnclosedBlockRun(toks: seq<Token>, pre: seq<Token>, p: string, q: string, rest: seq<Token>)
    requires toks == pre + [PrimaryLine(p), PrimaryLine(q)] + rest
    ensures var out := Flush(CloseLast(Run(Start, toks))).blocks;
      |Primaries(pre)| < |out| && out[|Primaries(pre)|] == "<ul><li>" + Bold(p) + "</ul>"
  {
    var k := |Primaries(pre)|;
    var two := [PrimaryLine(p), PrimaryLine(q)];
    var block := "<ul><li>" + Bold(p) + "</ul>";
    var st0 := Run(Start, pre);
    FlushCount(pre);
    RunTwo(st0, PrimaryLine(p), PrimaryLine(q));
    TwoPushes(st0, Bold(p), Bold(q));
    var st2 := Run(st0, two);
    assert st2.blocks == Flush(st0).blocks + [block];
    RunAppend(Start, pre, two);
    RunAppend(Start, pre + two, rest);
    var out := Flush(CloseLast(Run(Start, toks))).blocks;
    assert out == Flush(CloseLast(Run(st2, rest))).blocks;
    OutputKeepsBlocks(st2, rest);
    assert out[..k + 1] == st2.blocks;
    assert out[k] == out[..k + 1][k];
  }

  /**
   * In the output, the block of a primary line directly followed by another
   * is `<ul><li>` and the emphasised title, then `</ul>`: the entry is never
   * closed, whatever the lines hold.
   */
  lemma UnclosedBlock(lines: seq<string>, pre: seq<Token>, p: string, q: string, rest: seq<Token>)
    requires Tokens(lines) == pre + [PrimaryLine(p)] + [PrimaryLine(q)] + rest
    ensures |Primaries(pre)| < |Blocks(lines)|
    ensures Blocks(lines)[|Primaries(pre)|] == "<ul><li>" + Bold(p) + "</ul>"
  {
    var toks := Tokens(lines);
    assert toks == pre + [PrimaryLine(p), PrimaryLine(q)] + rest;
    UnclosedBlockRun(toks, pre, p, q, rest);
  }
}
