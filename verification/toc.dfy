/**
 * The table of contents: the lines built from the ToC entries by walking a level
 * cursor, their nesting, and the block they are joined into.
 */
module Toc {
  import opened Options
  import opened Text
  import opened Entries

  const NavOpen: string := "<nav class=\"toc\" " + "aria-label=\"Table of contents\">"
  const Title: string := "<h2>Contents</h2>"
  const ListOpen: string := "<ul>"
  const ListClose: string := "</ul>"
  const NavClose: string := "</ul></nav>"

  /** Lines 108-112: the lines every ToC starts with. */
  const Header: seq<string> := [NavOpen, Title, ListOpen]

  /** Line 128: the line of one entry. */
  function ItemLine(e: TocEntry): string {
    "<li><a href=\"#" + e.hid + "\">" + e.text + "</a></li>"
  }

  /** The lines that are entries; no other line the builder emits starts with `<li>`. */
  predicate IsItemLine(line: string) {
    "<li>" <= line
  }

  function Repeat(line: string, n: nat): (r: seq<string>)
    ensures |r| == n && forall i :: 0 <= i < n ==> r[i] == line
  {
    if n == 0 then [] else Repeat(line, n - 1) + [line]
  }

  /** Lines 119-126: the list openings, or else closings, that move the cursor from
      `prev` to `lvl`. */
  function Moves(prev: int, lvl: int): seq<string> {
    if lvl > prev then Repeat(ListOpen, lvl - prev) else Repeat(ListClose, prev - lvl)
  }

  /** The value of `prev_lvl` after the loop has emitted `items`: the level of the last
      of them, or `base` before the first. */
  function Cursor(items: seq<TocEntry>, base: int): int {
    if items == [] then base else items[|items| - 1].lvl
  }

  /** Lines 117-128: what the loop over `items` emits. */
  function Body(items: seq<TocEntry>, base: int): seq<string> {
    if items == [] then []
    else
      var init := items[..|items| - 1];
      Body(init, base) + Moves(Cursor(init, base), items[|items| - 1].lvl) + [ItemLine(items[|items| - 1])]
  }

  /** Lines 131-133: the closings that bring the cursor back down to `base`. */
  function Closing(prev: int, base: int): seq<string> {
    if prev > base then Repeat(ListClose, prev - base) else []
  }

  /** Lines 108-135: every line of the ToC of a non-empty entry list. */
  function TocLines(items: seq<TocEntry>): seq<string>
    requires items != []
  {
    var base := items[0].lvl;
    Header + Body(items, base) + Closing(Cursor(items, base), base) + [NavClose]
  }

  /** Lines 107-135: the builder, appending to `toc_lines` as it moves the cursor. */
  method BuildToc(items: seq<TocEntry>) returns (lines: seq<string>)
    requires items != []
    ensures lines == TocLines(items)
  {
    lines := [NavOpen, Title, ListOpen];
    var base: int := items[0].lvl;
    var prev: int := base;
    var k := 0;
    while k < |items|
      invariant 0 <= k <= |items|
      invariant prev == Cursor(items[..k], base)
      invariant lines == Header + Body(items[..k], base)
    {
      var e := items[k];
      var lvl: int := e.lvl;
      ghost var before, c := lines, prev;
      while lvl > prev
        invariant c <= prev && (prev <= lvl || prev == c)
        invariant lines == before + Repeat(ListOpen, prev - c)
      {
        RepeatAppend(before, ListOpen, prev - c);
        lines := lines + [ListOpen];
        prev := prev + 1;
      }
      ghost var mid, top := lines, prev;
      while lvl < prev
        invariant prev <= top && (lvl <= prev || prev == top)
        invariant lines == mid + Repeat(ListClose, top - prev)
      {
        RepeatAppend(mid, ListClose, top - prev);
        lines := lines + [ListClose];
        prev := prev - 1;
      }
      MovesRuns(before, mid, lines, c, lvl, top);
      BodySnoc(items, k, base);
      AppendAssoc(Header, Body(items[..k], base), Moves(c, lvl), ItemLine(e));
      lines := lines + [ItemLine(e)];
      k := k + 1;
    }
    assert items[..|items|] == items;
    ghost var before, c := lines, prev;
    while prev > base
      invariant prev <= c && (prev >= base || prev == c)
      invariant lines == before + Repeat(ListClose, c - prev)
    {
      RepeatAppend(before, ListClose, c - prev);
      lines := lines + [ListClose];
      prev := prev - 1;
    }
    assert lines == before + Closing(c, base);
    lines := lines + [NavClose];
  }

  /** Regrouping the lines built so far (a lemma, to keep `BuildToc`'s proof small). */
  lemma AppendAssoc(h: seq<string>, b: seq<string>, m: seq<string>, x: string)
    ensures h + b + m + [x] == h + (b + m + [x])
  {
  }

  lemma RepeatAppend(a: seq<string>, line: string, n: nat)
    ensures a + Repeat(line, n) + [line] == a + Repeat(line, n + 1)
  {
  }

  /** The two inner loops of lines 117-126 together append `Moves(c, lvl)`. */
  lemma MovesRuns(before: seq<string>, mid: seq<string>, lines: seq<string>, c: int, lvl: int, top: int)
    requires c <= top && (top <= lvl || top == c) && !(lvl > top)
    requires mid == before + Repeat(ListOpen, top - c)
    requires top >= lvl && lines == mid + Repeat(ListClose, top - lvl)
    requires lvl > c ==> top == lvl
    ensures lines == before + Moves(c, lvl)
  {
    if lvl > c {
      assert lines == mid;
    } else {
      assert mid == before;
    }
  }

  // ---------------------------------------------------------------- entries in order

  /** The entry lines, one per entry, in entry order. */
  function ItemLines(items: seq<TocEntry>): (r: seq<string>)
    ensures |r| == |items| && forall k :: 0 <= k < |items| ==> r[k] == ItemLine(items[k])
  {
    seq(|items|, k requires 0 <= k < |items| => ItemLine(items[k]))
  }

  /** The lines other than entries: none starts with `<li>`, none holds a newline, and
      only `<ul>` and the two closings change the depth. */
  lemma Markup()
    ensures !IsItemLine(NavOpen) && !IsItemLine(Title) && !IsItemLine(ListOpen)
    ensures !IsItemLine(ListClose) && !IsItemLine(NavClose)
    ensures Delta(NavOpen) == 0 && Delta(Title) == 0 && Delta(ListOpen) == 1
    ensures Delta(ListClose) == -1 && Delta(NavClose) == -1
  {
    assert NavOpen[1] == 'n' && Title[1] == 'h' && ListOpen[1] == 'u';
    assert ListClose[1] == '/' && NavClose[1] == '/';
    assert |NavOpen| > 11 && |Title| > 4 && |NavClose| > 4;
  }

  lemma MarkupNoNewline()
    ensures NoNewline(NavOpen) && NoNewline(Title) && NoNewline(ListOpen)
    ensures NoNewline(ListClose) && NoNewline(NavClose)
  {
    NoNewlineJoin("<nav class=\"toc\" ", "aria-label=\"Table of contents\">");
  }

  lemma NoNewlineJoin(a: string, b: string)
    requires NoNewline(a) && NoNewline(b)
    ensures NoNewline(a + b)
  {
    forall i | 0 <= i < |a + b| ensures (a + b)[i] != '\n' {
      if i >= |a| {
        assert (a + b)[i] == b[i - |a|];
      }
    }
  }

  lemma MovesMarkup(c: int, l: int)
    ensures Keep(Moves(c, l), IsItemLine) == []
    ensures forall k :: 0 <= k < |Moves(c, l)| ==> NoNewline(Moves(c, l)[k])
  {
    Markup();
    MarkupNoNewline();
    if l > c {
      RepeatMarkup(ListOpen, l - c);
    } else {
      RepeatMarkup(ListClose, c - l);
    }
  }

  lemma RepeatMarkup(line: string, n: nat)
    requires !IsItemLine(line) && NoNewline(line)
    ensures Keep(Repeat(line, n), IsItemLine) == []
    ensures forall k :: 0 <= k < n ==> NoNewline(Repeat(line, n)[k])
  {
  }

  lemma ClosingMarkup(c: int, base: int)
    ensures Keep(Closing(c, base), IsItemLine) == []
    ensures forall k :: 0 <= k < |Closing(c, base)| ==> NoNewline(Closing(c, base)[k])
  {
    Markup();
    MarkupNoNewline();
  }

  lemma BodySnoc(items: seq<TocEntry>, k: nat, base: int)
    requires k < |items|
    ensures Body(items[..k + 1], base) ==
      Body(items[..k], base) + Moves(Cursor(items[..k], base), items[k].lvl) + [ItemLine(items[k])]
    ensures Cursor(items[..k + 1], base) == items[k].lvl
  {
    assert items[..k + 1][..k] == items[..k];
  }

  lemma {:induction false} BodyItems(items: seq<TocEntry>, base: int)
    ensures Keep(Body(items, base), IsItemLine) == ItemLines(items)
  {
    if items != [] {
      var init := items[..|items| - 1];
      BodyItems(init, base);
      KeepSnoc(Body(init, base), Cursor(init, base), items[|items| - 1]);
      ItemLinesSnoc(items);
    }
  }

  /** The lines emitted for one entry hold one entry line, its own. */
  lemma KeepSnoc(b: seq<string>, c: int, e: TocEntry)
    ensures Keep(b + Moves(c, e.lvl) + [ItemLine(e)], IsItemLine) == Keep(b, IsItemLine) + [ItemLine(e)]
  {
    var mv := Moves(c, e.lvl);
    MovesMarkup(c, e.lvl);
    KeepAppend(b, mv, IsItemLine);
    KeepAppend(b + mv, [ItemLine(e)], IsItemLine);
    assert IsItemLine(ItemLine(e));
  }

  lemma ItemLinesSnoc(items: seq<TocEntry>)
    requires items != []
    ensures ItemLines(items) == ItemLines(items[..|items| - 1]) + [ItemLine(items[|items| - 1])]
  {
  }

  /** Lines 117-128: the ToC holds exactly one entry line per entry, in entry order. */
  lemma TocItems(items: seq<TocEntry>)
    requires items != []
    ensures Keep(TocLines(items), IsItemLine) == ItemLines(items)
  {
    var base := items[0].lvl;
    var b := Body(items, base);
    var cl := Closing(Cursor(items, base), base);
    BodyItems(items, base);
    FrameMarkup();
    ClosingMarkup(Cursor(items, base), base);
    KeepAppend(cl, [NavClose], IsItemLine);
    assert TocLines(items) == Header + b + (cl + [NavClose]);
    KeepFrame(Header, b, cl + [NavClose], IsItemLine);
  }

  lemma FrameMarkup()
    ensures Keep(Header, IsItemLine) == [] && Keep([NavClose], IsItemLine) == []
  {
    Markup();
    assert !IsItemLine(Header[0]) && !IsItemLine(Header[1]) && !IsItemLine(Header[2]);
  }

  lemma KeepFrame<T>(h: seq<T>, b: seq<T>, t: seq<T>, p: T -> bool)
    requires Keep(h, p) == [] && Keep(t, p) == []
    ensures Keep(h + b + t, p) == Keep(b, p)
  {
    KeepAppend(h, b, p);
    KeepAppend(h + b, t, p);
  }

  // ---------------------------------------------------------------- nesting

  /** How a line changes the number of open lists. */
  function Delta(line: string): int {
    if line == ListOpen then 1 else if line == ListClose || line == NavClose then -1 else 0
  }

  /** The number of lists `lines` opens minus the number it closes. */
  function Depth(lines: seq<string>): int {
    if lines == [] then 0 else Delta(lines[0]) + Depth(lines[1..])
  }

  /** A line is in place at depth `d` if it is an entry inside a list, or it does not
      close a list that is not open. */
  predicate LineOk(line: string, d: int) {
    if IsItemLine(line) then d >= 1 else d + Delta(line) >= 0
  }

  /** Every line of `lines` is in place when the first one is read at depth `d`. */
  predicate Fine(lines: seq<string>, d: int) {
    lines == [] || (LineOk(lines[0], d) && Fine(lines[1..], d + Delta(lines[0])))
  }

  /** Every entry sits inside a list, no line closes a list that is not open, and every
      list opened is closed. */
  predicate WellNested(lines: seq<string>) {
    Fine(lines, 0) && Depth(lines) == 0
  }

  lemma {:induction false} DepthAppend(a: seq<string>, b: seq<string>)
    ensures Depth(a + b) == Depth(a) + Depth(b)
  {
    if a == [] {
      assert a + b == b;
    } else {
      assert (a + b)[1..] == a[1..] + b;
      DepthAppend(a[1..], b);
    }
  }

  lemma {:induction false} FineAppend(a: seq<string>, b: seq<string>, d: int)
    ensures Fine(a + b, d) == (Fine(a, d) && Fine(b, d + Depth(a)))
  {
    if a == [] {
      assert a + b == b;
    } else {
      assert (a + b)[0] == a[0];
      assert (a + b)[1..] == a[1..] + b;
      FineAppend(a[1..], b, d + Delta(a[0]));
    }
  }

  /** A single line: its depth change, and whether it is in place at depth `d`. */
  lemma SingleLine(line: string, d: int)
    ensures Depth([line]) == Delta(line)
    ensures Fine([line], d) <==> LineOk(line, d)
  {
    assert [line][1..] == [];
  }

  lemma {:induction false} OpensFine(n: nat, d: int)
    requires d >= 0
    ensures Depth(Repeat(ListOpen, n)) == n && Fine(Repeat(ListOpen, n), d)
  {
    if n > 0 {
      OpensFine(n - 1, d);
      DepthAppend(Repeat(ListOpen, n - 1), [ListOpen]);
      FineAppend(Repeat(ListOpen, n - 1), [ListOpen], d);
      Markup();
      SingleLine(ListOpen, d + n - 1);
    }
  }

  lemma {:induction false} ClosesFine(n: nat, d: int)
    requires d >= n
    ensures Depth(Repeat(ListClose, n)) + n == 0 && Fine(Repeat(ListClose, n), d)
  {
    if n > 0 {
      ClosesFine(n - 1, d);
      DepthAppend(Repeat(ListClose, n - 1), [ListClose]);
      FineAppend(Repeat(ListClose, n - 1), [ListClose], d);
      Markup();
      SingleLine(ListClose, d - n + 1);
    }
  }

  lemma MovesFine(c: int, l: int, d: int)
    requires d >= 1 && (l >= c || d >= c - l)
    ensures Depth(Moves(c, l)) == l - c && Fine(Moves(c, l), d)
  {
    if l > c {
      OpensFine(l - c, d);
    } else {
      ClosesFine(c - l, d);
    }
  }

  lemma {:induction false} MovesDepth(c: int, l: int)
    ensures Depth(Moves(c, l)) == l - c
  {
    if l > c {
      OpensFine(l - c, 0);
    } else {
      ClosesFine(c - l, c - l);
    }
  }

  /** The closings take the cursor from `c` back down to `base`, and there are none
      when it is not above `base`. */
  lemma ClosingDepth(c: int, base: int)
    ensures Depth(Closing(c, base)) == if c > base then base - c else 0
  {
    if c > base {
      ClosesFine(c - base, c - base);
    }
  }

  lemma ItemFine(e: TocEntry, d: int)
    ensures Depth([ItemLine(e)]) == 0
    ensures Fine([ItemLine(e)], d) <==> d >= 1
  {
    assert IsItemLine(ItemLine(e));
    assert ItemLine(e)[1] == 'l';
    SingleLine(ItemLine(e), d);
  }

  /** After the loop over `items` the cursor has moved from `base` to the last level. */
  lemma {:induction false} BodyDepth(items: seq<TocEntry>, base: int)
    ensures Depth(Body(items, base)) == Cursor(items, base) - base
  {
    if items != [] {
      var init := items[..|items| - 1];
      var e := items[|items| - 1];
      var mv := Moves(Cursor(init, base), e.lvl);
      BodyDepth(init, base);
      MovesDepth(Cursor(init, base), e.lvl);
      ItemFine(e, 0);
      DepthAppend(Body(init, base), mv);
      DepthAppend(Body(init, base) + mv, [ItemLine(e)]);
    }
  }

  /** No entry of `items` is shallower than `base`. */
  predicate AllFrom(items: seq<TocEntry>, base: int) {
    forall k :: 0 <= k < |items| ==> items[k].lvl >= base
  }

  lemma AllFromSnoc(items: seq<TocEntry>, base: int)
    requires items != []
    ensures AllFrom(items, base) <==>
      AllFrom(items[..|items| - 1], base) && items[|items| - 1].lvl >= base
  {
    var init := items[..|items| - 1];
    if AllFrom(init, base) && items[|items| - 1].lvl >= base {
      forall k | 0 <= k < |items| ensures items[k].lvl >= base {
        if k < |init| {
          assert items[k] == init[k];
        }
      }
    }
  }

  lemma CursorFrom(items: seq<TocEntry>, base: int)
    requires AllFrom(items, base)
    ensures Cursor(items, base) >= base
  {
    if items != [] {
      assert items[|items| - 1].lvl >= base;
    }
  }

  /** Read inside the outer list, the loop's lines are in place exactly when no entry is
      shallower than `base`. */
  lemma {:induction false} BodyFine(items: seq<TocEntry>, base: int)
    ensures Fine(Body(items, base), 1) <==> AllFrom(items, base)
  {
    if items != [] {
      var init := items[..|items| - 1];
      BodyFine(init, base);
      BodyDepth(init, base);
      AllFromSnoc(items, base);
      if AllFrom(init, base) {
        CursorFrom(init, base);
      }
      FineSnoc(Body(init, base), Cursor(init, base), base, items[|items| - 1]);
    }
  }

  /** One more entry: the lines emitted for `e` after lines `b` that left the cursor at `c`
      are in place exactly when `e` is not shallower than `base`. */
  lemma FineSnoc(b: seq<string>, c: int, base: int, e: TocEntry)
    requires Depth(b) == c - base
    requires Fine(b, 1) ==> c >= base
    ensures Fine(b + Moves(c, e.lvl) + [ItemLine(e)], 1) <==> Fine(b, 1) && e.lvl >= base
  {
    var mv := Moves(c, e.lvl);
    FineStep(b, mv, [ItemLine(e)], 1);
    MovesDepth(c, e.lvl);
    ItemFine(e, 1 + e.lvl - base);
    if Fine(b, 1) && e.lvl >= base {
      MovesFine(c, e.lvl, 1 + c - base);
    }
  }

  /** `Fine` over three consecutive blocks of lines. */
  lemma FineStep(a: seq<string>, b: seq<string>, c: seq<string>, d: int)
    ensures Fine(a + b + c, d) <==>
      Fine(a, d) && Fine(b, d + Depth(a)) && Fine(c, d + Depth(a) + Depth(b))
    ensures Depth(a + b + c) == Depth(a) + Depth(b) + Depth(c)
  {
    FineAppend(a, b, d);
    FineAppend(a + b, c, d);
    DepthAppend(a, b);
    DepthAppend(a + b, c);
  }

  lemma HeaderFine()
    ensures Depth(Header) == 1 && Fine(Header, 0)
  {
    Markup();
    assert Header == [NavOpen] + [Title] + [ListOpen];
    SingleLine(NavOpen, 0);
    SingleLine(Title, 0);
    SingleLine(ListOpen, 0);
    DepthAppend([NavOpen], [Title]);
    DepthAppend([NavOpen] + [Title], [ListOpen]);
    FineAppend([NavOpen], [Title], 0);
    FineAppend([NavOpen] + [Title], [ListOpen], 0);
  }

  lemma NavCloseFine(d: int)
    ensures Depth([NavClose]) == -1
    ensures Fine([NavClose], d) <==> d >= 1
  {
    Markup();
    SingleLine(NavClose, d);
  }

  /** Lines 111-135: the lists nest properly, and every `<ul>` is closed by the end,
      exactly when no entry is shallower than the first one. */
  lemma WellNestedIff(items: seq<TocEntry>)
    requires items != []
    ensures WellNested(TocLines(items)) <==> AllFrom(items, items[0].lvl)
  {
    var base := items[0].lvl;
    BodyFine(items, base);
    BodyDepth(items, base);
    if AllFrom(items, base) {
      CursorFrom(items, base);
    }
    FrameNested(Body(items, base), Cursor(items, base), base);
  }

  /** The header and the closing lines around lines `b` that leave the cursor at `c`. */
  lemma FrameNested(b: seq<string>, c: int, base: int)
    requires Depth(b) == c - base
    requires Fine(b, 1) ==> c >= base
    ensures WellNested(Header + b + Closing(c, base) + [NavClose]) <==> Fine(b, 1)
  {
    var cl := Closing(c, base);
    HeaderFine();
    FineStep(Header, b, cl, 0);
    FineAppend(Header + b + cl, [NavClose], 0);
    DepthAppend(Header + b + cl, [NavClose]);
    NavCloseFine(1 + c - base);
    if Fine(b, 1) && c > base {
      ClosesFine(c - base, 1 + c - base);
    }
  }

  // ---------------------------------------------------------------- the joined block

  /** Line 136, `"\n".join(lines)`. */
  function Join(lines: seq<string>): string {
    if |lines| == 0 then ""
    else if |lines| == 1 then lines[0]
    else lines[0] + "\n" + Join(lines[1..])
  }

  predicate NoNewline(s: string) {
    forall i :: 0 <= i < |s| ==> s[i] != '\n'
  }

  /** `s.split("\n")`. */
  function Split(s: string): (r: seq<string>)
    ensures r != []
    decreases |s|
  {
    match IndexOf(s, '\n')
    case None => [s]
    case Some(i) => [s[..i]] + Split(s[i + 1..])
  }

  /** Joining lines that hold no newline can be undone by splitting at newlines. */
  lemma {:induction false} SplitJoin(lines: seq<string>)
    requires lines != []
    requires forall k :: 0 <= k < |lines| ==> NoNewline(lines[k])
    ensures Split(Join(lines)) == lines
  {
    if |lines| > 1 {
      var first := lines[0];
      var rest := Join(lines[1..]);
      var s := first + "\n" + rest;
      forall i | 0 <= i < |first| ensures s[i] != '\n' {
        assert s[i] == first[i];
      }
      IndexOfAt(s, '\n', |first|);
      assert s[..|first|] == first;
      assert s[|first| + 1..] == rest;
      SplitJoin(lines[1..]);
      assert lines == [first] + lines[1..];
    } else {
      assert Join(lines) == lines[0];
      assert NoNewline(lines[0]);
    }
  }

  /** Lines 108-136: the block of a ToC. */
  function TocBlock(items: seq<TocEntry>): string
    requires items != []
  {
    Join(TocLines(items))
  }

  lemma {:induction false} BodyNoNewline(items: seq<TocEntry>, base: int)
    requires forall k :: 0 <= k < |items| ==> NoNewline(ItemLine(items[k]))
    ensures forall k :: 0 <= k < |Body(items, base)| ==> NoNewline(Body(items, base)[k])
  {
    if items != [] {
      var init := items[..|items| - 1];
      var e := items[|items| - 1];
      var mv := Moves(Cursor(init, base), e.lvl);
      assert forall k :: 0 <= k < |init| ==> NoNewline(ItemLine(init[k])) by {
        forall k | 0 <= k < |init| ensures NoNewline(ItemLine(init[k])) {
          assert init[k] == items[k];
        }
      }
      BodyNoNewline(init, base);
      MovesMarkup(Cursor(init, base), e.lvl);
      AllLinesNoNewline(Body(init, base), mv + [ItemLine(e)]);
      assert Body(items, base) == Body(init, base) + (mv + [ItemLine(e)]);
    }
  }

  lemma AllLinesNoNewline(a: seq<string>, b: seq<string>)
    requires forall k :: 0 <= k < |a| ==> NoNewline(a[k])
    requires forall k :: 0 <= k < |b| ==> NoNewline(b[k])
    ensures forall k :: 0 <= k < |a + b| ==> NoNewline((a + b)[k])
  {
    forall k | 0 <= k < |a + b| ensures NoNewline((a + b)[k]) {
      if k < |a| {
        assert (a + b)[k] == a[k];
      } else {
        assert (a + b)[k] == b[k - |a|];
      }
    }
  }

  /** An entry whose id and text hold no newline gives an entry line without one. */
  lemma ItemNoNewline(e: TocEntry)
    requires NoNewline(e.hid) && NoNewline(e.text)
    ensures NoNewline(ItemLine(e))
  {
    var pre := "<li><a href=\"#";
    var mid := "\">";
    var post := "</a></li>";
    var line := ItemLine(e);
    forall i | 0 <= i < |line| ensures line[i] != '\n' {
      var a := |pre|;
      var b := a + |e.hid|;
      var c := b + |mid|;
      var d := c + |e.text|;
      if i < a {
        assert line[i] == pre[i];
      } else if i < b {
        assert line[i] == e.hid[i - a];
      } else if i < c {
        assert line[i] == mid[i - b];
      } else if i < d {
        assert line[i] == e.text[i - c];
      } else {
        assert line[i] == post[i - d];
      }
    }
  }

  /** When no entry id or text holds a newline, the block splits back into its lines. */
  lemma TocBlockLines(items: seq<TocEntry>)
    requires items != []
    requires forall k :: 0 <= k < |items| ==> NoNewline(items[k].hid) && NoNewline(items[k].text)
    ensures Split(TocBlock(items)) == TocLines(items)
  {
    var base := items[0].lvl;
    forall k | 0 <= k < |items| ensures NoNewline(ItemLine(items[k])) {
      ItemNoNewline(items[k]);
    }
    BodyNoNewline(items, base);
    var c := Cursor(items, base);
    var b := Body(items, base);
    var cl := Closing(c, base);
    MarkupNoNewline();
    ClosingMarkup(c, base);
    AllLinesNoNewline(Header, b);
    AllLinesNoNewline(Header + b, cl);
    AllLinesNoNewline(Header + b + cl, [NavClose]);
    var lines := TocLines(items);
    SplitJoin(lines);
  }
}
