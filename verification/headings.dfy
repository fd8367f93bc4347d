/**
 * The `add_id` callback and the substitution pass that applies it to every heading
 * match in document order, threading the set of used ids and the ToC entry list.
 */
module Headings {
  import opened Text
  import opened Slug
  import opened Tags
  import opened Ids
  import opened Entries

  /** One match of the heading pattern: its groups, the closing tag as written
      (the pattern ignores case, so it may read `</H3>`), and whether `attrs`
      already holds an id attribute (`\sid="[^"]+"`). */
  datatype HeadingMatch = HeadingMatch(
    openTag: string,
    lvl: Level,
    cls: string,
    attrs: string,
    body: string,
    closeTag: string,
    hasId: bool)

  /** `m.group(0)`: the whole matched heading. */
  function Whole(m: HeadingMatch): string {
    m.openTag + m.attrs + ">" + m.body + m.closeTag
  }

  /** The document as the pattern splits it: text between matches, and matches. */
  datatype Piece = Plain(text: string) | Heading(m: HeadingMatch)

  /** The document text the pieces spell. */
  function Source(doc: seq<Piece>): string {
    if doc == [] then ""
    else
      Source(doc[..|doc| - 1]) +
      match doc[|doc| - 1]
      case Plain(t) => t
      case Heading(m) => Whole(m)
  }

  const SectionMarker: string := "ltx_title_section"
  const SubsectionMarker: string := "ltx_title_subsection"
  const SubsubsectionMarker: string := "ltx_title_subsubsection"

  /** Lines 88-93: the prefix the class text selects, first match wins. */
  function IdPrefix(cls: string): (r: string)
    ensures r == "" || (|r| >= 4 && r[|r| - 1] == '-' && IsSlug(r[..|r| - 1]))
    ensures Contains(cls, SectionMarker) ==> r == "sec-"
    ensures !Contains(cls, SectionMarker) && Contains(cls, SubsectionMarker) ==> r == "subsec-"
    ensures (!Contains(cls, SectionMarker) && !Contains(cls, SubsectionMarker) &&
             Contains(cls, SubsubsectionMarker)) ==> r == "subsubsec-"
    ensures r == "" <==>
      !Contains(cls, SectionMarker) && !Contains(cls, SubsectionMarker) && !Contains(cls, SubsubsectionMarker)
  {
    assert IsSlug("sec") && IsSlug("subsec") && IsSlug("subsubsec");
    if Contains(cls, SectionMarker) then "sec-"
    else if Contains(cls, SubsectionMarker) then "subsec-"
    else if Contains(cls, SubsubsectionMarker) then "subsubsec-"
    else ""
  }

  /** The block of `s` starting at `i` is `t`. */
  predicate OccursAt(s: string, t: string, i: int) {
    0 <= i <= |s| - |t| && s[i..i + |t|] == t
  }

  /** `Contains`, Python's `in` on the class text, finds `t` exactly when some block
      of `s` is `t`. */
  lemma {:induction false} ContainsAt(s: string, t: string)
    ensures Contains(s, t) <==> exists i :: OccursAt(s, t, i)
    decreases |s|
  {
    if t <= s {
      assert OccursAt(s, t, 0);
    } else if s != [] {
      ContainsAt(s[1..], t);
      if Contains(s[1..], t) {
        var i :| OccursAt(s[1..], t, i);
        assert s[1..][i..i + |t|] == s[i + 1..i + 1 + |t|];
        assert OccursAt(s, t, i + 1);
      }
      if exists i :: OccursAt(s, t, i) {
        var i :| OccursAt(s, t, i);
        assert i != 0;
        assert s[1..][i - 1..i - 1 + |t|] == s[i..i + |t|];
        assert OccursAt(s[1..], t, i - 1);
      }
    }
  }

  /** Lines 84-93: the id a heading asks for before uniqueness is resolved. `fold` is the
      Unicode decomposition and accent removal of lines 15-16. */
  function BaseId(fold: string -> string, m: HeadingMatch): string {
    IdPrefix(m.cls) + Slugify(fold(StripTags(m.body)))
  }

  /** Line 101: the heading rebuilt with `id="hid"` right after the class attribute. */
  function Rewrite(m: HeadingMatch, hid: string): string {
    m.openTag + " id=\"" + hid + "\"" + m.attrs + ">" + m.body + "</h" + DecimalString(m.lvl) + ">"
  }

  /** When the heading's closing tag is written `</hN>`, as the rebuilt one is, the
      rewrite inserts exactly ` id="hid"` after the opening tag and the class attribute
      and leaves the rest of the matched text as it was. */
  lemma RewriteInsertsId(m: HeadingMatch, hid: string)
    requires m.closeTag == "</h" + DecimalString(m.lvl) + ">"
    ensures var k := |m.openTag|;
      k <= |Whole(m)| && Rewrite(m, hid) == Whole(m)[..k] + " id=\"" + hid + "\"" + Whole(m)[k..]
  {
    var k := |m.openTag|;
    var rest := m.attrs + ">" + m.body + m.closeTag;
    assert Whole(m) == m.openTag + rest;
    assert Whole(m)[..k] == m.openTag && Whole(m)[k..] == rest;
  }

  /** The state of the substitution pass: the text produced so far, the used ids, and
      the ToC entries. */
  datatype PassState = PassState(out: string, used: set<string>, toc: seq<TocEntry>)

  /** One piece through the pass: text between matches is copied; a heading goes
      through `add_id`, lines 68-101. */
  function Advance(fold: string -> string, s: PassState, p: Piece): PassState {
    match p
    case Plain(t) => PassState(s.out + t, s.used, s.toc)
    case Heading(m) =>
      if m.hasId then PassState(s.out + Whole(m), s.used, s.toc)
      else
        var hid := Resolve(BaseId(fold, m), s.used);
        PassState(s.out + Rewrite(m, hid), s.used + {hid}, s.toc + [TocEntry(m.lvl, hid, StripTags(m.body))])
  }

  /** Line 104: `add_id` applied to the matches left to right. */
  function Pass(fold: string -> string, doc: seq<Piece>, used: set<string>): PassState {
    if doc == [] then PassState("", used, [])
    else Advance(fold, Pass(fold, doc[..|doc| - 1], used), doc[|doc| - 1])
  }

  /** The heading a piece contributes to the ToC: none for text or for a heading that
      already has an id. */
  function Labels(p: Piece): seq<HeadingMatch> {
    match p
    case Plain(_) => []
    case Heading(m) => if m.hasId then [] else [m]
  }

  /** The headings without an id, in document order. */
  function Unlabelled(doc: seq<Piece>): seq<HeadingMatch> {
    if doc == [] then [] else Unlabelled(doc[..|doc| - 1]) + Labels(doc[|doc| - 1])
  }

  function Hids(toc: seq<TocEntry>): (r: seq<string>)
    ensures |r| == |toc| && forall k :: 0 <= k < |toc| ==> r[k] == toc[k].hid
  {
    seq(|toc|, k requires 0 <= k < |toc| => toc[k].hid)
  }

  function IdSet(toc: seq<TocEntry>): set<string> {
    set k | 0 <= k < |toc| :: toc[k].hid
  }

  /** The document with the `k`-th heading without an id rewritten to carry `hids[k]`,
      and every other piece copied. */
  function Render(doc: seq<Piece>, hids: seq<string>): string
    requires |hids| == |Unlabelled(doc)|
  {
    if doc == [] then ""
    else
      var init := doc[..|doc| - 1];
      match doc[|doc| - 1]
      case Plain(t) => Render(init, hids) + t
      case Heading(m) =>
        if m.hasId then Render(init, hids) + Whole(m)
        else Render(init, hids[..|hids| - 1]) + Rewrite(m, hids[|hids| - 1])
  }

  lemma PrefixedSlug(p: string, s: string)
    requires p == "sec" || p == "subsec" || p == "subsubsec"
    requires IsSlug(s)
    ensures IsSlug(p + "-" + s)
  {
    assert IsSlug("sec") && IsSlug("subsec") && IsSlug("subsubsec");
    SlugJoin(p, s);
  }

  /** The requested id is itself a slug: the prefix joins the slug with one hyphen. */
  lemma BaseIdIsSlug(fold: string -> string, m: HeadingMatch)
    ensures IsSlug(BaseId(fold, m))
  {
    PrefixKeepsSlug(m.cls, Slugify(fold(StripTags(m.body))));
  }

  lemma PrefixKeepsSlug(cls: string, s: string)
    requires IsSlug(s)
    ensures IsSlug(IdPrefix(cls) + s)
  {
    var p := IdPrefix(cls);
    if p == "sec-" {
      assert p + s == "sec" + "-" + s;
      PrefixedSlug("sec", s);
    } else if p == "subsec-" {
      assert p + s == "subsec" + "-" + s;
      PrefixedSlug("subsec", s);
    } else if p == "subsubsec-" {
      assert p + s == "subsubsec" + "-" + s;
      PrefixedSlug("subsubsec", s);
    } else {
      assert p == "";
      assert p + s == s;
    }
  }

  /** Resolving a slug gives a slug: a probe appends a hyphen and digits. */
  lemma ResolveIsSlug(base: string, used: set<string>)
    requires IsSlug(base)
    ensures IsSlug(Resolve(base, used))
  {
    if base in used {
      var k := FirstFree(base, used, 2);
      assert Resolve(base, used) == Candidate(base, k);
    }
  }

  /** The ids of a pass state that started from `used`: each is new, none repeats, and
      the used set has grown by exactly these ids. */
  predicate FreshIds(used: set<string>, s: PassState) {
    && s.used == used + IdSet(s.toc)
    && (forall k :: 0 <= k < |s.toc| ==> s.toc[k].hid !in used)
    && (forall i, j :: 0 <= i < j < |s.toc| ==> s.toc[i].hid != s.toc[j].hid)
  }

  lemma IdSetAppend(toc: seq<TocEntry>, e: TocEntry)
    ensures IdSet(toc + [e]) == IdSet(toc) + {e.hid}
  {
    var t := toc + [e];
    forall x | x in IdSet(t) ensures x in IdSet(toc) + {e.hid} {
      var k :| 0 <= k < |t| && t[k].hid == x;
      if k < |toc| { assert toc[k].hid == x; }
    }
    forall x | x in IdSet(toc) ensures x in IdSet(t) {
      var k :| 0 <= k < |toc| && toc[k].hid == x;
      assert t[k].hid == x;
    }
    assert t[|toc|].hid == e.hid;
  }

  /** One call of `add_id` keeps the ids fresh: `unique_id` never returns an id in use. */
  lemma AdvanceKeepsFresh(fold: string -> string, used: set<string>, s: PassState, p: Piece)
    requires FreshIds(used, s)
    ensures FreshIds(used, Advance(fold, s, p))
  {
    if p.Heading? && !p.m.hasId {
      var m := p.m;
      var hid := Resolve(BaseId(fold, m), s.used);
      var e := TocEntry(m.lvl, hid, StripTags(m.body));
      assert Advance(fold, s, p) == PassState(s.out + Rewrite(m, hid), s.used + {hid}, s.toc + [e]);
      FreshAppend(used, s, e, s.out + Rewrite(m, hid));
    }
  }

  lemma FreshAppend(used: set<string>, s: PassState, e: TocEntry, out: string)
    requires FreshIds(used, s) && e.hid !in s.used
    ensures FreshIds(used, PassState(out, s.used + {e.hid}, s.toc + [e]))
  {
    IdSetAppend(s.toc, e);
    forall k | 0 <= k < |s.toc| ensures s.toc[k].hid != e.hid {
      assert s.toc[k].hid in IdSet(s.toc);
    }
  }

  /** Every id the pass assigns is new: not among the ids in use before it and different
      from every other id it assigns. The used set grows by exactly these ids. */
  lemma {:induction false} PassIdsFresh(fold: string -> string, doc: seq<Piece>, used: set<string>)
    ensures FreshIds(used, Pass(fold, doc, used))
  {
    if doc == [] {
      assert IdSet([]) == {};
    } else {
      PassIdsFresh(fold, doc[..|doc| - 1], used);
      AdvanceKeepsFresh(fold, used, Pass(fold, doc[..|doc| - 1], used), doc[|doc| - 1]);
    }
  }

  /** `toc` holds one entry per heading of `u`, in order, with that heading's level, its
      visible text, and an id that is a slug. */
  predicate EntriesFor(toc: seq<TocEntry>, u: seq<HeadingMatch>) {
    && |toc| == |u|
    && forall k :: 0 <= k < |u| ==>
         && toc[k].lvl == u[k].lvl
         && toc[k].text == StripTags(u[k].body)
         && IsSlug(toc[k].hid)
  }

  lemma AdvanceEntries(fold: string -> string, s: PassState, p: Piece, u: seq<HeadingMatch>)
    requires EntriesFor(s.toc, u)
    ensures EntriesFor(Advance(fold, s, p).toc, u + Labels(p))
  {
    if p.Heading? && !p.m.hasId {
      var m := p.m;
      var hid := Resolve(BaseId(fold, m), s.used);
      var e := TocEntry(m.lvl, hid, StripTags(m.body));
      assert Advance(fold, s, p).toc == s.toc + [e];
      assert Labels(p) == [m];
      BaseIdIsSlug(fold, m);
      ResolveIsSlug(BaseId(fold, m), s.used);
      EntriesAppend(s.toc, u, e, m);
    } else {
      assert Advance(fold, s, p).toc == s.toc;
      assert u + Labels(p) == u;
    }
  }

  lemma EntriesAppend(toc: seq<TocEntry>, u: seq<HeadingMatch>, e: TocEntry, m: HeadingMatch)
    requires EntriesFor(toc, u)
    requires e.lvl == m.lvl && e.text == StripTags(m.body) && IsSlug(e.hid)
    ensures EntriesFor(toc + [e], u + [m])
  {
  }

  /** The pass appends one entry per heading without an id, in document order. */
  lemma {:induction false} PassEntries(fold: string -> string, doc: seq<Piece>, used: set<string>)
    ensures EntriesFor(Pass(fold, doc, used).toc, Unlabelled(doc))
  {
    if doc != [] {
      PassEntries(fold, doc[..|doc| - 1], used);
      AdvanceEntries(fold, Pass(fold, doc[..|doc| - 1], used), doc[|doc| - 1], Unlabelled(doc[..|doc| - 1]));
    }
  }

  lemma AdvanceOutput(fold: string -> string, doc: seq<Piece>, s: PassState)
    requires doc != []
    requires |s.toc| == |Unlabelled(doc[..|doc| - 1])| && s.out == Render(doc[..|doc| - 1], Hids(s.toc))
    ensures var r := Advance(fold, s, doc[|doc| - 1]);
      |r.toc| == |Unlabelled(doc)| && r.out == Render(doc, Hids(r.toc))
  {
    match doc[|doc| - 1]
    case Plain(t) =>
      assert Advance(fold, s, Plain(t)) == PassState(s.out + t, s.used, s.toc);
    case Heading(m) =>
      if m.hasId {
        assert Advance(fold, s, Heading(m)) == PassState(s.out + Whole(m), s.used, s.toc);
      } else {
        var hid := Resolve(BaseId(fold, m), s.used);
        var e := TocEntry(m.lvl, hid, StripTags(m.body));
        assert Advance(fold, s, Heading(m)) == PassState(s.out + Rewrite(m, hid), s.used + {hid}, s.toc + [e]);
        HidsAppend(s.toc, e);
      }
  }

  lemma HidsAppend(toc: seq<TocEntry>, e: TocEntry)
    ensures Hids(toc + [e]) == Hids(toc) + [e.hid]
  {
  }

  /** The new document is the old one with each heading without an id rebuilt around
      the id assigned to it, and every other piece copied unchanged. */
  lemma {:induction false} PassOutput(fold: string -> string, doc: seq<Piece>, used: set<string>)
    ensures var r := Pass(fold, doc, used);
      |r.toc| == |Unlabelled(doc)| && r.out == Render(doc, Hids(r.toc))
  {
    if doc != [] {
      PassOutput(fold, doc[..|doc| - 1], used);
      AdvanceOutput(fold, doc, Pass(fold, doc[..|doc| - 1], used));
    }
  }

  lemma PassSnoc(fold: string -> string, doc: seq<Piece>, k: nat, used: set<string>)
    requires k < |doc|
    ensures Pass(fold, doc[..k + 1], used) == Advance(fold, Pass(fold, doc[..k], used), doc[k])
  {
    assert doc[..k + 1][..k] == doc[..k];
  }

  /** The outcome of one `add_id` call, stated as `AddId` states it, is one step of the pass. */
  lemma AdvanceHeading(fold: string -> string, s: PassState, m: HeadingMatch, piece: string,
                       used: set<string>, toc: seq<TocEntry>)
    requires m.hasId ==> piece == Whole(m) && toc == s.toc && used == s.used
    requires !m.hasId ==>
      var hid := Resolve(BaseId(fold, m), s.used);
      && piece == Rewrite(m, hid)
      && toc == s.toc + [TocEntry(m.lvl, hid, StripTags(m.body))]
      && used == s.used + {hid}
    ensures Advance(fold, s, Heading(m)) == PassState(s.out + piece, used, toc)
  {
  }

  /** Without an id to assign, the document comes back unchanged. */
  lemma {:induction false} RenderNothing(doc: seq<Piece>)
    requires Unlabelled(doc) == []
    ensures Render(doc, []) == Source(doc)
  {
    if doc != [] {
      RenderNothing(doc[..|doc| - 1]);
    }
  }

  /** A document whose headings all carry an id passes through unchanged, adding no
      ToC entry and no used id. */
  lemma NoUnlabelledUnchanged(fold: string -> string, doc: seq<Piece>, used: set<string>)
    requires Unlabelled(doc) == []
    ensures Pass(fold, doc, used) == PassState(Source(doc), used, [])
  {
    PassOutput(fold, doc, used);
    PassIdsFresh(fold, doc, used);
    RenderNothing(doc);
    var r := Pass(fold, doc, used);
    assert Hids(r.toc) == [];
    assert IdSet(r.toc) == {};
  }

  /** The state `add_id` closes over: the shared id set and the ToC list. */
  class HeadingPass {
    const fold: string -> string
    const used: UsedIds
    var toc: seq<TocEntry>

    constructor (fold: string -> string, initial: set<string>)
      ensures this.fold == fold && fresh(used) && used.ids == initial && toc == []
    {
      this.fold := fold;
      used := new UsedIds(initial);
      toc := [];
    }

    /** `add_id`, lines 68-101. */
    method AddId(m: HeadingMatch) returns (out: string)
      modifies this, used
      ensures m.hasId ==> out == Whole(m) && toc == old(toc) && used.ids == old(used.ids)
      ensures !m.hasId ==>
        var hid := Resolve(BaseId(fold, m), old(used.ids));
        && out == Rewrite(m, hid)
        && toc == old(toc) + [TocEntry(m.lvl, hid, StripTags(m.body))]
        && used.ids == old(used.ids) + {hid}
    {
      if m.hasId {
        return Whole(m);
      }
      var text := StripTags(m.body);
      var base := BaseId(fold, m);
      var hid := UniqueId(base, used);
      toc := toc + [TocEntry(m.lvl, hid, text)];
      out := Rewrite(m, hid);
    }

    /** Line 104, `heading_re.sub(add_id, html)`, over the pieces of the document. The ToC
        list is new and empty when the substitution starts (line 57). */
    method Substitute(doc: seq<Piece>) returns (out: string)
      requires toc == []
      modifies this, used
      ensures var r := Pass(fold, doc, old(used.ids));
        out == r.out && used.ids == r.used && toc == r.toc
    {
      out := "";
      var k := 0;
      while k < |doc|
        invariant 0 <= k <= |doc|
        invariant var r := Pass(fold, doc[..k], old(used.ids));
          out == r.out && used.ids == r.used && toc == r.toc
      {
        ghost var r := Pass(fold, doc[..k], old(used.ids));
        PassSnoc(fold, doc, k, old(used.ids));
        match doc[k] {
          case Plain(t) =>
            out := out + t;
          case Heading(m) =>
            ghost var before := toc;
            var piece := AddId(m);
            ghost var added := toc[|before|..];
            assert toc == before + added;
            AdvanceHeading(fold, r, m, piece, used.ids, toc);
            out := out + piece;
        }
        k := k + 1;
      }
      assert doc[..|doc|] == doc;
    }
  }
}
