/**
 * The whole rewrite of `main` between reading and writing the file: the substitution
 * pass, then, when it produced ToC entries, the ToC block spliced in after the
 * `<body>` tag or in front of the document.
 */
module Document {
  import opened Options
  import opened Text
  import opened Slug
  import opened Tags
  import opened Entries
  import opened Headings
  import opened Toc

  /** Lines 142-151: `block` on lines of its own right after position `at` (the end of the
      first `<body>` tag), or followed by a newline in front of `html` without one. */
  function Splice(html: string, block: string, at: Option<nat>): (r: string)
    requires at.Some? ==> at.value <= |html|
    ensures |r| == |html| + |block| + (if at.Some? then 2 else 1)
    ensures var p := if at.Some? then at.value + 1 else 0;
      && r[p..p + |block|] == block && r[p + |block|] == '\n'
      && (at.Some? ==> r[at.value] == '\n')
  {
    match at
    case Some(n) => html[..n] + "\n" + block + "\n" + html[n..]
    case None => block + "\n" + html
  }

  /** Deletes a block of `size` characters and the newlines around it, placed as
      `Splice` places it. */
  function Unsplice(r: string, size: nat, at: Option<nat>): string
    requires at.Some? ==> at.value + size + 2 <= |r|
    requires at.None? ==> size + 1 <= |r|
  {
    match at
    case Some(n) => r[..n] + r[n + size + 2..]
    case None => r[size + 1..]
  }

  /** The splice only adds: deleting the block gives back the document it went into. */
  lemma UnspliceSplice(html: string, block: string, at: Option<nat>)
    requires at.Some? ==> at.value <= |html|
    ensures Unsplice(Splice(html, block, at), |block|, at) == html
  {
    var r := Splice(html, block, at);
    match at
    case Some(n) =>
      assert r[..n] == html[..n];
      assert r[n + |block| + 2..] == html[n..];
      assert html == html[..n] + html[n..];
    case None =>
      assert r[|block| + 1..] == html;
  }

  /** The body-tag search (line 139) never reports a position beyond the text. */
  ghost predicate BodyFinder(findBody: string -> Option<nat>) {
    forall s :: findBody(s).Some? ==> findBody(s).value <= |s|
  }

  /** Lines 106-151 after the substitution: nothing happens without ToC entries;
      otherwise the ToC block goes where the body-tag search points. */
  function Assemble(html: string, toc: seq<TocEntry>, findBody: string -> Option<nat>): string
    requires BodyFinder(findBody)
  {
    if toc == [] then html else Splice(html, TocBlock(toc), findBody(html))
  }

  /** Lines 104-151: the rewrite `main` makes of a document whose regex matches are
      `doc`, with `initial` the ids harvested at line 56. */
  method Transform(fold: string -> string, doc: seq<Piece>, initial: set<string>,
                   findBody: string -> Option<nat>) returns (html: string)
    requires BodyFinder(findBody)
    ensures var r := Pass(fold, doc, initial); html == Assemble(r.out, r.toc, findBody)
  {
    var pass := new HeadingPass(fold, initial);
    html := pass.Substitute(doc);
    if pass.toc != [] {
      var lines := BuildToc(pass.toc);
      html := Splice(html, Join(lines), findBody(html));
    }
  }

  /** Line 106: a document whose headings all carry an id is written back unchanged. */
  lemma NothingToLabel(fold: string -> string, doc: seq<Piece>, initial: set<string>,
                       findBody: string -> Option<nat>)
    requires BodyFinder(findBody)
    requires Unlabelled(doc) == []
    ensures var r := Pass(fold, doc, initial); Assemble(r.out, r.toc, findBody) == Source(doc)
  {
    NoUnlabelledUnchanged(fold, doc, initial);
  }

  /** With ToC entries, the output is the substituted document with the ToC block
      inserted: deleting the block gives back the substituted document. */
  lemma AssembleAdds(html: string, toc: seq<TocEntry>, findBody: string -> Option<nat>)
    requires BodyFinder(findBody)
    requires toc != []
    ensures Unsplice(Assemble(html, toc, findBody), |TocBlock(toc)|, findBody(html)) == html
  {
    UnspliceSplice(html, TocBlock(toc), findBody(html));
  }

  /** An id is a slug, so it holds no newline. */
  lemma SlugNoNewline(s: string)
    requires IsSlug(s)
    ensures NoNewline(s)
  {
    forall i | 0 <= i < |s| ensures s[i] != '\n' {
      assert IsSlugChar(s[i]);
    }
  }

  /** The visible text of a heading holds no newline: its only whitespace is `' '`. */
  lemma StripTagsNoNewline(body: string)
    ensures NoNewline(StripTags(body))
  {
    var t := StripTags(body);
    forall i | 0 <= i < |t| ensures t[i] != '\n' {
      if t[i] == '\n' {
        assert IsSpace(t[i]);
      }
    }
  }

  /** The ToC block of a pass splits back at its newlines into the lines the builder
      emitted: no id and no heading text the pass puts into it holds a newline. */
  lemma PassBlockLines(fold: string -> string, doc: seq<Piece>, initial: set<string>)
    requires Unlabelled(doc) != []
    ensures var toc := Pass(fold, doc, initial).toc; toc != [] && Split(TocBlock(toc)) == TocLines(toc)
  {
    var toc := Pass(fold, doc, initial).toc;
    var u := Unlabelled(doc);
    PassEntries(fold, doc, initial);
    forall k | 0 <= k < |toc| ensures NoNewline(toc[k].hid) && NoNewline(toc[k].text) {
      SlugNoNewline(toc[k].hid);
      StripTagsNoNewline(u[k].body);
    }
    TocBlockLines(toc);
  }

  /** The ToC links every heading the pass labelled, in document order, to its new id,
      under its visible text. */
  lemma PassTocItems(fold: string -> string, doc: seq<Piece>, initial: set<string>)
    requires Unlabelled(doc) != []
    ensures var toc := Pass(fold, doc, initial).toc; var u := Unlabelled(doc);
      && toc != []
      && Keep(TocLines(toc), IsItemLine) == ItemLines(toc)
      && |toc| == |u|
      && forall k :: 0 <= k < |u| ==>
           ItemLines(toc)[k] == ItemLine(TocEntry(u[k].lvl, toc[k].hid, StripTags(u[k].body)))
  {
    var toc := Pass(fold, doc, initial).toc;
    PassEntries(fold, doc, initial);
    TocItems(toc);
  }

  /** The ToC of a pass nests properly exactly when no heading it lists is shallower
      than the first one. */
  lemma PassNested(fold: string -> string, doc: seq<Piece>, initial: set<string>)
    requires Unlabelled(doc) != []
    ensures var toc := Pass(fold, doc, initial).toc; var u := Unlabelled(doc);
      && toc != []
      && (WellNested(TocLines(toc)) <==> forall k :: 0 <= k < |u| ==> u[k].lvl >= u[0].lvl)
  {
    var toc := Pass(fold, doc, initial).toc;
    var u := Unlabelled(doc);
    PassEntries(fold, doc, initial);
    WellNestedIff(toc);
    assert AllFrom(toc, toc[0].lvl) <==> forall k :: 0 <= k < |u| ==> u[k].lvl >= u[0].lvl;
  }
}
