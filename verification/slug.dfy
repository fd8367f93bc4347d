/**
 * `slugify`: heading text to an id token. The model starts after the Unicode
 * decomposition and accent removal, which the callers apply through a parameter.
 */
module Slug {
  import opened Text

  /** `[\s_-]`: the separators that a slug joins with one hyphen. */
  predicate IsSeparator(c: char) { IsSpace(c) || c == '_' || c == '-' }

  /** The characters `re.sub(r"[^\w\s-]", "", ...)` keeps. */
  predicate IsKept(c: char) { IsWordChar(c) || IsSpace(c) || c == '-' }

  predicate IsHyphen(c: char) { c == '-' }

  predicate IsLowerAlnum(c: char) { ('a' <= c <= 'z') || ('0' <= c <= '9') }

  predicate IsSlugChar(c: char) { IsLowerAlnum(c) || c == '-' }

  /** The id token used when the heading text yields nothing. */
  const Fallback: string := "section"

  /** A URL-fragment-safe token: lowercase letters, digits and single inner hyphens. */
  predicate IsSlug(s: string) {
    && s != []
    && (forall i :: 0 <= i < |s| ==> IsSlugChar(s[i]))
    && s[0] != '-' && s[|s| - 1] != '-'
    && (forall i :: 0 <= i < |s| - 1 ==> s[i] != '-' || s[i + 1] != '-')
  }

  /** The letters and digits of `text`, lowercased: all that a slug keeps of it. */
  function Alnums(text: string): string {
    Keep(Lower(text), IsLowerAlnum)
  }

  /** Lines 17-19: lowercase, drop, collapse separators into `-`, trim hyphens. */
  function Cleaned(text: string): string {
    Strip(CollapseRuns(Keep(Lower(text), IsKept), IsSeparator, '-'), IsHyphen)
  }

  /** `slugify`, lines 17-20, on text already decomposed and stripped of accents. */
  function Slugify(text: string): (r: string)
    ensures IsSlug(r)
    ensures Alnums(text) == [] ==> r == Fallback
    ensures Alnums(text) != [] ==> Keep(r, IsLowerAlnum) == Alnums(text)
  {
    CleanedShape(text);
    FallbackIsSlug();
    var c := Cleaned(text);
    if c == [] then Fallback else c
  }

  lemma FallbackIsSlug()
    ensures IsSlug(Fallback)
  {
    assert Fallback == ['s', 'e', 'c', 't', 'i', 'o', 'n'];
  }

  /** The cleaned text is a slug, empty exactly when the text has no letter or digit,
      and keeps the letters and digits of the text in order. */
  lemma CleanedShape(text: string)
    ensures Cleaned(text) == [] <==> Alnums(text) == []
    ensures Cleaned(text) != [] ==> IsSlug(Cleaned(text))
    ensures Keep(Cleaned(text), IsLowerAlnum) == Alnums(text)
  {
    CleanedIsSlug(text);
    CleanedKeepsAlnums(text);
    var d := Cleaned(text);
    if d != [] {
      assert IsLowerAlnum(d[0]);
    }
  }

  lemma CleanedIsSlug(text: string)
    ensures Cleaned(text) != [] ==> IsSlug(Cleaned(text))
  {
    var a := Lower(text);
    var b := Keep(a, IsKept);
    KeptChars(a);
    CollapsedChars(b);
    StrippedShape(CollapseRuns(b, IsSeparator, '-'));
  }

  lemma CleanedKeepsAlnums(text: string)
    ensures Keep(Cleaned(text), IsLowerAlnum) == Alnums(text)
  {
    var a := Lower(text);
    var b := Keep(a, IsKept);
    var c := CollapseRuns(b, IsSeparator, '-');
    AlnumClasses();
    KeepKeep(a, IsKept, IsLowerAlnum);
    CollapseKeeps(b, IsSeparator, '-', IsLowerAlnum);
    StripKeeps(c, IsHyphen, IsLowerAlnum);
    assert Keep(Strip(c, IsHyphen), IsLowerAlnum) == Keep(c, IsLowerAlnum);
    assert Keep(c, IsLowerAlnum) == Keep(b, IsLowerAlnum);
  }

  /** A letter or digit is kept, is not a separator and is not a hyphen. */
  lemma AlnumClasses()
    ensures forall c :: IsLowerAlnum(c) ==> IsKept(c)
    ensures forall c :: IsLowerAlnum(c) ==> !IsSeparator(c) && !IsHyphen(c)
    ensures !IsLowerAlnum('-')
  {
  }

  predicate HyphenSingles(s: string) {
    forall i :: 0 <= i < |s| - 1 ==> s[i] != '-' || s[i + 1] != '-'
  }

  predicate SlugChars(s: string) {
    forall i :: 0 <= i < |s| ==> IsSlugChar(s[i])
  }

  lemma KeptChars(a: string)
    requires forall i :: 0 <= i < |a| ==> !IsUpper(a[i])
    ensures forall i :: 0 <= i < |Keep(a, IsKept)| ==>
      IsLowerAlnum(Keep(a, IsKept)[i]) || IsSeparator(Keep(a, IsKept)[i])
  {
    var b := Keep(a, IsKept);
    KeepPreserves(a, IsKept, IsNotUpper);
    forall i | 0 <= i < |b| ensures IsLowerAlnum(b[i]) || IsSeparator(b[i]) {
      assert IsKept(b[i]) && IsNotUpper(b[i]);
    }
  }

  lemma CollapsedChars(b: string)
    requires forall i :: 0 <= i < |b| ==> IsLowerAlnum(b[i]) || IsSeparator(b[i])
    ensures SlugChars(CollapseRuns(b, IsSeparator, '-'))
    ensures HyphenSingles(CollapseRuns(b, IsSeparator, '-'))
  {
    var c := CollapseRuns(b, IsSeparator, '-');
    forall i | 0 <= i < |c| ensures IsSlugChar(c[i]) {
      assert c[i] == '-' || (!IsSeparator(c[i]) && c[i] in b);
    }
    forall i | 0 <= i < |c| - 1 ensures c[i] != '-' || c[i + 1] != '-' {
      assert !IsSeparator(c[i]) || !IsSeparator(c[i + 1]);
    }
  }

  lemma StrippedShape(c: string)
    requires SlugChars(c) && HyphenSingles(c)
    ensures Strip(c, IsHyphen) != [] ==> IsSlug(Strip(c, IsHyphen))
  {
    var d := Strip(c, IsHyphen);
    var off := StripSlice(c, IsHyphen);
    forall i | 0 <= i < |d| ensures IsSlugChar(d[i]) {
      assert d[i] == c[off + i];
    }
    forall i | 0 <= i < |d| - 1 ensures d[i] != '-' || d[i + 1] != '-' {
      assert d[i] == c[off + i] && d[i + 1] == c[off + i + 1];
    }
  }

  /** Lines 17-20 leave a string unchanged exactly when it is already a slug. */
  lemma SlugFixedPoints(s: string)
    ensures Slugify(s) == s <==> IsSlug(s)
  {
    if IsSlug(s) {
      SlugIsCleaned(s);
    }
  }

  lemma SlugIsCleaned(s: string)
    requires IsSlug(s)
    ensures Cleaned(s) == s
  {
    SlugCharClasses(s);
    LowerKeepIdentity(s);
    CollapseIdentity(s, IsSeparator, '-');
    StripSlugIdentity(s);
  }

  lemma SlugCharClasses(s: string)
    requires IsSlug(s)
    ensures forall i :: 0 <= i < |s| ==> !IsUpper(s[i]) && IsKept(s[i])
    ensures forall i :: 0 <= i < |s| ==> IsSeparator(s[i]) ==> s[i] == '-'
  {
    forall i | 0 <= i < |s| ensures !IsUpper(s[i]) && IsKept(s[i]) && (IsSeparator(s[i]) ==> s[i] == '-') {
      assert IsSlugChar(s[i]);
    }
  }

  lemma LowerKeepIdentity(s: string)
    requires forall i :: 0 <= i < |s| ==> !IsUpper(s[i]) && IsKept(s[i])
    ensures Keep(Lower(s), IsKept) == s
  {
    assert Lower(s) == s;
  }

  lemma StripSlugIdentity(s: string)
    requires IsSlug(s)
    ensures Strip(s, IsHyphen) == s
  {
  }

  /** Applying `slugify` to its own result changes nothing. */
  lemma SlugifyIdempotent(text: string)
    ensures Slugify(Slugify(text)) == Slugify(text)
  {
    SlugFixedPoints(Slugify(text));
  }

  /** Two slugs joined by a hyphen form a slug: the shape of a prefixed id and of a probe. */
  lemma SlugJoin(a: string, b: string)
    requires IsSlug(a) && IsSlug(b)
    ensures IsSlug(a + "-" + b)
  {
    var s := a + "-" + b;
    forall i | 0 <= i < |s| - 1 ensures s[i] != '-' || s[i + 1] != '-' {
      if i < |a| - 1 {
        assert s[i] == a[i] && s[i + 1] == a[i + 1];
      } else if i == |a| - 1 {
        assert s[i] == a[|a| - 1];
      } else if i == |a| {
        assert s[i + 1] == b[0];
      } else {
        assert s[i] == b[i - |a| - 1] && s[i + 1] == b[i - |a|];
      }
    }
  }

  /** A separator between two texts that both hold a letter or digit becomes exactly one
      hyphen between their slugs: `[\s_-]+` runs collapse where they stand. */
  lemma SlugifyJoin(a: string, c: char, b: string)
    requires IsSeparator(c)
    requires Alnums(a) != [] && Alnums(b) != []
    ensures Slugify(a + [c] + b) == Slugify(a) + "-" + Slugify(b)
  {
    var ka := Keep(Lower(a), IsKept);
    var kb := Keep(Lower(b), IsKept);
    LowerAppend(a + [c], b);
    LowerAppend(a, [c]);
    assert Lower([c]) == [c];
    KeepAppend(Lower(a) + [c], Lower(b), IsKept);
    KeepAppend(Lower(a), [c], IsKept);
    assert Keep([c], IsKept) == [c];
    AlnumClasses();
    HasNonSeparator(a);
    HasNonSeparator(b);
    CollapseStripJoin(ka, c, kb, IsSeparator, '-', IsHyphen);
    assert Cleaned(a + [c] + b) == Cleaned(a) + "-" + Cleaned(b);
    CleanedShape(a);
    CleanedShape(b);
  }

  /** A text with a letter or digit keeps, after lowercasing and filtering, a character
      that is not a separator. */
  lemma HasNonSeparator(a: string)
    requires Alnums(a) != []
    ensures var k := Keep(Lower(a), IsKept); exists i :: 0 <= i < |k| && !IsSeparator(k[i])
  {
    var k := Keep(Lower(a), IsKept);
    AlnumClasses();
    KeepKeep(Lower(a), IsKept, IsLowerAlnum);
    var i :| 0 <= i < |k| && IsLowerAlnum(k[i]);
  }

  /** Without a separator nothing can become a hyphen: the slug of a text that has no
      whitespace, `_` or `-` is just its letters and digits, lowercased. */
  lemma SlugifyNoSeparator(a: string)
    requires forall i :: 0 <= i < |a| ==> !IsSeparator(a[i])
    requires Alnums(a) != []
    ensures Slugify(a) == Alnums(a)
  {
    KeptAreAlnums(a);
    AlnumsAreCleaned(Alnums(a));
  }

  /** Without separators, the characters line 18 keeps are exactly the letters and digits. */
  lemma KeptAreAlnums(a: string)
    requires forall i :: 0 <= i < |a| ==> !IsSeparator(a[i])
    ensures Keep(Lower(a), IsKept) == Alnums(a)
  {
    var la := Lower(a);
    forall i | 0 <= i < |la| ensures IsKept(la[i]) <==> IsLowerAlnum(la[i]) {
      if IsUpper(a[i]) {
        assert 'a' <= la[i] <= 'z';
      } else {
        assert la[i] == a[i];
      }
    }
    KeepSame(la, IsKept, IsLowerAlnum);
  }

  /** Letters and digits alone pass the collapse and the trim unchanged. */
  lemma AlnumsAreCleaned(k: string)
    requires forall i :: 0 <= i < |k| ==> IsLowerAlnum(k[i])
    ensures Strip(CollapseRuns(k, IsSeparator, '-'), IsHyphen) == k
  {
    assert Strip(k, IsHyphen) == k by {
      if k != [] {
        assert IsLowerAlnum(k[0]) && IsLowerAlnum(k[|k| - 1]);
      }
    }
    assert CollapseRuns(k, IsSeparator, '-') == k by {
      CollapseIdentity(k, IsSeparator, '-');
    }
  }

  /** What a text with no letter or digit keeps after lowercasing and filtering is
      separators only. */
  lemma SeparatorsOnly(w: string)
    requires Alnums(w) == []
    ensures AllIn(Keep(Lower(w), IsKept), IsSeparator)
  {
    var lw := Lower(w);
    var k := Keep(lw, IsKept);
    KeepPreserves(lw, IsKept, IsNotUpper);
    KeepPreserves(lw, IsKept, IsNotLowerAlnum);
    forall i | 0 <= i < |k| ensures IsSeparator(k[i]) {
      assert IsKept(k[i]) && IsNotUpper(k[i]) && IsNotLowerAlnum(k[i]);
    }
  }

  predicate IsNotLowerAlnum(c: char) { !IsLowerAlnum(c) }

  /** Text with no letter or digit in front of a text changes nothing: whatever it keeps
      merges into the leading separator run, which the trim removes. */
  lemma SlugifyPadFront(w: string, a: string)
    requires Alnums(w) == []
    ensures Slugify(w + a) == Slugify(a)
  {
    SeparatorsOnly(w);
    LowerAppend(w, a);
    KeepAppend(Lower(w), Lower(a), IsKept);
    KeepAppend(Lower(w), Lower(a), IsLowerAlnum);
    StripLeadingAny(Keep(Lower(w), IsKept), Keep(Lower(a), IsKept), IsSeparator, '-', IsHyphen);
  }

  /** Text with no letter or digit behind a text changes nothing. */
  lemma SlugifyPadBack(a: string, w: string)
    requires Alnums(w) == []
    ensures Slugify(a + w) == Slugify(a)
  {
    SeparatorsOnly(w);
    LowerAppend(a, w);
    KeepAppend(Lower(a), Lower(w), IsKept);
    KeepAppend(Lower(a), Lower(w), IsLowerAlnum);
    StripTrailingAny(Keep(Lower(a), IsKept), Keep(Lower(w), IsKept), IsSeparator, '-', IsHyphen);
  }

  /** Text made of ASCII letters and digits only slugs to itself, lowercased. */
  lemma SlugifyWord(a: string)
    requires a != [] && forall i :: 0 <= i < |a| ==> IsWordChar(a[i]) && a[i] != '_'
    ensures Slugify(a) == Lower(a)
  {
    var la := Lower(a);
    forall i | 0 <= i < |la| ensures IsLowerAlnum(la[i]) {
      if IsUpper(a[i]) {
        assert 'a' <= la[i] <= 'z';
      } else {
        assert la[i] == a[i];
      }
    }
    assert Alnums(a) == la;
    assert IsLowerAlnum(la[0]);
    SlugifyNoSeparator(a);
  }

  /** The heading text `Intro` gives the slug `intro`. */
  lemma SlugifyIntro()
    ensures Slugify("Intro") == "intro"
  {
    IntroIsWord();
    SlugifyWord("Intro");
    LowerIntro();
  }

  lemma IntroIsWord()
    ensures "Intro" != [] && forall i :: 0 <= i < |"Intro"| ==> IsWordChar("Intro"[i]) && "Intro"[i] != '_'
  {
  }

  lemma LowerIntro()
    ensures Lower("Intro") == "intro"
  {
    var r := Lower("Intro");
    assert r[0] == 'i' && r[1] == 'n' && r[2] == 't' && r[3] == 'r' && r[4] == 'o';
  }
}
