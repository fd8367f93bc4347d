/**
 * `strip_tags`: the visible text of a heading body. Every tag becomes a space,
 * whitespace runs become one space, and the ends are trimmed.
 */
module Tags {
  import opened Options
  import opened Text

  /** The length of the match of `<[^>]+>` at the start of `s`, if it matches there. */
  function TagLength(s: string): (r: Option<nat>)
    ensures r.Some? ==> && 3 <= r.value <= |s| && s[0] == '<' && s[r.value - 1] == '>'
                        && forall i :: 1 <= i < r.value - 1 ==> s[i] != '>'
    ensures r.None? && s != [] && s[0] == '<' ==>
              (|s| > 1 && s[1] == '>') || forall i :: 1 <= i < |s| ==> s[i] != '>'
  {
    if s != [] && s[0] == '<' then
      match IndexOf(s[1..], '>')
      case Some(k) => if k >= 1 then Some(k + 2) else None
      case None => None
    else None
  }

  /** Line 64, `re.sub(r"<[^>]+>", " ", s)`: each tag, found left to right, becomes one space. */
  function RemoveTags(s: string): (r: string)
    ensures |r| <= |s|
    ensures forall i :: 0 <= i < |r| ==> r[i] == ' ' || r[i] in s
    decreases |s|
  {
    if s == [] then []
    else match TagLength(s)
      case Some(n) => " " + RemoveTags(s[n..])
      case None => [s[0]] + RemoveTags(s[1..])
  }

  /** `t` is one whole match of `<[^>]+>`. */
  predicate IsTag(t: string) {
    && |t| >= 3 && t[0] == '<' && t[|t| - 1] == '>'
    && forall i :: 1 <= i < |t| - 1 ==> t[i] != '>'
  }

  /** `s` holds no `<`, so no tag can start in it. */
  predicate NoOpen(s: string) {
    forall i :: 0 <= i < |s| ==> s[i] != '<'
  }

  /** A tag at the start of a text is matched whole. */
  lemma TagLengthOfTag(t: string, v: string)
    requires IsTag(t)
    ensures TagLength(t + v) == Some(|t|)
  {
    var s := t + v;
    forall i | 0 <= i < |t| - 2 ensures s[1..][i] != '>' {
      assert s[1..][i] == t[i + 1];
    }
    assert s[1..][|t| - 2] == t[|t| - 1];
    IndexOfAt(s[1..], '>', |t| - 2);
  }

  /** No match of `<[^>]+>` starts in `s`, whatever follows it: each `<` is directly
      followed by a `>` inside `s`. */
  predicate NoTagStart(s: string) {
    && (s == [] || s[|s| - 1] != '<')
    && forall i, j :: 0 <= i < |s| && j == i + 1 < |s| && s[i] == '<' ==> s[j] == '>'
  }

  /** Where no tag starts, the first character is copied. */
  lemma RemoveTagsCopy(s: string)
    requires s != [] && TagLength(s) == None
    ensures RemoveTags(s) == [s[0]] + RemoveTags(s[1..])
  {
  }

  /** No tag starts at the head of a text in which no tag starts, whatever follows it;
      nor in the rest of that text. */
  lemma NoTagStartHead(u: string, x: string)
    requires u != [] && NoTagStart(u)
    ensures TagLength(u + x) == None && NoTagStart(u[1..])
  {
    var s := u + x;
    if u[0] == '<' {
      assert |u| > 1 && u[1] == '>';
      assert s[1..][0] == u[1];
      IndexOfAt(s[1..], '>', 0);
    }
    var r := u[1..];
    forall i, j | 0 <= i < |r| && j == i + 1 < |r| && r[i] == '<' ensures r[j] == '>' {
      assert r[i] == u[i + 1] && r[j] == u[j + 1];
    }
  }

  /** Text in which no tag starts is copied and the first tag after it becomes one space:
      the substitution goes on after the tag as if the text started there. */
  lemma {:induction false} RemoveTagsSkip(u: string, t: string, v: string)
    requires NoTagStart(u) && IsTag(t)
    ensures RemoveTags(u + t + v) == u + " " + RemoveTags(v)
    decreases |u|
  {
    if u == [] {
      EmptyStep(u, t, v);
    } else {
      NoTagStartHead(u, t + v);
      RemoveTagsSkip(u[1..], t, v);
      CopyStep(u, t, v);
    }
  }

  /** A tag at the start becomes one space. */
  lemma RemoveTagsTagFirst(t: string, v: string)
    requires IsTag(t)
    ensures RemoveTags(t + v) == " " + RemoveTags(v)
  {
    TagLengthOfTag(t, v);
    assert (t + v)[|t|..] == v;
  }

  /** The substitution on a text that starts with the tag. */
  lemma EmptyStep(u: string, t: string, v: string)
    requires u == [] && IsTag(t)
    ensures RemoveTags(u + t + v) == u + " " + RemoveTags(v)
  {
    assert u + t + v == t + v;
    assert u + " " + RemoveTags(v) == " " + RemoveTags(v);
    RemoveTagsTagFirst(t, v);
  }

  /** One copying step of the substitution over a text in which no tag starts. */
  lemma CopyStep(u: string, t: string, v: string)
    requires u != [] && TagLength(u + (t + v)) == None
    requires RemoveTags(u[1..] + t + v) == u[1..] + " " + RemoveTags(v)
    ensures RemoveTags(u + t + v) == u + " " + RemoveTags(v)
  {
    var x, r := t + v, " " + RemoveTags(v);
    Associate(u[1..], t, v);
    Associate(u, t, v);
    Associate(u, " ", RemoveTags(v));
    Associate(u[1..], " ", RemoveTags(v));
    RemoveTagsCopy(u + x);
    HeadTail(u, x);
    HeadTail(u, r);
  }

  /** The head and the tail of a concatenation whose first part is not empty. */
  lemma HeadTail(u: string, x: string)
    requires u != []
    ensures (u + x)[0] == u[0] && (u + x)[1..] == u[1..] + x && u + x == [u[0]] + (u[1..] + x)
  {
  }

  /** No match of `<[^>]+>` is left in `s`: a `<` is directly followed by `>`,
      or no `>` comes after it at all. */
  predicate NoTag(s: string) {
    forall i, j :: 0 <= i < j < |s| && s[i] == '<' && s[j] == '>' ==> s[i + 1] == '>'
  }

  lemma NoTagCons(c: char, t: string)
    requires NoTag(t)
    requires c == '<' ==> (t != [] && t[0] == '>') || forall i :: 0 <= i < |t| ==> t[i] != '>'
    ensures NoTag([c] + t)
  {
    var s := [c] + t;
    forall i, j | 0 <= i < j < |s| && s[i] == '<' && s[j] == '>' ensures s[i + 1] == '>' {
      if i > 0 {
        assert s[i] == t[i - 1] && s[j] == t[j - 1] && s[i + 1] == t[i];
      } else {
        assert t[j - 1] == '>';
      }
    }
  }

  lemma NoTagSlice(s: string, a: nat, b: nat)
    requires NoTag(s) && a <= b <= |s|
    ensures NoTag(s[a..b])
  {
    var t := s[a..b];
    forall i, j | 0 <= i < j < |t| && t[i] == '<' && t[j] == '>' ensures t[i + 1] == '>' {
      assert s[a + i] == '<' && s[a + j] == '>';
    }
  }

  /** After line 64 no tag is left. */
  lemma {:induction false} RemoveTagsLeavesNoTag(s: string)
    ensures NoTag(RemoveTags(s))
    decreases |s|
  {
    if s != [] {
      match TagLength(s)
      case Some(n) =>
        RemoveTagsLeavesNoTag(s[n..]);
        NoTagCons(' ', RemoveTags(s[n..]));
      case None =>
        var t := RemoveTags(s[1..]);
        RemoveTagsLeavesNoTag(s[1..]);
        if s[0] == '<' {
          if |s| > 1 && s[1] == '>' {
            assert TagLength(s[1..]) == None;
            assert t[0] == '>';
          } else {
            forall i | 0 <= i < |t| ensures t[i] != '>' {
              assert t[i] == ' ' || t[i] in s[1..];
            }
          }
        }
        NoTagCons(s[0], t);
    }
  }

  /** Line 64 changes the text exactly when it holds a tag. */
  lemma {:induction false} RemoveTagsIdentity(s: string)
    ensures RemoveTags(s) == s <==> NoTag(s)
    decreases |s|
  {
    if s != [] {
      RemoveTagsIdentity(s[1..]);
      match TagLength(s)
      case Some(n) =>
        assert |RemoveTags(s)| < |s|;
        assert s[0] == '<' && s[n - 1] == '>' && s[1] != '>';
      case None =>
        if NoTag(s) {
          NoTagSlice(s, 1, |s|);
        }
        if RemoveTags(s) == s {
          assert RemoveTags(s[1..]) == s[1..];
          assert s == [s[0]] + s[1..];
          NoTagCons(s[0], s[1..]);
        }
    }
  }

  /** Collapsing whitespace runs keeps a tag-free text tag-free. */
  lemma {:induction false} CollapseKeepsNoTag(s: string)
    requires NoTag(s)
    ensures NoTag(CollapseRuns(s, IsSpace, ' '))
  {
    if s != [] {
      NoTagSlice(s, 1, |s|);
      CollapseKeepsNoTag(s[1..]);
      var t := CollapseRuns(s[1..], IsSpace, ' ');
      if !(IsSpace(s[0]) && |s| > 1 && IsSpace(s[1])) {
        if s[0] == '<' {
          if |s| > 1 && s[1] == '>' {
            assert t[0] == '>';
          } else {
            forall i | 0 <= i < |t| ensures t[i] != '>' {
              assert t[i] == ' ' || t[i] in s[1..];
            }
          }
        }
        NoTagCons(if IsSpace(s[0]) then ' ' else s[0], t);
      }
    }
  }

  /** `strip_tags`, lines 64-65. */
  function StripTags(s: string): (r: string)
    ensures r == [] || (!IsSpace(r[0]) && !IsSpace(r[|r| - 1]))
    ensures forall i :: 0 <= i < |r| - 1 ==> !IsSpace(r[i]) || !IsSpace(r[i + 1])
    ensures forall i :: 0 <= i < |r| ==> IsSpace(r[i]) ==> r[i] == ' '
    ensures NoTag(r)
  {
    var c := CollapseRuns(RemoveTags(s), IsSpace, ' ');
    RemoveTagsLeavesNoTag(s);
    CollapseKeepsNoTag(RemoveTags(s));
    StripKeepsNoTag(c);
    StripKeepsSingleSpaces(c);
    Strip(c, IsSpace)
  }

  /** Text without a `<` is left as it is by line 64. */
  lemma RemoveTagsNoOpen(s: string)
    requires NoOpen(s)
    ensures RemoveTags(s) == s
  {
    RemoveTagsIdentity(s);
  }

  /** Between two tag-free texts with visible characters, any whitespace character
      becomes exactly one space between their visible texts. */
  lemma StripTagsJoin(a: string, c: char, b: string)
    requires NoOpen(a) && NoOpen(b) && IsSpace(c)
    requires exists i :: 0 <= i < |a| && !IsSpace(a[i])
    requires exists i :: 0 <= i < |b| && !IsSpace(b[i])
    ensures StripTags(a + [c] + b) == StripTags(a) + " " + StripTags(b)
  {
    var s := a + [c] + b;
    forall i | 0 <= i < |s| ensures s[i] != '<' {
      if i < |a| {
        assert s[i] == a[i];
      } else if i > |a| {
        assert s[i] == b[i - |a| - 1];
      }
    }
    RemoveTagsNoOpen(a);
    RemoveTagsNoOpen(b);
    RemoveTagsNoOpen(s);
    CollapseStripJoin(a, c, b, IsSpace, ' ', IsSpace);
  }

  /** `strip_tags` sees only what line 64 leaves: removing the tags first changes nothing. */
  lemma StripTagsAfterRemove(s: string)
    ensures StripTags(s) == StripTags(RemoveTags(s))
  {
    RemoveTagsLeavesNoTag(s);
    RemoveTagsIdentity(RemoveTags(s));
  }

  /** A tag between visible text and more text with visible characters becomes exactly one
      space between their visible texts. */
  lemma StripTagsTag(u: string, t: string, v: string)
    requires NoOpen(u) && IsTag(t)
    requires exists i :: 0 <= i < |u| && !IsSpace(u[i])
    requires exists i :: 0 <= i < |RemoveTags(v)| && !IsSpace(RemoveTags(v)[i])
    ensures StripTags(u + t + v) == StripTags(u) + " " + StripTags(v)
  {
    RemoveTagsSkip(u, t, v);
    RemoveTagsNoOpen(u);
    assert u + " " + RemoveTags(v) == u + [' '] + RemoveTags(v);
    CollapseStripJoin(u, ' ', RemoveTags(v), IsSpace, ' ', IsSpace);
  }

  /** A text with neither whitespace nor `<` is its own visible text: no space is added
      anywhere. */
  lemma StripTagsWord(s: string)
    requires NoOpen(s) && !exists i :: 0 <= i < |s| && IsSpace(s[i])
    ensures StripTags(s) == s
  {
    RemoveTagsNoOpen(s);
    CollapseIdentity(s, IsSpace, ' ');
  }

  /** Whitespace around a text without `<` makes no difference. */
  lemma StripTagsPad(w: string, s: string, w2: string)
    requires NoOpen(s) && AllIn(w, IsSpace) && AllIn(w2, IsSpace)
    ensures StripTags(w + s + w2) == StripTags(s)
  {
    var t := s + w2;
    NoOpenPad(w, s, w2);
    RemoveTagsNoOpen(w + t);
    RemoveTagsNoOpen(s);
    StripLeadingAny(w, t, IsSpace, ' ', IsSpace);
    StripTrailingAny(s, w2, IsSpace, ' ', IsSpace);
  }

  lemma NoOpenPad(w: string, s: string, w2: string)
    requires NoOpen(s) && AllIn(w, IsSpace) && AllIn(w2, IsSpace)
    ensures w + s + w2 == w + (s + w2) && NoOpen(w + (s + w2))
  {
    var x := w + (s + w2);
    forall i | 0 <= i < |x| ensures x[i] != '<' {
      if i < |w| {
        assert x[i] == w[i];
      } else if i < |w| + |s| {
        assert x[i] == s[i - |w|];
      } else {
        assert x[i] == w2[i - |w| - |s|];
      }
    }
  }

  /** A `<` directly closed by `>` starts no tag, and the tag after it still becomes one
      space. */
  lemma RemoveTagsAfterEmpty(a: char, b: char, t: string, v: string)
    requires a != '<' && b != '<' && IsTag(t)
    ensures RemoveTags([a, '<', '>', b] + t + v) == [a, '<', '>', b] + " " + RemoveTags(v)
  {
    RemoveTagsSkip([a, '<', '>', b], t, v);
  }

  /** `a<>b<i>c` becomes `a<>b c`. */
  lemma RemoveTagsStray()
    ensures RemoveTags("a<>b<i>c") == "a<>b c"
  {
    assert IsTag("<i>");
    assert "a<>b<i>c" == ['a', '<', '>', 'b'] + "<i>" + ['c'];
    RemoveTagsAfterEmpty('a', 'b', "<i>", ['c']);
    RemoveTagsNoOpen(['c']);
  }

  lemma StripKeepsNoTag(c: string)
    requires NoTag(c)
    ensures NoTag(Strip(c, IsSpace))
  {
    var d := Strip(c, IsSpace);
    var off := StripSlice(c, IsSpace);
    forall i, j | 0 <= i < j < |d| && d[i] == '<' && d[j] == '>' ensures d[i + 1] == '>' {
      assert c[off + i] == '<' && c[off + j] == '>';
      assert d[i + 1] == c[off + i + 1];
    }
  }

  lemma StripKeepsSingleSpaces(c: string)
    requires forall i :: 0 <= i < |c| - 1 ==> !IsSpace(c[i]) || !IsSpace(c[i + 1])
    requires forall i :: 0 <= i < |c| ==> IsSpace(c[i]) ==> c[i] == ' '
    ensures var r := Strip(c, IsSpace);
      && (forall i :: 0 <= i < |r| - 1 ==> !IsSpace(r[i]) || !IsSpace(r[i + 1]))
      && (forall i :: 0 <= i < |r| ==> IsSpace(r[i]) ==> r[i] == ' ')
  {
    var d := Strip(c, IsSpace);
    var off := StripSlice(c, IsSpace);
    forall i | 0 <= i < |d| ensures IsSpace(d[i]) ==> d[i] == ' ' {
      assert d[i] == c[off + i];
    }
    forall i | 0 <= i < |d| - 1 ensures !IsSpace(d[i]) || !IsSpace(d[i + 1]) {
      assert d[i] == c[off + i] && d[i + 1] == c[off + i + 1];
    }
  }

  /** Beyond the tags, `strip_tags` loses nothing but whitespace. */
  lemma StripTagsKeepsText(s: string)
    ensures Keep(StripTags(s), IsNotSpace) == Keep(RemoveTags(s), IsNotSpace)
  {
    var c := CollapseRuns(RemoveTags(s), IsSpace, ' ');
    CollapseKeeps(RemoveTags(s), IsSpace, ' ', IsNotSpace);
    StripKeeps(c, IsSpace, IsNotSpace);
  }

  /** A single visible character other than `<` is its own visible text. */
  lemma StripTagsChar(c: char)
    requires !IsSpace(c) && c != '<'
    ensures StripTags([c]) == [c]
  {
    RemoveTagsNoOpen([c]);
    assert [c][1..] == [];
    assert CollapseRuns([c], IsSpace, ' ') == [c];
  }

  /** A newline between words becomes one space: `a\nb` reads `a b`. */
  lemma StripTagsNewline()
    ensures StripTags("a\nb") == "a b"
  {
    assert "a\nb" == ['a'] + ['\n'] + ['b'];
    assert "a b" == ['a'] + " " + ['b'];
    assert ['a'][0] == 'a' && ['b'][0] == 'b';
    StripTagsJoin(['a'], '\n', ['b']);
    StripTagsChar('a');
    StripTagsChar('b');
  }

  /** A visible character followed by a space reads as the character alone. */
  lemma StripTagsCharSpace(c: char)
    requires !IsSpace(c) && c != '<'
    ensures StripTags([c, ' ']) == [c]
  {
    var s := [c, ' '];
    RemoveTagsNoOpen(s);
    CollapseIdentity(s, IsSpace, ' ');
    assert s == [] + [c] + [' '];
    StripUnique([], [c], [' '], IsSpace);
  }

  /** Line 64 turns a character followed by a tag into the character and a space. */
  lemma RemoveTagsCharTag(c: char, t: string)
    requires c != '<' && IsTag(t)
    ensures RemoveTags([c] + t) == [c, ' ']
  {
    assert [c] + t == [c] + t + [];
    RemoveTagsSkip([c], t, []);
  }

  /** A character followed by a tag reads as the character alone. */
  lemma StripTagsCharTag(c: char, t: string)
    requires !IsSpace(c) && c != '<' && IsTag(t)
    ensures StripTags([c] + t) == [c]
  {
    StripTagsAfterRemove([c] + t);
    RemoveTagsCharTag(c, t);
    StripTagsCharSpace(c);
  }

  /** Two characters, each followed by a tag, read as the characters with one space
      between them. */
  lemma StripTagsCharTagCharTag(c: char, t: string, d: char, t2: string)
    requires !IsSpace(c) && c != '<' && IsTag(t)
    requires !IsSpace(d) && d != '<' && IsTag(t2)
    ensures StripTags([c] + t + ([d] + t2)) == [c] + " " + [d]
  {
    StripTagsCharTag(d, t2);
    RemoveTagsCharTag(d, t2);
    assert RemoveTags([d] + t2)[0] == d && [c][0] == c;
    StripTagsTag([c], t, [d] + t2);
    StripTagsChar(c);
  }

  /** A tag between words becomes one space: `1<i>x</i>` reads `1 x`. */
  lemma StripTagsItalic()
    ensures StripTags("1<i>x</i>") == "1 x"
  {
    assert "1<i>x</i>" == ['1'] + "<i>" + (['x'] + "</i>");
    assert IsTag("<i>") && IsTag("</i>");
    StripTagsCharTagCharTag('1', "<i>", 'x', "</i>");
    assert "1 x" == ['1'] + " " + ['x'];
  }
}
