/**
 * Character classes and the string transforms that the slug and tag-stripping code
 * are chains of: filtering, collapsing runs, trimming ends, and `str(n)`.
 */
module Text {
  import opened Options


  /** Python's whitespace, which is what `\s` matches and what `str.strip()` removes:
      U+0009..U+000D, U+001C..U+0020, U+0085, U+00A0, U+1680, U+2000..U+200A,
      U+2028, U+2029, U+202F, U+205F and U+3000. */
  predicate IsSpace(c: char) {
    var n := c as int;
    || (9 <= n <= 13) || (28 <= n <= 32) || n == 0x85 || n == 0xA0 || n == 0x1680
    || (0x2000 <= n <= 0x200A) || n == 0x2028 || n == 0x2029 || n == 0x202F
    || n == 0x205F || n == 0x3000
  }

  predicate IsNotSpace(c: char) { !IsSpace(c) }

  /** `\w`, restricted to ASCII: letters, digits and the underscore. */
  predicate IsWordChar(c: char) {
    ('a' <= c <= 'z') || ('A' <= c <= 'Z') || ('0' <= c <= '9') || c == '_'
  }

  predicate IsUpper(c: char) { 'A' <= c <= 'Z' }

  predicate IsNotUpper(c: char) { !IsUpper(c) }

  /** Every character of `s` satisfies `p`. */
  predicate AllIn(s: string, p: char -> bool) {
    forall i :: 0 <= i < |s| ==> p(s[i])
  }

  lemma AllInAppend(a: string, b: string, p: char -> bool)
    requires AllIn(a, p) && AllIn(b, p)
    ensures AllIn(a + b, p)
  {
    forall i | 0 <= i < |a + b| ensures p((a + b)[i]) {
      if i >= |a| {
        assert (a + b)[i] == b[i - |a|];
      }
    }
  }

  function LowerChar(c: char): (d: char)
    ensures !IsUpper(d)
  {
    if IsUpper(c) then (c as int + 32) as char else c
  }

  /** `str.lower()` on ASCII letters; every other character is left as it is. */
  function Lower(s: string): (r: string)
    ensures |r| == |s|
    ensures forall i :: 0 <= i < |r| ==> !IsUpper(r[i])
    ensures forall i :: 0 <= i < |s| ==> !IsUpper(s[i]) ==> r[i] == s[i]
    ensures forall i :: 0 <= i < |s| ==> IsUpper(s[i]) ==> r[i] as int == s[i] as int + 32
    ensures (forall i :: 0 <= i < |s| ==> !IsUpper(s[i])) ==> r == s
  {
    seq(|s|, i requires 0 <= i < |s| => LowerChar(s[i]))
  }

  /** Lowercasing works character by character, so it distributes over concatenation. */
  lemma LowerAppend(a: string, b: string)
    ensures Lower(a + b) == Lower(a) + Lower(b)
  {
    forall i | 0 <= i < |a + b| ensures Lower(a + b)[i] == (Lower(a) + Lower(b))[i] {
      if i < |a| {
        assert (a + b)[i] == a[i];
      } else {
        assert (a + b)[i] == b[i - |a|];
      }
    }
  }

  /** The elements of `s` that satisfy `p`, in their order. */
  function Keep<T>(s: seq<T>, p: T -> bool): (r: seq<T>)
    ensures |r| <= |s|
    ensures forall i :: 0 <= i < |r| ==> p(r[i])
    ensures (forall i :: 0 <= i < |s| ==> p(s[i])) ==> r == s
    ensures r == [] <==> forall i :: 0 <= i < |s| ==> !p(s[i])
  {
    if s == [] then [] else (if p(s[0]) then [s[0]] else []) + Keep(s[1..], p)
  }

  /** Every element `Keep` selects satisfies any test `q` that every element of `s` satisfies. */
  lemma {:induction false} KeepPreserves<T>(s: seq<T>, p: T -> bool, q: T -> bool)
    requires forall i :: 0 <= i < |s| ==> q(s[i])
    ensures forall i :: 0 <= i < |Keep(s, p)| ==> q(Keep(s, p)[i])
  {
    if s != [] {
      KeepPreserves(s[1..], p, q);
      var h := if p(s[0]) then [s[0]] else [];
      var t := Keep(s[1..], p);
      assert Keep(s, p) == h + t;
      forall i | 0 <= i < |h + t| ensures q((h + t)[i]) {
        if i >= |h| {
          assert (h + t)[i] == t[i - |h|];
        }
      }
    }
  }

  lemma {:induction false} KeepAppend<T>(a: seq<T>, b: seq<T>, p: T -> bool)
    ensures Keep(a + b, p) == Keep(a, p) + Keep(b, p)
  {
    if a == [] {
      assert a + b == b;
    } else {
      var h := if p(a[0]) then [a[0]] else [];
      assert (a + b)[0] == a[0];
      assert (a + b)[1..] == a[1..] + b;
      KeepAppend(a[1..], b, p);
      assert Keep(a + b, p) == h + (Keep(a[1..], p) + Keep(b, p));
      assert h + (Keep(a[1..], p) + Keep(b, p)) == (h + Keep(a[1..], p)) + Keep(b, p);
    }
  }

  /** Filtering by a weaker test first changes nothing. */
  lemma {:induction false} KeepKeep<T>(s: seq<T>, p: T -> bool, q: T -> bool)
    requires forall x :: q(x) ==> p(x)
    ensures Keep(Keep(s, p), q) == Keep(s, q)
  {
    if s != [] {
      KeepKeep(s[1..], p, q);
      KeepAppend(if p(s[0]) then [s[0]] else [], Keep(s[1..], p), q);
    }
  }

  /** `re.sub(P + "+", rep, s)`: every maximal run of characters satisfying `p`
      becomes the single character `rep`; every other character is copied. */
  function CollapseRuns(s: string, p: char -> bool, rep: char): (r: string)
    ensures |r| <= |s|
    ensures s != [] <==> r != []
    ensures s != [] ==> r[0] == (if p(s[0]) then rep else s[0])
    ensures forall i :: 0 <= i < |r| ==> r[i] == rep || (!p(r[i]) && r[i] in s)
    ensures forall i :: 0 <= i < |r| - 1 ==> !p(r[i]) || !p(r[i + 1])
  {
    if s == [] then []
    else if p(s[0]) && |s| > 1 && p(s[1]) then CollapseRuns(s[1..], p, rep)
    else [if p(s[0]) then rep else s[0]] + CollapseRuns(s[1..], p, rep)
  }

  /** Collapsing runs of `p` keeps every character a test `q` disjoint from `p` selects. */
  lemma {:induction false} CollapseKeeps(s: string, p: char -> bool, rep: char, q: char -> bool)
    requires forall c :: q(c) ==> !p(c)
    requires !q(rep)
    ensures Keep(CollapseRuns(s, p, rep), q) == Keep(s, q)
  {
    if s != [] {
      CollapseKeeps(s[1..], p, rep, q);
      if !(p(s[0]) && |s| > 1 && p(s[1])) {
        KeepAppend([if p(s[0]) then rep else s[0]], CollapseRuns(s[1..], p, rep), q);
      }
    }
  }

  /** A string whose runs are already single `rep` characters is left unchanged. */
  lemma {:induction false} CollapseIdentity(s: string, p: char -> bool, rep: char)
    requires forall i :: 0 <= i < |s| ==> p(s[i]) ==> s[i] == rep
    requires forall i :: 0 <= i < |s| - 1 ==> !p(s[i]) || !p(s[i + 1])
    ensures CollapseRuns(s, p, rep) == s
  {
    if s != [] {
      CollapseIdentity(s[1..], p, rep);
    }
  }

  /** A non-empty run of `p` followed by a character outside `p` becomes one `rep`. */
  lemma {:induction false} CollapseRun(w: string, v: string, p: char -> bool, rep: char)
    requires w != [] && AllIn(w, p)
    requires v == [] || !p(v[0])
    ensures CollapseRuns(w + v, p, rep) == [rep] + CollapseRuns(v, p, rep)
    decreases |w|
  {
    var s := w + v;
    assert s[0] == w[0];
    if |w| == 1 {
      assert s[1..] == v;
      if |s| > 1 {
        assert s[1] == v[0];
      }
    } else {
      assert s[1] == w[1];
      assert s[1..] == w[1..] + v;
      CollapseRun(w[1..], v, p, rep);
    }
  }

  /** One step of `CollapseRuns` on a string given as its first character and the rest. */
  lemma CollapseCons(c: char, t: string, p: char -> bool, rep: char)
    ensures CollapseRuns([c] + t, p, rep) ==
      if p(c) && t != [] && p(t[0]) then CollapseRuns(t, p, rep)
      else [if p(c) then rep else c] + CollapseRuns(t, p, rep)
  {
    assert ([c] + t)[1..] == t;
  }

  /** `CollapseCons` on a first character followed by a non-empty `t` and then `x`. */
  lemma CollapseConsAppend(c: char, t: string, x: string, p: char -> bool, rep: char)
    requires t != []
    ensures CollapseRuns([c] + (t + x), p, rep) ==
      if p(c) && p(t[0]) then CollapseRuns(t + x, p, rep)
      else [if p(c) then rep else c] + CollapseRuns(t + x, p, rep)
  {
    assert (t + x)[0] == t[0];
    CollapseCons(c, t + x, p, rep);
  }

  /** After a character outside `p`, collapsing the rest is independent of what came before. */
  lemma {:induction false} CollapseSplit(u: string, x: string, p: char -> bool, rep: char)
    requires u == [] || !p(u[|u| - 1])
    ensures CollapseRuns(u + x, p, rep) == CollapseRuns(u, p, rep) + CollapseRuns(x, p, rep)
    decreases |u|
  {
    if u == [] {
      assert u + x == x;
    } else if |u| == 1 {
      assert u + x == [u[0]] + x && u == [u[0]] + [];
      CollapseCons(u[0], x, p, rep);
      CollapseCons(u[0], [], p, rep);
    } else {
      var c, t := u[0], u[1..];
      assert u == [c] + t && u + x == [c] + (t + x);
      CollapseConsAppend(c, t, x, p, rep);
      CollapseConsAppend(c, t, [], p, rep);
      assert t + [] == t;
      CollapseSplit(t, x, p, rep);
      var h := if p(c) && p(t[0]) then [] else [if p(c) then rep else c];
      Associate(h, CollapseRuns(t, p, rep), CollapseRuns(x, p, rep));
    }
  }

  /** Concatenation is associative; stated as a lemma to keep the callers' proofs small. */
  lemma Associate(a: string, b: string, c: string)
    ensures a + (b + c) == (a + b) + c
  {
  }

  /** A string ending outside `p` keeps its last character through the collapse. */
  lemma {:induction false} CollapseLast(s: string, p: char -> bool, rep: char)
    requires s != [] && !p(s[|s| - 1])
    ensures var r := CollapseRuns(s, p, rep); r != [] && r[|r| - 1] == s[|s| - 1]
    decreases |s|
  {
    if |s| > 1 {
      assert s[1..][|s| - 2] == s[|s| - 1];
      CollapseLast(s[1..], p, rep);
    }
  }

  /** A run of `p` alone collapses to nothing or to one `rep`. */
  lemma CollapseRunAlone(w: string, p: char -> bool, rep: char)
    requires AllIn(w, p)
    ensures CollapseRuns(w, p, rep) == [] || CollapseRuns(w, p, rep) == [rep]
  {
    if w != [] {
      assert w + [] == w;
      CollapseRun(w, [], p, rep);
    }
  }

  /** The number of leading characters of `s` that satisfy `p`. */
  function Lead(s: string, p: char -> bool): (n: nat)
    ensures n <= |s|
    ensures forall i :: 0 <= i < n ==> p(s[i])
    ensures n < |s| ==> !p(s[n])
  {
    if s != [] && p(s[0]) then 1 + Lead(s[1..], p) else 0
  }

  /** The number of trailing characters of `s` that satisfy `p`. */
  function Trail(s: string, p: char -> bool): (n: nat)
    ensures n <= |s|
    ensures forall i :: |s| - n <= i < |s| ==> p(s[i])
    ensures n < |s| ==> !p(s[|s| - n - 1])
  {
    if s != [] && p(s[|s| - 1]) then 1 + Trail(s[..|s| - 1], p) else 0
  }

  /** `s.lstrip(...)`: the longest prefix of characters satisfying `p` is removed. */
  function StripStart(s: string, p: char -> bool): string {
    s[Lead(s, p)..]
  }

  /** `s.rstrip(...)`: the longest suffix of characters satisfying `p` is removed. */
  function StripEnd(s: string, p: char -> bool): string {
    s[..|s| - Trail(s, p)]
  }

  /** `s.strip(...)` on both ends. */
  function Strip(s: string, p: char -> bool): (r: string)
    ensures r == [] || (!p(r[0]) && !p(r[|r| - 1]))
    ensures (s == [] || (!p(s[0]) && !p(s[|s| - 1]))) ==> r == s
  {
    var t := StripStart(s, p);
    var r := StripEnd(t, p);
    assert r != [] ==> r[0] == s[Lead(s, p)] && r[|r| - 1] == t[|t| - Trail(t, p) - 1];
    r
  }

  /** The stripped string is a block of consecutive characters of the original. */
  lemma StripSlice(s: string, p: char -> bool) returns (off: nat)
    ensures off + |Strip(s, p)| <= |s|
    ensures forall i :: 0 <= i < |Strip(s, p)| ==> Strip(s, p)[i] == s[off + i]
  {
    off := Lead(s, p);
  }

  /** `Lead` is the length of the longest prefix in `p`. */
  lemma {:induction false} LeadIs(s: string, p: char -> bool, n: nat)
    requires n <= |s| && (forall i :: 0 <= i < n ==> p(s[i])) && (n < |s| ==> !p(s[n]))
    ensures Lead(s, p) == n
    decreases |s|
  {
    if s != [] && p(s[0]) {
      LeadIs(s[1..], p, n - 1);
    }
  }

  /** `Trail` is the length of the longest suffix in `p`. */
  lemma {:induction false} TrailIs(s: string, p: char -> bool, n: nat)
    requires n <= |s| && (forall i :: |s| - n <= i < |s| ==> p(s[i]))
    requires n < |s| ==> !p(s[|s| - n - 1])
    ensures Trail(s, p) == n
    decreases |s|
  {
    if s != [] && p(s[|s| - 1]) {
      var t := s[..|s| - 1];
      TrailIs(t, p, n - 1);
    }
  }

  /** The stripped string with the two runs of `p` it was cut from. */
  lemma StripSplit(s: string, p: char -> bool) returns (x: string, y: string)
    ensures s == x + Strip(s, p) + y
    ensures AllIn(x, p) && AllIn(y, p)
  {
    var t := StripStart(s, p);
    x := s[..Lead(s, p)];
    y := t[|t| - Trail(t, p)..];
    assert s == x + t;
    assert t == StripEnd(t, p) + y;
  }

  /** Stripping removes exactly the runs of `p` put around a string that neither starts
      nor ends in `p`. */
  lemma StripUnique(x: string, r: string, y: string, p: char -> bool)
    requires AllIn(x, p) && AllIn(y, p)
    requires r == [] || (!p(r[0]) && !p(r[|r| - 1]))
    ensures Strip(x + r + y, p) == r
  {
    var s := x + r + y;
    if r == [] {
      assert s == x + y;
      AllInAppend(x, y, p);
      LeadIs(s, p, |s|);
      assert StripStart(s, p) == [];
    } else {
      assert s[|x|] == r[0];
      LeadIs(s, p, |x|);
      var t := s[|x|..];
      assert t == r + y;
      assert t[|t| - |y| - 1] == r[|r| - 1];
      TrailIs(t, p, |y|);
      assert t[..|t| - |y|] == r;
    }
  }

  /** Runs of `p` added at either end change nothing after stripping. */
  lemma StripPad(x: string, s: string, y: string, p: char -> bool)
    requires AllIn(x, p) && AllIn(y, p)
    ensures Strip(x + s + y, p) == Strip(s, p)
  {
    var a, b := StripSplit(s, p);
    var r := Strip(s, p);
    AllInAppend(x, a, p);
    AllInAppend(b, y, p);
    Regroup5(x, a, r, b, y);
    StripUnique(x + a, r, b + y, p);
  }

  /** A character outside `p` ends the leading run of `p`. */
  lemma LeadBefore(s: string, p: char -> bool, i: nat)
    requires i < |s| && !p(s[i])
    ensures Lead(s, p) <= i
  {
  }

  /** Five strings concatenated, grouped in two ways (a lemma, to keep `StripPad` small). */
  lemma Regroup5(x: string, a: string, r: string, b: string, y: string)
    ensures x + (a + r + b) + y == (x + a) + r + (b + y)
  {
  }

  /** A string ending outside `p` loses only its leading run. */
  lemma StripEndsOutside(u: string, p: char -> bool)
    requires u != [] && !p(u[|u| - 1])
    ensures Lead(u, p) < |u| && Strip(u, p) == u[Lead(u, p)..]
  {
    LeadBefore(u, p, |u| - 1);
    var t := u[Lead(u, p)..];
    assert t[|t| - 1] == u[|u| - 1];
    TrailIs(t, p, 0);
  }

  /** A string starting outside `p` loses only its trailing run. */
  lemma StripStartsOutside(v: string, p: char -> bool)
    requires v != [] && !p(v[0])
    ensures Trail(v, p) < |v| && Strip(v, p) == StripEnd(v, p)
  {
    LeadIs(v, p, 0);
  }

  /** A character of `p` between two strings whose facing ends are outside `p` stays
      between their stripped forms. */
  lemma StripJoin(u: string, m: char, v: string, p: char -> bool)
    requires u != [] && !p(u[|u| - 1])
    requires v != [] && !p(v[0])
    requires p(m)
    ensures Strip(u + [m] + v, p) == Strip(u, p) + [m] + Strip(v, p)
  {
    StripEndsOutside(u, p);
    StripStartsOutside(v, p);
    var n := Lead(u, p);
    var x1 := u[..n];
    var s1 := u[n..];
    var s2 := StripEnd(v, p);
    var y2 := v[|s2|..];
    assert u == x1 + s1 && v == s2 + y2;
    assert s1[0] == u[n];
    assert s2[|s2| - 1] == v[|v| - Trail(v, p) - 1];
    forall k | 0 <= k < |y2| ensures p(y2[k]) {
      assert y2[k] == v[|s2| + k];
    }
    var r := s1 + [m] + s2;
    assert u + [m] + v == x1 + r + y2;
    StripUnique(x1, r, y2, p);
  }

  /** Collapsing runs of `p` into `rep` and then stripping `h`: a character of `p` between
      two parts that each hold a character outside `p` becomes exactly one `rep` between
      the two parts' own results. */
  lemma CollapseStripJoin(a: string, c: char, b: string, p: char -> bool, rep: char, h: char -> bool)
    requires p(c) && h(rep) && forall x :: h(x) ==> p(x)
    requires exists i :: 0 <= i < |a| && !p(a[i])
    requires exists i :: 0 <= i < |b| && !p(b[i])
    ensures Strip(CollapseRuns(a + [c] + b, p, rep), h) ==
      Strip(CollapseRuns(a, p, rep), h) + [rep] + Strip(CollapseRuns(b, p, rep), h)
  {
    var a1, w1 := StripEndShape(a, p);
    var w2, b1 := StripStartShape(b, p);
    Regroup(a, c, b, a1, w1, w2, b1);
    CollapseStripPieces(a1, w1, c, w2, b1, p, rep, h);
  }

  /** Moves the character joining `a` and `b` into the middle of the runs around it (a
      lemma, to keep `CollapseStripJoin` small). */
  lemma Regroup(a: string, c: char, b: string, a1: string, w1: string, w2: string, b1: string)
    requires a == a1 + w1 && b == w2 + b1
    ensures a + [c] + b == a1 + (w1 + [c] + w2) + b1
  {
  }

  /** `CollapseStripJoin` for a string cut into its pieces: `a1` ending outside `p`, the
      run `w1 + [c] + w2` of `p`, and `b1` starting outside `p`. */
  lemma CollapseStripPieces(a1: string, w1: string, c: char, w2: string, b1: string,
                            p: char -> bool, rep: char, h: char -> bool)
    requires a1 != [] && !p(a1[|a1| - 1]) && b1 != [] && !p(b1[0])
    requires AllIn(w1, p) && p(c) && AllIn(w2, p)
    requires h(rep) && forall x :: h(x) ==> p(x)
    ensures Strip(CollapseRuns(a1 + (w1 + [c] + w2) + b1, p, rep), h) ==
      Strip(CollapseRuns(a1 + w1, p, rep), h) + [rep] + Strip(CollapseRuns(w2 + b1, p, rep), h)
  {
    var w := w1 + [c] + w2;
    AllInAppend(w1, [c], p);
    AllInAppend(w1 + [c], w2, p);
    CollapseAround(a1, w, b1, p, rep);
    var u := CollapseRuns(a1, p, rep);
    var v := CollapseRuns(b1, p, rep);
    assert u != [] && !h(u[|u| - 1]) by {
      CollapseLast(a1, p, rep);
    }
    assert v != [] && !h(v[0]) by {
      assert v[0] == b1[0];
    }
    StripJoin(u, rep, v, h);
    StripTrailingRun(a1, w1, p, rep, h);
    StripLeadingRun(w2, b1, p, rep, h);
  }

  /** A maximal run of `p`, between a part not ending and a part not starting in `p`,
      collapses to one `rep` between the collapsed parts. */
  lemma CollapseAround(a1: string, w: string, b1: string, p: char -> bool, rep: char)
    requires a1 == [] || !p(a1[|a1| - 1])
    requires w != [] && AllIn(w, p)
    requires b1 == [] || !p(b1[0])
    ensures CollapseRuns(a1 + w + b1, p, rep) ==
      CollapseRuns(a1, p, rep) + [rep] + CollapseRuns(b1, p, rep)
  {
    assert a1 + w + b1 == a1 + (w + b1);
    CollapseSplit(a1, w + b1, p, rep);
    CollapseRun(w, b1, p, rep);
  }

  /** A trailing run of `p` makes no difference once `h` is stripped. */
  lemma StripTrailingRun(a1: string, w1: string, p: char -> bool, rep: char, h: char -> bool)
    requires a1 == [] || !p(a1[|a1| - 1])
    requires AllIn(w1, p) && h(rep)
    ensures Strip(CollapseRuns(a1 + w1, p, rep), h) == Strip(CollapseRuns(a1, p, rep), h)
  {
    var u := CollapseRuns(a1, p, rep);
    var z := CollapseRuns(w1, p, rep);
    CollapseSplit(a1, w1, p, rep);
    CollapseRunAlone(w1, p, rep);
    assert AllIn(z, h);
    assert CollapseRuns(a1 + w1, p, rep) == [] + u + z;
    StripPad([], u, z, h);
  }

  /** A leading run of `p` makes no difference once `h` is stripped. */
  lemma StripLeadingRun(w2: string, b1: string, p: char -> bool, rep: char, h: char -> bool)
    requires AllIn(w2, p) && h(rep)
    requires b1 == [] || !p(b1[0])
    ensures Strip(CollapseRuns(w2 + b1, p, rep), h) == Strip(CollapseRuns(b1, p, rep), h)
  {
    var v := CollapseRuns(b1, p, rep);
    if w2 == [] {
      assert w2 + b1 == b1;
    } else {
      CollapseRun(w2, b1, p, rep);
      assert [rep] + v == [rep] + v + [];
      StripPad([rep], v, [], h);
    }
  }

  /** A run of `p` in front of a text that starts in `p` merges into the text's first run. */
  lemma {:induction false} CollapseMerge(w: string, v: string, p: char -> bool, rep: char)
    requires w != [] && AllIn(w, p)
    requires v != [] && p(v[0])
    ensures CollapseRuns(w + v, p, rep) == CollapseRuns(v, p, rep)
    decreases |w|
  {
    var s := w + v;
    assert s[0] == w[0];
    if |w| == 1 {
      assert s[1..] == v && s[1] == v[0];
    } else {
      assert s[1] == w[1];
      assert s[1..] == w[1..] + v;
      CollapseMerge(w[1..], v, p, rep);
    }
  }

  /** A run of `p` behind a text that ends in `p` merges into the text's last run. */
  lemma {:induction false} CollapseAbsorb(x: string, w: string, p: char -> bool, rep: char)
    requires x != [] && p(x[|x| - 1])
    requires AllIn(w, p)
    ensures CollapseRuns(x + w, p, rep) == CollapseRuns(x, p, rep)
    decreases |x|
  {
    if w == [] {
      assert x + w == x;
    } else if |x| == 1 {
      assert x + w == [x[0]] + w && x == [x[0]] + [];
      CollapseCons(x[0], w, p, rep);
      CollapseCons(x[0], [], p, rep);
      CollapseRunAlone(w, p, rep);
    } else {
      var c, t := x[0], x[1..];
      assert x == [c] + t && x + w == [c] + (t + w);
      CollapseConsAppend(c, t, w, p, rep);
      CollapseConsAppend(c, t, [], p, rep);
      assert t + [] == t;
      assert t[|t| - 1] == x[|x| - 1];
      CollapseAbsorb(t, w, p, rep);
    }
  }

  /** Any run of `p` appended to a text makes no difference once `h` is stripped. */
  lemma StripTrailingAny(a: string, w: string, p: char -> bool, rep: char, h: char -> bool)
    requires AllIn(w, p) && h(rep)
    ensures Strip(CollapseRuns(a + w, p, rep), h) == Strip(CollapseRuns(a, p, rep), h)
  {
    if a != [] && p(a[|a| - 1]) {
      CollapseAbsorb(a, w, p, rep);
    } else {
      StripTrailingRun(a, w, p, rep, h);
    }
  }

  /** Any run of `p` put in front of a text makes no difference once `h` is stripped. */
  lemma StripLeadingAny(w: string, b: string, p: char -> bool, rep: char, h: char -> bool)
    requires AllIn(w, p) && h(rep)
    ensures Strip(CollapseRuns(w + b, p, rep), h) == Strip(CollapseRuns(b, p, rep), h)
  {
    if w == [] {
      assert w + b == b;
    } else if b != [] && p(b[0]) {
      CollapseMerge(w, b, p, rep);
    } else {
      StripLeadingRun(w, b, p, rep, h);
    }
  }

  /** Filtering with two tests that agree on every element gives the same result. */
  lemma {:induction false} KeepSame<T>(s: seq<T>, p: T -> bool, q: T -> bool)
    requires forall i :: 0 <= i < |s| ==> (p(s[i]) <==> q(s[i]))
    ensures Keep(s, p) == Keep(s, q)
  {
    if s != [] {
      KeepSame(s[1..], p, q);
    }
  }

  /** A string holding a character outside `p` is a part ending outside `p` followed by
      its trailing run of `p`. */
  lemma StripEndShape(a: string, p: char -> bool) returns (a1: string, w1: string)
    requires exists i :: 0 <= i < |a| && !p(a[i])
    ensures a == a1 + w1 && a1 != [] && !p(a1[|a1| - 1]) && AllIn(w1, p)
  {
    var i :| 0 <= i < |a| && !p(a[i]);
    var n := Trail(a, p);
    a1, w1 := StripEnd(a, p), a[|a| - n..];
    assert a1[|a1| - 1] == a[|a| - n - 1];
    forall k | 0 <= k < |w1| ensures p(w1[k]) {
      assert w1[k] == a[|a| - n + k];
    }
  }

  /** A string holding a character outside `p` is its leading run of `p` followed by a
      part starting outside `p`. */
  lemma StripStartShape(b: string, p: char -> bool) returns (w2: string, b1: string)
    requires exists i :: 0 <= i < |b| && !p(b[i])
    ensures b == w2 + b1 && b1 != [] && !p(b1[0]) && AllIn(w2, p)
  {
    var i :| 0 <= i < |b| && !p(b[i]);
    LeadBefore(b, p, i);
    PrefixRun(b, Lead(b, p), p);
    w2, b1 := b[..Lead(b, p)], b[Lead(b, p)..];
  }

  /** Cutting a string after a leading run of `p` that a character outside `p` ends. */
  lemma PrefixRun(b: string, n: nat, p: char -> bool)
    requires n < |b| && (forall k :: 0 <= k < n ==> p(b[k])) && !p(b[n])
    ensures b[n..] != [] && !p(b[n..][0]) && b == b[..n] + b[n..] && AllIn(b[..n], p)
  {
    assert b[..n] + b[n..] == b;
    assert b[n..][0] == b[n];
    forall k | 0 <= k < n ensures p(b[..n][k]) {
      assert b[..n][k] == b[k];
    }
  }

  /** Stripping `p` keeps every character a test `q` disjoint from `p` selects. */
  lemma StripKeeps(s: string, p: char -> bool, q: char -> bool)
    requires forall c :: q(c) ==> !p(c)
    ensures Keep(Strip(s, p), q) == Keep(s, q)
  {
    StripStartKeeps(s, p, q);
    StripEndKeeps(StripStart(s, p), p, q);
  }

  lemma StripStartKeeps(s: string, p: char -> bool, q: char -> bool)
    requires forall c :: q(c) ==> !p(c)
    ensures Keep(StripStart(s, p), q) == Keep(s, q)
  {
    var a := Lead(s, p);
    assert s == s[..a] + s[a..];
    KeepAppend(s[..a], s[a..], q);
    KeepNone(s[..a], p, q);
  }

  lemma StripEndKeeps(s: string, p: char -> bool, q: char -> bool)
    requires forall c :: q(c) ==> !p(c)
    ensures Keep(StripEnd(s, p), q) == Keep(s, q)
  {
    var b := |s| - Trail(s, p);
    assert s == s[..b] + s[b..];
    KeepAppend(s[..b], s[b..], q);
    KeepNone(s[b..], p, q);
  }

  lemma KeepNone(s: string, p: char -> bool, q: char -> bool)
    requires forall c :: q(c) ==> !p(c)
    requires forall i :: 0 <= i < |s| ==> p(s[i])
    ensures Keep(s, q) == []
  {
    forall i | 0 <= i < |s| ensures !q(s[i]) {
      assert p(s[i]);
    }
  }

  /** The position of the first `c` in `s`, if there is one. */
  function IndexOf(s: string, c: char): (r: Option<nat>)
    ensures r.None? ==> forall i :: 0 <= i < |s| ==> s[i] != c
    ensures r.Some? ==> r.value < |s| && s[r.value] == c && forall i :: 0 <= i < r.value ==> s[i] != c
  {
    if s == [] then None
    else if s[0] == c then Some(0)
    else match IndexOf(s[1..], c)
      case None => None
      case Some(k) => Some(k + 1)
  }

  /** The first `c` in `s` is at `k`. */
  lemma IndexOfAt(s: string, c: char, k: nat)
    requires k < |s| && s[k] == c
    requires forall i :: 0 <= i < k ==> s[i] != c
    ensures IndexOf(s, c) == Some(k)
  {
  }

  /** Python's `t in s` on strings: `t` occurs in `s` as a block of consecutive characters. */
  predicate Contains(s: string, t: string) {
    t <= s || (s != [] && Contains(s[1..], t))
  }

  function DigitChar(d: nat): (c: char)
    requires d < 10
    ensures '0' <= c <= '9'
  {
    ('0' as int + d) as char
  }

  predicate IsDigits(s: string) {
    forall i :: 0 <= i < |s| ==> '0' <= s[i] <= '9'
  }

  /** `str(n)`: the decimal digits of `n`, most significant first. */
  function DecimalString(n: nat): (s: string)
    ensures |s| >= 1 && IsDigits(s)
    ensures |s| == 1 <==> n < 10
    ensures s[0] == '0' <==> n == 0
    ensures |s| > 1 ==> s[0] != '0'
  {
    if n < 10 then [DigitChar(n)] else DecimalString(n / 10) + [DigitChar(n % 10)]
  }

  /** `int(s)` on a string of decimal digits. */
  function ParseDecimal(s: string): nat
    requires IsDigits(s)
  {
    if s == [] then 0 else 10 * ParseDecimal(s[..|s| - 1]) + (s[|s| - 1] as int - '0' as int)
  }

  lemma {:induction false} ParseDecimalString(n: nat)
    ensures ParseDecimal(DecimalString(n)) == n
  {
    var s := DecimalString(n);
    if n < 10 {
      assert s[..|s| - 1] == [];
    } else {
      assert s[..|s| - 1] == DecimalString(n / 10);
      ParseDecimalString(n / 10);
    }
  }

  /** `str` is one-to-one on natural numbers. */
  lemma DecimalStringInjective(m: nat, n: nat)
    requires DecimalString(m) == DecimalString(n)
    ensures m == n
  {
    ParseDecimalString(m);
    ParseDecimalString(n);
  }
}
