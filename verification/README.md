# postprocess_html, modelled in Dafny

`tools/postprocess_html.py` post-processes an HTML page produced from LaTeX. It
gives every `ltx_title` heading (`<h2>` to `<h4>`) that has no `id` a unique,
URL-safe id derived from its visible text, collects a table of contents (ToC)
entry for each such heading, builds a nested `<ul>` list from those entries and
inserts it right after the `<body>` tag (or in front of the document when there
is none).

The model follows the program's own pieces, one module each:

- `Text`: the character classes and string transforms the program chains together:
  Python's whitespace, ASCII `\w` and lowercasing, filtering, collapsing runs,
  trimming ends, substring search and `str(n)`.
- `Slug`: `slugify`.
- `Tags`: `strip_tags`.
- `Ids`: `unique_id`, with the id set as a class `UsedIds` that it updates in place.
- `Entries`: the ToC entry `(lvl, hid, text)`.
- `Headings`: the `add_id` callback and the substitution pass. The pass is
  specified by a fold `Pass` over the pieces of the document (text between
  matches and heading matches) and implemented by the class `HeadingPass`,
  whose methods update the shared id set and the ToC list the way the closure does.
- `Toc`: the ToC builder. `TocLines` specifies it and the method `BuildToc`
  implements it with the source's cursor loops. The module also covers nesting
  (`Fine`, `Depth`, `WellNested`) and `"\n".join` with its inverse `Split`.
- `Document`: the splice of the ToC block into the document and the whole
  rewrite `Transform`.

The list nesting is balanced only when no entry is shallower than the first
entry. If a later entry is shallower, the closing loop at lines 124-126 closes
the outer list opened at line 111, and line 135 closes it again.
`Toc.WellNestedIff` states both directions of this.

## Model

| member | source | states |
|---|---|---|
| Text.IsSpace | tools/postprocess_html.py:65 | defines Python's whitespace, the characters `\s` matches and `str.strip()` removes (U+0009 to U+000D, U+001C to U+0020, U+0085, U+00A0, U+1680, U+2000 to U+200A, U+2028, U+2029, U+202F, U+205F, U+3000); the `StripTags` contract and lemmas are stated in it |
| Text.Lower | tools/postprocess_html.py:17 | same length; at each position an uppercase ASCII letter becomes the letter 32 code points higher and every other character is kept, so no uppercase ASCII letter is left and text without one is unchanged |
| Text.LowerAppend | tools/postprocess_html.py:17 | lowercasing the concatenation of two texts is the concatenation of their lowercased forms |
| Text.Keep | tools/postprocess_html.py:18 | the filter keeps only elements passing the test, keeps everything when all pass, and is empty exactly when none passes |
| Text.KeepAppend | tools/postprocess_html.py:18 | filtering a concatenation is the concatenation of the filtered parts |
| Text.CollapseRuns | tools/postprocess_html.py:19 | every character is the replacement or a copied character outside the class, no two class characters are adjacent, and the result is empty exactly when the input is |
| Text.CollapseKeeps | tools/postprocess_html.py:19 | collapsing runs loses no character outside the class |
| Text.CollapseRun | tools/postprocess_html.py:19 | a non-empty run of class characters followed by the end of the text or a character outside the class becomes one replacement |
| Text.CollapseSplit | tools/postprocess_html.py:19 | after a character outside the class, the rest of the text collapses independently of what came before |
| Text.CollapseMerge | tools/postprocess_html.py:19 | a run of class characters in front of a text that starts with one merges into the text's first run |
| Text.CollapseAbsorb | tools/postprocess_html.py:19 | a run of class characters behind a text that ends with one merges into the text's last run |
| Text.StripLeadingAny | tools/postprocess_html.py:19 | any run of class characters put in front of a text makes no difference once the result is stripped |
| Text.StripTrailingAny | tools/postprocess_html.py:19 | any run of class characters appended to a text makes no difference once the result is stripped |
| Text.CollapseAround | tools/postprocess_html.py:19 | a maximal run of class characters, between a part not ending and a part not starting in the class, becomes exactly one replacement between the collapsed parts |
| Text.CollapseStripJoin | tools/postprocess_html.py:19 | collapsing and then stripping a text with one class character between two parts that each hold a character outside the class gives the two parts' results joined by one replacement |
| Text.Strip | tools/postprocess_html.py:65 | neither end of the result is in the class, and a string whose ends are already outside it is unchanged |
| Text.StripSlice | tools/postprocess_html.py:65 | the stripped string is a block of consecutive characters of the original |
| Text.StripKeeps | tools/postprocess_html.py:65 | stripping loses no character outside the stripped class |
| Text.StripUnique | tools/postprocess_html.py:65 | stripping removes exactly the runs of class characters put around a text that neither starts nor ends in the class |
| Text.StripPad | tools/postprocess_html.py:65 | runs of class characters added at either end change nothing after stripping |
| Text.StripJoin | tools/postprocess_html.py:65 | a class character between two texts whose facing ends are outside the class stays between their stripped forms |
| Text.IndexOf | tools/postprocess_html.py:64 | the position found holds the character and no earlier one does; none is found exactly when the character does not occur |
| Text.Contains | tools/postprocess_html.py:88-92 | defines Python's `t in s` on strings; `ContainsAt` states its meaning |
| Headings.ContainsAt | tools/postprocess_html.py:88-92 | `t in s` holds exactly when some block of consecutive characters of `s` is `t` |
| Text.DecimalString | tools/postprocess_html.py:33 | `str(n)` is a non-empty string of decimal digits, one digit exactly for `n < 10`, starting with `0` only for `n == 0`, and never with a leading zero when longer than one digit |
| Text.ParseDecimalString | tools/postprocess_html.py:33 | reading the digits of `str(n)` back gives `n` |
| Text.DecimalStringInjective | tools/postprocess_html.py:33 | different numbers give different digit strings |
| Slug.IsKept | tools/postprocess_html.py:18 | defines the characters `[^\w\s-]` does not delete: ASCII letters, digits and `_`, whitespace, and `-` |
| Slug.IsSeparator | tools/postprocess_html.py:19 | defines the characters `[\s_-]` matches: whitespace, `_` and `-` |
| Slug.Slugify | tools/postprocess_html.py:7-20 | the result is a slug (non-empty; lowercase letters, digits and single inner hyphens); it is the fallback `"section"` when the text has no letter or digit; otherwise its letters and digits are those of the lowercased text, in order |
| Slug.Cleaned | tools/postprocess_html.py:17-19 | defines the text lines 17-19 leave: lowercase, filter, collapse separator runs into `-`, trim hyphens; `CleanedShape` states its shape |
| Slug.CleanedShape | tools/postprocess_html.py:17-19 | the cleaned text is empty exactly when the text has no letter or digit, is a slug otherwise, and keeps the letters and digits in order |
| Slug.SlugFixedPoints | tools/postprocess_html.py:17-20 | `slugify` leaves a string unchanged exactly when it is a slug |
| Slug.SlugifyIdempotent | tools/postprocess_html.py:7-20 | applying `slugify` to its own result changes nothing |
| Slug.SlugJoin | tools/postprocess_html.py:88-93 | two slugs joined by a hyphen form a slug |
| Slug.SlugifyJoin | tools/postprocess_html.py:17-20 | a separator (whitespace, `_` or `-`) between two texts that each hold a letter or digit becomes exactly one hyphen: the slug of the whole is the two slugs joined by `-` |
| Slug.SlugifyNoSeparator | tools/postprocess_html.py:17-20 | a text with no whitespace, `_` or `-` that holds a letter or digit slugs to exactly its lowercased letters and digits, so no hyphen appears |
| Slug.SlugifyPadFront | tools/postprocess_html.py:17-20 | text with no letter or digit in front of a text changes nothing |
| Slug.SlugifyPadBack | tools/postprocess_html.py:17-20 | text with no letter or digit behind a text changes nothing |
| Slug.SlugifyWord | tools/postprocess_html.py:17-20 | a non-empty text of ASCII letters and digits slugs to itself, lowercased |
| Slug.SlugifyIntro | tools/postprocess_html.py:17-20 | `Intro` slugs to `intro` |
| Slug.HasNonSeparator | tools/postprocess_html.py:17-18 | a text with a letter or digit keeps, after lowercasing and filtering, a character that is not a separator |
| Tags.TagLength | tools/postprocess_html.py:64 | a match of `<[^>]+>` at the start is a `<`, at least one non-`>` character, then `>`; when none matches there is no `>` to close it or it comes immediately |
| Tags.RemoveTags | tools/postprocess_html.py:64 | the result is no longer than the input and each character is a space or comes from the input; with `RemoveTagsSkip` and `RemoveTagsIdentity` every output is fixed |
| Tags.TagLengthOfTag | tools/postprocess_html.py:64 | a whole tag at the start of a text is matched exactly, up to and including its `>` |
| Tags.RemoveTagsSkip | tools/postprocess_html.py:64 | text in which no tag starts (each `<` in it is directly followed by `>`) is copied, the first tag after it becomes one space, and the substitution goes on after the tag as on a text of its own |
| Tags.RemoveTagsStray | tools/postprocess_html.py:64 | `a<>b<i>c` becomes `a<>b c`: the `<>` is kept and the tag after it replaced |
| Tags.RemoveTagsNoOpen | tools/postprocess_html.py:64 | a text without `<` is left as it is |
| Tags.RemoveTagsLeavesNoTag | tools/postprocess_html.py:64 | no match of `<[^>]+>` is left after the substitution |
| Tags.RemoveTagsIdentity | tools/postprocess_html.py:64 | the substitution leaves the text unchanged exactly when it holds no tag |
| Tags.CollapseKeepsNoTag | tools/postprocess_html.py:65 | collapsing whitespace keeps a tag-free text tag-free |
| Tags.StripTags | tools/postprocess_html.py:59-66 | no whitespace at either end, never two whitespace characters in a row, every whitespace character is a plain space, and no tag is left |
| Tags.StripTagsKeepsText | tools/postprocess_html.py:64-65 | apart from the tags, only whitespace is lost |
| Tags.StripTagsJoin | tools/postprocess_html.py:64-65 | any whitespace character between two texts without `<` that each hold a visible character becomes exactly one space between their visible texts |
| Tags.StripTagsAfterRemove | tools/postprocess_html.py:64-65 | removing the tags first changes nothing: `strip_tags` sees only what line 64 leaves |
| Tags.StripTagsWord | tools/postprocess_html.py:64-65 | a text with neither whitespace nor `<` comes through unchanged, so no space is added between its characters |
| Tags.StripTagsPad | tools/postprocess_html.py:64-65 | whitespace in front of and behind a text without `<` makes no difference |
| Tags.StripTagsTag | tools/postprocess_html.py:64-65 | a tag after a text without `<`, followed by more text, becomes exactly one space between the two visible texts when both hold a visible character |
| Tags.StripTagsNewline | tools/postprocess_html.py:64-65 | `a`, newline, `b` reads `a b` |
| Tags.StripTagsItalic | tools/postprocess_html.py:64-65 | `1<i>x</i>` reads `1 x` |
| Ids.Candidate | tools/postprocess_html.py:33 | defines the probe `f"{base}-{i}"`; its contract states that a probe never equals the base and is a slug whenever the base is; `CandidateInjective` and `ProbedNext` state how probes differ from each other |
| Ids.CandidateInjective | tools/postprocess_html.py:32-35 | probes with different numbers are different strings |
| Ids.ProbedNext | tools/postprocess_html.py:32-33 | each probe differs from all earlier ones, so each failed probe is a new member of the used set |
| Ids.FirstFree | tools/postprocess_html.py:31-33 | the probing stops at the first free probe, and every probe before it is in use |
| Ids.Resolve | tools/postprocess_html.py:28-36 | the id is not in use; it is `base` exactly when `base` is free, and otherwise `base-k` for the least `k >= 2` whose probe is free |
| Ids.UsedIds.constructor | tools/postprocess_html.py:56 | the set of used ids starts as the harvested ids |
| Ids.UniqueId | tools/postprocess_html.py:23-38 | returns an id that was not in use, adds exactly that id to the set, and returns the id `Resolve` describes |
| Headings.Whole | tools/postprocess_html.py:81 | defines `m.group(0)`, the matched heading as written, which `AddId` returns for a heading that has an id |
| Headings.IdPrefix | tools/postprocess_html.py:88-93 | the markers are tested in if/elif order: the section marker gives `sec-`; failing it, the subsection marker gives `subsec-`; failing both, the subsubsection marker gives `subsubsec-`; the prefix is empty exactly when none is present, and otherwise it is a slug word followed by a hyphen |
| Headings.BaseId | tools/postprocess_html.py:84-93 | defines the id a heading asks for: the prefix followed by the slug of its visible text; `BaseIdIsSlug` states it is a slug |
| Headings.Rewrite | tools/postprocess_html.py:101 | defines the rebuilt heading; `RewriteInsertsId` states what it changes |
| Headings.RewriteInsertsId | tools/postprocess_html.py:101 | when the closing tag is written `</hN>`, the rebuilt heading is the matched one with ` id="hid"` inserted after the opening tag and nothing else changed |
| Headings.Advance | tools/postprocess_html.py:68-101 | defines one step of the pass over a piece; `HeadingPass.AddId` implements it and `PassIdsFresh`, `PassEntries` and `PassOutput` state what the steps add up to |
| Headings.Pass | tools/postprocess_html.py:104 | defines the pass as `Advance` over the pieces left to right; its properties are the `Pass…` lemmas |
| Headings.BaseIdIsSlug | tools/postprocess_html.py:84-93 | the requested id, prefixed by section depth, is a slug |
| Headings.PrefixKeepsSlug | tools/postprocess_html.py:88-93 | the `sec-`, `subsec-` or `subsubsec-` prefix keeps a slug a slug |
| Headings.ResolveIsSlug | tools/postprocess_html.py:96 | making a slug unique gives a slug |
| Headings.PassIdsFresh | tools/postprocess_html.py:56-104 | every id the pass assigns is outside the ids in use before it and differs from every other id it assigns; the used set grows by exactly these ids |
| Headings.PassEntries | tools/postprocess_html.py:80-99 | the pass appends one entry per heading without an id, in document order, with that heading's level, its visible text and a slug id |
| Headings.PassOutput | tools/postprocess_html.py:80-104 | the new document is the old one with each heading without an id rebuilt around its assigned id and every other piece copied |
| Headings.NoUnlabelledUnchanged | tools/postprocess_html.py:80-104 | when every heading has an id, the pass returns the document unchanged and adds no entry and no id |
| Headings.HeadingPass.constructor | tools/postprocess_html.py:56-57 | the shared id set starts as the harvested ids and the ToC list as empty |
| Headings.HeadingPass.AddId | tools/postprocess_html.py:68-101 | a heading with an id comes back whole and changes nothing; otherwise it is rebuilt with `id="hid"`, one entry `(lvl, hid, text)` is appended and `hid` is added to the used ids |
| Headings.HeadingPass.Substitute | tools/postprocess_html.py:103-104 | the substituted text, the used ids and the ToC list are those of the pass `Pass` |
| Toc.Header | tools/postprocess_html.py:108-112 | defines the three lines every ToC starts with; `HeaderFine` states that they open exactly one list |
| Toc.HeaderFine | tools/postprocess_html.py:108-112 | the starting lines open one list and close none |
| Toc.Moves | tools/postprocess_html.py:119-126 | defines the openings, or else the closings, that move the cursor from `prev_lvl` to `lvl`; `MovesDepth` states their effect |
| Toc.MovesDepth | tools/postprocess_html.py:119-126 | the lists opened minus those closed by the cursor loops equal `lvl - prev_lvl` |
| Toc.Body | tools/postprocess_html.py:117-128 | defines the lines the loop over the entries emits; `BodyItems`, `BodyDepth` and `BodyFine` state what they hold |
| Toc.Closing | tools/postprocess_html.py:131-133 | defines the closings after the loop; `ClosingDepth` states their effect |
| Toc.ClosingDepth | tools/postprocess_html.py:131-133 | the closings bring the cursor from `prev_lvl` back down to `base_lvl`, and there are none when it is not above it |
| Toc.TocLines | tools/postprocess_html.py:108-135 | defines the ToC lines; `BuildToc` implements it, and `TocItems`, `BodyDepth` and `WellNestedIff` state its shape |
| Toc.ItemLine | tools/postprocess_html.py:128 | defines the entry line `<li><a href="#hid">text</a></li>`; `TocItems` and `ItemNoNewline` state its place and shape |
| Toc.BuildToc | tools/postprocess_html.py:107-135 | the builder's loops emit exactly the lines `TocLines` describes |
| Toc.BodyItems | tools/postprocess_html.py:117-128 | the entry lines the loop emits are one per entry, in entry order |
| Toc.TocItems | tools/postprocess_html.py:107-135 | the only `<li>` lines of the ToC are one per entry, in entry order |
| Toc.BodyDepth | tools/postprocess_html.py:117-128 | after each entry the cursor `prev_lvl` sits at that entry's level, and the lists opened minus those closed equal its distance from the first level |
| Toc.BodyFine | tools/postprocess_html.py:117-128 | inside the outer list, the loop's lines close no list that is not open exactly when no entry is shallower than the first |
| Toc.WellNestedIff | tools/postprocess_html.py:107-135 | the ToC nests properly and closes every list it opens exactly when no entry is shallower than the first |
| Toc.Join | tools/postprocess_html.py:136 | defines `"\n".join`; `SplitJoin` is its inverse |
| Toc.SplitJoin | tools/postprocess_html.py:136 | joining lines without newlines by `"\n"` is undone by splitting at newlines |
| Toc.ItemNoNewline | tools/postprocess_html.py:128 | an entry line holds no newline when its id and text hold none |
| Toc.TocBlock | tools/postprocess_html.py:136 | defines the ToC block as the builder's lines joined by newlines; `TocBlockLines` states that it splits back into them |
| Toc.TocBlockLines | tools/postprocess_html.py:108-136 | when no id or text holds a newline, the ToC block splits back into the builder's lines |
| Document.Splice | tools/postprocess_html.py:140-151 | the block sits on its own line right after the body tag's end, or in front of the document followed by a newline |
| Document.UnspliceSplice | tools/postprocess_html.py:140-151 | deleting the inserted block and its newlines gives back the document |
| Document.Assemble | tools/postprocess_html.py:106-151 | defines the output after the pass; `AssembleAdds` and `NothingToLabel` state what it adds |
| Document.Transform | tools/postprocess_html.py:104-151 | the output is the pass's text with the ToC of its entries spliced in where the body-tag search points, and unchanged when there is no entry |
| Document.NothingToLabel | tools/postprocess_html.py:104-107 | a document whose headings all carry an id is written back unchanged |
| Document.AssembleAdds | tools/postprocess_html.py:107-151 | with entries, the output is the substituted document plus the ToC block and nothing else |
| Document.StripTagsNoNewline | tools/postprocess_html.py:65 | the visible text of a heading holds no newline |
| Document.PassBlockLines | tools/postprocess_html.py:99-136 | the ToC block of a pass splits back into the builder's lines |
| Document.PassTocItems | tools/postprocess_html.py:99-128 | the ToC links each heading the pass labelled, in document order, to its new id under its visible text |
| Document.PassNested | tools/postprocess_html.py:107-135 | the ToC of a pass nests properly exactly when no heading it lists is shallower than the first |

## Left out

- Reading and writing the files, and the replacement of undecodable bytes (lines 46 and 154), are I/O.
- The command line check, the usage message and the exit codes (lines 158-163) are process plumbing.
- The regex engine is not modelled; its results are inputs. The heading pattern (lines 49-53, with DOTALL, IGNORECASE and the lazy body) becomes the document given as a sequence of pieces: the text between matches, and match records with their groups. The harvest of existing ids (line 56) is the initial id set. The id test on the attributes (line 80) is each match's `hasId` flag. The body-tag search (line 139) is the function `findBody`, which is only assumed to return a position inside the text it searches.
- The Unicode decomposition and the removal of combining marks (lines 15-16) are the parameter `fold`, because they are table lookups.
- Slug.Slugify: models `\w` and `str.lower` on ASCII only. Non-ASCII letters and digits, which Python's `\w` keeps, are dropped here, and non-ASCII uppercase letters are not lowercased. Python's whitespace is modelled in full.
- Headings.HeadingPass.Substitute: requires the ToC list to be empty when it starts, as it is in the program (line 57). It is not specified for a list that already holds entries.
