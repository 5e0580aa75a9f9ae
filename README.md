# marmite HTML post-processing, modelled in Dafny

marmite is a static site generator. It renders Markdown to HTML, then
post-processes the HTML. This project models that post-processing, from
`src/parser.rs`, and proves properties about it:

- **Table of contents** (`get_table_of_contents_from_html`, module `Toc`). The
  matched headings become nested `<ul>` lists with one `<li>` per heading.
  `TableOfContents` is the source's loop, with its running `toc` string and
  `last_level`. It is proved equal to `Render` of a list of lines: `<ul>`,
  `</ul>` or one `<li>`. The lemmas prove three things about those lines: they
  are balanced, the depth never leaves `0..6`, and there is exactly one item
  per heading, in order, at the heading's depth.
- **Back-link collection** (`get_links_to`, module `LinksTo`). Every
  `href="page.html#heading"` that does not start with `http` gives the page,
  without its leading `./`s, followed by the heading. The result is `None`
  when nothing is collected. `GetLinksTo` is the source's loop. It is proved
  against `Collected`, and the lemmas cover order, membership and emptiness.
- **Broken-reference callback** (`warn_broken_link`, module `BrokenLinks`). It
  never resolves a reference. It warns unless the text is one of the allowed
  shapes. The single-character rule uses the UTF-8 byte length, as Rust's
  `str::len` does, so a lone non-ASCII character warns.
- **Internal-link rewriting** (`fix_internal_links`, module `InternalLinks`).
  Anchors, footnote links, hrefs starting with `.`, media files and URLs with
  a scheme are kept verbatim. Any other link has its href parsed against the
  dummy base `m://m/`. When that parse fails, the href is kept. Otherwise the
  new href is built from the slugged path and the slugged fragment:
  - `path.html` appears only when the slugged path is non-empty;
  - `#fragment` appears only when the slugged fragment is non-empty.

  The link text loses its leading `#`s, then its trailing `.md`s, then its
  trailing `.html`s, so `a.md.html` is shown as `a.md`. Each remaining `#`
  becomes ` > `.
- **Front-matter detection** (`parse_front_matter`, module `FrontMatter`).
  Leading newlines are dropped. A document opening with `---`, `+++` or `{` is
  handed to the extractor. Any other document has empty front matter and the
  rest as its body.

Shared modules:

- `RustStr` models the Rust string operations the code relies on:
  - `trim_start_matches` and `trim_end_matches` strip repeatedly;
  - `replace` scans left to right, without overlaps;
  - `split` at the first `#`, as URL fragments are read;
  - UTF-8 length;
  - `is_ascii_digit`.
- `Wrappers` holds `Option`.
- `SeqFacts` holds generic sequence lemmas.

## Model

| member | source | states |
|---|---|---|
| `Toc.TableOfContents` | src/parser.rs:62-99 | the loop's string is exactly the rendering of the lines: the opens or closes that take the depth from `last_level` to each heading's level, then its `<li>`, then one `</ul>` per list still open; no headings give the empty string |
| `Toc.PushHeading` | src/parser.rs:76-91 | one heading appends `<ul>`s (level rises) or `</ul>`s (level falls) or nothing (equal), then its `<li>` line, and the string stays the rendering of the lines |
| `Toc.PushCopies` | src/parser.rs:94-96 | a `push_str` loop appends exactly `n` copies of one line |
| `Toc.TocBalanced` | src/parser.rs:76-96 | every prefix of the output has between 0 and 6 open lists, and the output has as many `</ul>` as `<ul>` |
| `Toc.TocItems` | src/parser.rs:68-92 | the `<li>` lines are exactly one per heading, in document order |
| `Toc.TocItemDepth` | src/parser.rs:76-91 | when heading `i`'s `<li>` is written, exactly `level` lists are open |
| `Toc.SingleHeadingLines` | src/parser.rs:416-421 | a single heading at level `n` sits inside `n` opened lists, all closed after it |
| `Toc.NestedHeadingsLines` | src/parser.rs:434-443 | headings at levels 1, 2, 1 give `<ul>`, item, `<ul>`, item, `</ul>`, item, `</ul>` |
| `LinksTo.GetLinksTo` | src/parser.rs:26-43 | the loop returns `None` when no capture qualifies and otherwise `Some` of the entries of the non-`http` captures in order |
| `LinksTo.CollectedEmptyIff` | src/parser.rs:39-42 | the result is empty exactly when every captured href starts with `http`, so `Some` never holds an empty vector |
| `LinksTo.CollectedAt` | src/parser.rs:29-38 | each qualifying capture's entry appears in the result, right after the entries of the captures before it |
| `LinksTo.CollectedFrom` | src/parser.rs:29-38 | every entry in the result comes from some qualifying capture |
| `LinksTo.CollectedAppend` | src/parser.rs:29-38 | collecting from two stretches of captures concatenates their results |
| `LinksTo.EntryParts` | src/parser.rs:33-35 | an entry is the page with every leading `./` removed (putting them back gives the page), followed by the heading as captured |
| `LinksTo.EntryIgnoresDotSlash` | src/parser.rs:274-286 | `./test1` and `test1` give the same entry |
| `BrokenLinks.WarnBrokenLink` | src/parser.rs:46-60 | the callback never resolves a reference |
| `BrokenLinks.IsAllowed` | src/parser.rs:48-55 | a reference passes exactly when it is empty, starts with one of `! # ^ /` or with `http`, or is a single ASCII non-digit character; a lone non-ASCII character does not pass, because `len` counts UTF-8 bytes |
| `BrokenLinks.WarnsOnSingleCharacters` | src/parser.rs:54 | the task boxes `x` and ` ` pass, while a lone digit and a lone non-ASCII letter warn |
| `InternalLinks.FixInternalLinks` | src/parser.rs:147-215 | text between matches is copied and each match is replaced by `Rewritten`; when every link is of a skipped kind, the HTML comes back unchanged |
| `InternalLinks.Rewritten` | src/parser.rs:149-213 | the closure: a skipped link is returned as it is (`SkipRules`, `MediaLinksKept`); a plain `<a href="h">t</a>` that is not skipped becomes `<a href="new">new text</a>` |
| `InternalLinks.KeptVerbatim` | src/parser.rs:164-178 | since a match starts with `<a`, the leading-`/` test on it never fires, and a link is kept exactly when one of the other six conditions holds |
| `InternalLinks.SkipRules` | src/parser.rs:164-178 | anchor, footnote-reference, footnote-backref, `.`-relative and scheme links are each returned unchanged |
| `InternalLinks.MediaLinksKept` | src/parser.rs:154-172 | a link whose lowercased href ends in any of the 39 media extensions is returned unchanged |
| `InternalLinks.EndsWithAnyIff` | src/parser.rs:162 | the media test holds exactly when some extension ends the lowercased href |
| `InternalLinks.BuildNewHref` | src/parser.rs:193-200 | the `write!` sequence builds `path.html` when the path is non-empty, followed by `#fragment` when the fragment is non-empty |
| `InternalLinks.ResolvedHref` | src/parser.rs:180-203 | when the parse against `m://m/` fails, the href is kept; otherwise the new href reads back as `path.html` (or nothing) and the fragment (or none), from the slugged path and fragment |
| `InternalLinks.NewHrefSplit` | src/parser.rs:180-203 | splitting the new href at its first `#` gives back `path.html` (or nothing) and the fragment (or none) |
| `InternalLinks.PagePathDropsExtension` | src/parser.rs:181-187 | the parsed path `/page.md` or `/page.html` names `page` |
| `InternalLinks.DropExtension` | src/parser.rs:185-186 | trimming `.md`s and then `.html`s from `name.md` or `name.html` leaves `name` |
| `InternalLinks.NewText` | src/parser.rs:205-209 | the new link text contains no `#` |
| `InternalLinks.NewTextParts` | src/parser.rs:205-209 | the text is some `#`s, the kept part, some `.html`s and some `.md`s; each trim removes exactly those, in that order, and the rest has its `#`s replaced |
| `InternalLinks.PlainTextUnchanged` | src/parser.rs:205-209 | text without `#` and without a `.md`/`.html` ending is kept as it is |
| `InternalLinks.NewTextDropsExtension` | src/parser.rs:239-250 | link text `name.md` or `name.html` is shown as `name` |
| `InternalLinks.ReplaceHrefAttribute` | src/parser.rs:211 | in a plain link, the first `replace` changes only the href attribute |
| `InternalLinks.ReplaceLinkText` | src/parser.rs:212 | the second `replace` changes only the `>text</a>` tail |
| `FrontMatter.ParseFrontMatter` | src/parser.rs:217-225 | a document without front matter gets an empty front-matter map |
| `FrontMatter.ParseShape` | src/parser.rs:218-224 | the body or handed-on content is the input minus its leading newlines; it is handed on exactly when it opens with `---`, `+++` or `{` |
| `FrontMatter.LeadingNewlineIgnored` | src/parser.rs:218 | an extra leading newline changes nothing |
| `FrontMatter.ParseBodyAgain` | src/parser.rs:217-223 | parsing the body of a document without front matter again gives the same result |

## Left out

- `append_references` (src/parser.rs:14-21) reads a file from disk. It is I/O and is not modelled.
- `get_html` and `get_html_with_options` (src/parser.rs:103-142) are not modelled. They configure and call the comrak Markdown renderer, an external library. Only the post-processing they apply is modelled.
- `extract_fm_content` (src/parser.rs:227-232) is not modelled. It calls the external frontmatter parser. `FrontMatter.ParseFrontMatter` stops at `Extract(content)`, the point where the content is handed to it.
- Front-matter values are kept as strings. The library's value type is not part of this model.
- Regular expressions are not modelled. Each operation takes the sequence of matches, with their capture groups, as input. The regex engine's leftmost-first matching is left out.
- `Url::parse`, `slugify` and Unicode `to_lowercase` are not modelled. They are arbitrary functions in `InternalLinks.Env`, and the TOC takes `slugify` as a parameter. Results that depend on their concrete behaviour are not stated.
- The `log::warn!` message is not modelled. `BrokenLinks.Outcome.warns` records whether it is emitted.
- The `span` and `normalized` fields of comrak's broken-link reference are not modelled. The callback reads only `original`.
- `InternalLinks.Rewritten`: states the rewritten link only for the plain `<a href="...">...</a>` shape. It assumes a text without `"` and a new href without `>`. For other links, `Rewritten` gives the result as two `replace` calls, with no closed form.
- `InternalLinks.ResolvedHref` and `InternalLinks.NewHrefSplit`: assume a slugged path without `#`, because `slugify` is not modelled.
- `Toc.TableOfContents`: heading levels are 1 to 6, as the regex `<h([1-6])` guarantees. The source's `map_or(0, ...)` fallback for a missing group cannot occur and is not modelled.
- The test `link.starts_with('/')` at src/parser.rs:167 is modelled as written. It is dead code (see `InternalLinks.KeptVerbatim`), so absolute hrefs such as `/about` are rewritten. No corrected variant is given: the code does not show which behaviour was intended.
