/**
 * Rewriting of internal links in rendered HTML (`fix_internal_links`).
 *
 * The regex `<a[^>]*href="([^"]+)"[^>]*>(.*?)</a>` is not modelled: the
 * HTML arrives already split into the text between matches and the matches
 * themselves, each with its whole text (`link`), group 1 (`href`) and
 * group 2 (`text`). `Url::parse`, `slugify` and Unicode `to_lowercase` are
 * collaborators given as functions.
 */
module InternalLinks {
  import opened Wrappers
  import opened RustStr
  import opened SeqFacts

  /** The parts of a parsed URL the rewrite reads. */
  datatype Url = Url(scheme: string, path: string, fragment: Option<string>)

  /** `slugify`, `Url::parse` (`None` for an error) and `to_lowercase`. */
  datatype Env = Env(slugify: string -> string, parseUrl: string -> Option<Url>, lowercase: string -> string)

  datatype LinkMatch = LinkMatch(link: string, href: string, text: string)

  /** The HTML as the regex splits it: text between links, and links. */
  datatype Segment = Gap(html: string) | Match(m: LinkMatch)

  /** Hrefs ending in one of these (after lowercasing) point at media, not pages. */
  const MediaExtensions: seq<string> := [
    ".jpg", ".jpeg", ".png", ".gif", ".webp", ".svg", ".avif", ".bmp", ".tiff", ".tif",
    ".ico", ".pdf", ".mp4", ".mov", ".avi", ".mkv", ".webm", ".mp3", ".wav", ".ogg",
    ".flac", ".zip", ".tar", ".gz", ".7z", ".rar", ".doc", ".docx", ".xls", ".xlsx",
    ".ppt", ".pptx", ".txt", ".csv", ".json", ".xml", ".yaml", ".yml", ".toml"
  ]

  predicate IsMediaFile(env: Env, href: string) {
    EndsWithAny(env.lowercase(href), MediaExtensions)
  }

  /** `exts.iter().any(|ext| s.ends_with(ext))`. */
  predicate EndsWithAny(s: string, exts: seq<string>)
    decreases |exts|
  {
    exts != [] && (EndsWith(s, exts[0]) || EndsWithAny(s, exts[1..]))
  }

  lemma {:induction false} EndsWithAnyIff(s: string, exts: seq<string>)
    ensures EndsWithAny(s, exts) <==> exists i :: 0 <= i < |exts| && EndsWith(s, exts[i])
    decreases |exts|
  {
    if exts != [] {
      EndsWithAnyIff(s, exts[1..]);
      assert forall i :: 1 <= i < |exts| ==> exts[i] == exts[1..][i - 1];
    }
  }

  /** `Url::parse(href)` succeeds with a non-empty scheme. */
  predicate HasScheme(env: Env, href: string) {
    match env.parseUrl(href)
    case Some(u) => u.scheme != []
    case None => false
  }

  /** The links returned unchanged: heading anchors, footnote references and
      back-references, relative paths starting with `.`, media files and URLs
      with a scheme. `link` is the whole match and so begins `<a`: the test for
      a leading `/` on it never succeeds, and an absolute href such as `/about`
      is rewritten like a relative one. */
  predicate KeptVerbatim(env: Env, m: LinkMatch)
    ensures StartsWith(m.link, "<a") ==> !StartsWith(m.link, "/")
    ensures StartsWith(m.link, "<a") ==> (KeptVerbatim(env, m) <==>
      || Contains(m.link, "class=\"anchor\"")
      || Contains(m.link, "data-footnote-ref")
      || Contains(m.link, "footnote-backref")
      || StartsWith(m.href, ".")
      || IsMediaFile(env, m.href)
      || HasScheme(env, m.href))
  {
    assert StartsWith(m.link, "<a") ==> m.link[0] == '<';
    || Contains(m.link, "class=\"anchor\"")
    || Contains(m.link, "data-footnote-ref")
    || Contains(m.link, "footnote-backref")
    || StartsWith(m.link, "/")
    || StartsWith(m.href, ".")
    || IsMediaFile(env, m.href)
    || HasScheme(env, m.href)
  }

  /** The page named by a parsed path: leading `/`s, then trailing `.md`s, then trailing `.html`s removed. */
  function PagePath(path: string): string {
    TrimEndMatches(TrimEndMatches(TrimStartMatches(path, "/"), ".md"), ".html")
  }

  /** The href built from a slugged path and a slugged fragment. */
  function NewHref(path: string, fragment: string): string {
    (if path != [] then path + ".html" else []) + (if fragment != [] then "#" + fragment else [])
  }

  /** `new_href` built by successive `write!`s. */
  method BuildNewHref(path: string, fragment: string) returns (newHref: string)
    ensures newHref == NewHref(path, fragment)
  {
    newHref := "";
    if path != [] {
      newHref := newHref + path + ".html";
    }
    if fragment != [] {
      newHref := newHref + "#" + fragment;
    }
  }

  /** The new href: the href is parsed relative to a dummy base, and its
      path and fragment are slugged; when that parse fails the href stays.
      Read back as a URL, the new href has path `path.html` exactly when the
      slugged path is non-empty and fragment `fragment` exactly when the
      slugged fragment is non-empty (given a slug without `#`). */
  function ResolvedHref(env: Env, href: string): string
    ensures match env.parseUrl("m://m/" + href)
      case None => ResolvedHref(env, href) == href
      case Some(u) =>
        var path := env.slugify(PagePath(u.path));
        var fragment := match u.fragment case Some(f) => env.slugify(f) case None => "";
        '#' !in path ==>
          SplitAtFirst(ResolvedHref(env, href), '#')
          == (if path != [] then path + ".html" else "", if fragment != [] then Some(fragment) else None)
  {
    match env.parseUrl("m://m/" + href)
    case Some(u) =>
      var path := env.slugify(PagePath(u.path));
      var fragment := match u.fragment case Some(f) => env.slugify(f) case None => "";
      if '#' !in path then (NewHrefSplit(path, fragment); NewHref(path, fragment))
      else NewHref(path, fragment)
    case None => href
  }

  /** The new link text: leading `#`s, trailing `.md`s and then trailing
      `.html`s removed, and every remaining `#` shown as ` > `, so that no `#`
      is left. */
  function NewText(text: string): string
    ensures '#' !in NewText(text)
  {
    var kept := TrimEndMatches(TrimEndMatches(TrimStartMatches(text, "#"), ".md"), ".html");
    assert '#' !in " > ";
    ReplaceCharRemovesIt(kept, '#', " > ");
    ReplaceAll(kept, "#", " > ")
  }

  /** What the replacement closure returns for one match. A plain link
      `<a href="...">...</a>` that is not skipped gets both its href and its
      text replaced, provided the text has no `"` (so the href attribute does
      not reappear in it) and the new href has no `>` (so the text pattern is
      not found inside it). */
  function Rewritten(env: Env, m: LinkMatch): string
    ensures
      && !KeptVerbatim(env, m) && m.link == PlainLink(m.href, m.text)
      && '"' !in m.text && '>' !in ResolvedHref(env, m.href)
      ==> Rewritten(env, m) == PlainLink(ResolvedHref(env, m.href), NewText(m.text))
  {
    if KeptVerbatim(env, m) then m.link
    else
      var newHref := ResolvedHref(env, m.href);
      if m.link == PlainLink(m.href, m.text) && '"' !in m.text && '>' !in newHref then
        ReplaceHrefAttribute(m.href, m.text, newHref);
        ReplaceLinkText(newHref, m.text, NewText(m.text));
        ReplaceAll(
          ReplaceAll(m.link, HrefAttribute(m.href), HrefAttribute(newHref)),
          TextTail(m.text), TextTail(NewText(m.text)))
      else
        ReplaceAll(
          ReplaceAll(m.link, HrefAttribute(m.href), HrefAttribute(newHref)),
          TextTail(m.text), TextTail(NewText(m.text)))
  }

  /** `href="..."`, the pattern of the first `replace`. */
  function HrefAttribute(href: string): string {
    "href=\"" + href + "\""
  }

  /** `>...</a>`, the pattern of the second `replace`. */
  function TextTail(text: string): string {
    ">" + text + "</a>"
  }

  /** `re.replace_all(html, closure)`: text between matches is copied, each
      match is rewritten. When every link is one of the skipped kinds, the
      HTML comes back byte for byte. */
  function FixInternalLinks(env: Env, segs: seq<Segment>): string
    ensures (forall i :: 0 <= i < |segs| && segs[i].Match? ==> KeptVerbatim(env, segs[i].m)) ==>
      FixInternalLinks(env, segs) == Html(segs)
    decreases |segs|
  {
    if segs == [] then ""
    else
      var init := segs[..|segs| - 1];
      assert forall i :: 0 <= i < |init| ==> init[i] == segs[i];
      FixInternalLinks(env, init) + SegmentOut(env, segs[|segs| - 1])
  }

  function SegmentOut(env: Env, seg: Segment): string {
    match seg
    case Gap(h) => h
    case Match(m) => Rewritten(env, m)
  }

  /** The HTML the segments were cut from. */
  function Html(segs: seq<Segment>): string
    decreases |segs|
  {
    if segs == [] then ""
    else Html(segs[..|segs| - 1]) + SegmentIn(segs[|segs| - 1])
  }

  function SegmentIn(seg: Segment): string {
    match seg
    case Gap(h) => h
    case Match(m) => m.link
  }

  // ----- properties -----

  /** Each skip rule on its own returns the link unchanged. */
  lemma SkipRules(env: Env, m: LinkMatch)
    ensures Contains(m.link, "class=\"anchor\"") ==> Rewritten(env, m) == m.link
    ensures Contains(m.link, "data-footnote-ref") ==> Rewritten(env, m) == m.link
    ensures Contains(m.link, "footnote-backref") ==> Rewritten(env, m) == m.link
    ensures StartsWith(m.href, ".") ==> Rewritten(env, m) == m.link
    ensures HasScheme(env, m.href) ==> Rewritten(env, m) == m.link
  {
  }

  /** A media extension at the end of the lowercased href, whatever comes before it, keeps the link. */
  lemma MediaLinksKept(env: Env, m: LinkMatch, stem: string, i: nat)
    requires i < |MediaExtensions| && env.lowercase(m.href) == stem + MediaExtensions[i]
    ensures Rewritten(env, m) == m.link
  {
    var ext := MediaExtensions[i];
    var s := stem + ext;
    assert s[|s| - |ext|..] == ext;
    EndsWithAnyIff(s, MediaExtensions);
  }

  /** Read back as a URL, the new href has path `path.html` exactly when the
      slugged path is non-empty, and fragment `fragment` exactly when the
      slugged fragment is non-empty (given a slug without `#`). */
  lemma NewHrefSplit(path: string, fragment: string)
    requires '#' !in path
    ensures SplitAtFirst(NewHref(path, fragment), '#') ==
      (if path != [] then path + ".html" else "", if fragment != [] then Some(fragment) else None)
  {
    var front := if path != [] then path + ".html" else "";
    var back := if fragment != [] then "#" + fragment else "";
    assert '#' !in ".html";
    assert '#' !in front;
    SplitAtFirstSkipsPrefix(front, back, '#');
    assert front + [] == front;
    assert NewHref(path, fragment) == front + back;
    if fragment != [] {
      assert back[0] == '#' && back[1..] == fragment;
      assert SplitAtFirst(back, '#') == ([], Some(fragment));
    }
  }

  /** The new text undoes exactly the decorations it removes: the text is some
      `#`s, then the kept part, then some `.html`s, then some `.md`s; the
      leading `#`s are stripped first, then the trailing `.md`s, then the
      trailing `.html`s, and what is left has its `#`s replaced. */
  lemma NewTextParts(text: string)
    ensures var t1 := TrimStartMatches(text, "#");
      var t2 := TrimEndMatches(t1, ".md");
      var t3 := TrimEndMatches(t2, ".html");
      && text == Repeat("#", LeadingCount(text, "#")) + t1
      && t1 == t2 + Repeat(".md", TrailingCount(t1, ".md"))
      && t2 == t3 + Repeat(".html", TrailingCount(t2, ".html"))
      && !StartsWith(t1, "#") && !EndsWith(t2, ".md") && !EndsWith(t3, ".html")
      && NewText(text) == ReplaceAll(t3, "#", " > ")
  {
    var t1 := TrimStartMatches(text, "#");
    var t2 := TrimEndMatches(t1, ".md");
    TrimStartMatchesInverse(text, "#");
    TrimEndMatchesInverse(t1, ".md");
    TrimEndMatchesInverse(t2, ".html");
  }

  /** Text with no `#` and no `.md` or `.html` ending is kept as it is. */
  lemma PlainTextUnchanged(text: string)
    requires '#' !in text && !EndsWith(text, ".md") && !EndsWith(text, ".html")
    ensures NewText(text) == text
  {
    ContainedCharsOccur(text, "#", '#');
  }

  /** A link to `page.md` or `page.html`, parsed against the dummy base as
      `/page.md` or `/page.html`, names `page`. */
  lemma PagePathDropsExtension(page: string, ext: string)
    requires ext == ".md" || ext == ".html"
    requires (page == [] || page[0] != '/') && !EndsWith(page, ".md") && !EndsWith(page, ".html")
    ensures PagePath("/" + page + ext) == page
  {
    var named := page + ext;
    assert named[0] == if page == [] then '.' else page[0];
    assert "/" + page + ext == "/" + named;
    TrimStartOnce("/", named);
    DropExtension(page, ext);
  }

  /** Trimming `.md`s and then `.html`s from `name.md` or `name.html` leaves `name`. */
  lemma DropExtension(name: string, ext: string)
    requires ext == ".md" || ext == ".html"
    requires !EndsWith(name, ".md") && !EndsWith(name, ".html")
    ensures TrimEndMatches(TrimEndMatches(name + ext, ".md"), ".html") == name
  {
    if ext == ".md" {
      TrimEndOnce(name, ".md");
    } else {
      var s := name + ".html";
      assert s[|s| - 1] == 'l';
      TrimEndOnce(name, ".html");
    }
  }

  /** The text `name.md` or `name.html` of a link to a page is shown as `name`. */
  lemma NewTextDropsExtension(name: string, ext: string)
    requires ext == ".md" || ext == ".html"
    requires '#' !in name && !EndsWith(name, ".md") && !EndsWith(name, ".html")
    ensures NewText(name + ext) == name
  {
    assert (name + ext)[0] == if name == [] then '.' else name[0];
    DropExtension(name, ext);
    ContainedCharsOccur(name, "#", '#');
  }

  /** The markup `<a href="...">...</a>` the renderer emits for a plain link. */
  function PlainLink(href: string, text: string): string {
    "<a " + HrefAttribute(href) + TextTail(text)
  }

  /** The first `replace`: the href attribute is found only right after `<a `. */
  lemma ReplaceHrefAttribute(href: string, text: string, newHref: string)
    requires '"' !in text
    ensures ReplaceAll(PlainLink(href, text), HrefAttribute(href), HrefAttribute(newHref))
      == "<a " + HrefAttribute(newHref) + TextTail(text)
  {
    var attr, attr', tail := HrefAttribute(href), HrefAttribute(newHref), TextTail(text);
    AppendAssoc("<a ", attr, tail);
    ReplaceAllSkipsPrefix("<a ", attr + tail, attr, attr');
    ReplaceAllAtFront(attr, tail, attr');
    assert attr[5] == '"';
    assert '"' !in tail;
    ContainedCharsOccur(tail, attr, '"');
  }

  /** The second `replace`: the text pattern starts at the first `>`, which
      comes after the href attribute when the new href has none. */
  lemma ReplaceLinkText(newHref: string, text: string, newText: string)
    requires '>' !in newHref
    ensures ReplaceAll("<a " + HrefAttribute(newHref) + TextTail(text), TextTail(text), TextTail(newText))
      == PlainLink(newHref, newText)
  {
    var head, tail, tail' := "<a " + HrefAttribute(newHref), TextTail(text), TextTail(newText);
    assert '>' !in head;
    ReplaceAllSkipsPrefix(head, tail + "", tail, tail');
    ReplaceAllAtFront(tail, "", tail');
    assert tail + "" == tail && tail' + "" == tail';
  }
}
