/**
 * Table of contents from rendered headings (`get_table_of_contents_from_html`).
 *
 * The regex engine is not modelled: the input is the sequence of matched
 * headings, each with its level (the digit of `<hN>`), the `href` of the
 * anchor the renderer put in front of the title when there is one, and the
 * title. The model describes the output as a list of lines, each
 * `<ul>`, `</ul>` or one `<li>`; `Render` turns the lines into the emitted
 * string.
 */
module Toc {
  import opened Wrappers
  import opened SeqFacts

  /** The regex only accepts `<h1>` to `<h6>`. */
  type Level = l: nat | 1 <= l <= 6 witness 1

  datatype Heading = Heading(level: Level, anchor: Option<string>, title: string)

  /** One line of the emitted table of contents: `<ul>`, `</ul>`, or the `<li>` of a heading. */
  datatype TocLine = Open | Close | Item(heading: Heading)

  function LineText(slugify: string -> string, line: TocLine): string {
    match line
    case Open => "<ul>\n"
    case Close => "</ul>\n"
    case Item(h) => "<li><a href=\"" + Href(slugify, h) + "\">" + h.title + "</a></li>\n"
  }

  /** The emitted text: the lines one after the other. */
  function Render(slugify: string -> string, lines: seq<TocLine>): string {
    Join(lines, (line: TocLine) => LineText(slugify, line))
  }

  /** The texts of `xs` one after the other (generic, so that proofs about it
      never look inside the HTML literals). */
  function Join<X>(xs: seq<X>, text: X -> string): string
    decreases |xs|
  {
    if xs == [] then "" else Join(xs[..|xs| - 1], text) + text(xs[|xs| - 1])
  }

  /** The anchor's own href, or `#` and the slug of the title when there is no anchor. */
  function Href(slugify: string -> string, h: Heading): string {
    match h.anchor
    case Some(a) => a
    case None => "#" + slugify(h.title)
  }

  /** `last_level` once the first `n` headings have been read: 0 before the first. */
  function LevelAfter(hs: seq<Heading>, n: nat): nat
    requires n <= |hs|
  {
    if n == 0 then 0 else hs[n - 1].level
  }

  /** `n` copies of one line. */
  function Copies(line: TocLine, n: nat): seq<TocLine> {
    seq(n, _ => line)
  }

  /** The lines that take the open-list depth from `from` to `to`. */
  function Steps(from: nat, to: nat): seq<TocLine> {
    if from < to then Copies(Open, to - from) else Copies(Close, from - to)
  }

  /** The lines written while the first `n` headings are read. */
  function BodyUpTo(hs: seq<Heading>, n: nat): seq<TocLine>
    requires n <= |hs|
  {
    if n == 0 then []
    else BodyUpTo(hs, n - 1) + Steps(LevelAfter(hs, n - 1), hs[n - 1].level) + [Item(hs[n - 1])]
  }

  /** All the lines of the table of contents: the body, then one `</ul>` per list still open. */
  function TocLines(hs: seq<Heading>): seq<TocLine> {
    BodyUpTo(hs, |hs|) + Copies(Close, LevelAfter(hs, |hs|))
  }

  /** The table of contents as the source builds it: a running `toc` string and `last_level`. */
  method TableOfContents(slugify: string -> string, hs: seq<Heading>) returns (toc: string)
    ensures toc == Render(slugify, TocLines(hs))
    ensures hs == [] ==> toc == ""
  {
    toc := "";
    var lastLevel: nat := 0;
    ghost var lines: seq<TocLine> := [];
    var i := 0;
    while i < |hs|
      invariant 0 <= i <= |hs|
      invariant lastLevel == LevelAfter(hs, i)
      invariant lines == BodyUpTo(hs, i)
      invariant toc == Render(slugify, lines)
    {
      var h := hs[i];
      toc, lines := PushHeading(slugify, toc, lines, lastLevel, h);
      lastLevel := h.level;
      i := i + 1;
    }
    toc, lines := PushCopies(slugify, toc, lines, Close, lastLevel);
  }

  /** One heading: open or close lists until `level` are open, then its `<li>` line. */
  method PushHeading(slugify: string -> string, toc: string, ghost lines: seq<TocLine>, lastLevel: nat, h: Heading)
    returns (toc': string, ghost lines': seq<TocLine>)
    requires toc == Render(slugify, lines)
    ensures lines' == lines + Steps(lastLevel, h.level) + [Item(h)]
    ensures toc' == Render(slugify, lines + Steps(lastLevel, h.level) + [Item(h)])
  {
    toc', lines' := toc, lines;
    if h.level > lastLevel {
      toc', lines' := PushCopies(slugify, toc', lines', Open, h.level - lastLevel);
    } else if h.level < lastLevel {
      toc', lines' := PushCopies(slugify, toc', lines', Close, lastLevel - h.level);
    } else {
      assert lines' + Steps(lastLevel, h.level) == lines';
    }
    RenderSnoc(slugify, lines', Item(h));
    toc', lines' := toc' + LineText(slugify, Item(h)), lines' + [Item(h)];
  }

  /** `for _ in 0..n { toc.push_str(line) }`: `n` more copies of one line. */
  method PushCopies(slugify: string -> string, toc: string, ghost lines: seq<TocLine>, line: TocLine, n: nat)
    returns (toc': string, ghost lines': seq<TocLine>)
    requires toc == Render(slugify, lines)
    ensures lines' == lines + Copies(line, n)
    ensures toc' == Render(slugify, lines + Copies(line, n))
  {
    toc', lines' := toc, lines;
    CopiesSnoc(lines, line, 0);
    var k := 0;
    while k < n
      invariant 0 <= k <= n
      invariant lines' == lines + Copies(line, k)
      invariant toc' == Render(slugify, lines')
    {
      RenderSnoc(slugify, lines', line);
      CopiesSnoc(lines, line, k);
      toc', lines' := toc' + LineText(slugify, line), lines' + [line];
      k := k + 1;
    }
  }

  lemma CopiesSnoc(before: seq<TocLine>, line: TocLine, n: nat)
    ensures before + Copies(line, n) + [line] == before + Copies(line, n + 1)
    ensures before + Copies(line, 0) == before
  {
  }

  lemma CopiesPrefix(line: TocLine, n: nat, j: nat)
    requires j <= n
    ensures Copies(line, n)[..j] == Copies(line, j)
  {
  }

  lemma JoinSnoc<X>(xs: seq<X>, x: X, text: X -> string)
    ensures Join(xs + [x], text) == Join(xs, text) + text(x)
  {
    assert (xs + [x])[..|xs|] == xs;
  }

  lemma RenderSnoc(slugify: string -> string, lines: seq<TocLine>, line: TocLine)
    ensures Render(slugify, lines + [line]) == Render(slugify, lines) + LineText(slugify, line)
  {
    JoinSnoc(lines, line, (l: TocLine) => LineText(slugify, l));
  }

  // ----- open-list depth -----

  function Opens(lines: seq<TocLine>): nat
    decreases |lines|
  {
    if lines == [] then 0
    else Opens(lines[..|lines| - 1]) + (if lines[|lines| - 1].Open? then 1 else 0)
  }

  function Closes(lines: seq<TocLine>): nat
    decreases |lines|
  {
    if lines == [] then 0
    else Closes(lines[..|lines| - 1]) + (if lines[|lines| - 1].Close? then 1 else 0)
  }

  /** How many lists are open after the given lines. */
  function Depth(lines: seq<TocLine>): int {
    Opens(lines) - Closes(lines)
  }

  /** The depth stays within `lo..hi` on every prefix. */
  ghost predicate DepthWithin(lines: seq<TocLine>, lo: int, hi: int) {
    forall k :: 0 <= k <= |lines| ==> lo <= Depth(lines[..k]) <= hi
  }

  lemma {:induction false} DepthAppend(a: seq<TocLine>, b: seq<TocLine>)
    ensures Depth(a + b) == Depth(a) + Depth(b)
    decreases |b|
  {
    if b == [] {
      assert a + b == a;
    } else {
      var b' := b[..|b| - 1];
      DepthAppend(a, b');
      assert (a + b)[..|a + b| - 1] == a + b';
    }
  }

  lemma {:induction false} DepthOfCopies(line: TocLine, n: nat)
    ensures line.Open? ==> Depth(Copies(line, n)) == n
    ensures line.Close? ==> Depth(Copies(line, n)) == -(n as int)
  {
    if n > 0 {
      DepthOfCopies(line, n - 1);
      assert Copies(line, n)[..n - 1] == Copies(line, n - 1);
    }
  }

  /** The depth on every prefix of `Steps(from, to)` lies between `from` and `to`. */
  lemma StepsPrefixDepth(from: nat, to: nat, j: nat)
    requires j <= |Steps(from, to)|
    ensures from <= to ==> Depth(Steps(from, to)[..j]) == j && j <= to - from
    ensures to < from ==> Depth(Steps(from, to)[..j]) == -(j as int) && j <= from - to
  {
    if from < to {
      CopiesPrefix(Open, to - from, j);
      DepthOfCopies(Open, j);
    } else {
      CopiesPrefix(Close, from - to, j);
      DepthOfCopies(Close, j);
    }
  }

  /** While the headings are read, the depth equals `last_level`. */
  lemma {:induction false} BodyDepth(hs: seq<Heading>, n: nat)
    requires n <= |hs|
    ensures Depth(BodyUpTo(hs, n)) == LevelAfter(hs, n)
  {
    if n > 0 {
      BodyDepth(hs, n - 1);
      BlockDepth(BodyUpTo(hs, n - 1), LevelAfter(hs, n - 1), hs[n - 1].level, Item(hs[n - 1]));
    }
  }

  /** One heading's lines take the depth from `from` to its level `to`. */
  lemma BlockDepth(b: seq<TocLine>, from: nat, to: nat, item: TocLine)
    requires item.Item?
    ensures Depth(b + Steps(from, to) + [item]) == Depth(b) + to - from
  {
    var steps := Steps(from, to);
    StepsPrefixDepth(from, to, |steps|);
    assert steps[..|steps|] == steps;
    DepthAppend(b, steps);
    DepthAppend(b + steps, [item]);
    assert [item][..0] == [];
  }

  /** While the headings are read, the depth never leaves `0..6`. */
  lemma {:induction false} BodyDepthWithin(hs: seq<Heading>, n: nat)
    requires n <= |hs|
    ensures DepthWithin(BodyUpTo(hs, n), 0, 6)
  {
    if n == 0 {
      assert BodyUpTo(hs, n)[..0] == [];
    } else {
      BodyDepthWithin(hs, n - 1);
      BodyDepth(hs, n - 1);
      BlockDepthWithin(BodyUpTo(hs, n - 1), LevelAfter(hs, n - 1), hs[n - 1].level, Item(hs[n - 1]));
    }
  }

  /** One heading's lines keep every prefix within `0..6` when the body before
      them does and ends at depth `from`. */
  lemma BlockDepthWithin(b: seq<TocLine>, from: nat, to: Level, item: TocLine)
    requires DepthWithin(b, 0, 6) && Depth(b) == from && item.Item?
    ensures DepthWithin(b + Steps(from, to) + [item], 0, 6)
  {
    var steps := Steps(from, to);
    var all := b + steps + [item];
    forall k | 0 <= k <= |all|
      ensures 0 <= Depth(all[..k]) <= 6
    {
      TakeOfAppend(b + steps, [item], k);
      if k <= |b| + |steps| {
        TakeOfAppend(b, steps, k);
        if |b| < k {
          DepthAppend(b, steps[..k - |b|]);
          StepsPrefixDepth(from, to, k - |b|);
        }
      } else {
        assert all[..k] == all;
        assert [item][..0] == [];
        DepthAppend(b + steps, [item]);
        DepthAppend(b, steps[..|steps|]);
        StepsPrefixDepth(from, to, |steps|);
        assert steps[..|steps|] == steps;
      }
    }
  }

  /** Balanced nesting: every prefix of the table of contents has depth within
      `0..6`, and there are as many `</ul>` lines as `<ul>` lines. */
  lemma TocBalanced(hs: seq<Heading>)
    ensures DepthWithin(TocLines(hs), 0, 6)
    ensures Opens(TocLines(hs)) == Closes(TocLines(hs))
  {
    var b := BodyUpTo(hs, |hs|);
    var last := LevelAfter(hs, |hs|);
    var all := TocLines(hs);
    BodyDepth(hs, |hs|);
    BodyDepthWithin(hs, |hs|);
    forall k | 0 <= k <= |all|
      ensures 0 <= Depth(all[..k]) <= 6
    {
      if k <= |b| {
        assert all[..k] == b[..k];
      } else {
        CopiesPrefix(Close, last, k - |b|);
        assert all[..k] == b + Copies(Close, k - |b|);
        DepthAppend(b, Copies(Close, k - |b|));
        DepthOfCopies(Close, k - |b|);
      }
    }
    DepthAppend(b, Copies(Close, last));
    DepthOfCopies(Close, last);
  }

  // ----- one item per heading -----

  /** The `<li>` lines, in order. */
  function Items(lines: seq<TocLine>): seq<TocLine>
    decreases |lines|
  {
    if lines == [] then []
    else Items(lines[..|lines| - 1]) + (if lines[|lines| - 1].Item? then [lines[|lines| - 1]] else [])
  }

  lemma {:induction false} ItemsAppend(a: seq<TocLine>, b: seq<TocLine>)
    ensures Items(a + b) == Items(a) + Items(b)
    decreases |b|
  {
    if b == [] {
      assert a + b == a;
    } else {
      var b' := b[..|b| - 1];
      ItemsAppend(a, b');
      assert (a + b)[..|a + b| - 1] == a + b';
    }
  }

  lemma {:induction false} NoItemsInCopies(line: TocLine, n: nat)
    requires !line.Item?
    ensures Items(Copies(line, n)) == []
  {
    if n > 0 {
      NoItemsInCopies(line, n - 1);
      assert Copies(line, n)[..n - 1] == Copies(line, n - 1);
    }
  }

  /** The `<li>` lines of the first `n` headings, in order. */
  function ItemLines(hs: seq<Heading>, n: nat): (r: seq<TocLine>)
    requires n <= |hs|
    ensures |r| == n && forall k :: 0 <= k < n ==> r[k] == Item(hs[k])
  {
    if n == 0 then [] else ItemLines(hs, n - 1) + [Item(hs[n - 1])]
  }

  lemma {:induction false} BodyItems(hs: seq<Heading>, n: nat)
    requires n <= |hs|
    ensures Items(BodyUpTo(hs, n)) == ItemLines(hs, n)
  {
    if n > 0 {
      BodyItems(hs, n - 1);
      BlockItems(BodyUpTo(hs, n - 1), LevelAfter(hs, n - 1), hs[n - 1].level, Item(hs[n - 1]));
    }
  }

  /** One heading's lines add exactly its `<li>` to the items. */
  lemma BlockItems(b: seq<TocLine>, from: nat, to: nat, item: TocLine)
    requires item.Item?
    ensures Items(b + Steps(from, to) + [item]) == Items(b) + [item]
  {
    var steps := Steps(from, to);
    ItemsAppend(b, steps);
    ItemsAppend(b + steps, [item]);
    NoItemsInCopies(if from < to then Open else Close, |steps|);
    assert [item][..0] == [];
  }

  /** Exactly one `<li>` per heading, in document order, each linking to the
      heading's anchor or to `#` and the slug of its title. */
  lemma TocItems(hs: seq<Heading>)
    ensures Items(TocLines(hs)) == ItemLines(hs, |hs|)
    ensures |Items(TocLines(hs))| == |hs|
    ensures forall k :: 0 <= k < |hs| ==> Items(TocLines(hs))[k] == Item(hs[k])
  {
    BodyItems(hs, |hs|);
    ItemsAppend(BodyUpTo(hs, |hs|), Copies(Close, LevelAfter(hs, |hs|)));
    NoItemsInCopies(Close, LevelAfter(hs, |hs|));
  }

  /** When the `<li>` of heading `i` is written, exactly `level` lists are open. */
  lemma TocItemDepth(hs: seq<Heading>, i: nat)
    requires i < |hs|
    ensures var p := BodyUpTo(hs, i + 1);
      p <= TocLines(hs) && p[|p| - 1] == Item(hs[i]) && Depth(p) == hs[i].level
  {
    BodyDepth(hs, i + 1);
    BodyPrefix(hs, i + 1, |hs|);
  }

  lemma {:induction false} BodyPrefix(hs: seq<Heading>, n: nat, m: nat)
    requires n <= m <= |hs|
    ensures BodyUpTo(hs, n) <= BodyUpTo(hs, m)
    decreases m
  {
    if n < m {
      BodyPrefix(hs, n, m - 1);
    }
  }

  /** A single heading at level `n` sits inside `n` lists, all closed at the end. */
  lemma SingleHeadingLines(h: Heading)
    ensures TocLines([h]) == Copies(Open, h.level) + [Item(h)] + Copies(Close, h.level)
  {
    assert BodyUpTo([h], 1) == BodyUpTo([h], 0) + Steps(0, h.level) + [Item(h)];
  }

  /** Headings at levels 1, 2, 1, as in the source's nested-headers test:
      the second opens a list, the third closes it, and one list is closed at the end. */
  lemma NestedHeadingsLines(a: Heading, b: Heading, c: Heading)
    requires a.level == 1 && b.level == 2 && c.level == 1
    ensures TocLines([a, b, c]) == [Open, Item(a), Open, Item(b), Close, Item(c), Close]
  {
    var hs := [a, b, c];
    assert BodyUpTo(hs, 1) == [Open, Item(a)];
    assert BodyUpTo(hs, 2) == [Open, Item(a), Open, Item(b)];
    assert BodyUpTo(hs, 3) == [Open, Item(a), Open, Item(b), Close, Item(c)];
  }
}
