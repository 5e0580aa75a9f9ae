/**
 * The broken-reference callback (`warn_broken_link`) handed to the Markdown
 * renderer: it never resolves a reference, and it warns unless the
 * reference text looks like something other than a forgotten link
 * definition (a URL, a callout, an anchor, a footnote, an absolute path, a
 * task checkbox, or nothing at all).
 */
module BrokenLinks {
  import opened Wrappers
  import opened RustStr

  /** The url and title a callback could supply for a reference. */
  datatype ResolvedReference = ResolvedReference(url: string, title: string)

  /** What the callback does with one reference: its return value and whether it logs a warning. */
  datatype Outcome = Outcome(resolved: Option<ResolvedReference>, warns: bool)

  /** References accepted silently. The single-character case uses the UTF-8
      byte length, as Rust's `len` does, so in terms of characters a reference
      passes exactly when it is empty, its first character is one of `! # ^ /`,
      it starts with `http`, or it is one ASCII character other than a digit. A
      single non-ASCII character takes more than one byte, so it does not pass. */
  predicate IsAllowed(original: string)
    ensures IsAllowed(original) <==>
      || original == []
      || original[0] == '!' || original[0] == '#' || original[0] == '^' || original[0] == '/'
      || StartsWith(original, "http")
      || (|original| == 1 && original[0] as int < 0x80 && !IsAsciiDigit(original[0]))
  {
    Utf8LenIsOne(original);
    || StartsWith(original, "http")
    || StartsWith(original, "!")
    || StartsWith(original, "#")
    || StartsWith(original, "^")
    || StartsWith(original, "/")
    || (Utf8Len(original) == 1 && !IsAsciiDigit(original[0]))
    || original == []
  }

  /** The callback, on the `original` text of the reference: it never resolves
      the reference, and it warns exactly when the reference is not allowed. */
  function WarnBrokenLink(original: string): (o: Outcome)
    ensures o.resolved == None
  {
    Outcome(None, !IsAllowed(original))
  }

  /** Task checkboxes `[x]` and `[ ]` pass, a lone digit warns, and so does a
      lone non-ASCII letter. */
  lemma WarnsOnSingleCharacters()
    ensures !WarnBrokenLink("x").warns && !WarnBrokenLink(" ").warns
    ensures WarnBrokenLink("1").warns
    ensures WarnBrokenLink([0xE9 as char]).warns
  {
  }
}
