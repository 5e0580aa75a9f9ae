/**
 * Front-matter detection (`parse_front_matter`): after the leading blank
 * lines, a document opening with `---` (YAML), `+++` (TOML) or `{` (JSON)
 * carries front matter and is handed to the extractor; any other document
 * has empty front matter and is all body.
 */
module FrontMatter {
  import opened RustStr

  /** Front-matter keys and their values, kept as text. */
  type Frontmatter = map<string, string>

  /** The outcome: empty front matter and the body, or the content handed to
      `extract_fm_content`, whose parsing is not part of this model. */
  datatype Detected =
    | NoFrontMatter(frontmatter: Frontmatter, body: string)
    | Extract(content: string)

  /** The opening of a front-matter block. */
  predicate HasFrontMatter(content: string) {
    StartsWith(content, "---") || StartsWith(content, "+++") || StartsWith(content, "{")
  }

  function ParseFrontMatter(content: string): (r: Detected)
    ensures r.NoFrontMatter? ==> r.frontmatter == map[]
  {
    var content := TrimStartMatches(content, "\n");
    if !HasFrontMatter(content) then NoFrontMatter(map[], content)
    else Extract(content)
  }

  /** What is returned or handed on is the input without its leading newlines
      and no more: it starts with no newline, and putting the newlines back
      gives the input. It is handed on exactly when it opens a front-matter block. */
  lemma ParseShape(content: string)
    ensures var r := ParseFrontMatter(content);
      var rest := if r.NoFrontMatter? then r.body else r.content;
      && content == Repeat("\n", LeadingCount(content, "\n")) + rest
      && !StartsWith(rest, "\n")
      && (r.Extract? <==> HasFrontMatter(rest))
  {
    TrimStartMatchesInverse(content, "\n");
  }

  /** Leading blank lines make no difference. */
  lemma LeadingNewlineIgnored(content: string)
    ensures ParseFrontMatter("\n" + content) == ParseFrontMatter(content)
  {
    assert ("\n" + content)[|"\n"|..] == content;
  }

  /** Parsing the body of a document without front matter again gives the same answer. */
  lemma ParseBodyAgain(content: string)
    requires ParseFrontMatter(content).NoFrontMatter?
    ensures ParseFrontMatter(ParseFrontMatter(content).body) == ParseFrontMatter(content)
  {
    var body := ParseFrontMatter(content).body;
    assert !StartsWith(body, "\n");
  }
}
