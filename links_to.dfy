/**
 * Internal-link collection (`get_links_to`).
 *
 * The regex `href="([^"]+)\.html(#[^"]+)?"` is not modelled: the input is
 * the sequence of its matches in document order, each with group 1 (the
 * page, without `.html`) and the optional group 2 (`#` and a fragment).
 */
module LinksTo {
  import opened Wrappers
  import opened RustStr
  import opened SeqFacts

  datatype HrefCapture = HrefCapture(page: string, heading: Option<string>)

  /** Links to other sites are skipped. */
  predicate Qualifies(c: HrefCapture) {
    !StartsWith(c.page, "http")
  }

  /** The collected entry: the page without its leading `./`s, then the heading if any. */
  function Entry(c: HrefCapture): string {
    TrimStartMatches(c.page, "./") + c.heading.GetOr("")
  }

  /** The entries of the qualifying captures, in document order. */
  function Collected(caps: seq<HrefCapture>): seq<string>
    decreases |caps|
  {
    if caps == [] then []
    else
      var c := caps[|caps| - 1];
      Collected(caps[..|caps| - 1]) + (if Qualifies(c) then [Entry(c)] else [])
  }

  /** The loop over the captures pushing into `result`, then `None` for an empty result. */
  method GetLinksTo(caps: seq<HrefCapture>) returns (r: Option<seq<string>>)
    ensures Collected(caps) == [] ==> r == None
    ensures Collected(caps) != [] ==> r == Some(Collected(caps))
  {
    var result: seq<string> := [];
    var i := 0;
    while i < |caps|
      invariant 0 <= i <= |caps|
      invariant result == Collected(caps[..i])
    {
      var c := caps[i];
      assert caps[..i + 1][..i] == caps[..i];
      if !StartsWith(c.page, "http") {
        var page := TrimStartMatches(c.page, "./");
        var heading := c.heading.GetOr("");
        result := result + [page + heading];
      }
      i := i + 1;
    }
    assert caps[..|caps|] == caps;
    if result == [] {
      return None;
    }
    r := Some(result);
  }

  /** Collecting is compositional: the captures of two stretches of HTML give
      the entries of the first followed by those of the second. */
  lemma {:induction false} CollectedAppend(a: seq<HrefCapture>, b: seq<HrefCapture>)
    ensures Collected(a + b) == Collected(a) + Collected(b)
    decreases |b|
  {
    if b == [] {
      assert a + b == a;
    } else {
      var b' := b[..|b| - 1];
      CollectedAppend(a, b');
      assert (a + b)[..|a + b| - 1] == a + b';
    }
  }

  /** Nothing is collected exactly when no capture qualifies, so `None` is
      returned exactly then and `Some` never holds an empty vector. */
  lemma {:induction false} CollectedEmptyIff(caps: seq<HrefCapture>)
    ensures Collected(caps) == [] <==> forall i :: 0 <= i < |caps| ==> !Qualifies(caps[i])
    decreases |caps|
  {
    if caps != [] {
      var init := caps[..|caps| - 1];
      CollectedEmptyIff(init);
      assert forall i :: 0 <= i < |init| ==> init[i] == caps[i];
    }
  }

  /** Every qualifying capture contributes its entry, right after the entries
      of the captures before it: order is preserved. */
  lemma CollectedAt(caps: seq<HrefCapture>, i: nat)
    requires i < |caps| && Qualifies(caps[i])
    ensures Collected(caps[..i]) + [Entry(caps[i])] <= Collected(caps)
  {
    var pre, c, post := caps[..i], caps[i], caps[i + 1..];
    SplitAround(caps, i);
    CollectedAppend(pre + [c], post);
    CollectedAppend(pre, [c]);
    CollectedSingle(c);
  }

  lemma CollectedSingle(c: HrefCapture)
    ensures Collected([c]) == if Qualifies(c) then [Entry(c)] else []
  {
    assert [c][..0] == [];
  }

  /** Every collected entry comes from some qualifying capture. */
  lemma {:induction false} CollectedFrom(caps: seq<HrefCapture>, x: string)
    requires x in Collected(caps)
    ensures exists i :: 0 <= i < |caps| && Qualifies(caps[i]) && Entry(caps[i]) == x
    decreases |caps|
  {
    var init := caps[..|caps| - 1];
    if x in Collected(init) {
      CollectedFrom(init, x);
      var i :| 0 <= i < |init| && Qualifies(init[i]) && Entry(init[i]) == x;
      assert caps[i] == init[i];
    } else {
      assert Qualifies(caps[|caps| - 1]) && Entry(caps[|caps| - 1]) == x;
    }
  }

  /** An entry is the page with every leading `./` removed, followed by the
      heading exactly as captured. */
  lemma EntryParts(c: HrefCapture)
    ensures var stripped := TrimStartMatches(c.page, "./");
      && c.page == Repeat("./", LeadingCount(c.page, "./")) + stripped
      && !StartsWith(stripped, "./")
      && Entry(c) == stripped + c.heading.GetOr("")
  {
    TrimStartMatchesInverse(c.page, "./");
  }

  /** A leading `./` makes no difference to the entry, however many there are. */
  lemma EntryIgnoresDotSlash(page: string, heading: Option<string>)
    ensures Entry(HrefCapture("./" + page, heading)) == Entry(HrefCapture(page, heading))
  {
    assert ("./" + page)[|"./"|..] == page;
  }
}
