/**
 * The handful of Rust `str` operations the HTML post-processing relies on,
 * with Rust's semantics: `starts_with`, `ends_with`, `contains`,
 * `trim_start_matches` / `trim_end_matches` (which strip a pattern as many
 * times as it repeats), `replace` (left-to-right, non-overlapping) and
 * `len` (the UTF-8 byte length, not the number of characters).
 */
module RustStr {
  import opened Wrappers
  import opened SeqFacts

  predicate StartsWith(s: string, p: string) {
    |p| <= |s| && s[..|p|] == p
  }

  predicate EndsWith(s: string, p: string) {
    |p| <= |s| && s[|s| - |p|..] == p
  }

  /** `s.contains(p)`: some suffix of `s` starts with `p`. */
  predicate Contains(s: string, p: string)
    decreases |s|
  {
    StartsWith(s, p) || (s != [] && Contains(s[1..], p))
  }

  /** `p` written `n` times in a row. */
  function Repeat(p: string, n: nat): string {
    if n == 0 then [] else p + Repeat(p, n - 1)
  }

  /** `s.trim_start_matches(p)`: strip `p` from the front for as long as it is there. */
  function TrimStartMatches(s: string, p: string): (r: string)
    requires p != []
    ensures |r| <= |s| && r == s[|s| - |r|..]
    ensures !StartsWith(r, p)
    decreases |s|
  {
    if StartsWith(s, p) then TrimStartMatches(s[|p|..], p) else s
  }

  /** How many copies of `p` `TrimStartMatches` removes. */
  function LeadingCount(s: string, p: string): nat
    requires p != []
    decreases |s|
  {
    if StartsWith(s, p) then 1 + LeadingCount(s[|p|..], p) else 0
  }

  /** `s.trim_end_matches(p)`: strip `p` from the back for as long as it is there. */
  function TrimEndMatches(s: string, p: string): (r: string)
    requires p != []
    ensures |r| <= |s| && r == s[..|r|]
    ensures !EndsWith(r, p)
    decreases |s|
  {
    if EndsWith(s, p) then TrimEndMatches(s[..|s| - |p|], p) else s
  }

  /** How many copies of `p` `TrimEndMatches` removes. */
  function TrailingCount(s: string, p: string): nat
    requires p != []
    decreases |s|
  {
    if EndsWith(s, p) then 1 + TrailingCount(s[..|s| - |p|], p) else 0
  }

  /** Trimming gives back the input once the stripped copies are put back in front. */
  lemma {:induction false} TrimStartMatchesInverse(s: string, p: string)
    requires p != []
    ensures s == Repeat(p, LeadingCount(s, p)) + TrimStartMatches(s, p)
    decreases |s|
  {
    if StartsWith(s, p) {
      var rest := s[|p|..];
      TrimStartMatchesInverse(rest, p);
      assert s == p + rest;
      AppendAssoc(p, Repeat(p, LeadingCount(rest, p)), TrimStartMatches(rest, p));
    }
  }

  /** Trimming gives back the input once the stripped copies are put back behind. */
  lemma {:induction false} TrimEndMatchesInverse(s: string, p: string)
    requires p != []
    ensures s == TrimEndMatches(s, p) + Repeat(p, TrailingCount(s, p))
    decreases |s|
  {
    if EndsWith(s, p) {
      var t := s[..|s| - |p|];
      TrimEndMatchesInverse(t, p);
      RepeatSnoc(p, TrailingCount(t, p));
      assert s == t + p;
      AppendAssoc(TrimEndMatches(t, p), Repeat(p, TrailingCount(t, p)), p);
    }
  }

  lemma {:induction false} RepeatSnoc(p: string, n: nat)
    ensures Repeat(p, n + 1) == Repeat(p, n) + p
  {
    if n > 0 {
      RepeatSnoc(p, n - 1);
    }
  }

  /** One copy of `p` in front of text that does not start with `p` is exactly what is trimmed. */
  lemma TrimStartOnce(p: string, x: string)
    requires p != [] && !StartsWith(x, p)
    ensures TrimStartMatches(p + x, p) == x
  {
    assert (p + x)[..|p|] == p && (p + x)[|p|..] == x;
  }

  /** One copy of `p` behind text that does not end with `p` is exactly what is trimmed. */
  lemma TrimEndOnce(x: string, p: string)
    requires p != [] && !EndsWith(x, p)
    ensures TrimEndMatches(x + p, p) == x
  {
    var s := x + p;
    assert s[|s| - |p|..] == p && s[..|s| - |p|] == x;
  }

  /** `s.replace(from, to)` for a non-empty pattern: every non-overlapping
      occurrence of `from`, found left to right, becomes `to`. */
  function ReplaceAll(s: string, from: string, to: string): (r: string)
    requires from != []
    ensures !Contains(s, from) ==> r == s
    ensures from == to ==> r == s
    decreases |s|
  {
    if |s| < |from| then s
    else if s[..|from|] == from then to + ReplaceAll(s[|from|..], from, to)
    else [s[0]] + ReplaceAll(s[1..], from, to)
  }

  /** Replacing a character by text that does not contain it leaves no copy of it. */
  lemma {:induction false} ReplaceCharRemovesIt(s: string, c: char, to: string)
    requires c !in to
    ensures c !in ReplaceAll(s, [c], to)
    decreases |s|
  {
    if |s| >= 1 {
      ReplaceCharRemovesIt(s[1..], c, to);
    }
  }

  /** Every character of a pattern found in `s` is a character of `s`. */
  lemma {:induction false} ContainedCharsOccur(s: string, p: string, c: char)
    requires c in p
    ensures Contains(s, p) ==> c in s
    decreases |s|
  {
    if StartsWith(s, p) {
      var k :| 0 <= k < |p| && p[k] == c;
      assert s[k] == c;
    } else if s != [] {
      ContainedCharsOccur(s[1..], p, c);
    }
  }

  /** `replace` copies a prefix in which the pattern's first character never appears. */
  lemma {:induction false} ReplaceAllSkipsPrefix(a: string, rest: string, from: string, to: string)
    requires from != [] && from[0] !in a
    ensures ReplaceAll(a + rest, from, to) == a + ReplaceAll(rest, from, to)
    decreases |a|
  {
    if a == [] {
      assert a + rest == rest;
    } else {
      ReplaceAllSkipsPrefix(a[1..], rest, from, to);
      ConsAppend(a, rest);
      ReplaceAllOneChar(a[0], a[1..] + rest, from, to);
      ConsAppend(a, ReplaceAll(rest, from, to));
    }
  }

  /** A character that does not begin the pattern is copied. */
  lemma ReplaceAllOneChar(x: char, tail: string, from: string, to: string)
    requires from != [] && x != from[0]
    ensures ReplaceAll([x] + tail, from, to) == [x] + ReplaceAll(tail, from, to)
  {
    var s := [x] + tail;
    assert s[1..] == tail;
    if |s| < |from| {
      ReplaceAllShort(tail, from, to);
    } else {
      assert s[..|from|][0] == x;
    }
  }

  lemma ReplaceAllShort(s: string, from: string, to: string)
    requires from != [] && |s| < |from|
    ensures ReplaceAll(s, from, to) == s
  {
  }

  /** `replace` at an occurrence at the very front. */
  lemma ReplaceAllAtFront(from: string, rest: string, to: string)
    requires from != []
    ensures ReplaceAll(from + rest, from, to) == to + ReplaceAll(rest, from, to)
  {
    assert (from + rest)[..|from|] == from;
    assert (from + rest)[|from|..] == rest;
  }

  /** The text before the first `c` and, when there is one, the text after it. */
  function SplitAtFirst(s: string, c: char): (r: (string, Option<string>))
    ensures r.1.None? ==> r.0 == s && c !in s
    ensures r.1.Some? ==> s == r.0 + [c] + r.1.value && c !in r.0
    decreases |s|
  {
    if s == [] then ([], None)
    else if s[0] == c then ([], Some(s[1..]))
    else
      var r := SplitAtFirst(s[1..], c);
      ([s[0]] + r.0, r.1)
  }

  /** A prefix free of `c` stays in front of the first `c`. */
  lemma {:induction false} SplitAtFirstSkipsPrefix(a: string, b: string, c: char)
    requires c !in a
    ensures SplitAtFirst(a + b, c) == (a + SplitAtFirst(b, c).0, SplitAtFirst(b, c).1)
    decreases |a|
  {
    if a != [] {
      SplitAtFirstSkipsPrefix(a[1..], b, c);
      var r := SplitAtFirst(b, c);
      ConsAppend(a, b);
      ConsAppend(a, r.0);
    } else {
      var r := SplitAtFirst(b, c);
      assert a + b == b && a + r.0 == r.0;
    }
  }

  /** The number of bytes `c` takes in UTF-8. */
  function Utf8Width(c: char): nat {
    if c as int < 0x80 then 1
    else if c as int < 0x800 then 2
    else if c as int < 0x1_0000 then 3
    else 4
  }

  /** Rust's `str::len`: the length of the UTF-8 encoding. */
  function Utf8Len(s: string): nat
    decreases |s|
  {
    if s == [] then 0 else Utf8Width(s[0]) + Utf8Len(s[1..])
  }

  /** Every character takes at least one byte. */
  lemma {:induction false} Utf8LenAtLeastCharCount(s: string)
    ensures Utf8Len(s) >= |s|
    decreases |s|
  {
    if s != [] {
      Utf8LenAtLeastCharCount(s[1..]);
    }
  }

  /** A string is one byte long exactly when it is one ASCII character. */
  lemma Utf8LenIsOne(s: string)
    ensures Utf8Len(s) == 1 <==> |s| == 1 && s[0] as int < 0x80
  {
    if |s| >= 2 {
      Utf8LenAtLeastCharCount(s);
    }
  }

  /** `char::is_ascii_digit`. */
  predicate IsAsciiDigit(c: char) {
    '0' <= c <= '9'
  }
}
