/** lib/course_autoname.py: truncating a slug to whole tokens, and composing the final slug.  A slug is what
    `canonical_slug` returns: tokens joined by hyphens, though the laws are stated for any text.  The loop
    of the truncation is greedy; the specification is the longest prefix of whole tokens that fits. */
module Autoname {
  const MAX_CHARS := 60

  /* ---------------------------------------------------------------- tokens */

  /** `slug.split("-")` */
  function Split(s: string): (r: seq<string>)
    ensures r != []
  {
    if s == "" then [""]
    else
      var rest := Split(s[1..]);
      if s[0] == '-' then [""] + rest else [[s[0]] + rest[0]] + rest[1..]
  }

  /** `"-".join(tokens)` */
  function Join(tokens: seq<string>): string {
    if tokens == [] then ""
    else if |tokens| == 1 then tokens[0]
    else tokens[0] + "-" + Join(tokens[1..])
  }

  /** `[t for t in tokens if t]` */
  function NonEmpty(tokens: seq<string>): seq<string> {
    if tokens == [] then [] else (if tokens[0] == "" then [] else [tokens[0]]) + NonEmpty(tokens[1..])
  }

  predicate Hyphenless(t: string) {
    forall i | 0 <= i < |t| :: t[i] != '-'
  }

  /** A list of tokens as `split` and the filter produce it. */
  predicate Tokens(ts: seq<string>) {
    forall t | t in ts :: t != "" && Hyphenless(t)
  }

  /** Putting a character, or a separator, in front. */
  lemma {:induction false} JoinFront(c: char, rest: seq<string>)
    requires rest != []
    ensures Join([""] + rest) == "-" + Join(rest)
    ensures Join([[c] + rest[0]] + rest[1..]) == [c] + Join(rest)
  {
    assert ([""] + rest)[1..] == rest;
    var longer := [[c] + rest[0]] + rest[1..];
    assert longer[1..] == rest[1..];
    if |rest| > 1 {
      assert Join(longer) == ([c] + rest[0]) + "-" + Join(rest[1..]);
      assert Join(rest) == rest[0] + "-" + Join(rest[1..]);
    }
  }

  lemma {:induction false} JoinSplit(s: string)
    ensures Join(Split(s)) == s
    ensures forall t | t in Split(s) :: Hyphenless(t)
  {
    if s != "" {
      JoinSplit(s[1..]);
      var rest := Split(s[1..]);
      JoinFront(s[0], rest);
      assert s == [s[0]] + s[1..];
      assert rest[0] in rest && forall t | t in rest[1..] :: t in rest;
    }
  }

  lemma {:induction false} SplitToken(t: string)
    requires Hyphenless(t)
    ensures Split(t) == [t]
  {
    if t != "" {
      SplitToken(t[1..]);
      assert t == [t[0]] + t[1..];
    }
  }

  lemma {:induction false} SplitFirst(t: string, s: string)
    requires Hyphenless(t)
    ensures Split(t + "-" + s) == [t] + Split(s)
  {
    var whole := t + "-" + s;
    if t == "" {
      assert whole[1..] == s;
    } else {
      SplitFirst(t[1..], s);
      assert whole[1..] == t[1..] + "-" + s;
      assert t == [t[0]] + t[1..];
    }
  }

  lemma {:induction false} SplitJoin(ts: seq<string>)
    requires ts != [] && forall t | t in ts :: Hyphenless(t)
    ensures Split(Join(ts)) == ts
  {
    if |ts| == 1 {
      SplitToken(ts[0]);
    } else {
      SplitJoin(ts[1..]);
      SplitFirst(ts[0], Join(ts[1..]));
      assert ts == [ts[0]] + ts[1..];
    }
  }

  lemma {:induction false} NonEmptyTokens(ts: seq<string>)
    requires forall t | t in ts :: Hyphenless(t)
    ensures Tokens(NonEmpty(ts))
    ensures Tokens(ts) ==> NonEmpty(ts) == ts
    ensures NonEmpty(ts) == [] <==> forall t | t in ts :: t == ""
  {
    if ts == [] {
      assert NonEmpty(ts) == [];
    } else {
      var (first, rest) := (ts[0], ts[1..]);
      assert ts == [first] + rest;
      assert first in ts && forall t | t in rest :: t in ts;
      NonEmptyTokens(rest);
      assert NonEmpty(ts) == (if first == "" then [] else [first]) + NonEmpty(rest);
      assert forall t | t in ts :: t == first || t in rest;
    }
  }

  /** The filter drops the empty tokens and keeps the others, in order. */
  lemma {:induction false} NonEmptyFirst(t: string, rest: seq<string>)
    ensures NonEmpty([]) == []
    ensures NonEmpty([t] + rest) == if t == "" then NonEmpty(rest) else [t] + NonEmpty(rest)
  {
    assert ([t] + rest)[1..] == rest;
  }

  lemma {:induction false} JoinSnoc(ts: seq<string>, t: string)
    ensures Join(ts + [t]) == if ts == [] then t else Join(ts) + "-" + t
  {
    if |ts| > 1 {
      JoinSnoc(ts[1..], t);
      assert (ts + [t])[1..] == ts[1..] + [t];
      assert Join(ts + [t]) == ts[0] + "-" + (Join(ts[1..]) + "-" + t);
    } else if |ts| == 1 {
      assert (ts + [t])[1..] == [t];
    }
  }

  /** Joining more tokens never gets shorter. */
  lemma {:induction false} JoinGrows(ts: seq<string>, k: nat, n: nat)
    requires k <= n <= |ts|
    ensures |Join(ts[..k])| <= |Join(ts[..n])|
    decreases n
  {
    if k < n {
      JoinGrows(ts, k, n - 1);
      JoinSnoc(ts[..n - 1], ts[n - 1]);
      assert ts[..n] == ts[..n - 1] + [ts[n - 1]];
    }
  }

  /* ---------------------------------------------------------------- truncation */

  /** `s[:n].rstrip("-")` */
  function StripRight(s: string): string {
    if s != "" && s[|s| - 1] == '-' then StripRight(s[..|s| - 1]) else s
  }

  /** Python's `s[:n]`, for any integer. */
  function Take(s: string, n: int): string {
    if n >= |s| then s else if n >= 0 then s[..n] else if -n >= |s| then "" else s[..|s| + n]
  }

  /** How many tokens to keep: the first, and then as many as fit. */
  ghost predicate LongestFit(ts: seq<string>, maxChars: int, k: nat) {
    && 1 <= k <= |ts|
    && (k > 1 ==> |Join(ts[..k])| <= maxChars)
    && forall n | k < n <= |ts| :: |Join(ts[..n])| > maxChars
  }

  lemma {:induction false} LongestFitUnique(ts: seq<string>, maxChars: int, k: nat, n: nat)
    requires LongestFit(ts, maxChars, k) && LongestFit(ts, maxChars, n)
    ensures k == n
  {
  }

  /** A slug that fits is returned as it is.  A longer one becomes the longest prefix of its non-empty
      tokens that fits, or the first token alone if not even that does; with no token at all, a cut. */
  ghost predicate Truncated(slug: string, maxChars: int, r: string) {
    if |slug| <= maxChars then r == slug
    else
      var ts := NonEmpty(Split(slug));
      if ts == [] then r == StripRight(Take(slug, maxChars))
      else exists k: nat :: LongestFit(ts, maxChars, k) && r == Join(ts[..k])
  }

  method Truncate(slug: string, maxChars: int) returns (r: string)
    ensures Truncated(slug, maxChars, r)
  {
    if |slug| <= maxChars {
      return slug;
    }
    var tokens := NonEmpty(Split(slug));
    if tokens == [] {
      return StripRight(Take(slug, maxChars));
    }
    var kept := [tokens[0]];
    var length := |tokens[0]|;
    for i := 1 to |tokens|
      invariant kept == tokens[..i] && length == |Join(kept)|
      invariant i > 1 ==> length <= maxChars
    {
      JoinSnoc(kept, tokens[i]);
      assert tokens[..i + 1] == kept + [tokens[i]];
      if length + 1 + |tokens[i]| > maxChars {
        forall n | i < n <= |tokens| ensures |Join(tokens[..n])| > maxChars { JoinGrows(tokens, i + 1, n); }
        assert LongestFit(tokens, maxChars, i);
        return Join(kept);
      }
      kept := kept + [tokens[i]];
      length := length + 1 + |tokens[i]|;
    }
    assert LongestFit(tokens, maxChars, |tokens|);
    return Join(kept);
  }

  /** A slug without empty tokens is a prefix of whole tokens of itself after truncation, never empty, and
      within the limit whenever its first token is. */
  lemma {:induction false} TruncatedIsPrefix(slug: string, maxChars: int, r: string)
    requires Truncated(slug, maxChars, r) && Tokens(Split(slug))
    ensures exists k :: 1 <= k <= |Split(slug)| && r == Join(Split(slug)[..k]) && (k < |Split(slug)| ==> |Join(Split(slug)[..k + 1])| > maxChars)
    ensures r != "" && r <= slug
    ensures |Split(slug)[0]| <= maxChars ==> |r| <= maxChars
  {
    var ts := Split(slug);
    JoinSplit(slug);
    NonEmptyTokens(ts);
    var k := |ts|;
    if |slug| > maxChars {
      k :| 0 <= k && LongestFit(ts, maxChars, k) && r == Join(ts[..k]);
      assert k < |ts| ==> |Join(ts[..k + 1])| > maxChars;
      if k == 1 { assert ts[..1] == [ts[0]]; }
    } else {
      assert ts[..k] == ts;
    }
    JoinPrefix(ts, k);
    assert ts[..1] == [ts[0]] && ts[0] in ts;
    JoinGrows(ts, 1, k);
  }

  lemma {:induction false} JoinPrefix(ts: seq<string>, k: nat)
    requires k <= |ts|
    ensures Join(ts[..k]) <= Join(ts)
    decreases |ts| - k
  {
    if k == |ts| {
      assert ts[..k] == ts;
    } else {
      JoinPrefix(ts, k + 1);
      JoinSnoc(ts[..k], ts[k]);
      assert ts[..k + 1] == ts[..k] + [ts[k]];
    }
  }

  lemma {:induction false} StripRightOfHyphens(s: string)
    requires forall i | 0 <= i < |s| :: s[i] == '-'
    ensures StripRight(s) == ""
  {
    if s != "" { StripRightOfHyphens(s[..|s| - 1]); }
  }

  lemma {:induction false} NoTokensMeansHyphens(s: string)
    requires forall t | t in Split(s) :: t == ""
    ensures forall i | 0 <= i < |s| :: s[i] == '-'
  {
    if s != "" {
      var (all, rest) := (Split(s), Split(s[1..]));
      assert all[0] in all;
      assert s[0] == '-';
      assert forall t | t in rest :: t in all;
      NoTokensMeansHyphens(s[1..]);
    }
  }

  lemma {:induction false} HyphensTruncateToNothing(slug: string, maxChars: int)
    requires NonEmpty(Split(slug)) == []
    ensures StripRight(Take(slug, maxChars)) == ""
  {
    JoinSplit(slug);
    NonEmptyTokens(Split(slug));
    NoTokensMeansHyphens(slug);
    StripRightOfHyphens(Take(slug, maxChars));
  }

  /** A single token that is too long is what truncation leaves of it. */
  lemma {:induction false} LongTokenStays(t: string, maxChars: int, s: string)
    requires t != "" && Hyphenless(t) && |t| > maxChars && Truncated(t, maxChars, s)
    ensures s == t
  {
    SplitToken(t);
    assert NonEmpty([t]) == [t];
    var n: nat :| LongestFit([t], maxChars, n) && s == Join([t][..n]);
    assert [t][..n] == [t];
  }

  /** Truncating again changes nothing, for every slug and every limit. */
  lemma {:induction false} TruncatedTwice(slug: string, maxChars: int, r: string, s: string)
    requires Truncated(slug, maxChars, r) && Truncated(r, maxChars, s)
    ensures s == r
  {
    if |r| > maxChars {
      var ts := NonEmpty(Split(slug));
      if ts == [] {
        HyphensTruncateToNothing(slug, maxChars);
        assert Split(r) == [""];
        assert NonEmpty([""]) == [];
        HyphensTruncateToNothing(r, maxChars);
      } else {
        JoinSplit(slug);
        NonEmptyTokens(Split(slug));
        var k: nat :| LongestFit(ts, maxChars, k) && r == Join(ts[..k]);
        assert ts[..1] == [ts[0]] && ts[0] in ts;
        LongTokenStays(r, maxChars, s);
      }
    }
  }

  /* ---------------------------------------------------------------- composition */

  /** `strftime("%Y%m%d-%H%M")` of a year of four digits. */
  datatype Stamp = Stamp(date: string, time: string) {
    predicate Valid() {
      |date| == 8 && |time| == 4
    }
  }

  method Compose(base: string, stamp: Stamp) returns (r: string)
    requires stamp.Valid()
    ensures exists t :: Truncated(base, 60, t) && r == t + "-" + stamp.date + "-" + stamp.time && |r| == |t| + 14
  {
    var t := Truncate(base, MAX_CHARS);
    assert Truncated(base, MAX_CHARS, t);
    r := t + "-" + stamp.date + "-" + stamp.time;
  }
}
