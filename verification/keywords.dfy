/**
 * Keyword test: `any(re.search(pat, text.lower()) for pat in KEYWORDS)`.
 *
 * Each pattern of the bot is `\b<word>\b`, some with an optional trailing
 * letter (`\bgift(s)?\b`); such a pattern matches exactly where one of its
 * spelled-out alternatives (`gift`, `gifts`) occurs as a whole word.
 */
module Keywords {
  import opened Common
  import opened Chars

  /** The nine keyword patterns, each as its list of whole-word alternatives. */
  const Patterns: seq<seq<string>> := [
    ["giveaway"],
    ["розыгрыш"],
    ["gift", "gifts"],
    ["star", "stars"],
    ["приз"],
    ["портал", "порталс"],
    ["portals"],
    ["тон"],
    ["ton"]
  ]

  /** `\b<w>\b` matches at `i`: `w` occurs there with no word character on either side. */
  predicate WholeWordAt(t: string, w: string, i: nat) {
    && i + |w| <= |t|
    && t[i..i + |w|] == w
    && (i == 0 || !IsWordChar(t[i - 1]))
    && (i + |w| == |t| || !IsWordChar(t[i + |w|]))
  }

  /** The leftmost whole-word occurrence of `w` at or after `i` (`re.search` from `i`). */
  function SearchFrom(t: string, w: string, i: nat): (r: Option<nat>)
    requires |w| > 0
    ensures r.Some? ==> i <= r.value && WholeWordAt(t, w, r.value)
    ensures r.Some? ==> forall p :: i <= p < r.value ==> !WholeWordAt(t, w, p)
    ensures r.None? ==> forall p :: i <= p ==> !WholeWordAt(t, w, p)
    decreases |t| - i
  {
    if i + |w| > |t| then None
    else if WholeWordAt(t, w, i) then Some(i)
    else SearchFrom(t, w, i + 1)
  }

  /** `re.search(pattern, t)` found something. */
  function PatternFound(t: string, alternatives: seq<string>): (r: bool)
    requires forall w :: w in alternatives ==> |w| > 0
    ensures r <==> exists w, p :: w in alternatives && WholeWordAt(t, w, p)
  {
    if alternatives == [] then false
    else if SearchFrom(t, alternatives[0], 0).Some? then true
    else
      var rest := PatternFound(t, alternatives[1..]);
      assert forall w :: w in alternatives ==> w == alternatives[0] || w in alternatives[1..];
      rest
  }

  /** `matches_keywords`: some keyword occurs as a whole word in the lower-cased text. */
  function MatchesKeywords(text: string): (r: bool)
    ensures r <==> exists k, w, p :: 0 <= k < |Patterns| && w in Patterns[k] && WholeWordAt(LowerStr(text), w, p)
  {
    AnyPatternFrom(LowerStr(text), 0)
  }

  function AnyPatternFrom(t: string, k: nat): (r: bool)
    requires k <= |Patterns|
    ensures r <==> exists j, w, p :: k <= j < |Patterns| && w in Patterns[j] && WholeWordAt(t, w, p)
    decreases |Patterns| - k
  {
    if k == |Patterns| then false
    else PatternFound(t, Patterns[k]) || AnyPatternFrom(t, k + 1)
  }

  /** The empty text holds no keyword (`text.lower() if text else ""`). */
  lemma EmptyHasNoKeyword()
    ensures !MatchesKeywords("")
  {
  }

  /** Lower-casing the text first changes nothing: keyword matching ignores case. */
  lemma KeywordsIgnoreCase(text: string)
    ensures MatchesKeywords(LowerStr(text)) == MatchesKeywords(text)
  {
    LowerIdempotent(text);
  }

  /** A keyword surrounded by non-word characters is found in any capitalisation. */
  lemma KeywordInContext(pre: string, w: string, post: string, text: string)
    requires exists k :: 0 <= k < |Patterns| && w in Patterns[k]
    requires LowerStr(text) == pre + w + post
    requires pre == [] || !IsWordChar(pre[|pre| - 1])
    requires post == [] || !IsWordChar(post[0])
    ensures MatchesKeywords(text)
  {
    var t := LowerStr(text);
    assert t[|pre|..|pre| + |w|] == w;
    if pre != [] {
      assert t[|pre| - 1] == pre[|pre| - 1];
    }
    if post != [] {
      assert t[|pre| + |w|] == post[0];
    }
    assert WholeWordAt(t, w, |pre|);
  }
}
