/** The candidate rule of `handle_forward`: a keyword hit or at least one link. */
module Classifier {
  import opened Common
  import opened Chars
  import opened Links
  import opened Keywords

  datatype Verdict = Verdict(isCandidate: bool, links: seq<string>)

  function Classify(text: string): (v: Verdict)
    ensures v.links == ExtractLinks(text)
    ensures v.isCandidate <==> MatchesKeywords(text) || |v.links| > 0
  {
    var links := ExtractLinks(text);
    Verdict(MatchesKeywords(text) || |links| > 0, links)
  }

  /** Empty text is never a candidate. */
  lemma EmptyNeverCandidate()
    ensures !Classify("").isCandidate
    ensures Classify("").links == []
  {
    EmptyHasNoKeyword();
  }

  /** Text in which a link starts is a candidate whatever its words. */
  lemma LinkMakesCandidate(text: string, p: nat)
    requires p < |text| && MatchAt(text, p).Some?
    ensures Classify(text).isCandidate
  {
    MatchGivesLink(text, p);
  }

  /** Text with neither a keyword nor a link is rejected. */
  lemma NoKeywordNoLinkRejected(text: string)
    requires forall k, w, p :: 0 <= k < |Patterns| && w in Patterns[k] ==> !WholeWordAt(LowerStr(text), w, p)
    requires forall p :: 0 <= p < |text| ==> MatchAt(text, p).None?
    ensures !Classify(text).isCandidate
  {
    SpansAreMatches(text);
    var sp := Spans(text);
    if |sp| > 0 {
      MatchAtIsMatch(text, sp[0].start, sp[0].end);
    }
  }

  /** A post that opens with "Giveaway!" is a candidate, capital letter and all. */
  lemma GiveawayPostIsCandidate()
    ensures Classify("Giveaway! Win Stars").isCandidate
  {
    var text := "Giveaway! Win Stars";
    var lowered := "giveaway! win stars";
    assert LowerStr(text) == lowered;
    assert lowered == [] + "giveaway" + "! win stars";
    assert "giveaway" in Patterns[0];
    KeywordInContext([], "giveaway", "! win stars", text);
  }
}
