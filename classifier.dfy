/**
 * The outcome classifier (`classify_outcome`): the body text is lower-cased
 * and three phrase groups are tried in a fixed order, Rejected, then
 * Interview, then Offer; text matching none of them is "Unknown/No Decision".
 */
module Classifier {
  import opened Text

  /** The four outcomes the classifier can report. */
  datatype Outcome = Rejected | Interview | Offer | Unknown

  /**
   * The label written to the ledger for an outcome: one of the four strings
   * `classify_outcome` returns, and never the column name "Outcome".
   */
  function Label(o: Outcome): (r: string)
    ensures r in ["Rejected", "Interview", "Offer", "Unknown/No Decision"]
    ensures r != "Outcome"
  {
    match o
    case Rejected => "Rejected"
    case Interview => "Interview"
    case Offer => "Offer"
    case Unknown => "Unknown/No Decision"
  }

  const RejectedPhrases: seq<string> := ["we regret to inform", "unfortunately", "not moving forward"]
  const InterviewPhrases: seq<string> := ["schedule an interview", "invite you to interview", "looking forward to interviewing"]
  const OfferPhrases: seq<string> := ["offer you the position", "extend an offer", "congratulations on your offer"]

  /** Some phrase of the group occurs in `text` (a regex of literal alternatives). */
  predicate MatchesAny(text: string, phrases: seq<string>)
  {
    exists p :: p in phrases && Contains(text, p)
  }

  /** Some phrase of the group occurs at some index of `text`. */
  ghost predicate Occurs(text: string, phrases: seq<string>)
  {
    exists p, i: nat :: p in phrases && OccursAt(text, p, i)
  }

  /**
   * `classify_outcome`: each outcome is reported exactly when a phrase of its
   * group occurs in the lowered text and no phrase of a group of higher
   * priority does.
   */
  function Classify(body: string): (r: Outcome)
    ensures r == Rejected <==> Occurs(Lower(body), RejectedPhrases)
    ensures r == Interview <==>
      !Occurs(Lower(body), RejectedPhrases) && Occurs(Lower(body), InterviewPhrases)
    ensures r == Offer <==>
      !Occurs(Lower(body), RejectedPhrases) && !Occurs(Lower(body), InterviewPhrases)
      && Occurs(Lower(body), OfferPhrases)
    ensures r == Unknown <==>
      !Occurs(Lower(body), RejectedPhrases) && !Occurs(Lower(body), InterviewPhrases)
      && !Occurs(Lower(body), OfferPhrases)
  {
    var lowered := Lower(body);
    if MatchesAny(lowered, RejectedPhrases) then Rejected
    else if MatchesAny(lowered, InterviewPhrases) then Interview
    else if MatchesAny(lowered, OfferPhrases) then Offer
    else Unknown
  }

  /** A rejection phrase wins over everything else in the text. */
  lemma {:induction false} RejectedPhraseWins(body: string, p: string, i: nat)
    requires p in RejectedPhrases && OccursAt(body, p, i)
    ensures Classify(body) == Rejected
  {
    assert IsLower(p);
    LowerKeepsOccurrence(body, p, i);
  }

  /** An interview phrase gives Interview unless a rejection phrase is also present. */
  lemma {:induction false} InterviewPhraseWinsOverOffer(body: string, p: string, i: nat)
    requires p in InterviewPhrases && OccursAt(body, p, i)
    requires !MatchesAny(Lower(body), RejectedPhrases)
    ensures Classify(body) == Interview
  {
    assert IsLower(p);
    LowerKeepsOccurrence(body, p, i);
  }

  /** An offer phrase gives Offer unless a rejection or interview phrase is also present. */
  lemma {:induction false} OfferPhraseWithoutOthers(body: string, p: string, i: nat)
    requires p in OfferPhrases && OccursAt(body, p, i)
    requires !MatchesAny(Lower(body), RejectedPhrases) && !MatchesAny(Lower(body), InterviewPhrases)
    ensures Classify(body) == Offer
  {
    assert IsLower(p);
    LowerKeepsOccurrence(body, p, i);
  }

  /** Letter case does not matter: only the lowered text is inspected. */
  lemma {:induction false} ClassifyIgnoresCase(body: string)
    ensures Classify(Lower(body)) == Classify(body)
  {
    LowerIdempotent(body);
  }

  /** Two texts that agree up to letter case get the same outcome. */
  lemma {:induction false} SameLowerSameOutcome(a: string, b: string)
    requires Lower(a) == Lower(b)
    ensures Classify(a) == Classify(b)
  {
  }

  /** An empty body (no usable part) is Unknown/No Decision. */
  lemma {:induction false} EmptyBodyIsUnknown()
    ensures Classify("") == Unknown
  {
    assert Lower("") == "";
    assert forall p :: p in RejectedPhrases + InterviewPhrases + OfferPhrases ==> |p| > 0;
  }

  /** No phrase of the group occurs in `text`. */
  lemma NoneOfGroup(text: string, phrases: seq<string>)
    requires forall k :: 0 <= k < |phrases| ==> !Contains(text, phrases[k])
    ensures !MatchesAny(text, phrases)
  {
  }

  /**
   * No phrase of any group occurs in the lower-case word "congratulations".
   * The word is a parameter pinned by the precondition, so that the caller's
   * proof sees only this conclusion and not the character-level work.
   */
  lemma {:induction false} CongratulationsMatchesNothing(t: string)
    requires t == "congratulations"
    ensures !MatchesAny(t, RejectedPhrases)
    ensures !MatchesAny(t, InterviewPhrases)
    ensures !MatchesAny(t, OfferPhrases)
  {
    assert |t| == 15;
    assert !Contains(t, RejectedPhrases[1]) by {
      var p := RejectedPhrases[1];
      assert |p| == 13 && p[0] == 'u';
      assert !Contains(t[3..], p);
      assert t[2..][1..] == t[3..] && t[2..][..13][0] != p[0];
      assert !Contains(t[2..], p);
      assert t[1..][1..] == t[2..] && t[1..][..13][0] != p[0];
      assert !Contains(t[1..], p);
      assert t[..13][0] != p[0];
    }
    assert !Contains(t, OfferPhrases[1]) by {
      assert t[0] != 'e';
    }
    NoneOfGroup(t, RejectedPhrases);
    NoneOfGroup(t, InterviewPhrases);
    NoneOfGroup(t, OfferPhrases);
  }

  /** The word "Congratulations" on its own is not one of the offer phrases: it is Unknown/No Decision. */
  lemma {:induction false} BareCongratulationsIsUnknown()
    ensures Classify("Congratulations") == Unknown
  {
    var t := Lower("Congratulations");
    assert t == "congratulations";
    CongratulationsMatchesNothing(t);
  }

  /** A body that begins "We regret to inform", capitalised, is Rejected. */
  lemma {:induction false} RegretToInformIsRejected()
    ensures Classify("We regret to inform you...") == Rejected
  {
    var t := Lower("We regret to inform you...");
    assert t[..19] == RejectedPhrases[0];
    assert Contains(t, RejectedPhrases[0]);
  }

  /**
   * The rejection sentence wrapped in a paragraph tag is found after the tag.
   * The text is a parameter pinned by the precondition, so that the caller's
   * proof sees only this conclusion and not the character-level work.
   */
  lemma {:induction false} MarkedUpRegretMatches(t: string)
    requires t == "<p>we regret to inform you...</p>"
    ensures MatchesAny(t, RejectedPhrases)
  {
    var u := t[3..];
    assert u == "we regret to inform you...</p>";
    assert u[..19] == RejectedPhrases[0];
    assert Contains(u, RejectedPhrases[0]);
    ContainsInSuffix(t, RejectedPhrases[0], 3);
  }

  /** Markup around a rejection sentence does not hide it: the body is Rejected. */
  lemma {:induction false} MarkedUpRegretIsRejected()
    ensures Classify("<p>We regret to inform you...</p>") == Rejected
  {
    var t := Lower("<p>We regret to inform you...</p>");
    assert t == "<p>we regret to inform you...</p>";
    MarkedUpRegretMatches(t);
  }
}
