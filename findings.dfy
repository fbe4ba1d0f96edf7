/** The two accuracy figures and the "Best Streak" figure of the page, which
    do not say what their labels say, each shown on a concrete run of the
    page's deck, next to the figure the label evidently intends. */
module Findings {
  import opened Deck
  import opened Session
  import opened Invariant
  import opened Trace

  /** The right answer for every email of the page's deck. */
  function PerfectChoices(): (cs: seq<Choice>)
    ensures |cs| == |PhishingEmails| && AllCorrect(PhishingEmails, cs)
  {
    seq(|PhishingEmails|, i requires 0 <= i < |PhishingEmails| => RightAnswer(PhishingEmails[i]))
  }

  /** The page's deck is worth 150 points in all. */
  lemma DeckMaximum()
    ensures MaxEarned(PhishingEmails, |PhishingEmails|) == 150
  {
    DeckFacts();
  }

  /** As written, the completion panel divides by twenty points per email, so
      a run with every email judged correctly reports 94% accuracy. */
  lemma PerfectRunAccuracyAsWritten()
    ensures var s := Run(PhishingEmails, Play(PerfectChoices()));
      IsComplete(PhishingEmails, s) && Completion(PhishingEmails, s).Some? &&
      Completion(PhishingEmails, s).value.accuracy == 94
  {
    var d, cs := PhishingEmails, PerfectChoices();
    DeckFacts();
    var s := Run(d, Play(cs));
    PlayCompletes(d, cs);
    EarnedAtMostMax(d, cs);
    DeckMaximum();
    assert s.score == 150;
    var a := Completion(d, s).value.accuracy;
    assert 8 * (40 * a - 20) <= 30000 < 8 * (40 * a + 20);
  }

  /** Likewise the stats bar reports 50% once the first email, an easy one,
      is judged correctly. */
  lemma FirstAnswerAccuracyAsWritten()
    ensures var s := Run(PhishingEmails, Play(PerfectChoices()[..1]));
      s.answeredEmails == [1] && s.score == 10 && LiveAccuracy(s) == 50
  {
    var d := PhishingEmails;
    DeckFacts();
    assert PerfectChoices()[..1] == [Phishing];
    assert Play([Phishing]) == [] + [ClickChoice(Phishing)];
    RunSnoc(d, [], ClickChoice(Phishing));
    var s := Judge(d, Initial, Phishing);
    assert Run(d, Play(PerfectChoices()[..1])) == s;
    assert s.score == 10 && s.answeredEmails == [1];
    assert RoundHalfUp(1000, 20) == 50;
  }

  /** The accuracy the label evidently means: the score as a share of the most
      the answered emails could have earned. It never exceeds 100, it is 100
      for a history without a mistake, and (for up to 66 answered emails, so
      that one mistake is not rounded away) only then. */
  function WeightedAccuracy(deck: seq<Email>, h: seq<Choice>): (r: nat)
    requires 0 < |h| <= |deck|
    ensures r <= 100
    ensures AllCorrect(deck, h) ==> r == 100
    ensures |h| <= 66 && r == 100 ==> AllCorrect(deck, h)
  {
    MaxEarnedBounds(deck, |h|);
    EarnedAtMostMax(deck, h);
    WeightedRounding(Earned(deck, h), MaxEarned(deck, |h|), AllCorrect(deck, h));
    RoundHalfUp(100 * Earned(deck, h), MaxEarned(deck, |h|))
  }

  /** Rounding the share e/m: the full share rounds to 100, and a share short
      by ten points or more, out of fewer than 2000, to less than 100. */
  lemma WeightedRounding(e: nat, m: nat, full: bool)
    requires 0 < m && e <= m
    requires full <==> e == m
    requires !full ==> e + 10 <= m
    ensures RoundHalfUp(100 * e, m) <= 100
    ensures full ==> RoundHalfUp(100 * e, m) == 100
    ensures !full && m < 2000 ==> RoundHalfUp(100 * e, m) < 100
  {
    var r := RoundHalfUp(100 * e, m);
    assert m * (2 * r) <= 200 * e + m < m * (2 * r + 2);
    assert 200 * e + m <= m * 201 < m * 202 by {
      MulMonotone(200, e, m);
    }
    MulCancel(m, 2 * r, 202);
    if full {
      assert m * 201 < m * (2 * r + 2);
      MulCancel(m, 201, 2 * r + 2);
    } else if m < 2000 {
      assert 200 * e + m < m * 200 by {
        MulMonotone(200, e + 10, m);
      }
      MulCancel(m, 2 * r, 200);
    }
  }

  /** The perfect run of the page's deck scores 100 under the corrected
      accuracy, and any run with a mistake less. */
  lemma WeightedAccuracyOnDeck(cs: seq<Choice>)
    requires |cs| == |PhishingEmails|
    ensures WeightedAccuracy(PhishingEmails, cs) == 100 <==> AllCorrect(PhishingEmails, cs)
    ensures WeightedAccuracy(PhishingEmails, PerfectChoices()) == 100
  {
    DeckFacts();
  }

  /** The longest run of consecutive correct judgments in a history. */
  function BestStreak(deck: seq<Email>, h: seq<Choice>): (r: nat)
    requires |h| <= |deck|
    ensures TrailingCorrect(deck, h) <= r <= |h|
  {
    TrailingCorrectBound(deck, h);
    if h == [] then 0
    else
      var best := BestStreak(deck, h[..|h| - 1]);
      if TrailingCorrect(deck, h) > best then TrailingCorrect(deck, h) else best
  }

  /** No moment of the history had a longer streak than BestStreak. */
  lemma {:induction false} BestStreakIsUpperBound(deck: seq<Email>, h: seq<Choice>)
    requires |h| <= |deck|
    ensures forall k :: 0 <= k <= |h| ==> TrailingCorrect(deck, h[..k]) <= BestStreak(deck, h)
  {
    assert h[..|h|] == h;
    if h != [] {
      var p := h[..|h| - 1];
      BestStreakIsUpperBound(deck, p);
      forall k | 0 <= k < |h|
        ensures TrailingCorrect(deck, h[..k]) <= BestStreak(deck, h)
      {
        assert h[..k] == p[..k];
      }
    }
  }

  /** Some moment of the history had a streak of exactly BestStreak. */
  lemma {:induction false} BestStreakIsReached(deck: seq<Email>, h: seq<Choice>)
    requires |h| <= |deck|
    ensures exists k :: 0 <= k <= |h| && TrailingCorrect(deck, h[..k]) == BestStreak(deck, h)
  {
    assert h[..|h|] == h;
    if h != [] {
      var p := h[..|h| - 1];
      BestStreakIsReached(deck, p);
      if TrailingCorrect(deck, h) <= BestStreak(deck, p) {
        var k :| 0 <= k <= |p| && TrailingCorrect(deck, p[..k]) == BestStreak(deck, p);
        assert h[..k] == p[..k];
      }
    }
  }

  /** Seven correct judgments followed by a wrong one on the last email: as
      written the "Best Streak" figure of the completion panel reads 0, while
      the longest run was 7. */
  lemma BestStreakAsWritten()
    ensures var cs := PerfectChoices()[..7] + [Phishing];
      var s := Run(PhishingEmails, Play(cs));
      IsComplete(PhishingEmails, s) && Completion(PhishingEmails, s).value.bestStreak == 0 &&
      BestStreak(PhishingEmails, cs) == 7
  {
    var d := PhishingEmails;
    DeckFacts();
    var cs := PerfectChoices()[..7] + [Phishing];
    PlayCompletes(d, cs);
    var p := cs[..7];
    assert p == PerfectChoices()[..7];
    assert AllCorrect(d, p);
    TrailingCorrectBound(d, p);
    assert TrailingCorrect(d, cs) == 0;
    assert BestStreak(d, p) == 7;
  }
}
