/** The counting invariant of the session. A session state is explained by
    the history of choices made since the last reset: the k-th choice judged
    the k-th email of the deck, the score is what those judgments earned, the
    streak is the run of correct ones at the end, and the answered list is the
    prefix of the deck's ids. */
module Invariant {
  import opened Deck
  import opened Session

  /** What one judgment of email `e` earns. */
  function Reward(c: Choice, e: Email): nat
  {
    if IsCorrect(c, e) then XpGain(e.difficulty) else 0
  }

  /** Total earned by a history; choice k is about email k. */
  function Earned(deck: seq<Email>, h: seq<Choice>): nat
    requires |h| <= |deck|
  {
    if h == [] then 0 else Earned(deck, h[..|h| - 1]) + Reward(h[|h| - 1], deck[|h| - 1])
  }

  /** The most the first n emails can earn: every one judged correctly. */
  function MaxEarned(deck: seq<Email>, n: nat): nat
    requires n <= |deck|
  {
    if n == 0 then 0 else MaxEarned(deck, n - 1) + XpGain(deck[n - 1].difficulty)
  }

  /** The number of correct judgments at the end of the history. */
  function TrailingCorrect(deck: seq<Email>, h: seq<Choice>): nat
    requires |h| <= |deck|
  {
    if h == [] then 0
    else if IsCorrect(h[|h| - 1], deck[|h| - 1]) then TrailingCorrect(deck, h[..|h| - 1]) + 1
    else 0
  }

  predicate AllCorrect(deck: seq<Email>, h: seq<Choice>)
    requires |h| <= |deck|
  {
    forall i :: 0 <= i < |h| ==> IsCorrect(h[i], deck[i])
  }

  /** State `s` is the one reached by the choices `h` since the last reset. */
  predicate Consistent(deck: seq<Email>, s: SessionState, h: seq<Choice>)
  {
    && |h| <= |deck|
    && s.currentEmailIndex < |deck|
    && |h| == s.currentEmailIndex + (if s.showResult then 1 else 0)
    && s.answeredEmails == DeckIds(deck)[..|h|]
    && s.score == Earned(deck, h)
    && s.streak == TrailingCorrect(deck, h)
    && s.xpEarned == (if h == [] then 0 else Reward(h[|h| - 1], deck[|h| - 1]))
    && (s.showResult <==> s.userChoice.Some?)
    && (s.showResult ==> s.userChoice == Some(h[|h| - 1]))
  }

  lemma InitialConsistent(deck: seq<Email>)
    requires |deck| > 0
    ensures Consistent(deck, Initial, [])
  {
  }

  /** Appending one choice adds exactly its reward and extends or breaks the streak. */
  lemma {:induction false} AppendChoice(deck: seq<Email>, h: seq<Choice>, c: Choice)
    requires |h| < |deck|
    ensures Earned(deck, h + [c]) == Earned(deck, h) + Reward(c, deck[|h|])
    ensures TrailingCorrect(deck, h + [c]) ==
      if IsCorrect(c, deck[|h|]) then TrailingCorrect(deck, h) + 1 else 0
    ensures AllCorrect(deck, h + [c]) <==> AllCorrect(deck, h) && IsCorrect(c, deck[|h|])
  {
    assert (h + [c])[..|h|] == h;
  }

  /** `handleChoice`, pressed while the buttons are shown, keeps the invariant
      with the choice appended to the history. */
  lemma {:induction false} JudgePreserves(deck: seq<Email>, s: SessionState, h: seq<Choice>, c: Choice)
    requires Consistent(deck, s, h) && !s.showResult
    ensures Consistent(deck, Judge(deck, s, c), h + [c])
  {
    AppendChoice(deck, h, c);
    var ids := DeckIds(deck);
    assert ids[..|h| + 1] == ids[..|h|] + [ids[|h|]];
  }

  /** `nextEmail`, pressed while a result is shown, keeps the invariant with
      the same history. */
  lemma {:induction false} AdvancePreserves(deck: seq<Email>, s: SessionState, h: seq<Choice>)
    requires Consistent(deck, s, h) && s.showResult
    ensures Consistent(deck, Advance(deck, s), h)
  {
  }

  /** `resetSimulation` starts a new, empty history. */
  lemma ResetConsistent(deck: seq<Email>, s: SessionState)
    requires |deck| > 0
    ensures Consistent(deck, Reset(s), [])
  {
  }

  /** The most the first n emails can earn lies between ten and thirty per email. */
  lemma {:induction false} MaxEarnedBounds(deck: seq<Email>, n: nat)
    requires n <= |deck|
    ensures 10 * n <= MaxEarned(deck, n) <= 30 * n
  {
    if n > 0 {
      MaxEarnedBounds(deck, n - 1);
    }
  }

  /** Every reward is a multiple of ten, so every total is. */
  lemma {:induction false} EarnedMultipleOfTen(deck: seq<Email>, h: seq<Choice>)
    requires |h| <= |deck|
    ensures Earned(deck, h) % 10 == 0
  {
    if h != [] {
      EarnedMultipleOfTen(deck, h[..|h| - 1]);
    }
  }

  /** A history earns at most the maximum for its emails, exactly the maximum
      when every judgment was correct, and at least ten less otherwise. */
  lemma {:induction false} EarnedAtMostMax(deck: seq<Email>, h: seq<Choice>)
    requires |h| <= |deck|
    ensures Earned(deck, h) <= MaxEarned(deck, |h|)
    ensures Earned(deck, h) == MaxEarned(deck, |h|) <==> AllCorrect(deck, h)
    ensures !AllCorrect(deck, h) ==> Earned(deck, h) + 10 <= MaxEarned(deck, |h|)
  {
    if h != [] {
      var p, c := h[..|h| - 1], h[|h| - 1];
      EarnedAtMostMax(deck, p);
      AppendChoice(deck, p, c);
      assert p + [c] == h;
    }
  }

  /** Bounds on what a history earns. */
  lemma EarnedBounds(deck: seq<Email>, h: seq<Choice>)
    requires |h| <= |deck|
    ensures Earned(deck, h) % 10 == 0
    ensures Earned(deck, h) <= MaxEarned(deck, |h|) <= 30 * |h|
    ensures MaxEarned(deck, |h|) >= 10 * |h|
  {
    MaxEarnedBounds(deck, |h|);
    EarnedMultipleOfTen(deck, h);
    EarnedAtMostMax(deck, h);
  }

  /** The streak never exceeds the number of judgments. */
  lemma {:induction false} TrailingCorrectBound(deck: seq<Email>, h: seq<Choice>)
    requires |h| <= |deck|
    ensures TrailingCorrect(deck, h) <= |h|
    ensures AllCorrect(deck, h) ==> TrailingCorrect(deck, h) == |h|
  {
    if h != [] {
      var p := h[..|h| - 1];
      TrailingCorrectBound(deck, p);
      AppendChoice(deck, p, h[|h| - 1]);
      assert p + [h[|h| - 1]] == h;
    }
  }

  /** What the invariant implies for the figures on the page: the answered
      list is never longer than the deck, holds no id twice when the deck's
      ids are distinct, the score is at most thirty per answered email, the
      streak at most the answered count, the progress figure at most 100 and
      the accuracy figure at most 150. */
  lemma ConsistentBounds(deck: seq<Email>, s: SessionState, h: seq<Choice>)
    requires Consistent(deck, s, h)
    ensures |s.answeredEmails| == |h| <= |deck|
    ensures DistinctIds(deck) ==>
      forall i, j :: 0 <= i < j < |s.answeredEmails| ==> s.answeredEmails[i] != s.answeredEmails[j]
    ensures s.score % 10 == 0 && s.score <= 30 * |s.answeredEmails|
    ensures s.streak <= |s.answeredEmails|
    ensures ProgressPercent(deck, s) <= 100
    ensures LiveAccuracy(s) <= 150
  {
    EarnedBounds(deck, h);
    TrailingCorrectBound(deck, h);
  }

  /** The completion panel appears exactly when the last email's result is on
      screen, and, for a deck of fewer than two hundred emails, exactly when
      the progress figure reads 100. */
  lemma CompleteIff(deck: seq<Email>, s: SessionState, h: seq<Choice>)
    requires Consistent(deck, s, h)
    ensures IsComplete(deck, s) <==> s.currentEmailIndex == |deck| - 1 && s.showResult
    ensures |deck| < 200 ==> (IsComplete(deck, s) <==> ProgressPercent(deck, s) == 100)
    ensures IsComplete(deck, s) && AllCorrect(deck, h) ==> Completion(deck, s).value.bestStreak == |deck|
  {
    TrailingCorrectBound(deck, h);
    var n, total := |h|, |deck|;
    var p := ProgressPercent(deck, s);
    if n != total && total < 200 {
      assert 200 * n + total < total * 200 by {
        MulMonotone(200, n + 1, total);
      }
      MulCancel(total, 2 * p, 200);
    }
  }

  /** The verdict shown agrees with the last choice made, while its result is shown. */
  lemma IsCorrectShownIff(deck: seq<Email>, s: SessionState, h: seq<Choice>)
    requires Consistent(deck, s, h)
    ensures IsCorrectShown(deck, s) <==> s.showResult && IsCorrect(h[|h| - 1], deck[|h| - 1])
  {
  }
}
