/** The simulator's session state, its three transitions as functions of the
    state, and the figures the page derives from it. */
module Session {
  import opened Deck

  datatype Option<T> = None | Some(value: T)

  /** The two answer buttons: "This is Safe" and "This is Phishing". */
  datatype Choice = Safe | Phishing

  /** The page's state hooks, one field each. */
  datatype SessionState = SessionState(
    currentEmailIndex: nat,
    score: nat,
    showResult: bool,
    userChoice: Option<Choice>,
    streak: nat,
    answeredEmails: seq<int>,
    xpEarned: nat,
    showFeedback: bool)

  /** The state the page starts in, and the one a reset restores. */
  const Initial: SessionState := SessionState(0, 0, false, None, 0, [], 0, false)

  /** Reward for a correct judgment of an email of the given difficulty. */
  function XpGain(d: Difficulty): (r: nat)
    ensures 10 <= r <= 30 && r % 10 == 0
    ensures r == 30 <==> d == Hard
    ensures r == 10 <==> d == Easy
  {
    match d
    case Hard => 30
    case Medium => 20
    case Easy => 10
  }

  /** The one right answer for an email. */
  function RightAnswer(e: Email): Choice
  {
    if e.isPhishing then Phishing else Safe
  }

  /** A judgment is correct when "phishing" was chosen exactly for a phishing
      email, that is, when it is the email's one right answer. */
  predicate IsCorrect(choice: Choice, e: Email): (r: bool)
    ensures r <==> choice == RightAnswer(e)
  {
    (choice == Phishing) == e.isPhishing
  }

  /** What `handleChoice` does to the state: judge the current email of
      `deck`, which always exists. */
  function Judge(deck: seq<Email>, s: SessionState, choice: Choice): (r: SessionState)
    requires s.currentEmailIndex < |deck|
    ensures r.currentEmailIndex == s.currentEmailIndex
    ensures r.showResult && r.userChoice == Some(choice) && r.showFeedback == s.showFeedback
    ensures r.answeredEmails == s.answeredEmails + [deck[s.currentEmailIndex].id]
    ensures IsCorrect(choice, deck[s.currentEmailIndex]) ==>
      var gain := XpGain(deck[s.currentEmailIndex].difficulty);
      r.score == s.score + gain && r.xpEarned == gain && r.streak == s.streak + 1
    ensures !IsCorrect(choice, deck[s.currentEmailIndex]) ==>
      r.score == s.score && r.xpEarned == 0 && r.streak == 0
    ensures s.score <= r.score <= s.score + 30
    ensures IsCorrectShown(deck, r) <==> IsCorrect(choice, deck[s.currentEmailIndex])
  {
    var email := deck[s.currentEmailIndex];
    var s1 := s.(userChoice := Some(choice));
    var s2 :=
      if IsCorrect(choice, email) then
        var xpGain := XpGain(email.difficulty);
        s1.(score := s.score + xpGain, xpEarned := xpGain, streak := s.streak + 1)
      else
        s1.(streak := 0, xpEarned := 0);
    s2.(showResult := true, answeredEmails := s.answeredEmails + [email.id])
  }

  /** What `nextEmail` does to the state: it moves on only when the current
      email is not the last one, and otherwise changes nothing. */
  function Advance(deck: seq<Email>, s: SessionState): (r: SessionState)
    ensures s.currentEmailIndex < |deck| - 1 ==>
      r == s.(currentEmailIndex := s.currentEmailIndex + 1, showResult := false,
              userChoice := None, showFeedback := false)
    ensures s.currentEmailIndex >= |deck| - 1 ==> r == s
    ensures s.currentEmailIndex < |deck| ==> r.currentEmailIndex < |deck|
  {
    if s.currentEmailIndex < |deck| - 1 then
      s.(currentEmailIndex := s.currentEmailIndex + 1, showResult := false,
         userChoice := None, showFeedback := false)
    else
      s
  }

  /** What `resetSimulation` does: every field back to its initial value. */
  function Reset(s: SessionState): (r: SessionState)
    ensures r == Initial
    ensures r.answeredEmails == [] && r.score == 0 && r.streak == 0 && !r.showResult
  {
    Initial
  }

  /** The verdict the result panel shows: no verdict before a choice is made,
      otherwise whether the recorded choice is right for the current email. */
  predicate IsCorrectShown(deck: seq<Email>, s: SessionState): (r: bool)
    requires s.currentEmailIndex < |deck|
    ensures r ==> s.userChoice.Some?
    ensures s.userChoice.Some? ==> (r <==> s.userChoice.value == RightAnswer(deck[s.currentEmailIndex]))
  {
    s.userChoice.Some? && IsCorrect(s.userChoice.value, deck[s.currentEmailIndex])
  }

  /** `Math.round(num / den)` for a non-negative quotient: the nearest
      integer, ties going up. */
  function RoundHalfUp(num: nat, den: nat): (r: nat)
    requires den > 0
    ensures den * (2 * r) <= 2 * num + den < den * (2 * r + 2)
    ensures num % den == 0 ==> r == num / den
  {
    RoundHalfUpBounds(num, den);
    (2 * num + den) / (2 * den)
  }

  lemma RoundHalfUpBounds(num: nat, den: nat)
    requires den > 0
    ensures var q := (2 * num + den) / (2 * den);
      den * (2 * q) <= 2 * num + den < den * (2 * q + 2) &&
      (num % den == 0 ==> q == num / den)
  {
    var q := (2 * num + den) / (2 * den);
    DivBounds(2 * num + den, 2 * den);
    assert (2 * den) * q == den * (2 * q);
    assert (2 * den) * q + 2 * den == den * (2 * q + 2);
    if num % den == 0 {
      var m := num / den;
      assert num == den * m;
      assert (2 * den) * m == 2 * num;
      DivUnique(2 * num + den, 2 * den, m);
    }
  }

  lemma DivBounds(a: nat, b: nat)
    requires b > 0
    ensures b * (a / b) <= a < b * (a / b) + b
  {
  }

  lemma MulMonotone(b: nat, x: nat, y: nat)
    requires x <= y
    ensures b * x <= b * y
  {
  }

  lemma MulCancel(b: nat, x: nat, y: nat)
    requires b * x < b * y
    ensures x < y
  {
    if y <= x {
      MulMonotone(b, y, x);
    }
  }

  /** Integer division is determined by the bounds it satisfies. */
  lemma DivUnique(a: nat, b: nat, q: nat)
    requires b > 0 && b * q <= a < b * q + b
    ensures a / b == q
  {
    DivBounds(a, b);
    var d := a / b;
    assert b * (d + 1) == b * d + b;
    assert b * (q + 1) == b * q + b;
    MulCancel(b, q, d + 1);
    MulCancel(b, d, q + 1);
  }

  /** The "N% Complete" figure above the progress bar: the answered share of
      the deck in percent, rounded; never above 100 while the answered list
      fits the deck, and 100 once every email is answered. */
  function ProgressPercent(deck: seq<Email>, s: SessionState): (r: nat)
    requires |deck| > 0
    ensures |deck| * (2 * r) <= 200 * |s.answeredEmails| + |deck| < |deck| * (2 * r + 2)
    ensures |s.answeredEmails| <= |deck| ==> r <= 100
    ensures |s.answeredEmails| == |deck| ==> r == 100
  {
    RoundShare(|s.answeredEmails|, |deck|);
    RoundHalfUp(100 * |s.answeredEmails|, |deck|)
  }

  /** A share a/n in percent, rounded: at most 100 when a is at most n, and
      exactly 100 when a is n. */
  lemma RoundShare(a: nat, n: nat)
    requires 0 < n
    ensures a <= n ==> RoundHalfUp(100 * a, n) <= 100
    ensures a == n ==> RoundHalfUp(100 * a, n) == 100
  {
    var p := RoundHalfUp(100 * a, n);
    if a <= n {
      assert n * (2 * p) <= 200 * a + n <= n * 201 by {
        MulMonotone(200, a, n);
      }
      MulCancel(n, 2 * p, 202);
    }
    if a == n {
      assert n * 201 < n * (2 * p + 2);
      MulCancel(n, 201, 2 * p + 2);
    }
  }

  /** The "Accuracy" figure of the stats bar: the score over twenty points per
      answered email, whatever the emails' difficulties, in percent and
      rounded; 0 before any answer, and at most 150 while the score is at most
      thirty points per answered email. */
  function LiveAccuracy(s: SessionState): (r: nat)
    ensures |s.answeredEmails| == 0 ==> r == 0
    ensures |s.answeredEmails| > 0 ==>
      (|s.answeredEmails| * 20) * (2 * r) <= 200 * s.score + |s.answeredEmails| * 20 < (|s.answeredEmails| * 20) * (2 * r + 2)
    ensures s.score <= 30 * |s.answeredEmails| ==> r <= 150
  {
    if |s.answeredEmails| > 0 then (LiveAccuracyBound(s.score, |s.answeredEmails|); RoundHalfUp(100 * s.score, |s.answeredEmails| * 20))
    else 0
  }

  /** At most thirty points per email, over twenty points per email, is at
      most 150 percent once rounded. */
  lemma LiveAccuracyBound(score: nat, n: nat)
    requires n > 0
    ensures score <= 30 * n ==> RoundHalfUp(100 * score, n * 20) <= 150
  {
    var r := RoundHalfUp(100 * score, n * 20);
    if score <= 30 * n {
      assert (n * 20) * (2 * r) <= 2 * (100 * score) + n * 20;
      assert (n * 20) * (2 * r) <= (n * 20) * 301;
      MulCancel(n * 20, 2 * r, 302);
    }
  }

  /** The "Simulation Complete" panel is shown once every email is answered
      and the last result is on screen; progress then reads 100. */
  predicate IsComplete(deck: seq<Email>, s: SessionState): (r: bool)
    ensures r ==> s.showResult
    ensures |deck| > 0 && r ==> ProgressPercent(deck, s) == 100
  {
    |s.answeredEmails| == |deck| && s.showResult
  }

  /** The four figures of the completion panel. */
  datatype CompletionStats = CompletionStats(totalXp: nat, accuracy: nat, bestStreak: nat, emailsReviewed: nat)

  /** The completion panel, when it is shown. Its accuracy divides by twenty
      points per email of the deck, and under "Best Streak" it shows the
      current streak. */
  function Completion(deck: seq<Email>, s: SessionState): (r: Option<CompletionStats>)
    requires |deck| > 0
    ensures r.Some? <==> IsComplete(deck, s)
    ensures r.Some? ==> r.value.bestStreak == s.streak && r.value.totalXp == s.score
    ensures r.Some? ==> r.value.emailsReviewed == |deck|
    ensures r.Some? ==> |deck| * (40 * r.value.accuracy - 20) <= 200 * s.score < |deck| * (40 * r.value.accuracy + 20)
  {
    if IsComplete(deck, s) then
      Some(CompletionStats(s.score, RoundHalfUp(100 * s.score, |deck| * 20), s.streak, |s.answeredEmails|))
    else
      None
  }
}
