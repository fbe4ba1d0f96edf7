/** Sessions as sequences of button clicks. A button that is not rendered
    cannot be clicked, so a click on it changes nothing. */
module Trace {
  import opened Deck
  import opened Session
  import opened Invariant

  /** "This is Safe" / "This is Phishing", "Next Email", and the buttons that
      call `resetSimulation` ("Start Over", "Complete! View Results", "Try Again"). */
  datatype Click = ClickChoice(choice: Choice) | ClickNext | ClickStartOver

  /** Whether the clicked button is on screen in state `s`: the answer buttons
      exactly while no result is shown, "Next Email" exactly while a result is
      shown and another email follows, and the reset buttons exactly while a
      result is shown. */
  predicate Rendered(deck: seq<Email>, s: SessionState, a: Click): (r: bool)
    ensures a.ClickChoice? ==> (r <==> !s.showResult && s.currentEmailIndex < |deck|)
    ensures a.ClickNext? ==> (r <==> s.showResult && s.currentEmailIndex + 1 < |deck|)
    ensures a.ClickStartOver? ==> (r <==> s.showResult)
  {
    match a
    case ClickChoice(_) => !s.showResult && s.currentEmailIndex < |deck|
    case ClickNext => s.showResult && s.currentEmailIndex < |deck| - 1
    case ClickStartOver => s.showResult
  }

  /** The effect of one click. */
  function Step(deck: seq<Email>, s: SessionState, a: Click): SessionState
  {
    if !Rendered(deck, s, a) then s
    else
      match a
      case ClickChoice(c) => Judge(deck, s, c)
      case ClickNext => Advance(deck, s)
      case ClickStartOver => Reset(s)
  }

  /** The state after a sequence of clicks on a freshly loaded page. */
  function Run(deck: seq<Email>, clicks: seq<Click>): SessionState
  {
    if clicks == [] then Initial else Step(deck, Run(deck, clicks[..|clicks| - 1]), clicks[|clicks| - 1])
  }

  /** The choices that took effect since the last reset. */
  function Choices(deck: seq<Email>, clicks: seq<Click>): seq<Choice>
  {
    if clicks == [] then []
    else
      var p, a := clicks[..|clicks| - 1], clicks[|clicks| - 1];
      if !Rendered(deck, Run(deck, p), a) then Choices(deck, p)
      else
        match a
        case ClickChoice(c) => Choices(deck, p) + [c]
        case ClickNext => Choices(deck, p)
        case ClickStartOver => []
  }

  lemma RunSnoc(deck: seq<Email>, clicks: seq<Click>, a: Click)
    ensures Run(deck, clicks + [a]) == Step(deck, Run(deck, clicks), a)
    ensures Choices(deck, clicks + [a]) ==
      if !Rendered(deck, Run(deck, clicks), a) then Choices(deck, clicks)
      else match a
        case ClickChoice(c) => Choices(deck, clicks) + [c]
        case ClickNext => Choices(deck, clicks)
        case ClickStartOver => []
  {
    assert (clicks + [a])[..|clicks|] == clicks;
  }

  /** Every reachable state satisfies the counting invariant with the choices
      that took effect since the last reset. */
  lemma {:induction false} RunConsistent(deck: seq<Email>, clicks: seq<Click>)
    requires |deck| > 0
    ensures Consistent(deck, Run(deck, clicks), Choices(deck, clicks))
  {
    if clicks == [] {
      InitialConsistent(deck);
    } else {
      var p, a := clicks[..|clicks| - 1], clicks[|clicks| - 1];
      RunConsistent(deck, p);
      var s, h := Run(deck, p), Choices(deck, p);
      if Rendered(deck, s, a) {
        match a
        case ClickChoice(c) => JudgePreserves(deck, s, h, c);
        case ClickNext => AdvancePreserves(deck, s, h);
        case ClickStartOver => ResetConsistent(deck, s);
      }
    }
  }

  /** In every reachable state: the index stays inside the deck, the answered
      list is the deck's ids in order, so holds no id twice and never outgrows
      the deck, and the score is at most thirty per answered email. */
  lemma RunBounds(deck: seq<Email>, clicks: seq<Click>)
    requires |deck| > 0 && DistinctIds(deck)
    ensures var s := Run(deck, clicks);
      && s.currentEmailIndex < |deck|
      && |s.answeredEmails| == s.currentEmailIndex + (if s.showResult then 1 else 0) <= |deck|
      && s.answeredEmails == DeckIds(deck)[..|s.answeredEmails|]
      && (forall i, j :: 0 <= i < j < |s.answeredEmails| ==> s.answeredEmails[i] != s.answeredEmails[j])
      && s.score <= 30 * |s.answeredEmails|
      && s.streak <= |s.answeredEmails|
  {
    RunConsistent(deck, clicks);
    ConsistentBounds(deck, Run(deck, clicks), Choices(deck, clicks));
  }

  /** Apart from a reset, no click lowers the score or shortens the answered list. */
  lemma StepMonotone(deck: seq<Email>, s: SessionState, a: Click)
    requires !(a.ClickStartOver? && Rendered(deck, s, a))
    ensures Step(deck, s, a).score >= s.score
    ensures s.answeredEmails <= Step(deck, s, a).answeredEmails
  {
  }

  /** A second answer click for the same email does nothing: the buttons are
      gone once a result is shown. */
  lemma SecondChoiceIgnored(deck: seq<Email>, s: SessionState, c1: Choice, c2: Choice)
    ensures Step(deck, Step(deck, s, ClickChoice(c1)), ClickChoice(c2)) == Step(deck, s, ClickChoice(c1))
  {
  }

  /** Answering the first n emails with the given choices, pressing "Next
      Email" between two answers. */
  function Play(cs: seq<Choice>): seq<Click>
  {
    if cs == [] then []
    else if |cs| == 1 then [ClickChoice(cs[0])]
    else Play(cs[..|cs| - 1]) + [ClickNext, ClickChoice(cs[|cs| - 1])]
  }

  /** Playing n choices leaves the n-th email's result on screen, with exactly
      those choices in effect. */
  lemma {:induction false} PlayRun(deck: seq<Email>, cs: seq<Choice>)
    requires 0 < |cs| <= |deck|
    ensures Run(deck, Play(cs)).currentEmailIndex == |cs| - 1
    ensures Run(deck, Play(cs)).showResult
    ensures Choices(deck, Play(cs)) == cs
  {
    if |cs| == 1 {
      assert Play(cs) == [] + [ClickChoice(cs[0])];
      RunSnoc(deck, [], ClickChoice(cs[0]));
      assert cs == [cs[0]];
    } else {
      var p, c := cs[..|cs| - 1], cs[|cs| - 1];
      PlayRun(deck, p);
      var before := Play(p);
      RunConsistent(deck, before);
      assert Play(cs) == (before + [ClickNext]) + [ClickChoice(c)];
      RunSnoc(deck, before, ClickNext);
      assert Rendered(deck, Run(deck, before), ClickNext);
      RunSnoc(deck, before + [ClickNext], ClickChoice(c));
      assert Rendered(deck, Run(deck, before + [ClickNext]), ClickChoice(c));
      assert p + [c] == cs;
    }
  }

  /** One answer per email, in order, completes the session: the completion
      panel shows, the score is what the choices earned, the only buttons left
      are the reset buttons, and further answer clicks change nothing. */
  lemma PlayCompletes(deck: seq<Email>, cs: seq<Choice>)
    requires |cs| == |deck| > 0
    ensures IsComplete(deck, Run(deck, Play(cs)))
    ensures Run(deck, Play(cs)).score == Earned(deck, cs)
    ensures Run(deck, Play(cs)).streak == TrailingCorrect(deck, cs)
    ensures !Rendered(deck, Run(deck, Play(cs)), ClickNext)
    ensures forall c :: Step(deck, Run(deck, Play(cs)), ClickChoice(c)) == Run(deck, Play(cs))
  {
    PlayRun(deck, cs);
    RunConsistent(deck, Play(cs));
  }
}
