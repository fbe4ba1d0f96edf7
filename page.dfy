/** The simulator page as an object: its state hooks are fields, and its three
    handlers update them in place. */
module Page {
  import opened Deck
  import opened Session
  import opened Invariant

  class Simulator {
    /** The deck the page presents: `phishingEmails`. */
    const deck: seq<Email>

    var currentEmailIndex: nat
    var score: nat
    var showResult: bool
    var userChoice: Option<Choice>
    var streak: nat
    var answeredEmails: seq<int>
    var xpEarned: nat
    var showFeedback: bool

    /** The choices made since the last reset, one per answered email. */
    ghost var history: seq<Choice>

    /** The fields, read together as one session state. */
    function State(): SessionState
      reads this
    {
      SessionState(currentEmailIndex, score, showResult, userChoice, streak, answeredEmails, xpEarned, showFeedback)
    }

    ghost predicate Valid()
      reads this
    {
      Consistent(deck, State(), history)
    }

    /** The hooks' initial values, over the page's deck. */
    constructor ()
      ensures deck == PhishingEmails
      ensures Valid() && State() == Initial && history == []
    {
      deck := PhishingEmails;
      DeckFacts();
      currentEmailIndex := 0;
      score := 0;
      showResult := false;
      userChoice := None;
      streak := 0;
      answeredEmails := [];
      xpEarned := 0;
      showFeedback := false;
      history := [];
    }

    /** `handleChoice`: judge the current email. Its buttons are rendered only
        while no result is shown. */
    method HandleChoice(choice: Choice)
      requires Valid() && !showResult
      modifies this
      ensures State() == Judge(deck, old(State()), choice)
      ensures Valid() && history == old(history) + [choice]
      ensures answeredEmails == old(answeredEmails) + [deck[currentEmailIndex].id]
      ensures old(score) <= score && currentEmailIndex == old(currentEmailIndex)
    {
      userChoice := Some(choice);
      var currentEmail := deck[currentEmailIndex];
      var isCorrect := (choice == Phishing) == currentEmail.isPhishing;
      if isCorrect {
        var xpGain := XpGain(currentEmail.difficulty);
        score := score + xpGain;
        xpEarned := xpGain;
        streak := streak + 1;
      } else {
        streak := 0;
        xpEarned := 0;
      }
      showResult := true;
      answeredEmails := answeredEmails + [currentEmail.id];
      assert State() == Judge(deck, old(State()), choice);
      JudgePreserves(deck, old(State()), history, choice);
      history := history + [choice];
    }

    /** `nextEmail`: move to the next email unless this is the last one. Its
        button is rendered only in the result panel. */
    method NextEmail()
      requires Valid() && showResult
      modifies this
      ensures State() == Advance(deck, old(State()))
      ensures Valid() && history == old(history)
      ensures old(currentEmailIndex) < |deck| - 1 ==>
        currentEmailIndex == old(currentEmailIndex) + 1 && !showResult && userChoice == None && !showFeedback
      ensures old(currentEmailIndex) == |deck| - 1 ==> State() == old(State())
    {
      if currentEmailIndex < |deck| - 1 {
        currentEmailIndex := currentEmailIndex + 1;
        showResult := false;
        userChoice := None;
        showFeedback := false;
      }
      AdvancePreserves(deck, old(State()), history);
    }

    /** `resetSimulation`: every hook back to its initial value. */
    method ResetSimulation()
      requires |deck| > 0
      modifies this
      ensures State() == Initial && Valid() && history == []
    {
      currentEmailIndex := 0;
      score := 0;
      showResult := false;
      userChoice := None;
      streak := 0;
      answeredEmails := [];
      xpEarned := 0;
      showFeedback := false;
      history := [];
    }
  }

  /** Two resets leave the page as one does, and the freshly constructed page
      is the reset one. */
  method ResetIsIdempotent(p: Simulator)
    requires |p.deck| > 0
    modifies p
    ensures p.State() == Initial && p.Valid()
  {
    p.ResetSimulation();
    var once := p.State();
    p.ResetSimulation();
    assert p.State() == once;
    var page := new Simulator();
    assert page.State() == p.State();
  }
}
