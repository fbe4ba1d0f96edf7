/** The simulator's email record and its fixed deck of eight sample emails. */
module Deck {

  datatype Difficulty = Easy | Medium | Hard

  /** One sample email. The sender, subject, body and explanation are text
      that is only displayed; nothing in the session logic inspects them. */
  datatype Email = Email(
    id: int,
    from: string,
    subject: string,
    body: string,
    isPhishing: bool,
    redFlags: seq<string>,
    explanation: string,
    difficulty: Difficulty)

  /** The deck, in the order the simulator presents it. The long body and
      explanation texts are not reproduced here (left empty). */
  const PhishingEmails: seq<Email> := [
    Email(1, "security@amazone-verify.com", "URGENT: Your Amazon Account Has Been Suspended", "", true,
      ["Misspelled domain: \"amazone-verify.com\" instead of \"amazon.com\"",
       "Creates urgency: \"24 hours\" threat",
       "Suspicious link that doesn't match Amazon's domain",
       "Generic greeting: \"Dear Valued Customer\"",
       "Threats of account closure"],
      "", Easy),
    Email(2, "notifications@linkedin.com", "You have 3 new profile views", "", false, [], "", Easy),
    Email(3, "no-reply@paypal-security.net", "Payment Hold - Action Required", "", true,
      ["Wrong domain: \"paypal-security.net\" instead of \"paypal.com\"",
       "Generic greeting: \"Hello\" instead of your name",
       "Creates urgency with 48-hour deadline",
       "Suspicious URLs that don't match PayPal's domain",
       "Vague merchant name",
       "Email from \"no-reply\" asking for action"],
      "", Medium),
    Email(4, "hr@yourcompany.com", "Updated Employee Benefits Package - Please Review", "", false, [], "", Medium),
    Email(5, "security-alert@microsoft-account.com", "Microsoft Account: Unusual Sign-in Activity", "", true,
      ["Domain is \"microsoft-account.com\" not \"microsoft.com\"",
       "Creates fear with \"compromised\" language",
       "Suspicious verification link",
       "Time pressure: \"expires in 6 hours\"",
       "Foreign location used to create panic",
       "Real Microsoft emails link to account.microsoft.com"],
      "", Hard),
    Email(6, "team@github.com", "Pull request #247 merged into main branch", "", false, [], "", Medium),
    Email(7, "billing@apple-support.services", "Your Apple ID Has Been Charged $99.99", "", true,
      ["Fake domain: \"apple-support.services\" not \"apple.com\"",
       "Creates panic with unauthorized charge",
       "Extreme urgency: \"2 hours\"",
       "Suspicious cancellation link",
       "Generic \"Dear Customer\" greeting",
       "Real Apple emails come from @apple.com or @email.apple.com"],
      "", Hard),
    Email(8, "noreply@netflix.com", "Your Netflix membership has been cancelled", "", false, [], "", Easy)
  ]

  /** The ids of a deck, in deck order. */
  function DeckIds(deck: seq<Email>): (ids: seq<int>)
    ensures |ids| == |deck|
    ensures forall i :: 0 <= i < |deck| ==> ids[i] == deck[i].id
  {
    seq(|deck|, i requires 0 <= i < |deck| => deck[i].id)
  }

  /** No two emails of the deck share an id. */
  predicate DistinctIds(deck: seq<Email>)
  {
    forall i, j :: 0 <= i < j < |deck| ==> deck[i].id != deck[j].id
  }

  /** The red-flag list is rendered only for a phishing email with at least one flag. */
  predicate ShowsRedFlags(e: Email): (r: bool)
    ensures r ==> e.isPhishing
    ensures e.redFlags == [] ==> !r
  {
    e.isPhishing && |e.redFlags| > 0
  }

  /** Facts about the deck as declared: eight emails, distinct ids, and red
      flags exactly on the phishing emails, so the red-flag list is shown
      exactly for the phishing ones. */
  lemma DeckFacts()
    ensures |PhishingEmails| == 8
    ensures DistinctIds(PhishingEmails)
    ensures forall i :: 0 <= i < |PhishingEmails| && !PhishingEmails[i].isPhishing ==> PhishingEmails[i].redFlags == []
    ensures forall i :: 0 <= i < |PhishingEmails| ==> (ShowsRedFlags(PhishingEmails[i]) <==> PhishingEmails[i].isPhishing)
  {
    DeckIdsAreOneToEight();
    DeckRedFlags();
  }

  /** The deck's ids are 1 to 8 in order. */
  lemma DeckIdsAreOneToEight()
    ensures |PhishingEmails| == 8
    ensures forall i :: 0 <= i < |PhishingEmails| ==> PhishingEmails[i].id == i + 1
  {
  }

  /** Each email has red flags exactly when it is a phishing email. */
  lemma DeckRedFlags()
    ensures forall i :: 0 <= i < |PhishingEmails| ==>
      (PhishingEmails[i].isPhishing <==> PhishingEmails[i].redFlags != [])
  {
  }
}
