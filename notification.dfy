/**
  The strings the bot builds around an award: the stored user name and full name, the
  addressee and sender of the notification, and the notification text itself.
 */
module Notification {
  import opened Wrappers
  import Decimal
  import ThanksDetector

  /** `${x}` of an optional field: its value, or the text `undefined` when it is absent. */
  function Interpolate(field: Option<string>): string {
    field.GetOr("undefined")
  }

  /** `username ? username : ''`: an absent or empty username is stored as the empty string. */
  function StoredUserName(u: ThanksDetector.User): (s: string)
    ensures s == "" || u.username == Some(s)
  {
    if u.username.Some? && u.username.value != "" then u.username.value else ""
  }

  /** `${first_name} ${last_name}`: the stored full name, and the name of the sender. */
  function FullName(u: ThanksDetector.User): string {
    u.firstName + " " + Interpolate(u.lastName)
  }

  /** The addressee: the full name, a space, then `(@username)` when the member has one. */
  function Addressee(u: ThanksDetector.User): string {
    FullName(u) + " " + (if StoredUserName(u) != "" then "(@" + StoredUserName(u) + ")" else "")
  }

  /** The words before the score in the notification. */
  function Lead(addressee: string, sender: string): string {
    "Congrats, " + addressee + "! Member " + sender + " increase your reputation! Your current reputation is"
  }

  /** The notification text: congratulates `addressee` on `sender`'s award and reports `score`. */
  function ReputationText(addressee: string, sender: string, score: int): string {
    Lead(addressee, sender) + " " + Decimal.IntString(score)
  }

  /** What a reader takes as the score: the last space-separated word, read as an integer. */
  function ReportedScore(text: string): Option<int> {
    var words := ThanksDetector.Split(text);
    Decimal.ParseInt(words[|words| - 1])
  }

  /**
    The notification reports exactly the score it was built from, whatever the names in it:
    the score is the last word and no name can run into it.
   */
  lemma ReportsScore(addressee: string, sender: string, score: int)
    ensures ReportedScore(ReputationText(addressee, sender, score)) == Some(score)
  {
    var digits := Decimal.IntString(score);
    ThanksDetector.SplitAppend(Lead(addressee, sender), digits);
    ThanksDetector.SplitNoSpace(digits);
    Decimal.IntStringRoundTrip(score);
  }

  /** The addressee mentions `(@username)` exactly when the member has a non-empty username. */
  lemma AddresseeMention(u: ThanksDetector.User)
    ensures u.username.Some? && u.username.value != "" ==>
      Addressee(u) == FullName(u) + " (@" + u.username.value + ")"
    ensures u.username.None? || u.username.value == "" ==> Addressee(u) == FullName(u) + " "
  {
  }
}
