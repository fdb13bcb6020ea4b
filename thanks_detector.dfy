/**
  The decision the bot's `message` handler takes for a reply: award a reputation point to
  the author of the replied-to message, or not. The Telegram call that fetches the target's
  membership status is replaced by an input value.
 */
module ThanksDetector {
  import opened Wrappers

  /** The bot's own account name: replies to the bot never award. */
  const BotUserName: string := "reputationDemoBot"

  /** The thumbs-up emoji U+1F44D, one code point. */
  const ThumbsUp: string := "\U{1F44D}"

  /** The word list as the handler declares it, capitalised entries included. */
  const ThanksWords: seq<string> := ["thanks", "Thanks", ThumbsUp, "Thx", "thx", "nice"]

  /** The entries of the word list that a lower-cased token can equal. */
  const ReachableThanksWords: set<string> := {"thanks", ThumbsUp, "thx", "nice"}

  /** The characters of the class `[&/\\#,+()$~%.'":*?!<>{}]` removed from every token. */
  const Punctuation: set<char> :=
    {'&', '/', '\\', '#', ',', '+', '(', ')', '$', '~', '%', '.', '\'', '"', ':', '*', '?', '!', '<', '>', '{', '}'}

  /** Statuses `getChatMember` reports. */
  datatype MemberStatus = Creator | Administrator | Member | Restricted | Left | Kicked

  datatype User = User(id: nat, username: Option<string>, firstName: string, lastName: Option<string>)

  datatype Sticker = Sticker(emoji: Option<string>)

  /** An inbound `message` event, reduced to the fields the handler reads. */
  datatype Message = Message(
    chatId: int,
    from: User,
    replyTo: Option<User>,
    sticker: Option<Sticker>,
    text: Option<string>)

  /**
    What the handler does with a message. `TextMissing` is the text path reached with no
    `text` field: the handler dereferences it and throws, so nothing is awarded.
   */
  datatype Decision = Award | Ignore | TextMissing

  predicate IsAsciiUpper(c: char) {
    'A' <= c <= 'Z'
  }

  predicate NoAsciiUpper(s: string) {
    forall i | 0 <= i < |s| :: !IsAsciiUpper(s[i])
  }

  /** Case mapping of one character: ASCII capitals to small letters, all else unchanged. */
  function LowerChar(c: char): (l: char)
    ensures !IsAsciiUpper(l)
    ensures IsAsciiUpper(c) ==> l as int == c as int + 32
    ensures !IsAsciiUpper(c) ==> l == c
  {
    if IsAsciiUpper(c) then (c as int + 32) as char else c
  }

  /** `toLocaleLowerCase()` on ASCII letters. */
  function ToLower(s: string): (r: string)
    ensures |r| == |s|
    ensures forall i | 0 <= i < |r| :: r[i] == LowerChar(s[i])
    ensures NoAsciiUpper(r)
  {
    if s == [] then [] else [LowerChar(s[0])] + ToLower(s[1..])
  }

  /** Lower-casing leaves text without capitals untouched, so lower-casing twice is lower-casing once. */
  lemma ToLowerIdentity(s: string)
    requires NoAsciiUpper(s)
    ensures ToLower(s) == s
  {
    assert forall i | 0 <= i < |s| :: ToLower(s)[i] == s[i];
  }

  /** Number of occurrences of the character `c` in `s`. */
  function Count(s: string, c: char): nat {
    if s == [] then 0 else (if s[0] == c then 1 else 0) + Count(s[1..], c)
  }

  /**
    `split(' ')`: the pieces between single spaces, in order. Consecutive spaces give empty
    pieces and the empty string gives one empty piece.
   */
  function Split(s: string): (parts: seq<string>)
    ensures |parts| == Count(s, ' ') + 1
    ensures forall i | 0 <= i < |parts| :: ' ' !in parts[i]
    ensures NoAsciiUpper(s) ==> forall i | 0 <= i < |parts| :: NoAsciiUpper(parts[i])
  {
    if s == [] then [""]
    else
      var rest := Split(s[1..]);
      if s[0] == ' ' then [""] + rest
      else [[s[0]] + rest[0]] + rest[1..]
  }

  /** The pieces glued back with single spaces: the inverse of `Split`. */
  function Join(parts: seq<string>): string
    requires |parts| >= 1
  {
    if |parts| == 1 then parts[0] else parts[0] + " " + Join(parts[1..])
  }

  /** Removing every punctuation character from a token (`replace(/[...]/g, '')`). */
  function StripPunctuation(w: string): (r: string)
    ensures |r| <= |w|
    ensures forall i | 0 <= i < |r| :: r[i] !in Punctuation
    ensures NoAsciiUpper(w) ==> NoAsciiUpper(r)
  {
    if w == [] then []
    else (if w[0] in Punctuation then [] else [w[0]]) + StripPunctuation(w[1..])
  }

  predicate IsThanksWord(token: string) {
    StripPunctuation(token) in ThanksWords
  }

  /** `find(...)`: the first token whose stripped form is in the word list. */
  function FindThanksWord(tokens: seq<string>): (r: Option<string>)
    ensures r.None? <==> forall i | 0 <= i < |tokens| :: !IsThanksWord(tokens[i])
    ensures r.Some? ==>
      exists i | 0 <= i < |tokens| ::
        tokens[i] == r.value && IsThanksWord(tokens[i]) && forall j | 0 <= j < i :: !IsThanksWord(tokens[j])
  {
    if tokens == [] then None
    else if IsThanksWord(tokens[0]) then Some(tokens[0])
    else
      var r := FindThanksWord(tokens[1..]);
      assert forall j | 1 <= j < |tokens| :: tokens[j] == tokens[1..][j - 1];
      r
  }

  /** JavaScript truthiness of the value `find` returns: `undefined` and `''` are false. */
  predicate Truthy(r: Option<string>) {
    r.Some? && r.value != ""
  }

  /** The text test of the handler, as written: lower-case, split, find, test truthiness. */
  predicate TextQualifies(text: string) {
    Truthy(FindThanksWord(Split(ToLower(text))))
  }

  /**
    The decision of the `message` handler for one event, its checks in the handler's order.
    `targetStatus` is what `getChatMember` reports for the author of the replied-to message.
   */
  function Decide(m: Message, targetStatus: MemberStatus): (d: Decision)
    ensures d == Award ==> m.replyTo.Some?
    ensures targetStatus == Left ==> d == Ignore
    ensures m.replyTo.Some? && targetStatus != Left && m.sticker.Some? ==>
      (d == Award <==> m.sticker.value.emoji == Some(ThumbsUp))
    ensures (m.sticker.None? && m.replyTo.Some? &&
             (m.replyTo.value.username == Some(BotUserName) || m.replyTo.value.username == m.from.username))
            ==> d != Award
    ensures d == TextMissing <==>
      m.replyTo.Some? && targetStatus != Left && m.sticker.None? && m.text.None? &&
      m.replyTo.value.username != Some(BotUserName) && m.replyTo.value.username != m.from.username
  {
    if m.replyTo.None? then Ignore
    else if targetStatus == Left then Ignore
    else if m.sticker.Some? then
      if m.sticker.value.emoji == Some(ThumbsUp) then Award else Ignore
    else if m.replyTo.value.username == Some(BotUserName) || m.replyTo.value.username == m.from.username then
      Ignore
    else if m.text.None? then TextMissing
    else if TextQualifies(m.text.value) then Award
    else Ignore
  }

  // ---- Properties of the tokeniser ----

  /** Gluing the pieces of `Split` back together gives the text again. */
  lemma {:induction false} JoinSplit(s: string)
    ensures Join(Split(s)) == s
  {
    if s != [] {
      JoinSplit(s[1..]);
      var rest := Split(s[1..]);
      if s[0] != ' ' && |rest| > 1 {
        assert Join(rest) == rest[0] + " " + Join(rest[1..]);
      }
    }
  }

  /** A piece with no space is a single token. */
  lemma {:induction false} SplitNoSpace(s: string)
    requires ' ' !in s
    ensures Split(s) == [s]
  {
    if s != [] {
      assert s[0] != ' ';
      assert ' ' !in s[1..];
      SplitNoSpace(s[1..]);
      assert [s[0]] + s[1..] == s;
    }
  }

  /** Splitting around one space splits each side on its own. */
  lemma {:induction false} SplitAppend(x: string, y: string)
    ensures Split(x + " " + y) == Split(x) + Split(y)
  {
    if x == [] {
      assert x + " " + y == [' '] + y;
      assert (x + " " + y)[1..] == y;
    } else {
      assert (x + " " + y)[1..] == x[1..] + " " + y;
      SplitAppend(x[1..], y);
    }
  }

  /** `Split` is also the inverse of `Join` on pieces free of spaces. */
  lemma {:induction false} SplitJoin(parts: seq<string>)
    requires |parts| >= 1
    requires forall i | 0 <= i < |parts| :: ' ' !in parts[i]
    ensures Split(Join(parts)) == parts
  {
    if |parts| == 1 {
      SplitNoSpace(parts[0]);
    } else {
      var rest := parts[1..];
      assert forall i | 0 <= i < |rest| :: ' ' !in rest[i] by {
        forall i | 0 <= i < |rest| ensures ' ' !in rest[i] {
          assert rest[i] == parts[i + 1];
        }
      }
      SplitJoin(rest);
      var tail := Join(rest);
      assert Join(parts) == parts[0] + " " + tail;
      SplitAppend(parts[0], tail);
      SplitNoSpace(parts[0]);
      assert parts == [parts[0]] + rest;
    }
  }

  /** Stripping leaves a token free of punctuation untouched, so stripping twice is stripping once. */
  lemma {:induction false} StripPunctuationIdentity(w: string)
    requires forall i | 0 <= i < |w| :: w[i] !in Punctuation
    ensures StripPunctuation(w) == w
  {
    if w != [] {
      StripPunctuationIdentity(w[1..]);
    }
  }

  /** Stripping works character by character: it distributes over concatenation. */
  lemma {:induction false} StripPunctuationAppend(a: string, b: string)
    ensures StripPunctuation(a + b) == StripPunctuation(a) + StripPunctuation(b)
  {
    if a == [] {
      assert a + b == b;
    } else {
      assert (a + b)[0] == a[0];
      assert (a + b)[1..] == a[1..] + b;
      StripPunctuationAppend(a[1..], b);
    }
  }

  /** A token that ends in one punctuation character matches as the bare word. */
  lemma StripTrailingPunctuation(w: string, c: char)
    requires forall i | 0 <= i < |w| :: w[i] !in Punctuation
    requires c in Punctuation
    ensures StripPunctuation(w + [c]) == w
  {
    StripPunctuationIdentity(w);
    StripPunctuationAppend(w, [c]);
  }

  /**
    The handler's text test, stated without `find` or truthiness: some space-separated token
    of the lower-cased text, stripped of punctuation, is `thanks`, the thumbs-up, `thx` or
    `nice`. The capitalised list entries `Thanks` and `Thx` can never match.
   */
  lemma TextQualifiesIff(text: string)
    ensures TextQualifies(text) <==>
      exists i | 0 <= i < |Split(ToLower(text))| :: StripPunctuation(Split(ToLower(text))[i]) in ReachableThanksWords
  {
    var lower := ToLower(text);
    var tokens := Split(lower);
    assert forall i | 0 <= i < |tokens| :: NoAsciiUpper(tokens[i]);
    FoundIsTruthy(tokens);
    forall i | 0 <= i < |tokens|
      ensures IsThanksWord(tokens[i]) <==> StripPunctuation(tokens[i]) in ReachableThanksWords
    {
      LowerTokenMatch(tokens[i]);
    }
    if TextQualifies(text) {
      var i :| 0 <= i < |tokens| && IsThanksWord(tokens[i]);
      assert StripPunctuation(tokens[i]) in ReachableThanksWords;
      assert StripPunctuation(Split(ToLower(text))[i]) in ReachableThanksWords;
    } else {
      assert forall i | 0 <= i < |tokens| :: !IsThanksWord(tokens[i]);
      assert forall i | 0 <= i < |tokens| :: StripPunctuation(tokens[i]) !in ReachableThanksWords;
    }
  }

  /** A token without capitals can only match the lower-case entries of the word list. */
  lemma LowerTokenMatch(token: string)
    requires NoAsciiUpper(token)
    ensures IsThanksWord(token) <==> StripPunctuation(token) in ReachableThanksWords
  {
    var w := StripPunctuation(token);
    assert w != "Thanks" && w != "Thx" by {
      assert NoAsciiUpper(w);
      assert IsAsciiUpper("Thanks"[0]) && IsAsciiUpper("Thx"[0]);
    }
  }

  /** The token `find` returns is never the empty string, so its truthiness is just "found". */
  lemma FoundIsTruthy(tokens: seq<string>)
    ensures Truthy(FindThanksWord(tokens)) <==> exists i | 0 <= i < |tokens| :: IsThanksWord(tokens[i])
  {
    var r := FindThanksWord(tokens);
    if r.Some? {
      EmptyTokenNeverMatches();
      assert IsThanksWord(r.value);
    }
  }

  /** The empty token, which `split` yields around doubled spaces, never matches. */
  lemma EmptyTokenNeverMatches()
    ensures !IsThanksWord("")
  {
    assert StripPunctuation("") == "";
  }

  /** The token `thanks!` (what `Thanks!` lower-cases to) matches: stripping leaves `thanks`. */
  lemma ThanksWithPunctuationMatches(token: string)
    requires token == "thanks!"
    ensures IsThanksWord(token)
  {
    StripTrailingPunctuation("thanks", '!');
    assert token == "thanks" + ['!'];
  }

  /** `thanksgiving` does not: a word must stand alone as a token. */
  lemma EmbeddedWordDoesNotMatch(token: string)
    requires token == "thanksgiving"
    ensures !IsThanksWord(token)
  {
    StripPunctuationIdentity(token);
    assert token !in ThanksWords;
  }

  /** The text `Thanks!` qualifies: lower-casing and stripping turn it into `thanks`. */
  lemma ThanksWithPunctuationQualifies()
    ensures TextQualifies("Thanks!")
  {
    assert ToLower("Thanks!") == "thanks!";
    SingleTokenText("Thanks!");
    ThanksWithPunctuationMatches("thanks!");
  }

  /** The text `thanksgiving` does not qualify. */
  lemma EmbeddedWordDoesNotQualify(text: string)
    requires text == "thanksgiving"
    ensures !TextQualifies(text)
  {
    assert text !in ReachableThanksWords;
    PlainWordText(text);
  }

  /** A single word without capitals or punctuation qualifies exactly when it is in the reachable list. */
  lemma PlainWordText(text: string)
    requires ' ' !in text && NoAsciiUpper(text)
    requires forall i | 0 <= i < |text| :: text[i] !in Punctuation
    ensures TextQualifies(text) <==> text in ReachableThanksWords
  {
    ToLowerIdentity(text);
    StripPunctuationIdentity(text);
    SingleTokenText(text);
    LowerTokenMatch(text);
  }

  /** A text without spaces is one token: it qualifies exactly when that token does. */
  lemma SingleTokenText(text: string)
    requires ' ' !in text
    ensures TextQualifies(text) <==> IsThanksWord(ToLower(text))
  {
    var lower := ToLower(text);
    assert ' ' !in lower by {
      forall i | 0 <= i < |lower| ensures lower[i] != ' ' {
        assert text[i] != ' ';
      }
    }
    SplitNoSpace(lower);
    assert Split(lower)[0] == lower;
    if IsThanksWord(lower) {
      assert StripPunctuation("") == "";
      assert lower != "";
    }
  }

  // ---- Properties of the decision ----

  /** On the sticker path the text is never read. */
  lemma StickerIgnoresText(m: Message, status: MemberStatus, text: Option<string>)
    requires m.sticker.Some?
    ensures Decide(m.(text := text), status) == Decide(m, status)
  {
  }

  /** The self check is not applied to stickers: a thumbs-up sticker on one's own message awards. */
  lemma SelfThumbsUpStickerAwards(m: Message, status: MemberStatus)
    requires m.replyTo == Some(m.from) && status != Left
    requires m.sticker == Some(Sticker(Some(ThumbsUp)))
    ensures Decide(m, status) == Award
  {
  }

  /** Two members without a username count as the same person on the text path. */
  lemma NoUsernamesNoTextAward(m: Message, status: MemberStatus)
    requires m.replyTo.Some? && m.replyTo.value.username.None? && m.from.username.None?
    requires m.sticker.None?
    ensures Decide(m, status) != Award
  {
  }

  /**
    On the text path, past the status and self/bot checks, a message awards exactly when
    some token of its lower-cased text, stripped of punctuation, is in the reachable word list.
   */
  lemma TextPathAwardIff(m: Message, status: MemberStatus)
    requires m.replyTo.Some? && status != Left && m.sticker.None? && m.text.Some?
    requires m.replyTo.value.username != Some(BotUserName) && m.replyTo.value.username != m.from.username
    ensures Decide(m, status) == Award <==>
      exists i | 0 <= i < |Split(ToLower(m.text.value))| ::
        StripPunctuation(Split(ToLower(m.text.value))[i]) in ReachableThanksWords
  {
    TextQualifiesIff(m.text.value);
  }
}
