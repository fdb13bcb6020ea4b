# Reputation bot: a Dafny model

This project models the reputation rules of a Telegram group bot and the leaderboard it
serves. The bot watches replies in a group. A reply counts as "thanks" when it carries a 👍
sticker, or when one of its words is `thanks`, `thx`, `nice` or 👍. Each thanks gives the
author of the replied-to message one reputation point in a table keyed by Telegram user id.
The bot then posts a congratulation that gives the new score. A member who leaves the group
loses their record. `GET /reputations` lists every record, highest score first.

The model has six modules:

- `Wrappers` (`wrappers.dfy`): `Option`, standing for JavaScript's `undefined`/`null`.
- `Decimal` (`decimal.dfy`): `String(n)` for integers, used for the member identity
  `String(from.id)` and for the score in the notification. It comes with its parser and a
  round-trip lemma.
- `ThanksDetector` (`thanks_detector.dfy`): the decision of the `message` handler, as pure
  functions. It covers lower-casing, `split(' ')`, punctuation stripping, `find` plus
  truthiness, and the ordered checks: left member, sticker, self or bot, text.
- `Notification` (`notification.dfy`): the template strings built in
  `handleThanksWordReaction` and `sendReputationMessage`.
- `Bot` (`bot_service.dfy`): the class `BotService`. Its table is a field
  `records: seq<Reputation>` and `nextId` stands for the auto-incremented primary key.
  `GetReputation` and `GetAllReputation` only read the table. The other store operations and
  both event handlers are methods with `modifies this`. The award and the removal are
  specified by functions of the old table (`Awarded`, `Removed`), and the lemmas about those
  functions state the properties.
- `Leaderboard` (`app_controller.dfy`): the stable sort by descending score as a function,
  its lemmas, and the class `AppController`, whose `GetReputations` only reads the table.

Transport calls are inputs. The status that `getChatMember` reports is a `MemberStatus`
argument. The avatar URL that `getUserAvatarUrl` resolves is a string argument. A
`sendMessage` call is returned as an `Outgoing` value instead of being sent.

Three behaviours of the code are easy to miss:

- The sticker check comes before the self/bot check. A 👍 sticker on one's own message
  therefore awards (`SelfThumbsUpStickerAwards`).
- The text is split on the single character `' '`, not on all whitespace. Doubled spaces
  give empty tokens, which never match (`EmptyTokenNeverMatches`).
- A missing `text` on the text path is not a quiet rejection. The handler throws there, and
  the model gives the outcome `TextMissing` with no award.

## Model

| member | source | states |
|---|---|---|
| ThanksDetector.Decide | src/bot/bot.service.ts:32-67 | A reply to a member whose status is `left` is ignored. With a sticker, the reply awards exactly when the emoji is 👍. Without a sticker, a reply to the bot or to someone with the sender's username never awards. `TextMissing` arises exactly on the text path when the message has no text. Only replies can award. |
| ThanksDetector.TextPathAwardIff | src/bot/bot.service.ts:56-67 | Past the earlier checks, a text reply awards exactly when some space-separated token of its lower-cased text, stripped of punctuation, is `thanks`, 👍, `thx` or `nice`. |
| ThanksDetector.TextQualifiesIff | src/bot/bot.service.ts:16 | Lower-case, split, `find`, then test truthiness: this equals "some stripped token is in {thanks, 👍, thx, nice}". The list entries `Thanks` and `Thx` can never match. |
| ThanksDetector.StickerIgnoresText | src/bot/bot.service.ts:42-47 | On the sticker path the decision does not depend on the text. |
| ThanksDetector.SelfThumbsUpStickerAwards | src/bot/bot.service.ts:42-54 | A 👍 sticker replying to one's own message awards, because the sticker branch returns before the self check. |
| ThanksDetector.NoUsernamesNoTextAward | src/bot/bot.service.ts:49-54 | Two members who both lack a username compare equal, so a text reply between them never awards. |
| ThanksDetector.LowerChar | src/bot/bot.service.ts:57 | A character maps to a non-capital: `A`-`Z` to `a`-`z` and every other character to itself. |
| ThanksDetector.ToLower | src/bot/bot.service.ts:57 | Lower-casing keeps the length and maps each character by `LowerChar`. The result has no ASCII capital. |
| ThanksDetector.ToLowerIdentity | src/bot/bot.service.ts:57 | Lower-casing leaves text without capitals unchanged, so it is idempotent. |
| ThanksDetector.Split | src/bot/bot.service.ts:58 | `split(' ')` gives one more piece than there are spaces. No piece contains a space. Pieces of text without capitals have no capitals. |
| ThanksDetector.JoinSplit | src/bot/bot.service.ts:58 | Joining the pieces with single spaces gives back the text. |
| ThanksDetector.SplitJoin | src/bot/bot.service.ts:58 | Splitting space-free pieces that were joined with spaces gives back the pieces. |
| ThanksDetector.SplitAppend | src/bot/bot.service.ts:58 | Splitting `x + " " + y` gives the pieces of `x` followed by the pieces of `y`. |
| ThanksDetector.SplitNoSpace | src/bot/bot.service.ts:58 | Text without a space is a single token. |
| ThanksDetector.StripPunctuation | src/bot/bot.service.ts:61 | The stripped token contains no character of the class `&/\#,+()$~%.'":*?!<>{}`. It is no longer than the token and keeps it free of capitals. |
| ThanksDetector.StripPunctuationIdentity | src/bot/bot.service.ts:61 | A token without punctuation is left unchanged, so stripping is idempotent. |
| ThanksDetector.StripPunctuationAppend | src/bot/bot.service.ts:61 | Stripping distributes over concatenation, because it removes characters one by one. |
| ThanksDetector.StripTrailingPunctuation | src/bot/bot.service.ts:61 | A word followed by one punctuation character strips to the bare word. |
| ThanksDetector.FindThanksWord | src/bot/bot.service.ts:59-63 | `find` returns nothing exactly when no token matches. Otherwise it returns the first matching token. |
| ThanksDetector.FoundIsTruthy | src/bot/bot.service.ts:59-65 | The `if (thanksWord)` test holds exactly when some token matches. |
| ThanksDetector.EmptyTokenNeverMatches | src/bot/bot.service.ts:58-61 | An empty token never matches the word list. |
| ThanksDetector.SingleTokenText | src/bot/bot.service.ts:56-65 | A text without spaces qualifies exactly when its lower-cased form matches. |
| ThanksDetector.PlainWordText | src/bot/bot.service.ts:56-65 | A single word without capitals or punctuation qualifies exactly when it is `thanks`, 👍, `thx` or `nice`. |
| ThanksDetector.ThanksWithPunctuationQualifies | src/bot/bot.service.ts:56-65 | The text `Thanks!` qualifies. |
| ThanksDetector.EmbeddedWordDoesNotQualify | src/bot/bot.service.ts:56-65 | The text `thanksgiving` does not qualify: a word only matches as a whole. |
| ThanksDetector.ThanksWithPunctuationMatches | src/bot/bot.service.ts:16 | The token `thanks!` matches. This is what `Thanks!` becomes after lower-casing. |
| ThanksDetector.EmbeddedWordDoesNotMatch | src/bot/bot.service.ts:16 | The token `thanksgiving` does not match. |
| Decimal.NatString | src/bot/bot.service.ts:159 | `String(id)` is a non-empty run of digits with no leading zero. |
| Decimal.IntString | src/bot/bot.service.ts:94 | The rendered score is non-empty and contains no space, so it stays one word of the message. |
| Decimal.IntStringRoundTrip | src/bot/bot.service.ts:94 | Parsing the rendered score gives back the score. |
| Decimal.NatStringInjective | src/bot/bot.service.ts:159 | Distinct user ids give distinct member identities. |
| Notification.ReportsScore | src/bot/bot.service.ts:91-94 | The last word of the congratulation reads back as exactly the score it reports, whatever the names in it. |
| Notification.StoredUserName | src/bot/bot.service.ts:167-171 | The stored username is the empty string or the member's own username. |
| Notification.AddresseeMention | src/bot/bot.service.ts:178-184 | The addressee is `first last (@username)` when the member has a non-empty username. Otherwise it is `first last` followed by a space. |
| Bot.FirstMatch | src/bot/bot.service.ts:136-138 | The first position that satisfies the predicate, or none exactly when no position does. This is `findFirst` in store order. |
| Bot.FindFirst | src/bot/bot.service.ts:135-139 | `findFirst` returns nothing exactly when no record has the identity. Otherwise it returns the first record that does. |
| Bot.Awarded | src/bot/bot.service.ts:116-132 | An award keeps every existing record in its place with its key and identity. No score drops, and none rises by more than one point. The table never shrinks. |
| Bot.AwardedReadBack | src/bot/bot.service.ts:116-132 | After an award, reading the member back gives their old record with one more point, name and avatar not refreshed. A new member instead gets a record with one point and the given name, avatar and full name. |
| Bot.AwardedOthersUnchanged | src/bot/bot.service.ts:116-132 | An award leaves every other member's record as it was. |
| Bot.AwardedKeepsUnique | src/bot/bot.service.ts:116-132 | If identities are unique before an award, they are unique after it. |
| Bot.AwardedSize | src/bot/bot.service.ts:116-132 | An award adds exactly one record for a new member and none for an existing one. |
| Bot.Removed | src/bot/bot.service.ts:72-82 | A removal only deletes records, and at most one. |
| Bot.RemovedDeletes | src/bot/bot.service.ts:72-82 | With unique identities, no record of the departed member remains. |
| Bot.RemovedOthersUnchanged | src/bot/bot.service.ts:72-82 | A removal leaves every other member's record as it was. |
| Bot.DeleteKeepsOthers | src/bot/bot.service.ts:78-80 | Deleting someone else's record does not change which record of a member comes first. |
| Bot.RemovedKeepsUnique | src/bot/bot.service.ts:72-82 | A removal keeps identities unique. |
| Bot.DeleteKeepsKeys | src/bot/bot.service.ts:78-80 | A deletion keeps primary keys distinct and below the next key. |
| Bot.IndexOfIdAt | src/bot/bot.service.ts:146-149 | With unique primary keys, an update or delete by `id` acts on the record that was looked up. |
| Bot.BotService.GetReputation | src/bot/bot.service.ts:135-139 | Returns nothing exactly when no record has the identity. Otherwise it returns a record of that member, the first one. |
| Bot.BotService.GetAllReputation | src/bot/bot.service.ts:141-143 | Returns the whole table in store order. |
| Bot.BotService.UpdateReputation | src/bot/bot.service.ts:145-150 | Sets the score of the record with that key and changes nothing else. It fails and leaves the table unchanged when no record has the key. |
| Bot.BotService.CreateReputation | src/bot/bot.service.ts:152-156 | Appends one record under a fresh primary key with the given fields. |
| Bot.BotService.IncreaseReputation | src/bot/bot.service.ts:110-133 | The new table is `Awarded` of the old one: the first record gains one point, or a record with one point is appended. The next key advances only when a record is created. Unique identities stay unique. |
| Bot.BotService.RemoveReputation | src/bot/bot.service.ts:72-82 | The new table is the old one without the member's first record, and unchanged when there is none. Unique identities stay unique, and then no record of the member remains. |
| Bot.BotService.SendReputationMessage | src/bot/bot.service.ts:84-108 | The congratulation to `replyUserName` from `fromUserName` reports the member's current score. There is no message when the member has no record, where the source throws. |
| Bot.BotService.HandleThanksWordReaction | src/bot/bot.service.ts:158-189 | Awards the replied-to author, storing their username or `''` and their `first last` name. The notification to the chat is addressed to `first last (@username)`, names the sender, and reports the post-award score: 1 for a new member, n+1 otherwise. |
| Bot.BotService.OnMessage | src/bot/bot.service.ts:31-69 | The table changes only when the decision is an award. The award then sends exactly one message to the chat: it is addressed to the replied-to member as `first last (@username)`, names the sender, and ends with the post-award score, which reads back as that score. Unique identities stay unique. |
| Bot.BotService.OnLeftChatMember | src/bot/bot.service.ts:25-29 | The departed member's record under `String(id)` is removed. A member without a record leaves the table unchanged. Unique identities stay unique. |
| Leaderboard.InsertPermutes | src/app.controller.ts:12 | Inserting adds exactly that record to the multiset of records. |
| Leaderboard.InsertOrders | src/app.controller.ts:12 | Inserting into a list sorted by descending score keeps it sorted. |
| Leaderboard.InsertBounded | src/app.controller.ts:12 | Inserting never lifts any score above a bound shared by the record and the list. |
| Leaderboard.InsertWithScore | src/app.controller.ts:12 | An inserted record goes ahead of the records that already have its score. |
| Leaderboard.SortByReputation | src/app.controller.ts:11-12 | The leaderboard is a permutation of the table: no record is dropped or duplicated. |
| Leaderboard.SortOrders | src/app.controller.ts:12 | Scores never increase along the leaderboard. |
| Leaderboard.SortStable | src/app.controller.ts:12 | Records with equal scores keep their store order. |
| Leaderboard.SortExample | src/app.controller.ts:12 | Scores 3, 1, 5 come out as 5, 3, 1. |
| Leaderboard.AppController.GetReputations | src/app.controller.ts:9-13 | The result is sorted by descending score, is a permutation of the table, and keeps the store order among ties. It modifies nothing. |

## Left out

- The Telegram transport is not modelled: polling, handler registration and the process-wide
  bot handle. The greeting of new members (src/bot/bot.service.ts:18-23) is a single
  outbound send and is left out too.
- `getChatMember`, `getUserProfilePhotos`, `getFile` and the avatar URL built from
  `BOT_API_TOKEN` are network calls. The model takes the member status and the avatar string
  as inputs.
- The inline keyboard attached to the congratulation (src/bot/bot.service.ts:95-106) is a
  constant. `Outgoing` carries only the chat and the text.
- Prisma is not modelled. `findMany` has no `orderBy`, so the store's row order is an
  assumption here: updated rows keep their place and new rows are appended. This decides
  the order of tied scores on the leaderboard, and which of two duplicate records
  `findFirst` returns (assumed to be the first). Primary keys come from a
  counter that starts at 1. Store failures other than updating a missing key are not
  modelled.
- `handleThanksWordReaction` is started without `await`, so two awards could interleave.
  Each award is modelled as atomic, and no concurrency is modelled.
- The store schema is not part of this model. If the `reputation` column is a 32-bit integer,
  as is usual, the store rejects scores past 2^31-1. Scores are unbounded here, and that
  error is not modelled.
- A message without `from` is not modelled: the sender is always present.
- ThanksDetector.ToLower: maps only ASCII `A`-`Z`. `toLocaleLowerCase` also folds other
  scripts, so for example `É` stays upper-case here, and locale-specific rules are not
  modelled either.
- Bot.BotService.SendReputationMessage: the `None` result stands for the thrown `TypeError`.
  It cannot happen after an award, which `HandleThanksWordReaction` proves.
