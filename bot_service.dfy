/**
  The reputation table and the handlers of `BotService`. The table, a Prisma model in the
  original, is held as a sequence of records in the order the store returns them; `nextId`
  stands for the auto-incremented primary key.
 */
module Bot {
  import opened Wrappers
  import Decimal
  import opened ThanksDetector
  import Notification

  datatype Reputation = Reputation(
    id: nat,
    telegramId: string,
    userName: string,
    userAvatar: string,
    fullName: string,
    reputation: int)

  /** The fields `createReputation` passes to the store. */
  datatype ReputationInput = ReputationInput(
    telegramId: string,
    userName: string,
    userAvatar: string,
    fullName: string,
    reputation: int)

  /** An outbound `sendMessage` call. */
  datatype Outgoing = SendMessage(chatId: int, text: string)

  /** No two records belong to the same member; the store itself does not enforce this. */
  predicate UniqueTelegramIds(rs: seq<Reputation>) {
    forall i, j | 0 <= i < j < |rs| :: rs[i].telegramId != rs[j].telegramId
  }

  /** No two records share a primary key. */
  predicate UniqueIds(rs: seq<Reputation>) {
    forall i, j | 0 <= i < j < |rs| :: rs[i].id != rs[j].id
  }

  /** Every primary key is below `nextId`, the next one the store assigns. */
  predicate KeysBelow(rs: seq<Reputation>, nextId: nat) {
    forall i | 0 <= i < |rs| :: rs[i].id < nextId
  }

  /** The position of the first element satisfying `p`. */
  function FirstMatch<T>(s: seq<T>, p: T -> bool): (k: Option<nat>)
    ensures k.None? <==> forall i | 0 <= i < |s| :: !p(s[i])
    ensures k.Some? ==> k.value < |s| && p(s[k.value]) && forall i | 0 <= i < k.value :: !p(s[i])
  {
    if s == [] then None
    else if p(s[0]) then Some(0)
    else
      match FirstMatch(s[1..], p)
      case None => None
      case Some(k) => Some(k + 1)
  }

  /** Position of the first record of member `t`: where `findFirst({ where: { telegramId } })` looks. */
  function IndexOfMember(rs: seq<Reputation>, t: string): Option<nat> {
    FirstMatch(rs, (r: Reputation) => r.telegramId == t)
  }

  /** Position of the record with primary key `id`: where `update` and `delete` act. */
  function IndexOfId(rs: seq<Reputation>, id: nat): Option<nat> {
    FirstMatch(rs, (r: Reputation) => r.id == id)
  }

  /** `findFirst({ where: { telegramId } })`: the first record of member `t`, if any. */
  function FindFirst(rs: seq<Reputation>, t: string): (r: Option<Reputation>)
    ensures r.None? <==> forall i | 0 <= i < |rs| :: rs[i].telegramId != t
    ensures r.Some? ==>
      exists k | 0 <= k < |rs| :: rs[k] == r.value && r.value.telegramId == t &&
        forall i | 0 <= i < k :: rs[i].telegramId != t
  {
    match IndexOfMember(rs, t)
    case None => None
    case Some(k) => Some(rs[k])
  }

  /** The score a member holds after one more award. */
  function ScoreAfterAward(rs: seq<Reputation>, t: string): int {
    match FindFirst(rs, t)
    case Some(r) => r.reputation + 1
    case None => 1
  }

  /**
    The table after `increaseReputation`: the member's first record gains one point, or a
    record with one point is appended for a member not seen before.
   */
  function Awarded(rs: seq<Reputation>, nextId: nat, t: string, userName: string, userAvatar: string, fullName: string)
    : (after: seq<Reputation>)
    ensures |after| >= |rs|
    ensures forall i | 0 <= i < |rs| ::
      after[i].id == rs[i].id && after[i].telegramId == rs[i].telegramId &&
      rs[i].reputation <= after[i].reputation <= rs[i].reputation + 1
  {
    match IndexOfMember(rs, t)
    case Some(k) => rs[k := rs[k].(reputation := rs[k].reputation + 1)]
    case None => rs + [Reputation(nextId, t, userName, userAvatar, fullName, 1)]
  }

  /** The table after `removeReputation`: the member's first record deleted, if there is one. */
  function Removed(rs: seq<Reputation>, t: string): (after: seq<Reputation>)
    ensures multiset(after) <= multiset(rs)
    ensures |after| + 1 >= |rs|
  {
    match IndexOfMember(rs, t)
    case Some(k) =>
      assert rs == rs[..k] + [rs[k]] + rs[k + 1..];
      rs[..k] + rs[k + 1..]
    case None => rs
  }

  // ---- Properties of an award ----

  /**
    Reading the member back after an award gives the old record with one more point, its name
    and avatar not refreshed, or a fresh record with one point and the given fields.
   */
  lemma AwardedReadBack(rs: seq<Reputation>, nextId: nat, t: string, userName: string, userAvatar: string, fullName: string)
    ensures FindFirst(Awarded(rs, nextId, t, userName, userAvatar, fullName), t) ==
      match FindFirst(rs, t)
      case Some(r) => Some(r.(reputation := r.reputation + 1))
      case None => Some(Reputation(nextId, t, userName, userAvatar, fullName, 1))
    ensures FindFirst(Awarded(rs, nextId, t, userName, userAvatar, fullName), t).value.reputation ==
      ScoreAfterAward(rs, t)
  {
    var after := Awarded(rs, nextId, t, userName, userAvatar, fullName);
    match IndexOfMember(rs, t)
    case Some(k) =>
      assert after[k].telegramId == t;
      assert forall i | 0 <= i < k :: after[i] == rs[i];
      FindFirstAt(after, t, k);
      FindFirstAt(rs, t, k);
    case None =>
      assert forall i | 0 <= i < |rs| :: after[i] == rs[i];
      FindFirstAt(after, t, |rs|);
  }

  /** An award to one member leaves what every other member reads back unchanged. */
  lemma AwardedOthersUnchanged(
    rs: seq<Reputation>, nextId: nat, t: string, userName: string, userAvatar: string, fullName: string, u: string)
    requires u != t
    ensures FindFirst(Awarded(rs, nextId, t, userName, userAvatar, fullName), u) == FindFirst(rs, u)
  {
    var after := Awarded(rs, nextId, t, userName, userAvatar, fullName);
    assert forall i | 0 <= i < |rs| :: after[i].telegramId == rs[i].telegramId;
    assert forall i | |rs| <= i < |after| :: after[i].telegramId == t;
    match FindFirst(rs, u)
    case None =>
    case Some(r) =>
      var k := IndexOfMember(rs, u).value;
      assert after[k] == rs[k];
      FindFirstAt(after, u, k);
      FindFirstAt(rs, u, k);
  }

  /** An award never gives one member a second record. */
  lemma AwardedKeepsUnique(rs: seq<Reputation>, nextId: nat, t: string, userName: string, userAvatar: string, fullName: string)
    requires UniqueTelegramIds(rs)
    ensures UniqueTelegramIds(Awarded(rs, nextId, t, userName, userAvatar, fullName))
  {
    var after := Awarded(rs, nextId, t, userName, userAvatar, fullName);
    assert forall i | 0 <= i < |rs| :: after[i].telegramId == rs[i].telegramId;
  }

  /** An award changes the size of the table only by the one record it creates. */
  lemma AwardedSize(rs: seq<Reputation>, nextId: nat, t: string, userName: string, userAvatar: string, fullName: string)
    ensures |Awarded(rs, nextId, t, userName, userAvatar, fullName)| ==
      if FindFirst(rs, t).Some? then |rs| else |rs| + 1
  {
  }

  // ---- Properties of a removal ----

  /** With one record per member, removing a member leaves no record of theirs. */
  lemma RemovedDeletes(rs: seq<Reputation>, t: string)
    requires UniqueTelegramIds(rs)
    ensures FindFirst(Removed(rs, t), t).None?
  {
    match IndexOfMember(rs, t)
    case None =>
    case Some(k) =>
      var after := Removed(rs, t);
      forall i | 0 <= i < |after| ensures after[i].telegramId != t {
        if i < k { assert after[i] == rs[i]; } else { assert after[i] == rs[i + 1]; }
      }
  }

  /** Removing one member leaves what every other member reads back unchanged. */
  lemma RemovedOthersUnchanged(rs: seq<Reputation>, t: string, u: string)
    requires u != t
    ensures FindFirst(Removed(rs, t), u) == FindFirst(rs, u)
  {
    match IndexOfMember(rs, t)
    case None =>
    case Some(k) =>
      DeleteKeepsOthers(rs, k, u);
  }

  /** Deleting a record of someone else does not change which record of `u` comes first. */
  lemma DeleteKeepsOthers(rs: seq<Reputation>, k: nat, u: string)
    requires k < |rs| && rs[k].telegramId != u
    ensures FindFirst(rs[..k] + rs[k + 1..], u) == FindFirst(rs, u)
  {
    var after := rs[..k] + rs[k + 1..];
    forall i | 0 <= i < |after| ensures after[i] == rs[if i < k then i else i + 1] {
    }
    match IndexOfMember(rs, u)
    case None =>
      FindFirstAt(after, u, |after|);
    case Some(j) =>
      var j' := if j < k then j else j - 1;
      FindFirstAt(after, u, j');
      FindFirstAt(rs, u, j);
  }

  /** A removal keeps one record per member. */
  lemma RemovedKeepsUnique(rs: seq<Reputation>, t: string)
    requires UniqueTelegramIds(rs)
    ensures UniqueTelegramIds(Removed(rs, t))
  {
    match IndexOfMember(rs, t)
    case None =>
    case Some(k) =>
      var after := Removed(rs, t);
      forall i, j | 0 <= i < j < |after| ensures after[i].telegramId != after[j].telegramId {
        var i' := if i < k then i else i + 1;
        var j' := if j < k then j else j + 1;
        assert after[i] == rs[i'] && after[j] == rs[j'];
      }
  }

  /** Deleting a record keeps primary keys distinct and below `nextId`. */
  lemma DeleteKeepsKeys(rs: seq<Reputation>, k: nat, nextId: nat)
    requires k < |rs| && UniqueIds(rs) && KeysBelow(rs, nextId)
    ensures UniqueIds(rs[..k] + rs[k + 1..]) && KeysBelow(rs[..k] + rs[k + 1..], nextId)
  {
    var after := rs[..k] + rs[k + 1..];
    forall i | 0 <= i < |after| ensures after[i] == rs[if i < k then i else i + 1] {
    }
  }

  /** `findFirst` returns the record at `k` when it is the first one of member `t`. */
  lemma FindFirstAt(rs: seq<Reputation>, t: string, k: nat)
    requires k <= |rs|
    requires forall i | 0 <= i < k :: rs[i].telegramId != t
    ensures k < |rs| && rs[k].telegramId == t ==> FindFirst(rs, t) == Some(rs[k])
    ensures k == |rs| ==> FindFirst(rs, t).None?
  {
  }

  /** With unique primary keys, the record with key `rs[k].id` is the one at `k`. */
  lemma IndexOfIdAt(rs: seq<Reputation>, k: nat)
    requires UniqueIds(rs) && k < |rs|
    ensures IndexOfId(rs, rs[k].id) == Some(k)
  {
  }

  /** The service and the reputation table it owns. */
  class BotService {
    var records: seq<Reputation>
    var nextId: nat

    /** Primary keys are distinct and below the next one to be assigned. */
    ghost predicate Valid()
      reads this
    {
      UniqueIds(records) && KeysBelow(records, nextId)
    }

    /** A service over an empty table; the store numbers records from 1. */
    constructor ()
      ensures Valid() && records == [] && nextId == 1
      ensures UniqueTelegramIds(records)
    {
      records := [];
      nextId := 1;
    }

    /** `getReputation`: the member's first record, if any. */
    method GetReputation(telegramId: string) returns (r: Option<Reputation>)
      ensures r.None? <==> forall i | 0 <= i < |records| :: records[i].telegramId != telegramId
      ensures r.Some? ==> r.value in records && r.value.telegramId == telegramId
      ensures r == FindFirst(records, telegramId)
    {
      r := FindFirst(records, telegramId);
    }

    /** `getAllReputation`: every record, in store order. */
    method GetAllReputation() returns (rs: seq<Reputation>)
      ensures rs == records
    {
      rs := records;
    }

    /**
      `updateReputation`: sets the score of the record with key `id`. Prisma's `update` fails
      when no record has that key: `ok` is false then and the table is unchanged.
     */
    method UpdateReputation(reputation: int, id: nat) returns (ok: bool)
      requires Valid()
      modifies this
      ensures Valid() && nextId == old(nextId)
      ensures ok <==> exists i | 0 <= i < |old(records)| :: old(records)[i].id == id
      ensures records ==
        match IndexOfId(old(records), id)
        case Some(k) => old(records)[k := old(records)[k].(reputation := reputation)]
        case None => old(records)
    {
      match IndexOfId(records, id)
      case None =>
        ok := false;
      case Some(k) =>
        records := records[k := records[k].(reputation := reputation)];
        ok := true;
    }

    /** `createReputation`: appends a record under the next primary key. */
    method CreateReputation(data: ReputationInput)
      requires Valid()
      modifies this
      ensures Valid() && nextId == old(nextId) + 1
      ensures records == old(records) +
        [Reputation(old(nextId), data.telegramId, data.userName, data.userAvatar, data.fullName, data.reputation)]
    {
      records := records +
        [Reputation(nextId, data.telegramId, data.userName, data.userAvatar, data.fullName, data.reputation)];
      nextId := nextId + 1;
    }

    /** `increaseReputation`: one more point for an existing member, a new record otherwise. */
    method IncreaseReputation(telegramId: string, userName: string, userAvatar: string, fullName: string)
      requires Valid()
      modifies this
      ensures Valid()
      ensures records == Awarded(old(records), old(nextId), telegramId, userName, userAvatar, fullName)
      ensures nextId == if FindFirst(old(records), telegramId).Some? then old(nextId) else old(nextId) + 1
      ensures UniqueTelegramIds(old(records)) ==> UniqueTelegramIds(records)
    {
      ghost var before := records;
      var reputationData := GetReputation(telegramId);
      if reputationData.Some? {
        var k := IndexOfMember(records, telegramId).value;
        assert reputationData.value == before[k];
        IndexOfIdAt(records, k);
        var ok := UpdateReputation(reputationData.value.reputation + 1, reputationData.value.id);
        assert records == before[k := before[k].(reputation := before[k].reputation + 1)];
      } else {
        assert IndexOfMember(before, telegramId).None?;
        CreateReputation(ReputationInput(telegramId, userName, userAvatar, fullName, 1));
      }
      if UniqueTelegramIds(before) {
        AwardedKeepsUnique(before, old(nextId), telegramId, userName, userAvatar, fullName);
      }
    }

    /** `removeReputation`: deletes the member's first record; nothing happens without one. */
    method RemoveReputation(telegramId: string)
      requires Valid()
      modifies this
      ensures Valid() && nextId == old(nextId)
      ensures records == Removed(old(records), telegramId)
      ensures UniqueTelegramIds(old(records)) ==> UniqueTelegramIds(records)
      ensures UniqueTelegramIds(old(records)) ==> FindFirst(records, telegramId).None?
    {
      ghost var before := records;
      var user := GetReputation(telegramId);
      if user.Some? {
        var k := IndexOfMember(records, telegramId).value;
        IndexOfIdAt(records, k);
        var index := IndexOfId(records, user.value.id).value;
        assert index == k;
        DeleteKeepsKeys(records, index, nextId);
        records := records[..index] + records[index + 1..];
      }
      if UniqueTelegramIds(before) {
        RemovedKeepsUnique(before, telegramId);
        RemovedDeletes(before, telegramId);
      }
    }

    /**
      `sendReputationMessage`: reads the member back and congratulates them with their current
      score. Without a record the original dereferences `null` and throws: no message then.
     */
    method SendReputationMessage(chatId: int, replyUserName: string, fromUserName: string, telegramId: string)
      returns (out: Option<Outgoing>)
      ensures out.None? <==> FindFirst(records, telegramId).None?
      ensures out.Some? ==>
        out.value == SendMessage(chatId,
          Notification.ReputationText(replyUserName, fromUserName, FindFirst(records, telegramId).value.reputation))
    {
      var reputationData := GetReputation(telegramId);
      if reputationData.None? {
        return None;
      }
      out := Some(SendMessage(chatId,
        Notification.ReputationText(replyUserName, fromUserName, reputationData.value.reputation)));
    }

    /**
      `handleThanksWordReaction`: awards the author of the replied-to message and notifies the
      chat with the score read back after the award. `userAvatar` is what `getUserAvatarUrl`
      resolved for that author.
     */
    method HandleThanksWordReaction(msg: Message, userAvatar: string) returns (out: Outgoing)
      requires msg.replyTo.Some?
      requires Valid()
      modifies this
      ensures Valid()
      ensures records == Awarded(old(records), old(nextId), Decimal.NatString(msg.replyTo.value.id),
        Notification.StoredUserName(msg.replyTo.value), userAvatar, Notification.FullName(msg.replyTo.value))
      ensures UniqueTelegramIds(old(records)) ==> UniqueTelegramIds(records)
      ensures out == SendMessage(msg.chatId,
        Notification.ReputationText(Notification.Addressee(msg.replyTo.value), Notification.FullName(msg.from),
          ScoreAfterAward(old(records), Decimal.NatString(msg.replyTo.value.id))))
    {
      var target := msg.replyTo.value;
      var telegramId := Decimal.NatString(target.id);
      ghost var before := records;
      IncreaseReputation(telegramId, Notification.StoredUserName(target), userAvatar, Notification.FullName(target));
      AwardedReadBack(before, old(nextId), telegramId, Notification.StoredUserName(target), userAvatar,
        Notification.FullName(target));
      var sent := SendReputationMessage(msg.chatId, Notification.Addressee(target), Notification.FullName(msg.from),
        telegramId);
      out := sent.value;
    }

    /**
      The `message` handler: decides on the reply and, on an award, updates the table and
      returns the notification. `targetStatus` and `targetAvatar` are what the bot API reports
      for the author of the replied-to message.
     */
    method OnMessage(msg: Message, targetStatus: MemberStatus, targetAvatar: string)
      returns (decision: Decision, out: Option<Outgoing>)
      requires Valid()
      modifies this
      ensures Valid()
      ensures decision == Decide(msg, targetStatus)
      ensures decision != Award ==> records == old(records) && nextId == old(nextId) && out.None?
      ensures decision == Award ==>
        msg.replyTo.Some? &&
        records == Awarded(old(records), old(nextId), Decimal.NatString(msg.replyTo.value.id),
          Notification.StoredUserName(msg.replyTo.value), targetAvatar, Notification.FullName(msg.replyTo.value)) &&
        out == Some(SendMessage(msg.chatId,
          Notification.ReputationText(Notification.Addressee(msg.replyTo.value), Notification.FullName(msg.from),
            ScoreAfterAward(old(records), Decimal.NatString(msg.replyTo.value.id))))) &&
        Notification.ReportedScore(out.value.text) ==
          Some(ScoreAfterAward(old(records), Decimal.NatString(msg.replyTo.value.id)))
      ensures UniqueTelegramIds(old(records)) ==> UniqueTelegramIds(records)
    {
      decision := Decide(msg, targetStatus);
      if decision == Award {
        var sent := HandleThanksWordReaction(msg, targetAvatar);
        Notification.ReportsScore(Notification.Addressee(msg.replyTo.value), Notification.FullName(msg.from),
          ScoreAfterAward(old(records), Decimal.NatString(msg.replyTo.value.id)));
        out := Some(sent);
      } else {
        out := None;
      }
    }

    /** The `left_chat_member` handler: forgets the departed member's reputation. */
    method OnLeftChatMember(member: User)
      requires Valid()
      modifies this
      ensures Valid() && nextId == old(nextId)
      ensures records == Removed(old(records), Decimal.NatString(member.id))
      ensures UniqueTelegramIds(old(records)) ==> UniqueTelegramIds(records)
      ensures UniqueTelegramIds(old(records)) ==> FindFirst(records, Decimal.NatString(member.id)).None?
    {
      RemoveReputation(Decimal.NatString(member.id));
    }
  }
}
