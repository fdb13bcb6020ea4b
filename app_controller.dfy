/**
  The `GET /reputations` endpoint: every record, ordered by `sort((a, b) => b.reputation -
  a.reputation)`. The comparator puts higher scores first and reports ties as equal; the
  host's sort is stable, so tied records keep the order the store returned them in.
 */
module Leaderboard {
  import opened Bot

  /** Scores never increase along the sequence. */
  predicate NonIncreasing(rs: seq<Reputation>) {
    forall i, j | 0 <= i < j < |rs| :: rs[i].reputation >= rs[j].reputation
  }

  /** The records with score `v`, in their order in `rs`. */
  function WithScore(rs: seq<Reputation>, v: int): seq<Reputation> {
    if rs == [] then []
    else (if rs[0].reputation == v then [rs[0]] else []) + WithScore(rs[1..], v)
  }

  /** Places `x` before the first record of `sorted` whose score is not above its own. */
  function Insert(x: Reputation, sorted: seq<Reputation>): seq<Reputation> {
    if sorted == [] then [x]
    else if x.reputation >= sorted[0].reputation then [x] + sorted
    else [sorted[0]] + Insert(x, sorted[1..])
  }

  /** Inserting adds exactly `x` to the records. */
  lemma {:induction false} InsertPermutes(x: Reputation, sorted: seq<Reputation>)
    ensures multiset(Insert(x, sorted)) == multiset(sorted) + multiset{x}
  {
    if sorted == [] || x.reputation >= sorted[0].reputation {
      assert Insert(x, sorted) == [x] + sorted;
      assert multiset([x] + sorted) == multiset{x} + multiset(sorted);
    } else {
      var tail := sorted[1..];
      var rest := Insert(x, tail);
      InsertPermutes(x, tail);
      assert Insert(x, sorted) == [sorted[0]] + rest;
      assert multiset([sorted[0]] + rest) == multiset{sorted[0]} + multiset(rest);
      assert sorted == [sorted[0]] + tail;
      assert multiset(sorted) == multiset{sorted[0]} + multiset(tail);
    }
  }

  /** Inserting into a sorted sequence keeps it sorted. */
  lemma {:induction false} InsertOrders(x: Reputation, sorted: seq<Reputation>)
    requires NonIncreasing(sorted)
    ensures NonIncreasing(Insert(x, sorted))
  {
    if sorted != [] && x.reputation < sorted[0].reputation {
      var tail := sorted[1..];
      InsertOrders(x, tail);
      forall k | 0 <= k < |tail| ensures tail[k].reputation <= sorted[0].reputation {
        assert tail[k] == sorted[k + 1];
      }
      InsertBounded(x, tail, sorted[0].reputation);
      var rest := Insert(x, tail);
      var r := [sorted[0]] + rest;
      forall i, j | 0 <= i < j < |r| ensures r[i].reputation >= r[j].reputation {
        assert r[j] == rest[j - 1];
        if i > 0 {
          assert r[i] == rest[i - 1];
        }
      }
      assert Insert(x, sorted) == r;
    }
  }

  /** A bound on the scores of `x` and of `s` bounds the scores of `Insert(x, s)`. */
  lemma {:induction false} InsertBounded(x: Reputation, s: seq<Reputation>, b: int)
    requires x.reputation <= b
    requires forall k | 0 <= k < |s| :: s[k].reputation <= b
    ensures forall k | 0 <= k < |Insert(x, s)| :: Insert(x, s)[k].reputation <= b
  {
    if s != [] && x.reputation < s[0].reputation {
      var tail := s[1..];
      forall k | 0 <= k < |tail| ensures tail[k].reputation <= b {
        assert tail[k] == s[k + 1];
      }
      InsertBounded(x, tail, b);
      var rest := Insert(x, tail);
      assert Insert(x, s) == [s[0]] + rest;
      forall k | 0 <= k < |rest| + 1 ensures ([s[0]] + rest)[k].reputation <= b {
        if k > 0 {
          assert ([s[0]] + rest)[k] == rest[k - 1];
        }
      }
    }
  }

  /** The leaderboard order: a stable sort by descending score. */
  function SortByReputation(rs: seq<Reputation>): (sorted: seq<Reputation>)
    ensures multiset(sorted) == multiset(rs)
  {
    if rs == [] then []
    else
      assert rs == [rs[0]] + rs[1..];
      InsertPermutes(rs[0], SortByReputation(rs[1..]));
      Insert(rs[0], SortByReputation(rs[1..]))
  }

  /** `WithScore` of a sequence with a known first record. */
  lemma WithScoreCons(a: Reputation, s: seq<Reputation>, v: int)
    ensures WithScore([a] + s, v) == (if a.reputation == v then [a] else []) + WithScore(s, v)
  {
    assert ([a] + s)[1..] == s;
  }

  /**
    `Insert` passes over only records with a higher score, so `x` goes ahead of every record
    that already has its score.
   */
  lemma {:induction false} InsertWithScore(x: Reputation, sorted: seq<Reputation>, v: int)
    ensures WithScore(Insert(x, sorted), v) == (if x.reputation == v then [x] else []) + WithScore(sorted, v)
  {
    if sorted == [] {
      assert Insert(x, sorted) == [x] + sorted;
      WithScoreCons(x, sorted, v);
    } else if x.reputation >= sorted[0].reputation {
      assert Insert(x, sorted) == [x] + sorted;
      WithScoreCons(x, sorted, v);
    } else {
      var tail := sorted[1..];
      var rest := Insert(x, tail);
      InsertWithScore(x, tail, v);
      assert Insert(x, sorted) == [sorted[0]] + rest;
      WithScoreCons(sorted[0], rest, v);
      assert sorted == [sorted[0]] + tail;
      WithScoreCons(sorted[0], tail, v);
      if x.reputation == v {
        assert sorted[0].reputation != v;
      }
    }
  }

  /** The leaderboard lists higher scores first. */
  lemma {:induction false} SortOrders(rs: seq<Reputation>)
    ensures NonIncreasing(SortByReputation(rs))
  {
    if rs != [] {
      SortOrders(rs[1..]);
      InsertOrders(rs[0], SortByReputation(rs[1..]));
    }
  }

  /** Records with equal scores keep their store order. */
  lemma {:induction false} SortStable(rs: seq<Reputation>, v: int)
    ensures WithScore(SortByReputation(rs), v) == WithScore(rs, v)
  {
    if rs != [] {
      SortStable(rs[1..], v);
      InsertWithScore(rs[0], SortByReputation(rs[1..]), v);
    }
  }

  /** Scores 3, 1, 5 in store order come out as 5, 3, 1. */
  lemma SortExample(a: Reputation, b: Reputation, c: Reputation)
    requires a.reputation == 3 && b.reputation == 1 && c.reputation == 5
    ensures SortByReputation([a, b, c]) == [c, a, b]
  {
    assert [a, b, c][1..] == [b, c];
    assert [b, c][1..] == [c];
    assert [c][1..] == [];
    assert SortByReputation([c]) == [c];
    assert Insert(b, [c]) == [c] + Insert(b, []);
    assert SortByReputation([b, c]) == [c, b];
    assert [c, b][1..] == [b];
    assert Insert(a, [c, b]) == [c] + Insert(a, [b]);
  }

  /** The controller; it only reads the service's table. */
  class AppController {
    const botService: BotService

    constructor (botService: BotService)
      ensures this.botService == botService
    {
      this.botService := botService;
    }

    /** `getReputations`: the whole table as a leaderboard, leaving the table as it was. */
    method GetReputations() returns (rs: seq<Reputation>)
      ensures NonIncreasing(rs)
      ensures multiset(rs) == multiset(botService.records)
      ensures forall v :: WithScore(rs, v) == WithScore(botService.records, v)
      ensures rs == SortByReputation(botService.records)
    {
      var reputations := botService.GetAllReputation();
      rs := SortByReputation(reputations);
      SortOrders(reputations);
      forall v ensures WithScore(rs, v) == WithScore(reputations, v) {
        SortStable(reputations, v);
      }
    }
  }
}
