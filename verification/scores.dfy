/** Tiered scoring: each correct answer earns 1, 2 or 3 points depending on
    which third of the game's answers had already been given when it came in. */
module Scores {

  datatype Score = Score(points: int, answers: int)

  /** The points for an answer given after `numCompleted` earlier answers in a
      game of `totalAnswers`. The tiers `totalAnswers / 3` and twice that are
      compared exactly: `n >= T / 3` is `3 * n >= T`. */
  function Points(totalAnswers: int, numCompleted: int): (p: int)
    ensures 1 <= p <= 3
    ensures p == 3 <==> 3 * numCompleted >= 2 * totalAnswers
    ensures p == 2 <==> totalAnswers <= 3 * numCompleted < 2 * totalAnswers
  {
    if 3 * numCompleted >= 2 * totalAnswers then 3
    else if totalAnswers <= 3 * numCompleted then 2
    else 1
  }

  /** Later answers never earn fewer points. */
  lemma PointsMonotone(totalAnswers: int, n: int, m: int)
    requires n <= m
    ensures Points(totalAnswers, n) <= Points(totalAnswers, m)
  {
  }

  /** For a game with a non-negative number of answers, the points are one
      plus the number of tiers reached. */
  lemma PointsByTiers(totalAnswers: int, numCompleted: int)
    requires totalAnswers >= 0
    ensures Points(totalAnswers, numCompleted)
         == 1 + (if 3 * numCompleted >= totalAnswers then 1 else 0)
              + (if 3 * numCompleted >= 2 * totalAnswers then 1 else 0)
  {
  }

  /** Sum of the answers of the users in `keys`. */
  ghost function SumOver(m: map<string, Score>, keys: set<string>): int
    requires keys <= m.Keys
    decreases keys
  {
    if keys == {} then 0
    else
      var k :| k in keys;
      m[k].answers + SumOver(m, keys - {k})
  }

  /** The number of answers given so far, over all users. */
  ghost function Total(m: map<string, Score>): int {
    SumOver(m, m.Keys)
  }

  /** The sum does not depend on which user is taken out first. */
  lemma {:induction false} SumOverRemove(m: map<string, Score>, keys: set<string>, k: string)
    requires keys <= m.Keys && k in keys
    ensures SumOver(m, keys) == m[k].answers + SumOver(m, keys - {k})
    decreases keys
  {
    var j :| j in keys && SumOver(m, keys) == m[j].answers + SumOver(m, keys - {j});
    if j != k {
      SumOverRemove(m, keys - {j}, k);
      SumOverRemove(m, keys - {k}, j);
      assert keys - {j} - {k} == keys - {k} - {j};
    }
  }

  /** The sum over `keys` only looks at the entries of `keys`. */
  lemma {:induction false} SumOverAgree(m: map<string, Score>, m': map<string, Score>, keys: set<string>)
    requires keys <= m.Keys && keys <= m'.Keys
    requires forall k :: k in keys ==> m[k].answers == m'[k].answers
    ensures SumOver(m, keys) == SumOver(m', keys)
    decreases keys
  {
    if keys != {} {
      var k :| k in keys;
      SumOverRemove(m, keys, k);
      SumOverRemove(m', keys, k);
      SumOverAgree(m, m', keys - {k});
    }
  }

  /** Every user's points lie between one and three per answer. */
  ghost predicate Bounded(m: map<string, Score>) {
    forall u :: u in m ==> 1 <= m[u].answers <= m[u].points <= 3 * m[u].answers
  }

  /** The score map after `userName` answers correctly: a new user starts with
      one answer worth `Points(totalAnswers, Total(m))`, an existing one gains
      one answer and that many points. */
  ghost function Added(m: map<string, Score>, totalAnswers: int, userName: string): (r: map<string, Score>)
    ensures r.Keys == m.Keys + {userName}
    ensures forall u :: u in m && u != userName ==> r[u] == m[u]
    ensures userName !in m ==> r[userName].answers == 1
    ensures userName in m ==> r[userName].answers == m[userName].answers + 1
    ensures userName in m ==> m[userName].points < r[userName].points <= m[userName].points + 3
    ensures Bounded(m) ==> Bounded(r)
  {
    var p := Points(totalAnswers, Total(m));
    var s := if userName !in m then Score(p, 1) else Score(m[userName].points + p, m[userName].answers + 1);
    var r := m[userName := s];
    assert Bounded(m) ==> Bounded(r) by {
      if Bounded(m) {
        forall u | u in r ensures 1 <= r[u].answers <= r[u].points <= 3 * r[u].answers {
          if u != userName {
            assert r[u] == m[u];
          }
        }
      }
    }
    r
  }

  /** Each correct answer adds exactly one to the total number of answers. */
  lemma AddedTotal(m: map<string, Score>, totalAnswers: int, userName: string)
    ensures Total(Added(m, totalAnswers, userName)) == Total(m) + 1
  {
    var r := Added(m, totalAnswers, userName);
    SumOverRemove(r, r.Keys, userName);
    assert r.Keys - {userName} == m.Keys - {userName};
    if userName in m {
      SumOverRemove(m, m.Keys, userName);
    } else {
      assert m.Keys - {userName} == m.Keys;
    }
    SumOverAgree(m, r, m.Keys - {userName});
  }

  /** A game's score table. `lastUser` is carried along for the games that
      read it; nothing here writes it. */
  class Tiered {
    var totalAnswers: int
    var scores: map<string, Score>
    var lastUser: string

    constructor (totalAnswers: int)
      ensures this.totalAnswers == totalAnswers
      ensures scores == map[]
      ensures lastUser == ""
    {
      this.totalAnswers := totalAnswers;
      scores := map[];
      lastUser := "";
    }

    /** Record a correct answer by `userName`: sum the answers given so far,
        then create or update that user's entry. */
    method Add(userName: string)
      modifies this
      ensures totalAnswers == old(totalAnswers) && lastUser == old(lastUser)
      ensures scores == Added(old(scores), totalAnswers, userName)
    {
      var m := scores;
      var numCompleted := 0;
      var rest := m.Keys;
      while rest != {}
        invariant rest <= m.Keys
        invariant numCompleted + SumOver(m, rest) == Total(m)
        invariant unchanged(this)
        decreases rest
      {
        var u :| u in rest;
        SumOverRemove(m, rest, u);
        numCompleted := numCompleted + m[u].answers;
        rest := rest - {u};
      }
      var p := Points(totalAnswers, numCompleted);
      if userName !in m {
        scores := m[userName := Score(p, 1)];
      } else {
        scores := m[userName := Score(m[userName].points + p, m[userName].answers + 1)];
      }
    }
  }
}
