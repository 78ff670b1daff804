/** The state of an image-guessing game: a list of posters, each to be named,
    and the game's score table. */
module ImageGame {
  import Scores

  datatype Image = Image(path: string, answer: string, guessed: bool)

  /** The number of posters not yet guessed. */
  function Unsolved(posters: seq<Image>): (n: nat)
    ensures n <= |posters|
  {
    if posters == [] then 0
    else Unsolved(posters[..|posters| - 1]) + (if posters[|posters| - 1].guessed then 0 else 1)
  }

  /** No poster is left exactly when every poster is guessed. */
  lemma {:induction false} UnsolvedZero(posters: seq<Image>)
    ensures Unsolved(posters) == 0 <==> forall i :: 0 <= i < |posters| ==> posters[i].guessed
  {
    if posters != [] {
      var init := posters[..|posters| - 1];
      UnsolvedZero(init);
      if Unsolved(posters) == 0 {
        forall i | 0 <= i < |posters| ensures posters[i].guessed {
          if i < |init| {
            assert posters[i] == init[i];
          }
        }
      }
    }
  }

  /** The count is all of the list exactly when no poster is guessed. */
  lemma {:induction false} UnsolvedAll(posters: seq<Image>)
    ensures Unsolved(posters) == |posters| <==> forall i :: 0 <= i < |posters| ==> !posters[i].guessed
  {
    if posters != [] {
      var init := posters[..|posters| - 1];
      UnsolvedAll(init);
      if Unsolved(posters) == |posters| {
        forall i | 0 <= i < |posters| ensures !posters[i].guessed {
          if i < |init| {
            assert posters[i] == init[i];
          }
        }
      }
    }
  }

  /** Guessing one poster that was not guessed lowers the count by exactly one. */
  lemma {:induction false} UnsolvedMark(posters: seq<Image>, k: int)
    requires 0 <= k < |posters| && !posters[k].guessed
    ensures Unsolved(posters[k := posters[k].(guessed := true)]) == Unsolved(posters) - 1
  {
    var marked := posters[k := posters[k].(guessed := true)];
    var last := |posters| - 1;
    if k == last {
      assert marked[..last] == posters[..last];
    } else {
      assert marked[..last] == posters[..last][k := posters[k].(guessed := true)];
      UnsolvedMark(posters[..last], k);
    }
  }

  /** Every poster guessed. */
  function AllGuessed(posters: seq<Image>): seq<Image> {
    seq(|posters|, i requires 0 <= i < |posters| => posters[i].(guessed := true))
  }

  /** Once every poster is guessed, none is left. */
  lemma AllGuessedSolved(posters: seq<Image>)
    ensures Unsolved(AllGuessed(posters)) == 0
  {
    UnsolvedZero(AllGuessed(posters));
  }

  class State {
    var posters: seq<Image>
    var requireAlternatingUsers: bool
    var scores: Scores.Tiered

    constructor (posters: seq<Image>, requireAlternatingUsers: bool, scores: Scores.Tiered)
      ensures this.posters == posters && this.scores == scores
      ensures this.requireAlternatingUsers == requireAlternatingUsers
    {
      this.posters := posters;
      this.requireAlternatingUsers := requireAlternatingUsers;
      this.scores := scores;
    }

    /** `NumUnsolved`: start from the number of posters and take one off for
        each poster already guessed. */
    method NumUnsolved() returns (n: int)
      ensures n == Unsolved(posters)
      ensures 0 <= n <= |posters|
    {
      n := |posters|;
      for i := 0 to |posters|
        invariant n == |posters| - i + Unsolved(posters[..i])
      {
        assert posters[..i + 1][..i] == posters[..i];
        if posters[i].guessed {
          n := n - 1;
        }
      }
      assert posters[..|posters|] == posters;
    }

    /** The marking loop of `forceCompleteGame`: every poster becomes guessed. */
    method MarkAllGuessed()
      modifies this
      ensures posters == AllGuessed(old(posters))
      ensures forall i :: 0 <= i < |posters| ==> posters[i].guessed
      ensures requireAlternatingUsers == old(requireAlternatingUsers) && scores == old(scores)
    {
      for k := 0 to |posters|
        invariant |posters| == |old(posters)|
        invariant forall i :: 0 <= i < k ==> posters[i] == old(posters)[i].(guessed := true)
        invariant forall i :: k <= i < |posters| ==> posters[i] == old(posters)[i]
        invariant requireAlternatingUsers == old(requireAlternatingUsers) && scores == old(scores)
      {
        posters := posters[k := posters[k].(guessed := true)];
      }
    }
  }
}
