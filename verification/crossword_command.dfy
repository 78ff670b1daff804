/** The crossword game's chat commands with the transport stripped away:
    checking an answer, the admin "complete" and "reset" actions, and the clue
    lists shown under the board. */
module CrosswordCommand {
  import opened GoStrings
  import Scores
  import Guesses
  import Sorting

  /** A word placed on the published board. `clueID` is the label the board
      library gives the placement, kept as an opaque string. */
  datatype Placement = Placement(id: int, clueID: string, word: string, clue: string, vertical: bool, solved: bool)

  /** The number of words not yet solved. */
  function CountUnsolved(words: seq<Placement>): (n: nat)
    ensures n <= |words|
  {
    if words == [] then 0
    else CountUnsolved(words[..|words| - 1]) + (if words[|words| - 1].solved then 0 else 1)
  }

  /** None is left exactly when every word is solved. */
  lemma {:induction false} CountUnsolvedZero(words: seq<Placement>)
    ensures CountUnsolved(words) == 0 <==> forall i :: 0 <= i < |words| ==> words[i].solved
  {
    if words != [] {
      var init := words[..|words| - 1];
      CountUnsolvedZero(init);
      if CountUnsolved(words) == 0 {
        forall i | 0 <= i < |words| ensures words[i].solved {
          if i < |init| {
            assert words[i] == init[i];
          }
        }
      }
    }
  }

  /** Exactly one word unsolved makes a count of one. */
  lemma {:induction false} CountUnsolvedOne(words: seq<Placement>, f: int)
    requires 0 <= f < |words| && !words[f].solved
    requires forall i :: 0 <= i < |words| && i != f ==> words[i].solved
    ensures CountUnsolved(words) == 1
  {
    var init := words[..|words| - 1];
    if f == |words| - 1 {
      CountUnsolvedZero(init);
    } else {
      CountUnsolvedOne(init, f);
    }
  }

  class CrosswordState {
    var words: seq<Placement>
    var scores: Scores.Tiered
    var complete: bool

    constructor (words: seq<Placement>, scores: Scores.Tiered)
      ensures this.words == words && this.scores == scores && !complete
    {
      this.words := words;
      this.scores := scores;
      complete := false;
    }
  }

  /** Entry `w` settles an answer to `key` with the space-free guess `guess`:
      it carries that label and is either solved already or spelled like the
      guess, ignoring case. */
  predicate Settles(w: Placement, key: string, guess: string) {
    w.clueID == key && (w.solved || ToUpper(guess) == ToUpper(w.word))
  }

  /** The first entry from `i` on that settles the answer, or `|words|`. */
  function FirstSettling(words: seq<Placement>, key: string, guess: string, i: nat): (k: nat)
    requires i <= |words|
    ensures i <= k <= |words|
    ensures k < |words| ==> Settles(words[k], key, guess)
    ensures forall j :: i <= j < k ==> !Settles(words[j], key, guess)
    decreases |words| - i
  {
    if i == |words| then i
    else if Settles(words[i], key, guess) then i
    else FirstSettling(words, key, guess, i + 1)
  }

  /** The loop of the answer callback, on the word list: skip entries with
      another label, stop at the first solved one or the first one the guess
      spells. `k` is where it stopped. */
  method ScanAnswer(words: seq<Placement>, key: string, guess: string)
    returns (correct: bool, alreadySolved: bool, k: int)
    ensures k == FirstSettling(words, key, guess, 0)
    ensures alreadySolved <==> k < |words| && words[k].solved
    ensures correct <==> k < |words| && !words[k].solved
  {
    correct, alreadySolved := false, false;
    k := 0;
    while k < |words|
      invariant 0 <= k <= |words|
      invariant FirstSettling(words, key, guess, k) == FirstSettling(words, key, guess, 0)
      invariant !correct && !alreadySolved
    {
      var w := words[k];
      if w.clueID != key {
        k := k + 1;
        continue;
      }
      if w.solved {
        alreadySolved := true;
        break;
      }
      if ToUpper(guess) == ToUpper(w.word) {
        correct := true;
        break;
      }
      k := k + 1;
    }
  }

  /** The counting loop after the answer check. */
  method NumUnsolved(words: seq<Placement>) returns (n: int)
    ensures n == CountUnsolved(words)
  {
    n := 0;
    for i := 0 to |words|
      invariant n == CountUnsolved(words[..i])
    {
      assert words[..i + 1][..i] == words[..i];
      if !words[i].solved {
        n := n + 1;
      }
    }
    assert words[..|words|] == words;
  }

  /** The answer callback of `handleCheckWordSubmission`: the entry the scan
      stops at is marked solved and the player scores once when the guess
      spells it; the game is complete once no word is left, and stays so. */
  method CheckAnswer(cw: CrosswordState, clueID: string, word: string, userName: string)
    returns (correct: bool, alreadySolved: bool)
    modifies cw, cw.scores
    ensures cw.scores == old(cw.scores)
    ensures cw.scores.totalAnswers == old(cw.scores.totalAnswers) && cw.scores.lastUser == old(cw.scores.lastUser)
    ensures var k := FirstSettling(old(cw.words), ToUpper(clueID), Guesses.Unspaced(word), 0);
            && (alreadySolved <==> k < |old(cw.words)| && old(cw.words)[k].solved)
            && (correct <==> k < |old(cw.words)| && !old(cw.words)[k].solved)
            && (correct ==> cw.words == old(cw.words)[k := old(cw.words)[k].(solved := true)])
    ensures !(correct && alreadySolved)
    ensures !correct ==> cw.words == old(cw.words) && cw.scores.scores == old(cw.scores.scores)
    ensures correct ==> cw.scores.scores == Scores.Added(old(cw.scores.scores), old(cw.scores.totalAnswers), userName)
    ensures cw.complete <==> old(cw.complete) || CountUnsolved(cw.words) == 0
  {
    var key := ToUpper(clueID);
    var guess := Guesses.WithoutSpaces(word);
    var k;
    correct, alreadySolved, k := ScanAnswer(cw.words, key, guess);
    if correct {
      cw.words := cw.words[k := cw.words[k].(solved := true)];
      cw.scores.Add(userName);
    }
    var unsolved := NumUnsolved(cw.words);
    if unsolved == 0 && !cw.complete {
      cw.complete := true;
    }
  }

  /** Only the guess loses its white space, so an answer with a space in it can
      never be matched. */
  lemma SpacedAnswerNeverMatches(word: string, answer: string, i: int)
    requires 0 <= i < |answer| && IsRegexSpace(answer[i])
    ensures ToUpper(Guesses.Unspaced(word)) != ToUpper(answer)
  {
    var g := Guesses.Unspaced(word);
    if |ToUpper(g)| == |ToUpper(answer)| {
      assert ToUpper(answer)[i] == answer[i];
      assert !IsRegexSpace(ToUpper(g)[i]);
    }
  }

  /** The first unsolved word, or `|words|`. */
  function FirstUnsolved(words: seq<Placement>): (f: nat)
    ensures f <= |words|
    ensures f < |words| ==> !words[f].solved
    ensures forall j :: 0 <= j < f ==> words[j].solved
  {
    if words == [] then 0
    else if !words[0].solved then 0
    else 1 + FirstUnsolved(words[1..])
  }

  /** The admin "complete" action: every word becomes solved except the first
      unsolved one. Afterwards exactly one word is left if any was. */
  method AdminComplete(cw: CrosswordState)
    modifies cw
    ensures |cw.words| == |old(cw.words)|
    ensures forall i :: 0 <= i < |cw.words| ==>
              cw.words[i] == old(cw.words)[i].(solved := i != FirstUnsolved(old(cw.words)))
    ensures CountUnsolved(cw.words) == if CountUnsolved(old(cw.words)) == 0 then 0 else 1
    ensures cw.scores == old(cw.scores) && cw.complete == old(cw.complete)
  {
    ghost var f := FirstUnsolved(cw.words);
    ghost var before := cw.words;
    var oneLeft := false;
    for k := 0 to |cw.words|
      invariant |cw.words| == |before| && cw.scores == old(cw.scores) && cw.complete == old(cw.complete)
      invariant oneLeft <==> f < k
      invariant forall i :: 0 <= i < k ==> cw.words[i] == before[i].(solved := i != f)
      invariant forall i :: k <= i < |cw.words| ==> cw.words[i] == before[i]
    {
      if cw.words[k].solved == false && !oneLeft {
        oneLeft := true;
        continue;
      }
      cw.words := cw.words[k := cw.words[k].(solved := true)];
    }
    CountUnsolvedZero(before);
    CountUnsolvedZero(cw.words);
    if f < |before| {
      CountUnsolvedOne(cw.words, f);
    }
  }

  /** The admin "reset" action: every word becomes unsolved. The score table is
      emptied, its last user cleared and the completion flag dropped inside the
      loop, so with no words at all those stay as they were. */
  method AdminReset(cw: CrosswordState)
    modifies cw, cw.scores
    ensures |cw.words| == |old(cw.words)|
    ensures forall i :: 0 <= i < |cw.words| ==> cw.words[i] == old(cw.words)[i].(solved := false)
    ensures cw.scores == old(cw.scores) && cw.scores.totalAnswers == old(cw.scores.totalAnswers)
    ensures |old(cw.words)| > 0 ==> cw.scores.scores == map[] && cw.scores.lastUser == "" && !cw.complete
    ensures |old(cw.words)| == 0 ==>
              (cw.scores.scores == old(cw.scores.scores)
               && cw.scores.lastUser == old(cw.scores.lastUser) && cw.complete == old(cw.complete))
    ensures CountUnsolved(cw.words) == |cw.words|
  {
    for k := 0 to |cw.words|
      invariant |cw.words| == |old(cw.words)|
      invariant cw.scores == old(cw.scores) && cw.scores.totalAnswers == old(cw.scores.totalAnswers)
      invariant forall i :: 0 <= i < k ==> cw.words[i] == old(cw.words)[i].(solved := false)
      invariant forall i :: k <= i < |cw.words| ==> cw.words[i] == old(cw.words)[i]
      invariant k > 0 ==> cw.scores.scores == map[] && cw.scores.lastUser == "" && !cw.complete
      invariant k == 0 ==>
                  (cw.scores.scores == old(cw.scores.scores)
                   && cw.scores.lastUser == old(cw.scores.lastUser) && cw.complete == old(cw.complete))
    {
      cw.words := cw.words[k := cw.words[k].(solved := false)];
      cw.scores.scores := map[];
      cw.scores.lastUser := "";
      cw.complete := false;
    }
    CountUnsolvedAll(cw.words);
  }

  /** A list with no solved word counts all of its words. */
  lemma {:induction false} CountUnsolvedAll(words: seq<Placement>)
    requires forall i :: 0 <= i < |words| ==> !words[i].solved
    ensures CountUnsolved(words) == |words|
  {
    if words != [] {
      CountUnsolvedAll(words[..|words| - 1]);
    }
  }

  /** The key the clue lists are ordered by. */
  function Id(w: Placement): int { w.id }

  predicate IsSolved(w: Placement) { w.solved }
  predicate IsDown(w: Placement) { !w.solved && w.vertical }
  predicate IsAcross(w: Placement) { !w.solved && !w.vertical }

  /** The elements of `s` that satisfy `p`, in their order. */
  function Filter(s: seq<Placement>, p: Placement -> bool): (r: seq<Placement>)
    ensures |r| <= |s|
    ensures forall i :: 0 <= i < |r| ==> p(r[i])
    ensures multiset(r) <= multiset(s)
  {
    if s == [] then []
    else
      assert s == s[..|s| - 1] + [s[|s| - 1]];
      Filter(s[..|s| - 1], p) + (if p(s[|s| - 1]) then [s[|s| - 1]] else [])
  }

  /** Filtering keeps the order: a sorted list filters to a sorted list. */
  lemma {:induction false} FilterSorted(s: seq<Placement>, p: Placement -> bool)
    requires Sorting.SortedBy(s, Id)
    ensures Sorting.SortedBy(Filter(s, p), Id)
  {
    if s != [] {
      var init := s[..|s| - 1];
      var last := s[|s| - 1];
      assert Sorting.SortedBy(init, Id) by {
        forall i, j | 0 <= i < j < |init| ensures Id(init[i]) <= Id(init[j]) {
          assert init[i] == s[i] && init[j] == s[j];
        }
      }
      FilterSorted(init, p);
      var f := Filter(init, p);
      if p(last) {
        forall i | 0 <= i < |f| ensures Id(f[i]) <= Id(last) {
          assert f[i] in multiset(init);
          var m :| 0 <= m < |init| && init[m] == f[i];
          assert init[m] == s[m];
        }
        Sorting.SnocSorted(f, last, Id);
      }
    }
  }

  /** Filtering a list with one more element at the end. */
  lemma FilterSnoc(s: seq<Placement>, p: Placement -> bool)
    requires s != []
    ensures p(s[|s| - 1]) ==> multiset(Filter(s, p)) == multiset(Filter(s[..|s| - 1], p)) + multiset{s[|s| - 1]}
    ensures !p(s[|s| - 1]) ==> Filter(s, p) == Filter(s[..|s| - 1], p)
  {
  }

  /** The multiset of a list is that of all but its last element, plus the last. */
  lemma MultisetSnoc(s: seq<Placement>)
    requires s != []
    ensures multiset(s) == multiset(s[..|s| - 1]) + multiset{s[|s| - 1]}
  {
    assert s == s[..|s| - 1] + [s[|s| - 1]];
  }

  /** Three multisets, one of which grows by one element. */
  lemma AddToOne<T>(a: multiset<T>, b: multiset<T>, c: multiset<T>, x: T)
    ensures (a + multiset{x}) + b + c == (a + b + c) + multiset{x}
    ensures a + (b + multiset{x}) + c == (a + b + c) + multiset{x}
    ensures a + b + (c + multiset{x}) == (a + b + c) + multiset{x}
  {
  }

  /** The three lists split the words: every word lands in exactly one. */
  lemma {:induction false} FilterPartition(s: seq<Placement>)
    ensures multiset(Filter(s, IsSolved)) + multiset(Filter(s, IsDown)) + multiset(Filter(s, IsAcross))
         == multiset(s)
  {
    if s != [] {
      var init, w := s[..|s| - 1], s[|s| - 1];
      FilterPartition(init);
      MultisetSnoc(s);
      var ms, md, ma := multiset(Filter(init, IsSolved)), multiset(Filter(init, IsDown)), multiset(Filter(init, IsAcross));
      AddToOne(ms, md, ma, w);
      FilterSnoc(s, IsSolved);
      FilterSnoc(s, IsDown);
      FilterSnoc(s, IsAcross);
      if IsSolved(w) {
        assert multiset(Filter(s, IsSolved)) == ms + multiset{w};
      } else if IsDown(w) {
        assert multiset(Filter(s, IsDown)) == md + multiset{w};
      } else {
        assert multiset(Filter(s, IsAcross)) == ma + multiset{w};
      }
    }
  }

  /** The partition loop of `renderClues` over the sorted words. */
  method Partition(sorted: seq<Placement>) returns (solved: seq<Placement>, down: seq<Placement>, across: seq<Placement>)
    ensures solved == Filter(sorted, IsSolved)
    ensures down == Filter(sorted, IsDown)
    ensures across == Filter(sorted, IsAcross)
  {
    solved, down, across := [], [], [];
    for i := 0 to |sorted|
      invariant solved == Filter(sorted[..i], IsSolved)
      invariant down == Filter(sorted[..i], IsDown)
      invariant across == Filter(sorted[..i], IsAcross)
    {
      var w := sorted[i];
      assert sorted[..i + 1][..i] == sorted[..i];
      if !w.solved {
        if w.vertical {
          down := down + [w];
        } else {
          across := across + [w];
        }
      } else {
        solved := solved + [w];
      }
    }
    assert sorted[..|sorted|] == sorted;
  }

  /** `renderClues` without the text: sort by ID, then split into solved,
      unsolved down and unsolved across words, each in ID order. */
  method RenderClues(words: seq<Placement>) returns (sorted: seq<Placement>, solved: seq<Placement>, down: seq<Placement>, across: seq<Placement>)
    ensures Sorting.SortedBy(sorted, Id) && multiset(sorted) == multiset(words)
    ensures solved == Filter(sorted, IsSolved) && down == Filter(sorted, IsDown) && across == Filter(sorted, IsAcross)
    ensures Sorting.SortedBy(solved, Id) && Sorting.SortedBy(down, Id) && Sorting.SortedBy(across, Id)
    ensures multiset(solved) + multiset(down) + multiset(across) == multiset(words)
    ensures forall w :: w in solved ==> w.solved
    ensures forall w :: w in down ==> !w.solved && w.vertical
    ensures forall w :: w in across ==> !w.solved && !w.vertical
  {
    sorted := Sorting.SortBy(words, Id);
    solved, down, across := Partition(sorted);
    FilterSorted(sorted, IsSolved);
    FilterSorted(sorted, IsDown);
    FilterSorted(sorted, IsAcross);
    FilterPartition(sorted);
  }

  /** One clue line: label, letter count in bytes, clue. */
  function ClueLine(w: Placement): string {
    "\n`[" + w.clueID + " | " + NatToString(Utf8Length(w.word)) + " letters]` " + w.clue
  }

  function ClueLines(words: seq<Placement>): string {
    if words == [] then "" else ClueLines(words[..|words| - 1]) + ClueLine(words[|words| - 1])
  }

  /** The unsolved clues: a DOWN section and an ACROSS section, each written
      only when it has a clue. */
  function UnsolvedText(down: seq<Placement>, across: seq<Placement>): string {
    (if |down| > 0 then "**DOWN**" + ClueLines(down) else "")
    + (if |across| > 0 then "\n\n**ACROSS**" + ClueLines(across) else "")
  }

  /** Discord's limit on a message body, in bytes. */
  const BodyLimit := 2000

  /** The board message carries the unsolved clues only when they fit. */
  function MessageBody(text: string): (body: string)
    ensures Utf8Length(body) < BodyLimit
    ensures body == text || body == ""
    ensures body == text <==> Utf8Length(text) < BodyLimit
  {
    if Utf8Length(text) < BodyLimit then text else ""
  }

  /** `renderBoard` without the image: the message body. The clue rendering
      sorts the state's own word list in place, as the Go slice is shared. */
  method RenderBoardBody(cw: CrosswordState) returns (body: string)
    modifies cw
    ensures Sorting.SortedBy(cw.words, Id) && multiset(cw.words) == multiset(old(cw.words))
    ensures cw.scores == old(cw.scores) && cw.complete == old(cw.complete)
    ensures body == MessageBody(UnsolvedText(Filter(cw.words, IsDown), Filter(cw.words, IsAcross)))
    ensures Utf8Length(body) < BodyLimit
  {
    var sorted, solved, down, across := RenderClues(cw.words);
    cw.words := sorted;
    body := MessageBody(UnsolvedText(down, across));
  }
}
