/** The image game's chat commands with the transport stripped away: the
    initials clue, when a clue may be given, and checking a guess. */
module ImageGameCommand {
  import opened GoStrings
  import Scores
  import Guesses
  import opened ImageGame

  datatype Option<T> = None | Some(value: T)

  /** Clues are only given once at most this many posters are left. */
  const ClueThreshold := 5

  /** With alternation on, the last scorer may not guess again while more than
      this many posters are left. */
  const AlternationThreshold := 3

  /** The first byte of the UTF-8 encoding of `c`, as the Latin-1 character
      Go's `rune(w[0])` makes of it. */
  function LeadByte(c: char): (b: char)
    ensures c as int < 0x80 ==> b == c
    ensures c as int >= 0x80 ==> 0xC2 <= b as int <= 0xF4
  {
    var n := c as int;
    if n < 0x80 then c
    else if n < 0x800 then (0xC0 + n / 0x40) as char
    else if n < 0x10000 then (0xE0 + n / 0x1000) as char
    else (0xF0 + n / 0x40000) as char
  }

  /** `strings.ToUpper` of a one-character string holding a Latin-1 character. */
  function Latin1Upper(b: char): char
    requires b as int < 0x100
  {
    if IsLower(b) then UpperChar(b)
    else if 0xE0 <= b as int <= 0xFE && b as int != 0xF7 then (b as int - 0x20) as char
    else b
  }

  /** A field contributes an initial when it is non-empty and its first byte is
      not a number. The first byte of a multi-byte character, read as a rune,
      is a Latin-1 character in 0xC2-0xF4, none of which `unicode.IsNumber`
      accepts, so the test comes down to the first character not being an
      ASCII digit. */
  predicate HasInitial(w: string) {
    |w| > 0 && !IsDigit(w[0])
  }

  /** The upper-cased first byte of a field. */
  function InitialOf(w: string): (c: char)
    requires |w| > 0
    ensures w[0] as int < 0x80 ==> c == UpperChar(w[0])
  {
    Latin1Upper(LeadByte(w[0]))
  }

  /** The initials of `fields`, in order. */
  function Initials(fields: seq<string>): (r: string)
    ensures |r| <= |fields|
    ensures (forall k :: 0 <= k < |fields| ==> HasInitial(fields[k])) ==> |r| == |fields|
    ensures forall i :: 0 <= i < |r| ==> !IsLower(r[i]) && !IsDigit(r[i])
  {
    if fields == [] then []
    else
      var last := fields[|fields| - 1];
      assert forall k :: 0 <= k < |fields| - 1 ==> fields[..|fields| - 1][k] == fields[k];
      Initials(fields[..|fields| - 1]) + (if HasInitial(last) then [InitialOf(last)] else [])
  }

  /** The clue for poster `clueID` whose answer is `answer`. */
  function ClueText(clueID: string, answer: string): string {
    clueID + " initials: " + Initials(Split(answer, ' '))
  }

  /** A field of the answer that gives no initial: empty (two spaces in a row) or
      starting with a digit. */
  lemma InitialsSkip(fields: seq<string>, w: string)
    requires !HasInitial(w)
    ensures Initials(fields + [w]) == Initials(fields)
  {
    assert (fields + [w])[..|fields|] == fields;
  }

  /** A field that gives an initial adds exactly that initial at the end. */
  lemma InitialsTake(fields: seq<string>, w: string)
    requires HasInitial(w)
    ensures Initials(fields + [w]) == Initials(fields) + [InitialOf(w)]
  {
    assert (fields + [w])[..|fields|] == fields;
  }

  /** `getClueText`: build the initials over the fields of the answer split on
      single spaces. The time the game has run has no effect. */
  method GetClueText(clueID: string, answer: string, gameDuration: int) returns (r: string)
    ensures r == ClueText(clueID, answer)
    ensures |r| <= |clueID| + 11 + |Split(answer, ' ')|
  {
    var fields := Split(answer, ' ');
    var initials := "";
    for k := 0 to |fields|
      invariant initials == Initials(fields[..k])
    {
      var w := fields[k];
      assert fields[..k + 1] == fields[..k] + [w];
      if |w| > 0 && !IsDigit(w[0]) {
        InitialsTake(fields[..k], w);
        initials := initials + [InitialOf(w)];
      } else {
        InitialsSkip(fields[..k], w);
      }
    }
    assert fields[..|fields|] == fields;
    r := clueID + " initials: " + initials;
  }

  /** Poster `k` (0-based) is the one a player calls `clueID`. */
  predicate Names(clueID: string, k: int) {
    IntToString(k + 1) == clueID
  }

  /** At most one poster answers to a given number. */
  lemma NamesUnique(clueID: string, j: int, k: int)
    requires Names(clueID, j) && Names(clueID, k)
    ensures j == k
  {
    IntToStringInjective(j + 1, k + 1);
  }

  /** `handleRequestClue`: nothing while more than five posters are left;
      otherwise the clue for the poster whose number is `clueID`, if any. The
      result is the message sent to the answer thread. */
  method RequestClue(cw: State, clueID: string, gameDuration: int) returns (sent: Option<string>)
    ensures Unsolved(cw.posters) > ClueThreshold ==> sent == None
    ensures Unsolved(cw.posters) <= ClueThreshold ==>
              (sent.Some? <==> exists k :: 0 <= k < |cw.posters| && Names(clueID, k))
    ensures forall k :: 0 <= k < |cw.posters| && Names(clueID, k) && sent.Some? ==>
              sent.value == ClueText(clueID, cw.posters[k].answer)
  {
    var unsolved := cw.NumUnsolved();
    if unsolved > ClueThreshold {
      return None;
    }
    for k := 0 to |cw.posters|
      invariant forall j :: 0 <= j < k ==> !Names(clueID, j)
    {
      if IntToString(k + 1) == clueID {
        assert Names(clueID, k);
        var text := GetClueText(clueID, cw.posters[k].answer, gameDuration);
        forall j | 0 <= j < |cw.posters| && Names(clueID, j) ensures j == k {
          NamesUnique(clueID, j, k);
        }
        return Some(text);
      }
    }
    return None;
  }

  /** `util.GuessRoughlyMatchesAnswer` with the similarity test `similar`, as
      a test of a guess against an answer. */
  function RoughMatch(similar: (string, string) -> bool): (string, string) -> bool {
    (guess, answer) => Guesses.GuessRoughlyMatchesAnswer(guess, answer, similar)
  }

  /** Poster `k` is the one named by `clueID` and `matches` accepts `word` for
      its answer. */
  predicate Hit(posters: seq<Image>, k: int, clueID: string, word: string, matches: (string, string) -> bool) {
    0 <= k < |posters| && Names(clueID, k) && matches(word, posters[k].answer)
  }

  /** The loop of the guess callback, on the list of posters: the hit poster, if
      any, is marked guessed unless it already was; `gameComplete` says whether
      every poster is guessed afterwards. `matches` is the answer test. */
  method ScanGuess(posters: seq<Image>, clueID: string, word: string, matches: (string, string) -> bool)
    returns (alreadySolved: bool, correct: bool, gameComplete: bool, updated: seq<Image>)
    ensures alreadySolved <==> exists k :: Hit(posters, k, clueID, word, matches) && posters[k].guessed
    ensures correct <==> exists k :: Hit(posters, k, clueID, word, matches) && !posters[k].guessed
    ensures !(alreadySolved && correct)
    ensures !correct ==> updated == posters
    ensures forall k :: correct && Hit(posters, k, clueID, word, matches) ==>
              updated == posters[k := posters[k].(guessed := true)]
    ensures correct ==> Unsolved(updated) == Unsolved(posters) - 1
    ensures !alreadySolved ==> (gameComplete <==> Unsolved(updated) == 0)
  {
    alreadySolved, correct, gameComplete := false, false, true;
    updated := posters;
    ghost var hit := -1;
    for k := 0 to |posters|
      invariant |updated| == |posters|
      invariant forall j :: k <= j < |posters| ==> updated[j] == posters[j]
      invariant -1 <= hit < k && (correct <==> hit >= 0)
      invariant correct ==> Hit(posters, hit, clueID, word, matches) && !posters[hit].guessed
      invariant forall j :: 0 <= j < k && Hit(posters, j, clueID, word, matches) ==> j == hit
      invariant !correct ==> updated == posters
      invariant correct ==> updated == posters[hit := posters[hit].(guessed := true)]
      invariant gameComplete <==> forall j :: 0 <= j < k ==> updated[j].guessed
    {
      ghost var before := updated;
      if IntToString(k + 1) == clueID && matches(word, updated[k].answer) {
        assert Hit(posters, k, clueID, word, matches);
        if correct {
          NamesUnique(clueID, hit, k);
          assert false;
        }
        if updated[k].guessed {
          alreadySolved := true;
          forall j | Hit(posters, j, clueID, word, matches) ensures j == k {
            NamesUnique(clueID, j, k);
          }
          return;
        }
        updated := updated[k := updated[k].(guessed := true)];
        correct := true;
        hit := k;
      } else {
        assert !Hit(posters, k, clueID, word, matches);
      }
      assert forall j :: 0 <= j < k ==> updated[j] == before[j];
      if !updated[k].guessed {
        gameComplete := false;
      }
    }
    forall j | Hit(posters, j, clueID, word, matches) ensures j == hit {
    }
    if correct {
      UnsolvedMark(posters, hit);
    }
    UnsolvedZero(updated);
  }

  /** The guess callback of `handleCheckWordSubmission`. With alternation on,
      the last scorer is turned away while more than three posters are left and
      nothing changes; otherwise the guess is scanned, and a correct guess marks
      its poster and scores once for the guesser. */
  method CheckGuess(cw: State, userName: string, clueID: string, word: string, similar: (string, string) -> bool)
    returns (guessAllowed: bool, alreadySolved: bool, correct: bool, gameComplete: bool)
    modifies cw, cw.scores
    ensures cw.scores == old(cw.scores) && cw.requireAlternatingUsers == old(cw.requireAlternatingUsers)
    ensures cw.scores.totalAnswers == old(cw.scores.totalAnswers) && cw.scores.lastUser == old(cw.scores.lastUser)
    ensures guessAllowed <==> !(old(cw.requireAlternatingUsers) && old(cw.scores.lastUser) == userName
                                && Unsolved(old(cw.posters)) > AlternationThreshold)
    ensures !guessAllowed ==> !alreadySolved && !correct
    ensures guessAllowed ==>
              (alreadySolved <==> exists k :: Hit(old(cw.posters), k, clueID, word, RoughMatch(similar)) && old(cw.posters)[k].guessed)
    ensures guessAllowed ==>
              (correct <==> exists k :: Hit(old(cw.posters), k, clueID, word, RoughMatch(similar)) && !old(cw.posters)[k].guessed)
    ensures !correct ==> cw.posters == old(cw.posters) && cw.scores.scores == old(cw.scores.scores)
    ensures forall k :: correct && Hit(old(cw.posters), k, clueID, word, RoughMatch(similar)) ==>
              cw.posters == old(cw.posters)[k := old(cw.posters)[k].(guessed := true)]
    ensures correct ==> cw.scores.scores == Scores.Added(old(cw.scores.scores), old(cw.scores.totalAnswers), userName)
    ensures correct ==> Unsolved(cw.posters) == Unsolved(old(cw.posters)) - 1
    ensures guessAllowed && !alreadySolved ==> (gameComplete <==> Unsolved(cw.posters) == 0)
  {
    var unsolved := cw.NumUnsolved();
    if cw.requireAlternatingUsers && cw.scores.lastUser == userName && unsolved > AlternationThreshold {
      return false, false, false, true;
    }
    guessAllowed := true;
    var updated;
    alreadySolved, correct, gameComplete, updated := ScanGuess(cw.posters, clueID, word, RoughMatch(similar));
    if alreadySolved {
      return;
    }
    cw.posters := updated;
    if correct {
      cw.scores.Add(userName);
    }
  }

  /** `forceCompleteGame`, without the messages it sends: every poster is
      guessed and nothing else changes. */
  method ForceCompleteGame(cw: State)
    modifies cw
    ensures cw.posters == AllGuessed(old(cw.posters))
    ensures Unsolved(cw.posters) == 0
    ensures cw.scores == old(cw.scores) && cw.requireAlternatingUsers == old(cw.requireAlternatingUsers)
  {
    cw.MarkAllGuessed();
    AllGuessedSolved(old(cw.posters));
  }
}
