/** Normalising players' guesses before they are compared with an answer. */
module Guesses {
  import opened GoStrings

  /** The characters of `s` that are not in RE2's `\s`, in their order. */
  function Unspaced(s: string): (r: string)
    ensures |r| <= |s|
    ensures forall i :: 0 <= i < |r| ==> !IsRegexSpace(r[i])
    ensures forall c :: c in r <==> c in s && !IsRegexSpace(c)
  {
    if s == [] then []
    else if IsRegexSpace(s[|s| - 1]) then Unspaced(s[..|s| - 1])
    else Unspaced(s[..|s| - 1]) + [s[|s| - 1]]
  }

  /** Removing the white space of a concatenation removes it from each part. */
  lemma {:induction false} UnspacedAppend(s: string, t: string)
    ensures Unspaced(s + t) == Unspaced(s) + Unspaced(t)
    decreases |t|
  {
    if t == [] {
      assert s + t == s;
    } else {
      assert (s + t)[..|s + t| - 1] == s + t[..|t| - 1];
      UnspacedAppend(s, t[..|t| - 1]);
    }
  }

  /** A string without white space is its own unspaced form. */
  lemma {:induction false} UnspacedClean(s: string)
    requires forall i :: 0 <= i < |s| ==> !IsRegexSpace(s[i])
    ensures Unspaced(s) == s
  {
    if s != [] {
      UnspacedClean(s[..|s| - 1]);
    }
  }

  /** Removing white space twice is removing it once. */
  lemma UnspacedIdempotent(s: string)
    ensures Unspaced(Unspaced(s)) == Unspaced(s)
  {
    UnspacedClean(Unspaced(s));
  }

  /** `WithoutSpaces`: replace every match of `\s+` with nothing, scanning left
      to right. */
  method WithoutSpaces(guess: string) returns (r: string)
    ensures r == Unspaced(guess)
  {
    r := [];
    for i := 0 to |guess|
      invariant r == Unspaced(guess[..i])
    {
      assert guess[..i + 1][..i] == guess[..i];
      if !IsRegexSpace(guess[i]) {
        r := r + [guess[i]];
      }
    }
    assert guess[..|guess|] == guess;
  }

  /** `trimAllPrefix` as a fold: trim, then for each of `trims` in order remove
      it once as a prefix and trim again. Written from the last step backwards. */
  function TrimAll(str: string, trims: seq<string>): (r: string)
    ensures Trimmed(r)
  {
    if trims == [] then TrimSpace(str)
    else TrimSpace(TrimPrefix(TrimAll(str, trims[..|trims| - 1]), trims[|trims| - 1]))
  }

  /** One step of the fold keeps a contiguous piece of its input. */
  lemma StepInfix(before: string, prefix: string)
    ensures IsInfix(TrimSpace(TrimPrefix(before, prefix)), before)
  {
    var cut := TrimPrefix(before, prefix);
    TrimPrefixSuffix(before, prefix);
    SuffixInfix(cut, before);
    TrimSpaceInfix(cut);
    InfixAtTransitive(TrimSpace(cut), cut, before, |cut| - |TrimLeftSpace(cut)|, |before| - |cut|);
  }

  /** The result is a contiguous piece of the input, so never longer. */
  lemma {:induction false} TrimAllInfix(str: string, trims: seq<string>)
    ensures IsInfix(TrimAll(str, trims), str)
    ensures |TrimAll(str, trims)| <= |str|
    decreases |trims|
  {
    var r := TrimAll(str, trims);
    if trims == [] {
      TrimSpaceInfix(str);
    } else {
      var before := TrimAll(str, trims[..|trims| - 1]);
      TrimAllInfix(str, trims[..|trims| - 1]);
      StepInfix(before, trims[|trims| - 1]);
      InfixTransitive(r, before, str);
    }
    var i :| InfixAt(r, str, i);
  }

  /** One more prefix extends the fold by one step. */
  lemma TrimAllSnoc(str: string, trims: seq<string>, k: nat)
    requires k < |trims|
    ensures TrimAll(str, trims[..k + 1]) == TrimSpace(TrimPrefix(TrimAll(str, trims[..k]), trims[k]))
  {
    assert trims[..k + 1][..k] == trims[..k];
  }

  /** `trimAllPrefix`: the loop over the prefixes, reassigning `str`. */
  method TrimAllPrefix(str: string, trims: seq<string>) returns (r: string)
    ensures r == TrimAll(str, trims)
  {
    r := TrimSpace(str);
    for k := 0 to |trims|
      invariant r == TrimAll(str, trims[..k])
    {
      TrimAllSnoc(str, trims, k);
      r := TrimSpace(TrimPrefix(r, trims[k]));
    }
    assert trims[..|trims|] == trims;
  }

  /** The leading filler words removed from a guess, in the order tried. */
  const Fillers: seq<string> := ["a ", "the "]

  /** `SimplifyGuess`: lower-case, then strip a leading "a " and then a leading
      "the ", trimming white space around each step. */
  function SimplifyGuess(guess: string): (r: string)
    ensures Trimmed(r)
  {
    TrimAll(ToLower(guess), Fillers)
  }

  /** Trimming a lower-case string leaves a lower-case string. */
  lemma TrimAllLower(s: string, trims: seq<string>)
    requires forall i :: 0 <= i < |s| ==> !IsUpper(s[i])
    ensures |TrimAll(s, trims)| <= |s|
    ensures forall i :: 0 <= i < |TrimAll(s, trims)| ==> !IsUpper(TrimAll(s, trims)[i])
  {
    var r := TrimAll(s, trims);
    TrimAllInfix(s, trims);
    var j :| InfixAt(r, s, j);
    InfixAtIndex(r, s, j);
  }

  /** A simplified guess is a lower-case piece of the guess. */
  lemma SimplifyGuessLower(guess: string)
    ensures |SimplifyGuess(guess)| <= |guess|
    ensures forall i :: 0 <= i < |SimplifyGuess(guess)| ==> !IsUpper(SimplifyGuess(guess)[i])
  {
    TrimAllLower(ToLower(guess), Fillers);
  }

  /** Upper and lower case do not matter. */
  lemma SimplifyIgnoresCase(guess: string)
    ensures SimplifyGuess(ToLower(guess)) == SimplifyGuess(guess)
  {
    assert ToLower(ToLower(guess)) == ToLower(guess);
  }

  /** No upper-case letter in `s`. */
  predicate LowerCase(s: string) {
    forall i :: 0 <= i < |s| ==> !IsUpper(s[i])
  }

  /** The two filler steps written out. */
  lemma SimplifyGuessSteps(guess: string)
    ensures SimplifyGuess(guess)
         == TrimSpace(TrimPrefix(TrimSpace(TrimPrefix(TrimSpace(ToLower(guess)), "a ")), "the "))
  {
    var lower := ToLower(guess);
    var first := Fillers[..1];
    assert |first[..0]| == 0;
    assert TrimAll(lower, first) == TrimSpace(TrimPrefix(TrimSpace(lower), "a "));
  }

  /** The same for a guess that is already lower-case. */
  lemma SimplifyLowerSteps(s: string)
    requires LowerCase(s)
    ensures SimplifyGuess(s) == TrimSpace(TrimPrefix(TrimSpace(TrimPrefix(TrimSpace(s), "a ")), "the "))
  {
    SimplifyGuessSteps(s);
    ToLowerLower(s);
  }

  /** A lower-case, trimmed guess that does not start with a filler word is
      left as it is: filler in the middle stays. */
  lemma SimplifyKeepsPlain(s: string)
    requires LowerCase(s) && Trimmed(s)
    requires !HasPrefix(s, "a ") && !HasPrefix(s, "the ")
    ensures SimplifyGuess(s) == s
  {
    SimplifyLowerSteps(s);
    TrimSpaceTrimmed(s);
  }

  /** Putting a word in front of a trimmed lower-case string. */
  lemma Prepended(p: string, t: string)
    requires LowerCase(p) && p != [] && !IsUnicodeSpace(p[0])
    requires LowerCase(t) && Trimmed(t) && t != []
    ensures LowerCase(p + t) && TrimSpace(p + t) == p + t
    ensures HasPrefix(p + t, p) && (p + t)[|p|..] == t && (p + t)[0] == p[0]
  {
    var s := p + t;
    assert LowerCase(s) by {
      forall i | 0 <= i < |s| ensures !IsUpper(s[i]) {
        if i >= |p| {
          assert s[i] == t[i - |p|];
        }
      }
    }
    assert s[|s| - 1] == t[|t| - 1];
    TrimSpaceTrimmed(s);
  }

  /** A leading "the " is removed. */
  lemma SimplifyDropsThe(t: string)
    requires LowerCase(t) && Trimmed(t) && t != []
    ensures SimplifyGuess("the " + t) == t
  {
    Prepended("the ", t);
    assert !HasPrefix("the " + t, "a ");
    TrimSpaceTrimmed(t);
    SimplifyLowerSteps("the " + t);
  }

  /** A leading "a " is removed, and then a "the " after it. */
  lemma SimplifyDropsAThe(t: string)
    requires LowerCase(t) && Trimmed(t) && t != []
    ensures SimplifyGuess("a " + ("the " + t)) == t
  {
    var u := "the " + t;
    Prepended("the ", t);
    Prepended("a ", u);
    TrimSpaceTrimmed(t);
    SimplifyLowerSteps("a " + u);
  }

  /** A filler word at the start goes. */
  lemma ExampleLeadingThe()
    ensures SimplifyGuess("the james bond") == "james bond"
  {
    var t := "james bond";
    assert "the " + t == "the james bond";
    assert t[0] == 'j' && t[|t| - 1] == 'd';
    SimplifyDropsThe(t);
  }

  /** A filler word in the middle stays. */
  lemma ExampleMiddleThe()
    ensures SimplifyGuess("james the bond") == "james the bond"
  {
    var s := "james the bond";
    assert s[0] == 'j' && s[|s| - 1] == 'd';
    assert !HasPrefix(s, "a ") && !HasPrefix(s, "the ");
    SimplifyKeepsPlain(s);
  }

  /** "a " is stripped before "the ", each at most once. */
  lemma ExampleAThe()
    ensures SimplifyGuess("a the x") == "x"
  {
    assert "a " + ("the " + "x") == "a the x";
    SimplifyDropsAThe("x");
  }

  lemma ExampleTheA()
    ensures SimplifyGuess("the a x") == "a x"
  {
    var t := "a x";
    assert "the " + t == "the a x";
    assert t[0] == 'a' && t[|t| - 1] == 'x';
    SimplifyDropsThe(t);
  }

  /** `GuessRoughlyMatchesAnswer`: the similarity of the simplified guess and
      answer reaches the threshold. `similar` stands for the Hamming similarity
      test. */
  function GuessRoughlyMatchesAnswer(guess: string, answer: string, similar: (string, string) -> bool): bool {
    similar(SimplifyGuess(guess), SimplifyGuess(answer))
  }

  /** A leading "the" on one side only does not change the verdict: for any
      lower-case, trimmed, non-empty `a` that does not itself start with a
      filler word, "the " + a and a match each other in either role whenever
      the similarity test accepts equal strings. */
  lemma RoughMatchLeadingThe(a: string, similar: (string, string) -> bool)
    requires LowerCase(a) && Trimmed(a) && a != []
    requires !HasPrefix(a, "a ") && !HasPrefix(a, "the ")
    requires forall s :: similar(s, s)
    ensures GuessRoughlyMatchesAnswer("the " + a, a, similar)
    ensures GuessRoughlyMatchesAnswer(a, "the " + a, similar)
  {
    SimplifyDropsThe(a);
    SimplifyKeepsPlain(a);
  }

  /** The verdict ignores the case of the guess. */
  lemma RoughMatchIgnoresCase(g: string, a: string, similar: (string, string) -> bool)
    ensures GuessRoughlyMatchesAnswer(ToLower(g), a, similar) == GuessRoughlyMatchesAnswer(g, a, similar)
  {
    SimplifyIgnoresCase(g);
  }

  /** A guess with no filler word at all is only lower-cased and trimmed. */
  lemma ExampleNoFiller()
    ensures SimplifyGuess("james bond") == "james bond"
  {
    var s := "james bond";
    assert s[0] == 'j' && s[|s| - 1] == 'd';
    assert !HasPrefix(s, "a ") && !HasPrefix(s, "the ");
    SimplifyKeepsPlain(s);
  }

  /** A plain guess equal to the answer after its leading "the " matches. */
  lemma ExampleFillerAtStart(similar: (string, string) -> bool)
    requires forall s :: similar(s, s)
    ensures GuessRoughlyMatchesAnswer("james bond", "the james bond", similar)
  {
    ExampleNoFiller();
    ExampleLeadingThe();
  }

  /** With the filler in the middle the two simplified forms differ, so only
      the similarity test can still accept them. */
  lemma ExampleFillerInMiddle()
    ensures SimplifyGuess("james bond") != SimplifyGuess("james the bond")
  {
    ExampleNoFiller();
    ExampleMiddleThe();
    assert |"james bond"| != |"james the bond"|;
  }

}
