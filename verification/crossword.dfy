/** The crossword placement engine: a generator that owns a rows x cols grid,
    force-places a seed word and then, pass after pass, places every other word
    at the best-scoring anchor that crosses a letter already on the board.
    The grid is indexed `grid[x, y]` with `x` the row and `y` the column;
    a vertical word runs along increasing `x`. */
module Crossword {
  import opened GoStrings
  import Sorting

  /** The character of an empty cell. A space inside a word therefore
      "matches" an empty cell, exactly as in the engine. */
  const EmptyChar: char := ' '
  const EmptyIndex: int := 0

  /** One grid square; the engine only ever writes `ch`. */
  datatype Cell = Cell(ch: char, index: int, value: char)

  const EmptyCell: Cell := Cell(EmptyChar, EmptyIndex, EmptyChar)

  datatype Word = Word(text: string, clue: string)

  /** Sort key of the `Words` ordering: a longer text (in bytes) comes first. */
  function LongestFirst(w: Word): int {
    0 - Utf8Length(w.text)
  }

  /** A committed placement. `number` is drawn from the counter of its orientation. */
  datatype ActiveWord = ActiveWord(word: Word, x: int, y: int, vertical: bool, number: int, solved: bool)
  {
    /** `ActiveWord.String`: the number, then "A" when vertical and "D" otherwise. */
    function Label(): (s: string)
      ensures |s| >= 2
      ensures s[|s| - 1] == (if vertical then 'A' else 'D')
    {
      IntToString(number) + (if vertical then "A" else "D")
    }
  }

  /** Two placements have the same label only if they share number and orientation. */
  lemma LabelInjective(a: ActiveWord, b: ActiveWord)
    requires a.Label() == b.Label()
    ensures a.number == b.number && a.vertical == b.vertical
  {
    var s := a.Label();
    assert s[..|s| - 1] == IntToString(a.number);
    assert b.Label()[..|s| - 1] == IntToString(b.number);
    IntToStringInjective(a.number, b.number);
  }

  /** A candidate anchor. `score` is always 0, as in the engine. */
  datatype Coord = Coord(x: int, y: int, score: int, vertical: bool)

  /** The engine's output: the grid and the placements in placement order. */
  datatype Crossword = Crossword(grid: array2<Cell>, wordList: seq<ActiveWord>)

  /** The numbering invariant of the registry. Read in placement order, each
      vertical entry takes the next vertical number and each horizontal entry
      the next horizontal number, both starting from 1; `down` and `across`
      are the last numbers handed out (0 when none). */
  predicate Tally(list: seq<ActiveWord>, down: int, across: int)
    decreases |list|
  {
    if list == [] then down == 0 && across == 0
    else
      var last := list[|list| - 1];
      if last.vertical then last.number == down && Tally(list[..|list| - 1], down - 1, across)
      else last.number == across && Tally(list[..|list| - 1], down, across - 1)
  }

  /** Appending an entry that takes the next number of its orientation. */
  lemma TallyAppend(list: seq<ActiveWord>, a: ActiveWord, down: int, across: int)
    requires Tally(list, down, across)
    ensures a.vertical && a.number == down + 1 ==> Tally(list + [a], down + 1, across)
    ensures !a.vertical && a.number == across + 1 ==> Tally(list + [a], down, across + 1)
  {
    assert (list + [a])[..|list|] == list;
  }

  /** The counters count the entries of their orientation, and every number
      lies between 1 and its orientation's counter. */
  lemma {:induction false} TallyRange(list: seq<ActiveWord>, down: int, across: int)
    requires Tally(list, down, across)
    ensures down >= 0 && across >= 0 && down + across == |list|
    ensures forall k :: 0 <= k < |list| ==> 1 <= list[k].number <= (if list[k].vertical then down else across)
  {
    if list != [] {
      var rest := list[..|list| - 1];
      var last := list[|list| - 1];
      var d, c := if last.vertical then down - 1 else down, if last.vertical then across else across - 1;
      TallyRange(rest, d, c);
      forall k | 0 <= k < |list| - 1 ensures list[k] == rest[k] { }
    }
  }

  /** Within one orientation, later placements carry larger numbers. */
  lemma {:induction false} NumbersIncrease(list: seq<ActiveWord>, down: int, across: int, i: int, j: int)
    requires Tally(list, down, across)
    requires 0 <= i < j < |list| && list[i].vertical == list[j].vertical
    ensures list[i].number < list[j].number
  {
    var rest := list[..|list| - 1];
    var last := list[|list| - 1];
    var d, c := if last.vertical then down - 1 else down, if last.vertical then across else across - 1;
    assert list[i] == rest[i];
    if j == |list| - 1 {
      TallyRange(rest, d, c);
    } else {
      assert list[j] == rest[j];
      NumbersIncrease(rest, d, c, i, j);
    }
  }

  /** No two placements of a registry share a label, so a label names one placement. */
  lemma LabelsDistinct(list: seq<ActiveWord>, down: int, across: int, i: int, j: int)
    requires Tally(list, down, across)
    requires 0 <= i < j < |list|
    ensures list[i].Label() != list[j].Label()
  {
    if list[i].vertical == list[j].vertical {
      NumbersIncrease(list, down, across, i, j);
    }
    if list[i].Label() == list[j].Label() {
      LabelInjective(list[i], list[j]);
    }
  }

  /** The generator's state: the grid it owns, the registry of placed words and
      one counter per orientation. */
  class Generator {
    const cols: int
    const rows: int
    const words: seq<Word>
    var grid: array2<Cell>
    var activeWordList: seq<ActiveWord>
    var downCount: int
    var acrossCount: int
    /** For each placement in the registry, the letters its run held just
        before the placement wrote over them. */
    ghost var runsBefore: seq<string>

    predicate Shaped()
      reads this
    {
      grid.Length0 == rows && grid.Length1 == cols
    }

    /** The run of `len` cells from (x, y) lies inside the grid. */
    predicate RunInGrid(len: int, x: int, y: int, vertical: bool) {
      0 <= x && 0 <= y &&
      if vertical then x + len <= rows && y < cols else y + len <= cols && x < rows
    }

    /** The bound `placeWord` checks. It is strict: a word exactly as long as
        the dimension does not fit. */
    predicate Fits(len: int, x: int, y: int, vertical: bool) {
      if vertical then len + x < rows else len + y < cols
    }

    predicate WithinBound(aw: ActiveWord) {
      0 <= aw.x && 0 <= aw.y && (if aw.vertical then aw.y < cols else aw.x < rows)
      && Fits(|aw.word.text|, aw.x, aw.y, aw.vertical)
    }

    /** The generator invariant: the grid has the declared shape, every
        placement lies inside it, and the counters and numbers agree. */
    ghost predicate Valid()
      reads this
    {
      && Shaped()
      && (forall k :: 0 <= k < |activeWordList| ==> WithinBound(activeWordList[k]))
      && Tally(activeWordList, downCount, acrossCount)
      && |runsBefore| == |activeWordList|
    }

    /** The letter in the i-th cell of the run from (x, y). */
    function Letter(x: int, y: int, vertical: bool, i: int): char
      reads this, grid
      requires Shaped() && 0 <= i && RunInGrid(i + 1, x, y, vertical)
    {
      if vertical then grid[x + i, y].ch else grid[x, y + i].ch
    }

    /** Some placement in the registry has exactly this text. */
    ghost predicate Registered(text: string)
      reads this
    {
      exists k :: 0 <= k < |activeWordList| && activeWordList[k].word.text == text
    }

    /** Every letter of the run either matches the word or is empty: placing the
        word there overwrites no letter of another word. */
    ghost predicate Compatible(word: string, x: int, y: int, vertical: bool)
      reads this, grid
      requires Shaped() && RunInGrid(|word|, x, y, vertical)
    {
      forall i :: 0 <= i < |word| ==> Letter(x, y, vertical, i) == word[i] || Letter(x, y, vertical, i) == EmptyChar
    }

    /** Some letter of the run already holds the word's letter. */
    ghost predicate Crosses(word: string, x: int, y: int, vertical: bool)
      reads this, grid
      requires Shaped() && RunInGrid(|word|, x, y, vertical)
    {
      exists i :: 0 <= i < |word| && Letter(x, y, vertical, i) == word[i]
    }

    /** The letters the run of `len` cells from (x, y) holds now. */
    ghost function RunLetters(len: int, x: int, y: int, vertical: bool): seq<char>
      reads this, grid
      requires Shaped() && 0 <= len && RunInGrid(len, x, y, vertical)
    {
      if len == 0 then [] else RunLetters(len - 1, x, y, vertical) + [Letter(x, y, vertical, len - 1)]
    }

    lemma {:induction false} RunLettersAt(len: int, x: int, y: int, vertical: bool)
      requires Shaped() && 0 <= len && RunInGrid(len, x, y, vertical)
      ensures |RunLetters(len, x, y, vertical)| == len
      ensures forall i :: 0 <= i < len ==> RunLetters(len, x, y, vertical)[i] == Letter(x, y, vertical, i)
    {
      if len > 0 {
        RunLettersAt(len - 1, x, y, vertical);
      }
    }

    /** Writing `word` over the letters `before` overwrites none of them and
        lands on at least one equal letter. */
    ghost predicate Interlocks(before: seq<char>, word: seq<char>) {
      && |before| == |word|
      && (forall i :: 0 <= i < |word| ==> before[i] == word[i] || before[i] == EmptyChar)
      && (exists i :: 0 <= i < |word| && before[i] == word[i])
    }

    /** A run that is `Compatible` with the word and `Crosses` it is exactly one
        whose current letters the word interlocks with. */
    lemma InterlocksOnRun(word: string, x: int, y: int, vertical: bool)
      requires Shaped() && RunInGrid(|word|, x, y, vertical)
      ensures Interlocks(RunLetters(|word|, x, y, vertical), word) <==> Compatible(word, x, y, vertical) && Crosses(word, x, y, vertical)
    {
      var before := RunLetters(|word|, x, y, vertical);
      RunLettersAt(|word|, x, y, vertical);
      if Crosses(word, x, y, vertical) {
        var i :| 0 <= i < |word| && Letter(x, y, vertical, i) == word[i];
        assert before[i] == word[i];
      }
      if Interlocks(before, word) {
        var i :| 0 <= i < |word| && before[i] == word[i];
        assert Letter(x, y, vertical, i) == word[i];
      }
    }

    /** One of the words the placement passes consider (every index but 0). */
    ghost predicate FromLaterWord(w: Word) {
      exists m :: 1 <= m < |words| && words[m] == w
    }

    /** Every placement in `list` is one of the catalog's words and no text
        is placed twice. */
    ghost predicate SoundList(list: seq<ActiveWord>) {
      && (forall k :: 0 <= k < |list| ==> list[k].word in words)
      && (forall i, j :: 0 <= i < j < |list| ==> list[i].word.text != list[j].word.text)
    }

    /** What a generation run guarantees about its own registry. */
    ghost predicate Sound()
      reads this
    {
      SoundList(activeWordList)
    }

    /** Appending a catalog word whose text is not in the list yet keeps the
        list sound. */
    lemma SoundAppend(list: seq<ActiveWord>, aw: ActiveWord)
      requires SoundList(list) && aw.word in words
      requires forall k :: 0 <= k < |list| ==> list[k].word.text != aw.word.text
      ensures SoundList(list + [aw])
    {
    }

    /** `NewGenerator`: an all-empty grid, an empty registry, both counters at
        0, and the words permuted into non-increasing byte length. */
    constructor (cols: int, rows: int, words: seq<Word>)
      requires cols >= 0 && rows >= 0
      ensures this.cols == cols && this.rows == rows
      ensures Valid() && fresh(grid)
      ensures forall x, y :: 0 <= x < rows && 0 <= y < cols ==> grid[x, y] == EmptyCell
      ensures activeWordList == [] && downCount == 0 && acrossCount == 0
      ensures multiset(this.words) == multiset(words)
      ensures forall i, j :: 0 <= i < j < |this.words| ==> Utf8Length(this.words[i].text) >= Utf8Length(this.words[j].text)
    {
      var g := new Cell[rows, cols];
      for x := 0 to rows
        invariant forall p, q :: 0 <= p < x && 0 <= q < cols ==> g[p, q] == EmptyCell
      {
        for y := 0 to cols
          invariant forall p, q :: 0 <= p < x && 0 <= q < cols ==> g[p, q] == EmptyCell
          invariant forall q :: 0 <= q < y ==> g[x, q] == EmptyCell
        {
          g[x, y] := EmptyCell;
        }
      }
      var sorted := Sorting.SortBy(words, LongestFirst);
      this.cols := cols;
      this.rows := rows;
      this.words := sorted;
      grid := g;
      activeWordList := [];
      runsBefore := [];
      downCount := 0;
      acrossCount := 0;
    }

    /** `Generate`: force the word at `seed` horizontally at (rows/2, 0), then run
        the placement passes. The seed lands only if it is shorter than the
        grid is wide; otherwise generation goes on without it. */
    method Generate(seed: int, loops: int) returns (crossword: Crossword)
      requires Valid() && 0 <= seed < |words| && rows >= 1
      modifies this, grid
      ensures Valid() && grid == old(grid)
      ensures crossword == Crossword(grid, activeWordList)
      ensures Fits(|words[seed].text|, rows / 2, 0, false) ==>
        old(activeWordList) + [ActiveWord(words[seed], rows / 2, 0, false, old(acrossCount) + 1, false)] <= activeWordList
      ensures old(activeWordList) <= activeWordList && old(runsBefore) <= runsBefore
      ensures var passStart := |old(activeWordList)| + if Fits(|words[seed].text|, rows / 2, 0, false) then 1 else 0;
        forall k :: passStart <= k < |activeWordList| ==>
          FromLaterWord(activeWordList[k].word) && Interlocks(runsBefore[k], activeWordList[k].word.text)
      ensures old(activeWordList) == [] ==> Sound()
    {
      ghost var wasEmpty := activeWordList == [];
      var seedPlaced := PlaceWord(words[seed], rows / 2, 0, false);
      if wasEmpty && seedPlaced {
        SoundAppend([], activeWordList[0]);
        assert activeWordList == [] + [activeWordList[0]];
      }
      ghost var list, runs := activeWordList, runsBefore;
      RunPasses(seed, loops);
      assert list <= activeWordList && runs <= runsBefore;
      crossword := Crossword(grid, activeWordList);
    }

    /** `generate`: `loops` passes over the words at indices 1.. (never index 0).
        Its two nested loops are `RunPasses` (the passes) and `Pass` (one pass). */
    method RunPasses(seed: int, loops: int)
      requires Valid()
      modifies this, grid
      ensures Valid() && grid == old(grid)
      ensures old(activeWordList) <= activeWordList && old(runsBefore) <= runsBefore
      ensures forall k :: |old(activeWordList)| <= k < |activeWordList| ==>
        FromLaterWord(activeWordList[k].word) && Interlocks(runsBefore[k], activeWordList[k].word.text)
      ensures old(Sound()) ==> Sound()
    {
      var iy := 0;
      while iy < loops
        invariant Valid() && grid == old(grid)
        invariant old(activeWordList) <= activeWordList && old(runsBefore) <= runsBefore
        invariant forall k :: |old(activeWordList)| <= k < |activeWordList| ==>
          FromLaterWord(activeWordList[k].word) && Interlocks(runsBefore[k], activeWordList[k].word.text)
        invariant old(Sound()) ==> Sound()
      {
        Pass();
        iy := iy + 1;
      }
    }

    /** One pass of `generate`: `PlaceBest` on each word at index 1.. whose
        text is not registered yet. Every placement it adds interlocks with
        the board as it stood just before that placement: it crossed an equal
        letter and overwrote none. */
    method Pass()
      requires Valid()
      modifies this, grid
      ensures Valid() && grid == old(grid)
      ensures old(activeWordList) <= activeWordList && old(runsBefore) <= runsBefore
      ensures forall k :: |old(activeWordList)| <= k < |activeWordList| ==>
        FromLaterWord(activeWordList[k].word) && Interlocks(runsBefore[k], activeWordList[k].word.text)
      ensures old(Sound()) ==> Sound()
    {
      var ix := 1;
      while ix < |words|
        invariant Valid() && grid == old(grid)
        invariant old(activeWordList) <= activeWordList && old(runsBefore) <= runsBefore
        invariant forall k :: |old(activeWordList)| <= k < |activeWordList| ==>
          FromLaterWord(activeWordList[k].word) && Interlocks(runsBefore[k], activeWordList[k].word.text)
        invariant old(Sound()) ==> Sound()
      {
        var active := IsActiveWord(words[ix].text);
        if !active {
          assert FromLaterWord(words[ix]);
          var placed, coordList, topScore, bestScoreIndex := PlaceBest(ix);
        }
        ix := ix + 1;
      }
    }

    /** The step of a pass for a word at index `ix` >= 1 whose text is not
        registered yet: rank the suggested anchors on the current board and,
        if the first strictly best score exceeds 1, hand that anchor to
        `PlaceWord`, which commits the word when it fits. The anchors and
        scores returned are those of the board before the step. */
    method PlaceBest(ix: int) returns (placed: bool, coordList: seq<Coord>, topScore: int, bestScoreIndex: int)
      requires Valid() && 1 <= ix < |words| && !Registered(words[ix].text)
      modifies this, grid
      ensures Valid() && grid == old(grid)
      ensures forall cl :: 0 <= cl < |coordList| ==>
        RunInGrid(|words[ix].text|, coordList[cl].x, coordList[cl].y, coordList[cl].vertical)
      ensures coordList == old(Suggestions(words[ix].text, |words[ix].text|))
      ensures (topScore, bestScoreIndex) == old(TopFit(words[ix].text, coordList, |coordList|))
      ensures topScore > 0 ==> 0 <= bestScoreIndex < |coordList|
      ensures placed <==> (topScore > 1 &&
        Fits(|words[ix].text|, coordList[bestScoreIndex].x, coordList[bestScoreIndex].y, coordList[bestScoreIndex].vertical))
      ensures placed ==> var c := coordList[bestScoreIndex];
        && activeWordList == old(activeWordList) + [ActiveWord(words[ix], c.x, c.y, c.vertical,
             if c.vertical then downCount else acrossCount, false)]
        && runsBefore == old(runsBefore) + [old(RunLetters(|words[ix].text|, c.x, c.y, c.vertical))]
        && Interlocks(runsBefore[|runsBefore| - 1], words[ix].text)
        && forall p, q :: 0 <= p < rows && 0 <= q < cols ==>
             grid[p, q] == if InRun(p, q, c.x, c.y, c.vertical, |words[ix].text|)
               then old(grid[p, q]).(ch := words[ix].text[Offset(p, q, c.x, c.y, c.vertical)]) else old(grid[p, q])
      ensures !placed ==> unchanged(this) && unchanged(grid)
      ensures old(Sound()) ==> Sound()
    {
      placed := false;
      var word := words[ix].text;
      coordList, topScore, bestScoreIndex := RankAnchors(word);
      assert coordList == old(Suggestions(word, |word|));
      assert (topScore, bestScoreIndex) == old(TopFit(word, coordList, |coordList|));
      if topScore > 1 {
        var best := coordList[bestScoreIndex];
        InterlocksOnRun(word, best.x, best.y, best.vertical);
        ghost var run := RunLetters(|word|, best.x, best.y, best.vertical);
        assert run == old(RunLetters(|word|, best.x, best.y, best.vertical)) && Interlocks(run, word);
        placed := PlaceWord(words[ix], best.x, best.y, best.vertical);
        if placed && old(Sound()) {
          assert words[ix] in words;
          SoundAppend(old(activeWordList), activeWordList[|activeWordList| - 1]);
        }
      }
    }

    /** The scoring half of a step: the suggested anchors for `word` on the
        current board, and the first strictly best of their scores. A winner
        scoring above 1 crosses an equal letter and overwrites none. */
    method RankAnchors(word: string) returns (coordList: seq<Coord>, topScore: int, bestScoreIndex: int)
      requires Shaped()
      ensures coordList == Suggestions(word, |word|)
      ensures forall cl :: 0 <= cl < |coordList| ==> RunInGrid(|word|, coordList[cl].x, coordList[cl].y, coordList[cl].vertical)
      ensures (topScore, bestScoreIndex) == TopFit(word, coordList, |coordList|)
      ensures topScore > 0 ==> 0 <= bestScoreIndex < |coordList|
      ensures topScore > 1 ==> var c := coordList[bestScoreIndex];
        Compatible(word, c.x, c.y, c.vertical) && Crosses(word, c.x, c.y, c.vertical)
    {
      coordList := SuggestCoords(word);
      SuggestionsInBounds(word);
      topScore, bestScoreIndex := BestFit(word, coordList);
    }

    /** The first strictly highest fit score among the first n anchors, with
        its index; (0, 0) while no anchor scores above 0. */
    ghost function TopFit(word: string, coordList: seq<Coord>, n: int): (int, int)
      reads this, grid
      requires Shaped() && 0 <= n <= |coordList|
      requires forall cl :: 0 <= cl < |coordList| ==> RunInGrid(|word|, coordList[cl].x, coordList[cl].y, coordList[cl].vertical)
    {
      if n == 0 then (0, 0)
      else
        var prev := TopFit(word, coordList, n - 1);
        var score := FitScore(word, coordList[n - 1].x, coordList[n - 1].y, coordList[n - 1].vertical);
        if score > prev.0 then (score, n - 1) else prev
    }

    /** The scoring loop of `generate`: score each anchor and keep the first
        strictly highest score (0 when there is no anchor or none fits). */
    method BestFit(word: string, coordList: seq<Coord>) returns (topScore: int, bestScoreIndex: int)
      requires Shaped()
      requires forall cl :: 0 <= cl < |coordList| ==> RunInGrid(|word|, coordList[cl].x, coordList[cl].y, coordList[cl].vertical)
      ensures topScore >= 0
      ensures forall cl :: 0 <= cl < |coordList| ==> FitScore(word, coordList[cl].x, coordList[cl].y, coordList[cl].vertical) <= topScore
      ensures topScore == 0 ==> bestScoreIndex == 0
      ensures topScore > 0 ==> 0 <= bestScoreIndex < |coordList|
      ensures topScore > 0 ==>
        FitScore(word, coordList[bestScoreIndex].x, coordList[bestScoreIndex].y, coordList[bestScoreIndex].vertical) == topScore
      ensures topScore > 0 ==> forall cl :: 0 <= cl < bestScoreIndex ==>
        FitScore(word, coordList[cl].x, coordList[cl].y, coordList[cl].vertical) < topScore
      ensures topScore > 1 ==> Compatible(word, coordList[bestScoreIndex].x, coordList[bestScoreIndex].y, coordList[bestScoreIndex].vertical)
      ensures topScore > 1 ==> Crosses(word, coordList[bestScoreIndex].x, coordList[bestScoreIndex].y, coordList[bestScoreIndex].vertical)
      ensures (topScore, bestScoreIndex) == TopFit(word, coordList, |coordList|)
    {
      topScore, bestScoreIndex := 0, 0;
      if |coordList| > 0 {
        for cl := 0 to |coordList|
          invariant (topScore, bestScoreIndex) == TopFit(word, coordList, cl)
        {
          var fitScore := CheckFitScore(word, coordList[cl].x, coordList[cl].y, coordList[cl].vertical);
          if fitScore > topScore {
            topScore := fitScore;
            bestScoreIndex := cl;
          }
        }
      }
      TopFitMeaning(word, coordList, |coordList|);
      if topScore > 0 {
        FitScoreMeaning(word, coordList[bestScoreIndex].x, coordList[bestScoreIndex].y, coordList[bestScoreIndex].vertical);
      }
    }

    /** `TopFit` over the first n anchors is their first strictly highest
        score: no score among them exceeds it, every one before its index is
        lower, and it is 0 (with index 0) exactly when none scores above 0. */
    lemma {:induction false} TopFitMeaning(word: string, coordList: seq<Coord>, n: int)
      requires Shaped() && 0 <= n <= |coordList|
      requires forall cl :: 0 <= cl < |coordList| ==> RunInGrid(|word|, coordList[cl].x, coordList[cl].y, coordList[cl].vertical)
      ensures var (t, b) := TopFit(word, coordList, n);
        && t >= 0
        && (t == 0 ==> b == 0)
        && (t > 0 ==> 0 <= b < n && FitScore(word, coordList[b].x, coordList[b].y, coordList[b].vertical) == t)
        && (forall cl :: 0 <= cl < n ==> FitScore(word, coordList[cl].x, coordList[cl].y, coordList[cl].vertical) <= t)
        && (forall cl :: 0 <= cl < b ==> FitScore(word, coordList[cl].x, coordList[cl].y, coordList[cl].vertical) < t)
    {
      if n > 0 {
        TopFitMeaning(word, coordList, n - 1);
      }
    }

    /** Cell (p, q) lies on the run of `len` cells from (x, y). */
    predicate InRun(p: int, q: int, x: int, y: int, vertical: bool, len: int) {
      if vertical then q == y && x <= p < x + len else p == x && y <= q < y + len
    }

    function Offset(p: int, q: int, x: int, y: int, vertical: bool): int {
      if vertical then p - x else q - y
    }

    /** `placeWord`: if the word fits (strictly), write its letters along the run,
        append it to the registry with the next number of its orientation and
        answer true; otherwise change nothing and answer false. */
    method PlaceWord(w: Word, x: int, y: int, vertical: bool) returns (placed: bool)
      requires Valid()
      requires 0 <= x && 0 <= y && (if vertical then y < cols else x < rows)
      modifies this, grid
      ensures Valid() && grid == old(grid)
      ensures placed == Fits(|w.text|, x, y, vertical)
      ensures placed ==> forall p, q :: 0 <= p < rows && 0 <= q < cols ==>
        grid[p, q] == if InRun(p, q, x, y, vertical, |w.text|) then old(grid[p, q]).(ch := w.text[Offset(p, q, x, y, vertical)]) else old(grid[p, q])
      ensures placed ==> RunInGrid(|w.text|, x, y, vertical)
      ensures placed ==> runsBefore == old(runsBefore) + [old(RunLetters(|w.text|, x, y, vertical))]
      ensures placed && vertical ==> downCount == old(downCount) + 1 && acrossCount == old(acrossCount)
      ensures placed && !vertical ==> acrossCount == old(acrossCount) + 1 && downCount == old(downCount)
      ensures placed ==> activeWordList == old(activeWordList) + [ActiveWord(w, x, y, vertical,
        if vertical then downCount else acrossCount, false)]
      ensures !placed ==> unchanged(this) && unchanged(grid)
    {
      placed := Fits(|w.text|, x, y, vertical);
      if placed {
        ghost var run := RunLetters(|w.text|, x, y, vertical);
        WriteRun(w.text, x, y, vertical);
        Register(w, x, y, vertical, run);
      }
    }

    /** The registry half of `placeWord`, for a word that fits: bump the
        counter of its orientation and append it with that number, unsolved.
        `run` is what its cells held before the letters went in. */
    method Register(w: Word, x: int, y: int, vertical: bool, ghost run: seq<char>)
      requires Valid() && WithinBound(ActiveWord(w, x, y, vertical, 0, false))
      modifies this
      ensures Valid() && grid == old(grid)
      ensures vertical ==> downCount == old(downCount) + 1 && acrossCount == old(acrossCount)
      ensures !vertical ==> acrossCount == old(acrossCount) + 1 && downCount == old(downCount)
      ensures activeWordList == old(activeWordList) + [ActiveWord(w, x, y, vertical,
        if vertical then downCount else acrossCount, false)]
      ensures runsBefore == old(runsBefore) + [run]
    {
      var number := 0;
      if vertical {
        downCount := downCount + 1;
        number := downCount;
      } else {
        acrossCount := acrossCount + 1;
        number := acrossCount;
      }
      var aw := ActiveWord(w, x, y, vertical, number, false);
      TallyAppend(activeWordList, aw, old(downCount), old(acrossCount));
      ghost var before := activeWordList;
      activeWordList := activeWordList + [aw];
      runsBefore := runsBefore + [run];
      forall k | 0 <= k < |activeWordList| ensures WithinBound(activeWordList[k]) {
        if k < |before| {
          assert activeWordList[k] == before[k];
        }
      }
    }

    /** The letter-writing loop of `placeWord`: each cell of the run gets the
        word's letter in `ch`; `index`, `value` and every other cell stay. */
    method WriteRun(word: string, x: int, y: int, vertical: bool)
      requires Shaped() && RunInGrid(|word|, x, y, vertical)
      modifies grid
      ensures forall p, q :: 0 <= p < rows && 0 <= q < cols ==>
        grid[p, q] == if InRun(p, q, x, y, vertical, |word|) then old(grid[p, q]).(ch := word[Offset(p, q, x, y, vertical)]) else old(grid[p, q])
    {
      var l := |word|;
      if vertical {
        for i := 0 to l
          invariant forall p, q :: 0 <= p < rows && 0 <= q < cols ==>
            grid[p, q] == if q == y && x <= p < x + i then old(grid[p, q]).(ch := word[p - x]) else old(grid[p, q])
        {
          grid[x + i, y] := grid[x + i, y].(ch := word[i]);
        }
      } else {
        for i := 0 to l
          invariant forall p, q :: 0 <= p < rows && 0 <= q < cols ==>
            grid[p, q] == if p == x && y <= q < y + i then old(grid[p, q]).(ch := word[q - y]) else old(grid[p, q])
        {
          grid[x, y + i] := grid[x, y + i].(ch := word[i]);
        }
      }
    }

    /** `isActiveWord`: some registered placement has exactly this text. */
    method IsActiveWord(word: string) returns (active: bool)
      ensures active <==> Registered(word)
    {
      var l := |activeWordList|;
      for w := 0 to l
        invariant forall k :: 0 <= k < w ==> activeWordList[k].word.text != word
      {
        if word == activeWordList[w].word.text {
          return true;
        }
      }
      return false;
    }

    /** The candidates one grid cell yields for letter i of the word: a vertical
        and then a horizontal anchor that would put letter i on (x, y), each only
        if the whole run would stay in the grid. */
    function CellCandidates(word: seq<char>, i: int, x: int, y: int): seq<Coord>
      reads this, grid
      requires Shaped() && 0 <= i < |word| && 0 <= x < rows && 0 <= y < cols
    {
      if grid[x, y].ch == word[i] then
        (if x - i + 1 > 0 && x - i + |word| - 1 < rows then [Coord(x - i, y, 0, true)] else [])
        + (if y - i + 1 > 0 && y - i + |word| - 1 < cols then [Coord(x, y - i, 0, false)] else [])
      else []
    }

    /** Candidates from the first n cells of row x, in column order. */
    function RowCandidates(word: seq<char>, i: int, x: int, n: int): seq<Coord>
      reads this, grid
      requires Shaped() && 0 <= i < |word| && 0 <= x < rows && 0 <= n <= cols
    {
      if n == 0 then [] else RowCandidates(word, i, x, n - 1) + CellCandidates(word, i, x, n - 1)
    }

    /** Candidates for letter i from the first n rows, in row order. */
    function LetterCandidates(word: seq<char>, i: int, n: int): seq<Coord>
      reads this, grid
      requires Shaped() && 0 <= i < |word| && 0 <= n <= rows
    {
      if n == 0 then [] else LetterCandidates(word, i, n - 1) + RowCandidates(word, i, n - 1, cols)
    }

    /** Candidates for the first n letters of the word, in letter order. */
    function Suggestions(word: seq<char>, n: int): seq<Coord>
      reads this, grid
      requires Shaped() && 0 <= n <= |word|
    {
      if n == 0 then [] else Suggestions(word, n - 1) + LetterCandidates(word, n - 1, rows)
    }

    /** `suggestCoords`: scan letter by letter, row by row, column by column.
        Each of its three nested loops is one method here: this one walks the
        letters, `ScanLetter` the rows and `ScanRow` the columns. */
    method SuggestCoords(word: seq<char>) returns (coordList: seq<Coord>)
      requires Shaped()
      ensures coordList == Suggestions(word, |word|)
    {
      coordList := [];
      for i := 0 to |word|
        invariant coordList == Suggestions(word, i)
      {
        var found := ScanLetter(word, i);
        coordList := coordList + found;
      }
    }

    /** The middle loop of `suggestCoords`: the anchors all rows yield for letter i. */
    method ScanLetter(word: seq<char>, i: int) returns (found: seq<Coord>)
      requires Shaped() && 0 <= i < |word|
      ensures found == LetterCandidates(word, i, rows)
    {
      found := [];
      for x := 0 to rows
        invariant found == LetterCandidates(word, i, x)
      {
        var row := ScanRow(word, i, x);
        found := found + row;
      }
    }

    /** The innermost loop of `suggestCoords`: the anchors row x yields for letter i. */
    method ScanRow(word: seq<char>, i: int, x: int) returns (found: seq<Coord>)
      requires Shaped() && 0 <= i < |word| && 0 <= x < rows
      ensures found == RowCandidates(word, i, x, cols)
    {
      found := [];
      for y := 0 to cols
        invariant found == RowCandidates(word, i, x, y)
      {
        ghost var before := found;
        if grid[x, y].ch == word[i] {
          if x - i + 1 > 0 && x - i + |word| - 1 < rows {
            found := found + [Coord(x - i, y, 0, true)];
          }
          if y - i + 1 > 0 && y - i + |word| - 1 < cols {
            found := found + [Coord(x, y - i, 0, false)];
          }
        }
        assert found == before + CellCandidates(word, i, x, y);
      }
    }

    /** A suggested anchor keeps the whole run inside the grid and puts at least
        one of the word's letters on a cell that already holds that letter. */
    ghost predicate Anchored(word: seq<char>, c: Coord)
      reads this, grid
      requires Shaped()
    {
      RunInGrid(|word|, c.x, c.y, c.vertical) && c.score == 0
      && exists i :: 0 <= i < |word| && Letter(c.x, c.y, c.vertical, i) == word[i]
    }

    /** Each anchor a row yields for letter i is anchored. */
    lemma {:induction false} RowCandidatesAnchored(word: seq<char>, i: int, x: int, n: int, c: Coord)
      requires Shaped() && 0 <= i < |word| && 0 <= x < rows && 0 <= n <= cols
      requires c in RowCandidates(word, i, x, n)
      ensures Anchored(word, c)
    {
      assert n > 0;
      if c in RowCandidates(word, i, x, n - 1) {
        RowCandidatesAnchored(word, i, x, n - 1, c);
      } else {
        assert c in CellCandidates(word, i, x, n - 1);
        assert Letter(c.x, c.y, c.vertical, i) == word[i];
      }
    }

    /** Each anchor the rows yield for letter i is anchored. */
    lemma {:induction false} LetterCandidatesAnchored(word: seq<char>, i: int, n: int, c: Coord)
      requires Shaped() && 0 <= i < |word| && 0 <= n <= rows
      requires c in LetterCandidates(word, i, n)
      ensures Anchored(word, c)
    {
      assert n > 0;
      if c in LetterCandidates(word, i, n - 1) {
        LetterCandidatesAnchored(word, i, n - 1, c);
      } else {
        RowCandidatesAnchored(word, i, n - 1, cols, c);
      }
    }

    /** Each anchor suggested for the first n letters is anchored. */
    lemma {:induction false} SuggestionsAnchored(word: seq<char>, n: int, c: Coord)
      requires Shaped() && 0 <= n <= |word|
      requires c in Suggestions(word, n)
      ensures Anchored(word, c)
    {
      assert n > 0;
      if c in Suggestions(word, n - 1) {
        SuggestionsAnchored(word, n - 1, c);
      } else {
        LetterCandidatesAnchored(word, n - 1, rows, c);
      }
    }

    /** Every suggestion is inside the grid and shares a letter with the board. */
    lemma SuggestionsInGrid(word: seq<char>)
      requires Shaped()
      ensures forall c :: c in Suggestions(word, |word|) ==> Anchored(word, c)
    {
      forall c | c in Suggestions(word, |word|) ensures Anchored(word, c) {
        SuggestionsAnchored(word, |word|, c);
      }
    }

    lemma SuggestionsInBounds(word: seq<char>)
      requires Shaped()
      ensures var s := Suggestions(word, |word|);
        forall cl :: 0 <= cl < |s| ==> RunInGrid(|word|, s[cl].x, s[cl].y, s[cl].vertical)
    {
      var s := Suggestions(word, |word|);
      forall cl | 0 <= cl < |s| ensures RunInGrid(|word|, s[cl].x, s[cl].y, s[cl].vertical) {
        SuggestionsAnchored(word, |word|, s[cl]);
      }
    }

    lemma {:induction false} RowCandidatesComplete(word: seq<char>, i: int, x: int, n: int, y: int)
      requires Shaped() && 0 <= i < |word| && 0 <= x < rows && 0 <= y < n <= cols
      requires grid[x, y].ch == word[i]
      ensures x - i >= 0 && x - i + |word| <= rows ==> Coord(x - i, y, 0, true) in RowCandidates(word, i, x, n)
      ensures y - i >= 0 && y - i + |word| <= cols ==> Coord(x, y - i, 0, false) in RowCandidates(word, i, x, n)
    {
      if y < n - 1 {
        RowCandidatesComplete(word, i, x, n - 1, y);
      }
    }

    lemma {:induction false} LetterCandidatesComplete(word: seq<char>, i: int, n: int, x: int, y: int)
      requires Shaped() && 0 <= i < |word| && 0 <= x < n <= rows && 0 <= y < cols
      requires grid[x, y].ch == word[i]
      ensures x - i >= 0 && x - i + |word| <= rows ==> Coord(x - i, y, 0, true) in LetterCandidates(word, i, n)
      ensures y - i >= 0 && y - i + |word| <= cols ==> Coord(x, y - i, 0, false) in LetterCandidates(word, i, n)
    {
      if x < n - 1 {
        LetterCandidatesComplete(word, i, n - 1, x, y);
      } else {
        RowCandidatesComplete(word, i, x, cols, y);
      }
    }

    /** Every cell holding letter i of the word yields its vertical and its
        horizontal anchor whenever that anchor keeps the run inside the grid. */
    lemma {:induction false} SuggestionsComplete(word: seq<char>, n: int, i: int, x: int, y: int)
      requires Shaped() && 0 <= i < n <= |word| && 0 <= x < rows && 0 <= y < cols
      requires grid[x, y].ch == word[i]
      ensures x - i >= 0 && x - i + |word| <= rows ==> Coord(x - i, y, 0, true) in Suggestions(word, n)
      ensures y - i >= 0 && y - i + |word| <= cols ==> Coord(x, y - i, 0, false) in Suggestions(word, n)
    {
      if i < n - 1 {
        SuggestionsComplete(word, n - 1, i, x, y);
      } else {
        LetterCandidatesComplete(word, i, rows, x, y);
      }
    }

    /** The cell just before the first letter is occupied (checked only off the edge). */
    predicate BeforeOccupied(x: int, y: int, vertical: bool)
      reads this, grid
      requires Shaped() && RunInGrid(1, x, y, vertical)
    {
      if vertical then x > 0 && grid[x - 1, y].ch != EmptyChar
      else y > 0 && grid[x, y - 1].ch != EmptyChar
    }

    /** The cell just after the last letter is occupied. Only horizontal runs are
        checked: the vertical form of this test compares the loop index with the
        word length inside a loop that stops before it, so it never fires. */
    predicate AfterOccupied(n: int, x: int, y: int, vertical: bool, i: int)
      reads this, grid
      requires Shaped() && 0 <= i < n && RunInGrid(n, x, y, vertical)
    {
      !vertical && i == n - 1 && y + i < cols - 1 && grid[x, y + i + 1].ch != EmptyChar
    }

    /** An empty in-run cell has an occupied neighbour across the run. */
    predicate SideOccupied(x: int, y: int, vertical: bool, i: int)
      reads this, grid
      requires Shaped() && 0 <= i && RunInGrid(i + 1, x, y, vertical)
    {
      if vertical then
        (y < cols - 1 && grid[x + i, y + 1].ch != EmptyChar) || (y > 0 && grid[x + i, y - 1].ch != EmptyChar)
      else
        (x < rows - 1 && grid[x + 1, y + i].ch != EmptyChar) || (x > 0 && grid[x - 1, y + i].ch != EmptyChar)
    }

    /** The scan of `checkFitScore` rejects the placement at letter i. The
        after-check sits on an `else if`, so it is skipped at i == 0 when the
        run does not start on the edge. */
    predicate BlockedAt(word: seq<char>, x: int, y: int, vertical: bool, i: int)
      reads this, grid
      requires Shaped() && 0 <= i < |word| && RunInGrid(|word|, x, y, vertical)
    {
      || (i == 0 && BeforeOccupied(x, y, vertical))
      || (!(i == 0 && (if vertical then x > 0 else y > 0)) && AfterOccupied(|word|, x, y, vertical, i))
      || (Letter(x, y, vertical, i) != word[i] && Letter(x, y, vertical, i) != EmptyChar)
      || (Letter(x, y, vertical, i) != word[i] && Letter(x, y, vertical, i) == EmptyChar && SideOccupied(x, y, vertical, i))
    }

    /** How many of the first n letters already stand on their cells. */
    function Crossings(word: seq<char>, x: int, y: int, vertical: bool, n: int): (c: nat)
      reads this, grid
      requires Shaped() && 0 <= n <= |word| && RunInGrid(|word|, x, y, vertical)
      ensures c <= n
    {
      if n == 0 then 0
      else Crossings(word, x, y, vertical, n - 1) + (if Letter(x, y, vertical, n - 1) == word[n - 1] then 1 else 0)
    }

    /** The fit score: 0 when some letter is blocked, otherwise 1 plus the
        number of crossings. */
    function FitScore(word: seq<char>, x: int, y: int, vertical: bool): int
      reads this, grid
      requires Shaped() && RunInGrid(|word|, x, y, vertical)
    {
      if BlockedBefore(word, x, y, vertical, |word|) then 0
      else 1 + Crossings(word, x, y, vertical, |word|)
    }

    /** Some of the first n letters is blocked. */
    predicate BlockedBefore(word: seq<char>, x: int, y: int, vertical: bool, n: int)
      reads this, grid
      requires Shaped() && 0 <= n <= |word| && RunInGrid(|word|, x, y, vertical)
    {
      n > 0 && (BlockedBefore(word, x, y, vertical, n - 1) || BlockedAt(word, x, y, vertical, n - 1))
    }

    lemma {:induction false} BlockedBeforeWitness(word: seq<char>, x: int, y: int, vertical: bool, n: int)
      requires Shaped() && 0 <= n <= |word| && RunInGrid(|word|, x, y, vertical)
      ensures BlockedBefore(word, x, y, vertical, n) <==> exists i :: 0 <= i < n && BlockedAt(word, x, y, vertical, i)
    {
      if n > 0 {
        BlockedBeforeWitness(word, x, y, vertical, n - 1);
      }
    }

    lemma {:induction false} CrossingsWitness(word: seq<char>, x: int, y: int, vertical: bool, n: int)
      requires Shaped() && 0 <= n <= |word| && RunInGrid(|word|, x, y, vertical)
      requires Crossings(word, x, y, vertical, n) > 0
      ensures exists i :: 0 <= i < n && Letter(x, y, vertical, i) == word[i]
    {
      if Letter(x, y, vertical, n - 1) != word[n - 1] {
        CrossingsWitness(word, x, y, vertical, n - 1);
      }
    }

    /** What a score means: it is 0 or in [1, |word| + 1]; a positive score
        means no letter collides with a different letter already on the grid;
        a score above 1 means at least one letter crosses an equal letter. */
    lemma FitScoreMeaning(word: seq<char>, x: int, y: int, vertical: bool)
      requires Shaped() && RunInGrid(|word|, x, y, vertical)
      ensures var s := FitScore(word, x, y, vertical); s == 0 || 1 <= s <= |word| + 1
      ensures FitScore(word, x, y, vertical) >= 1 ==> Compatible(word, x, y, vertical)
      ensures FitScore(word, x, y, vertical) > 1 ==> Crosses(word, x, y, vertical)
    {
      if FitScore(word, x, y, vertical) > 1 {
        CrossingsWitness(word, x, y, vertical, |word|);
      }
      BlockedBeforeWitness(word, x, y, vertical, |word|);
      if FitScore(word, x, y, vertical) >= 1 {
        forall i | 0 <= i < |word| ensures Letter(x, y, vertical, i) == word[i] || Letter(x, y, vertical, i) == EmptyChar {
          assert !BlockedAt(word, x, y, vertical, i);
        }
      }
    }

    /** `checkFitScore`: walk the run, stopping at the first blocked letter. */
    method CheckFitScore(word: seq<char>, x: int, y: int, vertical: bool) returns (fitScore: int)
      requires Shaped() && RunInGrid(|word|, x, y, vertical)
      ensures fitScore == FitScore(word, x, y, vertical)
    {
      fitScore := 1;
      if vertical {
        var i := 0;
        while i < |word|
          invariant 0 <= i <= |word|
          invariant fitScore == 1 + Crossings(word, x, y, true, i)
          invariant forall j :: 0 <= j < i ==> !BlockedAt(word, x, y, true, j)
        {
          if i == 0 && x > 0 {
            if grid[x - 1, y].ch != EmptyChar {
              assert BlockedAt(word, x, y, true, i);
              fitScore := 0;
              break;
            }
          } else if i == |word| && x < rows {
            // the vertical after-check: never reached, since i < |word| here
            assert false;
          }
          if x + i < rows {
            if grid[x + i, y].ch == word[i] {
              fitScore := fitScore + 1;
            } else if grid[x + i, y].ch != EmptyChar {
              assert BlockedAt(word, x, y, true, i);
              fitScore := 0;
              break;
            } else {
              if y < cols - 1 {
                if grid[x + i, y + 1].ch != EmptyChar {
                  assert BlockedAt(word, x, y, true, i);
                  fitScore := 0;
                  break;
                }
              }
              if y > 0 {
                if grid[x + i, y - 1].ch != EmptyChar {
                  assert BlockedAt(word, x, y, true, i);
                  fitScore := 0;
                  break;
                }
              }
            }
          }
          assert !BlockedAt(word, x, y, true, i);
          i := i + 1;
        }
      } else {
        var i := 0;
        while i < |word|
          invariant 0 <= i <= |word|
          invariant fitScore == 1 + Crossings(word, x, y, false, i)
          invariant forall j :: 0 <= j < i ==> !BlockedAt(word, x, y, false, j)
        {
          if i == 0 && y > 0 {
            if grid[x, y - 1].ch != EmptyChar {
              assert BlockedAt(word, x, y, false, i);
              fitScore := 0;
              break;
            }
          } else if i == |word| - 1 && y + i < cols - 1 {
            if grid[x, y + i + 1].ch != EmptyChar {
              assert BlockedAt(word, x, y, false, i);
              fitScore := 0;
              break;
            }
          }
          if y + i < cols {
            if grid[x, y + i].ch == word[i] {
              fitScore := fitScore + 1;
            } else if grid[x, y + i].ch != EmptyChar {
              assert BlockedAt(word, x, y, false, i);
              fitScore := 0;
              break;
            } else {
              if x < rows - 1 {
                if grid[x + 1, y + i].ch != EmptyChar {
                  assert BlockedAt(word, x, y, false, i);
                  fitScore := 0;
                  break;
                }
              }
              if x > 0 {
                if grid[x - 1, y + i].ch != EmptyChar {
                  assert BlockedAt(word, x, y, false, i);
                  fitScore := 0;
                  break;
                }
              }
            }
          }
          assert !BlockedAt(word, x, y, false, i);
          i := i + 1;
        }
      }
      BlockedBeforeWitness(word, x, y, vertical, |word|);
    }
  }
}
