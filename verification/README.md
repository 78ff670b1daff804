# gamesmaster core in Dafny

A model of the game logic of gamesmaster, a Discord bot that runs a crossword
and picture-guessing games. The model covers:

- **The crossword placement engine** (`Crossword.Generator`).
  - It owns a rows x cols grid of cells, a registry of placed words and one
    counter per orientation.
  - It force-places a seed word.
  - Then, pass after pass, it scores every suggested anchor of every word not
    yet placed. It commits a word at the first strictly best anchor when that
    score is above 1.
  - The class keeps the grid as an `array2`, and its methods carry the loops of
    `NewGenerator`, `generate`, `placeWord`, `isActiveWord`, `suggestCoords` and
    `checkFitScore`.
  - Each scanning and scoring method is proved against a specification
    function over the grid (`Suggestions`, `FitScore`, `TopFit`). The meaning
    of those functions is proved as lemmas:
    - every anchor is inside the grid and shares a letter with the board;
    - every such anchor is found;
    - a score above 1 means the word crosses an equal letter and overwrites
      none;
    - the running maximum keeps the first strictly best anchor;
    - labels are unique.
  - One step of a pass (`PlaceBest`) is specified on the board as it stood
    before the step. It names the anchors, their first strictly best score
    and the anchor that wins. It then states that the word is committed exactly
    when that score is above 1 and `placeWord`'s bound holds, and what the
    commit writes.
  - A ghost record keeps the letters each placement's run held just before
    it was written. With it, `Pass`, `RunPasses` and `Generate` state that
    every word the passes add crossed an equal letter and overwrote none at
    the moment it was placed.
- **Tiered scoring** (`Scores`).
  - An answer earns 1, 2 or 3 points by which third of the game's answers had
    already been given.
  - `Tiered.Add` sums the answers so far and creates or updates the user's
    entry.
  - Each answer raises the total by exactly one, and every user's points stay
    between one and three per answer.
- **Guess normalisation** (`Guesses`).
  - White-space removal, lower-casing, and stripping one leading "a " and then
    one leading "the ", trimming around each step.
  - A rough match that only sees the simplified forms.
- **The chat callbacks** of the crossword and image games (`CrosswordCommand`,
  `ImageGameCommand`, `ImageGame`), on the game state records, with the
  transport, JSON files and locks removed:
  - answer checking;
  - completion;
  - admin "complete" and "reset";
  - clue lists and the 2000-byte body rule;
  - the initials clue and its gating;
  - guess checking and forced completion.
- **The film game's file-name helpers** (`FilmgameInit`).
  - `path.Ext`, the blurred image name and the film name read back from a file
    name.
  - The poster list built from a directory listing.
  - `fixFileName`, with its two regular expressions written as explicit
    left-to-right scanners.

`GoStrings` holds the parts of Go's `strings`, `strconv` and UTF-8 handling
that the core calls. `Sorting` holds an insertion sort that stands for Go's
`sort.Sort` and `slices.SortFunc`.

Three behaviours of the code as written are kept in the model:

- **Seed that spans a whole dimension.** `placeWord` checks `len + y < cols`
  strictly (`pkg/crossword/crossword.go:246`, and `len + x < rows` at line 239),
  so a seed exactly as long as the grid is wide is not placed. `Generate`
  places the seed only when it fits that bound.
- **Cell after the last letter.** The comments at
  `pkg/crossword/crossword.go:338` (vertical) and `:375` (horizontal) both
  say that the cell after the last letter must be empty unless the word ends
  on the edge. The vertical test compares the loop index with the word's
  length inside a loop that stops before it, so it never fires. The
  horizontal test sits on an `else if` after the first-letter test, so a
  one-letter word that does not start on the left edge skips it.
- **No accidental adjacency.** Because of the previous point, the code does
  not guarantee that words never touch end to end, so the model does not claim
  it either.

To verify all files together, run:

    dafny verify --resource-limit 2000000 --verification-time-limit 0 --warn-contradictory-assumptions *.dfy

## Model

| member | source | states |
|---|---|---|
| Crossword.ActiveWord.Label | pkg/crossword/crossword.go:54-61 | the label ends in "A" for a vertical placement and "D" otherwise, after the number |
| Crossword.LabelInjective | pkg/crossword/crossword.go:54-61 | equal labels imply equal number and orientation |
| Crossword.TallyAppend | pkg/crossword/crossword.go:254-272 | appending a placement numbered with its orientation's incremented counter keeps the numbering invariant |
| Crossword.TallyRange | pkg/crossword/crossword.go:254-272 | the two counters add up to the number of placements, and each number is between 1 and its orientation's counter |
| Crossword.NumbersIncrease | pkg/crossword/crossword.go:254-272 | within one orientation, later placements carry strictly larger numbers (1, 2, 3 ... in placement order) |
| Crossword.LabelsDistinct | pkg/crossword/crossword.go:254-272 | no two placements in a registry share a label |
| Crossword.Generator.constructor | pkg/crossword/crossword.go:154-181 | every cell is the empty cell, the registry is empty, both counters are 0, and the words are a permutation of the input in non-increasing byte length |
| Crossword.Generator.Generate | pkg/crossword/crossword.go:193-198 | the seed is placed horizontally at (rows/2, 0) as the next across word whenever it fits; the registry only grows; every word placed after the seed comes from index 1 and up, and crossed an equal letter and overwrote none on the board it was placed on; starting from an empty registry, every placement is a catalogue word and no text is placed twice |
| Crossword.Generator.RunPasses | pkg/crossword/crossword.go:200-229 | `loops` passes keep the generator invariant and only append; every appended word comes from index 1 and up, and crossed an equal letter and overwrote none on the board it was placed on |
| Crossword.Generator.Pass | pkg/crossword/crossword.go:204-227 | one pass keeps the invariant and only appends; every appended word comes from index 1 and up, and crossed an equal letter and overwrote none on the board just before its placement; a registry of catalogue words with distinct texts stays so |
| Crossword.Generator.PlaceBest | pkg/crossword/crossword.go:206-225 | for a word not yet registered, on the board before the step: the anchors are the suggestions, the score and index are their first strictly best score; the word is committed exactly when that score is above 1 and the strict bound holds, at that anchor, with the next number of its orientation, its run written over letters it matches or empty cells and crossing at least one; otherwise nothing changes |
| Crossword.Generator.RankAnchors | pkg/crossword/crossword.go:210-221 | the anchors are the suggestions for the word, every run lies in the grid, the score and index are the first strictly best score, and a winner above 1 crosses an equal letter and overwrites none |
| Crossword.Generator.BestFit | pkg/crossword/crossword.go:212-221 | the result is the maximum fit score over the anchors at its first index (0 when there is none); a winner above 1 crosses an equal letter and overwrites none |
| Crossword.Generator.TopFitMeaning | pkg/crossword/crossword.go:214-220 | the running maximum is at least every score seen, is 0 only with index 0, and every anchor before its index scores strictly less |
| Crossword.Generator.InterlocksOnRun | pkg/crossword/crossword.go:223 | a run's current letters interlock with the word exactly when the word is compatible with the run and crosses it |
| Crossword.Generator.PlaceWord | pkg/crossword/crossword.go:231-275 | succeeds exactly when len+x < rows (vertical) or len+y < cols (horizontal); on success it writes exactly the run's letters, records what the run held before, bumps only its own orientation's counter and appends one placement with that number; on failure nothing changes |
| Crossword.Generator.Register | pkg/crossword/crossword.go:254-272 | the orientation's counter goes up by one and the word is appended with that number, unsolved; the other counter and the grid stay |
| Crossword.Generator.WriteRun | pkg/crossword/crossword.go:238-252 | each run cell's `ch` becomes the word's letter; every other cell and field is unchanged |
| Crossword.Generator.IsActiveWord | pkg/crossword/crossword.go:277-285 | true exactly when some registered placement has this exact text |
| Crossword.Generator.SuggestCoords | pkg/crossword/crossword.go:294-326 | the list is the anchor list in letter, row, column order, vertical before horizontal; it reads and changes nothing |
| Crossword.Generator.ScanLetter | pkg/crossword/crossword.go:299-323 | the anchors all rows yield for one letter, in row order |
| Crossword.Generator.ScanRow | pkg/crossword/crossword.go:300-322 | the anchors one row yields for one letter, in column order |
| Crossword.Generator.RowCandidatesAnchored | pkg/crossword/crossword.go:300-322 | every anchor from a row keeps the run in the grid and puts a word letter on an equal grid letter |
| Crossword.Generator.LetterCandidatesAnchored | pkg/crossword/crossword.go:299-323 | the same for all rows of one letter |
| Crossword.Generator.SuggestionsAnchored | pkg/crossword/crossword.go:297-324 | the same for all letters of the word |
| Crossword.Generator.SuggestionsInGrid | pkg/crossword/crossword.go:294-326 | every suggested anchor lies inside the grid and crosses an equal letter already on the board |
| Crossword.Generator.SuggestionsInBounds | pkg/crossword/crossword.go:302-319 | every suggested run fits between row/column 0 and the last row/column |
| Crossword.Generator.RowCandidatesComplete | pkg/crossword/crossword.go:300-322 | a matching cell of a row yields its vertical and horizontal anchor whenever that anchor stays in the grid |
| Crossword.Generator.LetterCandidatesComplete | pkg/crossword/crossword.go:299-323 | the same over the rows |
| Crossword.Generator.SuggestionsComplete | pkg/crossword/crossword.go:297-324 | every grid cell holding letter i of the word yields both anchors that keep the run inside the grid |
| Crossword.Generator.Crossings | pkg/crossword/crossword.go:344-346 | the number of crossings never exceeds the number of letters examined |
| Crossword.Generator.BlockedBeforeWitness | pkg/crossword/crossword.go:331-405 | the scan is blocked exactly when some letter is blocked |
| Crossword.Generator.CrossingsWitness | pkg/crossword/crossword.go:344-346 | a positive crossing count has a letter standing on an equal grid letter |
| Crossword.Generator.FitScoreMeaning | pkg/crossword/crossword.go:328-405 | a score is 0 or in [1, len+1]; a positive score means no letter collides with a different letter; a score above 1 means at least one crossing |
| Crossword.Generator.CheckFitScore | pkg/crossword/crossword.go:328-405 | the loop's result is the fit score (0 on a collision, a before/after neighbour or a side neighbour of an empty cell, otherwise 1 + crossings), with the vertical after-check dead as in the source and the horizontal one skipped for a one-letter word off the left edge |
| Sorting.Insert | pkg/crossword/crossword.go:41-43 | inserting into a sorted list gives a sorted list with one more element, the same multiset plus the new one |
| Sorting.SortBy | pkg/crossword/crossword.go:168 | the result is sorted by the key and is a permutation of the input |
| Scores.Tiered.constructor | pkg/scores/scores.go:14-16 | the total is the given number of answers and the score map is empty |
| Scores.Points | pkg/scores/scores.go:23-35 | 3 points from two thirds of the answers on, 2 from one third up to two thirds, otherwise 1 |
| Scores.PointsMonotone | pkg/scores/scores.go:23-35 | later answers never earn fewer points |
| Scores.PointsByTiers | pkg/scores/scores.go:23-35 | the points are one plus the number of thirds already reached |
| Scores.Added | pkg/scores/scores.go:37-48 | only the answering user's entry changes; a new user has one answer, an existing one gains one answer and 1 to 3 points; one to three points per answer is kept |
| Scores.AddedTotal | pkg/scores/scores.go:38-48 | each correct answer adds exactly one to the total number of answers |
| Scores.Tiered.Add | pkg/scores/scores.go:37-48 | the new map is the old one with the answering user's entry created or updated using the points for the answers counted before the call |
| Guesses.Unspaced | pkg/util/guesses.go:10-14 | the result has no `\s` character and keeps every other character of the input |
| Guesses.UnspacedAppend | pkg/util/guesses.go:10-14 | removing white space works piecewise over a concatenation, so characters keep their order |
| Guesses.UnspacedClean | pkg/util/guesses.go:10-14 | a string with no white space is unchanged |
| Guesses.UnspacedIdempotent | pkg/util/guesses.go:10-14 | removing white space twice is removing it once |
| Guesses.WithoutSpaces | pkg/util/guesses.go:12-14 | the scanner's result is the input without its `\s` characters |
| Guesses.TrimAll | pkg/util/guesses.go:24-30 | the result has no leading or trailing white space |
| Guesses.TrimAllInfix | pkg/util/guesses.go:24-30 | the result is a contiguous piece of the input, so never longer |
| Guesses.TrimAllPrefix | pkg/util/guesses.go:24-30 | the loop trims, then removes each prefix at most once, in argument order, re-trimming each time |
| Guesses.SimplifyGuess | pkg/util/guesses.go:20-22 | the simplified guess has no leading or trailing white space |
| Guesses.SimplifyGuessLower | pkg/util/guesses.go:20-22 | the simplified guess is never longer than the guess and has no upper-case letter |
| Guesses.SimplifyIgnoresCase | pkg/util/guesses.go:20-22 | lower-casing first does not change the simplified guess |
| Guesses.SimplifyGuessSteps | pkg/util/guesses.go:20-30 | trim, strip "a ", trim, strip "the ", trim: in that order |
| Guesses.SimplifyKeepsPlain | pkg/util/guesses.go:20-30 | a lower-case, trimmed guess that starts with neither filler word is unchanged |
| Guesses.SimplifyDropsThe | pkg/util/guesses.go:20-30 | a leading "the " is removed |
| Guesses.SimplifyDropsAThe | pkg/util/guesses.go:20-30 | a leading "a " and the "the " after it are both removed |
| Guesses.ExampleLeadingThe | pkg/util/guesses_test.go:63-70 | "the james bond" simplifies to "james bond" |
| Guesses.ExampleMiddleThe | pkg/util/guesses_test.go:55-62 | "james the bond" is unchanged |
| Guesses.ExampleAThe | pkg/util/guesses.go:20-30 | "a the x" simplifies to "x" |
| Guesses.ExampleTheA | pkg/util/guesses.go:20-30 | "the a x" simplifies to "a x": each filler is stripped at most once, in order |
| Guesses.ExampleNoFiller | pkg/util/guesses_test.go:63-70 | "james bond" is unchanged |
| Guesses.ExampleFillerAtStart | pkg/util/guesses_test.go:63-70 | "james bond" matches "the james bond" under any similarity that accepts equal strings |
| Guesses.ExampleFillerInMiddle | pkg/util/guesses_test.go:55-62 | "james bond" and "james the bond" have different simplified forms |
| Guesses.RoughMatchLeadingThe | pkg/util/guesses_test.go:63-70 | for any lower-case, trimmed, non-empty text that does not start with a filler word, that text and "the " + that text match each other in either role, under any similarity that accepts equal strings |
| Guesses.RoughMatchIgnoresCase | pkg/util/guesses_test.go:47-54 | the guess's case does not change the verdict |
| CrosswordCommand.CountUnsolved | pkg/discord/command/crossword.go:147-152 | the number of unsolved words is at most the number of words |
| CrosswordCommand.CountUnsolvedZero | pkg/discord/command/crossword.go:147-153 | no word is left exactly when every word is solved |
| CrosswordCommand.CountUnsolvedOne | pkg/discord/command/crossword.go:377-389 | one unsolved word among solved ones counts one |
| CrosswordCommand.CountUnsolvedAll | pkg/discord/command/crossword.go:398-407 | with no word solved, every word counts |
| CrosswordCommand.FirstSettling | pkg/discord/command/crossword.go:129-146 | the first entry with the upper-cased label that is solved or spelled like the guess, ignoring case; every earlier entry is neither |
| CrosswordCommand.ScanAnswer | pkg/discord/command/crossword.go:129-146 | the loop stops at that entry; `alreadySolved` exactly when it is solved, `correct` exactly when it is not, never both |
| CrosswordCommand.NumUnsolved | pkg/discord/command/crossword.go:147-152 | the counting loop returns the number of unsolved words |
| CrosswordCommand.CheckAnswer | pkg/discord/command/crossword.go:128-165 | only the entry the scan stops at can change: it becomes solved and the player scores once when the space-free guess spells it; nothing changes otherwise; `complete` is the old flag or no word left, and is never cleared |
| CrosswordCommand.SpacedAnswerNeverMatches | pkg/discord/command/crossword.go:137 | an answer that contains white space can never equal the space-stripped guess |
| CrosswordCommand.FirstUnsolved | pkg/discord/command/crossword.go:379-384 | the index of the first unsolved word; every word before it is solved |
| CrosswordCommand.AdminComplete | pkg/discord/command/crossword.go:377-389 | every word except the first unsolved one becomes solved; afterwards exactly one word is unsolved if any was; scores and `complete` stay |
| CrosswordCommand.AdminReset | pkg/discord/command/crossword.go:398-407 | every word becomes unsolved; the score map, last user and completion flag are cleared only when there is at least one word |
| CrosswordCommand.Filter | pkg/discord/command/crossword.go:314-324 | the kept elements satisfy the test and are a sub-multiset of the input |
| CrosswordCommand.FilterSorted | pkg/discord/command/crossword.go:306-324 | filtering a list sorted by ID keeps it sorted by ID |
| CrosswordCommand.FilterPartition | pkg/discord/command/crossword.go:314-324 | solved, unsolved down and unsolved across lists together are exactly the words: each lands in one |
| CrosswordCommand.Partition | pkg/discord/command/crossword.go:311-324 | the loop builds the three filtered lists |
| CrosswordCommand.RenderClues | pkg/discord/command/crossword.go:306-324 | words sorted by ID, then split into solved, unsolved down and unsolved across lists, each in ID order, each word in exactly one |
| CrosswordCommand.MessageBody | pkg/discord/command/crossword.go:286-289 | the body is the clue text when that is under 2000 bytes and empty otherwise, so always under 2000 bytes |
| CrosswordCommand.RenderBoardBody | pkg/discord/command/crossword.go:284-289 | the state's words end up sorted by ID (a permutation); the body is the unsolved-clue text of those words when it fits |
| ImageGame.Unsolved | pkg/imagegame/imagegame.go:44-52 | between 0 and the number of posters |
| ImageGame.UnsolvedZero | pkg/imagegame/imagegame.go:44-52 | none left exactly when every poster is guessed |
| ImageGame.UnsolvedAll | pkg/imagegame/imagegame.go:44-52 | all left exactly when no poster is guessed |
| ImageGame.UnsolvedMark | pkg/imagegame/imagegame.go:44-52 | guessing one unguessed poster lowers the count by exactly one |
| ImageGame.AllGuessedSolved | pkg/discord/command/imagegame.go:539-541 | after marking every poster, none is left |
| ImageGame.State.NumUnsolved | pkg/imagegame/imagegame.go:44-52 | the loop returns the number of unguessed posters, between 0 and their number, and changes nothing |
| ImageGame.State.MarkAllGuessed | pkg/discord/command/imagegame.go:539-541 | every poster becomes guessed, in place, and nothing else changes |
| ImageGameCommand.LeadByte | pkg/discord/command/imagegame.go:175-176 | an ASCII character is its own first byte; any other has a lead byte of 0xC2 to 0xF4 |
| ImageGameCommand.InitialOf | pkg/discord/command/imagegame.go:176 | an ASCII first character is upper-cased |
| ImageGameCommand.Initials | pkg/discord/command/imagegame.go:173-178 | never more initials than fields, one per field when every field qualifies, none lower-case or a digit |
| ImageGameCommand.InitialsSkip | pkg/discord/command/imagegame.go:175 | an empty field or one starting with a digit adds nothing |
| ImageGameCommand.InitialsTake | pkg/discord/command/imagegame.go:175-176 | a qualifying field adds exactly its initial at the end |
| ImageGameCommand.GetClueText | pkg/discord/command/imagegame.go:169-180 | the text is the clue ID, " initials: " and the initials of the space-separated fields; the game's duration has no effect |
| ImageGameCommand.NamesUnique | pkg/discord/command/imagegame.go:156 | at most one poster answers to a clue number |
| ImageGameCommand.RequestClue | pkg/discord/command/imagegame.go:143-167 | nothing while more than 5 posters are left; otherwise the clue for the poster with that number, sent exactly when one exists |
| ImageGameCommand.ScanGuess | pkg/discord/command/imagegame.go:222-235 | only the named, matching poster can change; already guessed means no change; otherwise it becomes guessed and the count drops by one; `gameComplete` exactly when no poster is left |
| ImageGameCommand.CheckGuess | pkg/discord/command/imagegame.go:212-240 | the last scorer is turned away with no change while alternation is on and more than 3 posters are left; otherwise as the scan, with exactly one score for a correct guess |
| ImageGameCommand.ForceCompleteGame | pkg/discord/command/imagegame.go:537-553 | every poster is guessed, none is left, scores and settings stay |
| FilmgameInit.ExtFromSuffix | cmd/cmd/filmgame/init.go:147 | what the backward scan finds is a suffix that is empty or a '.' followed by neither '.' nor '/' |
| FilmgameInit.ExtSuffix | cmd/cmd/filmgame/init.go:147 | the extension is such a suffix of the path |
| FilmgameInit.ExtFromNone | cmd/cmd/filmgame/init.go:147 | an empty scan result means every '.' before the start is followed by a '/' |
| FilmgameInit.ExtNone | cmd/cmd/filmgame/init.go:147 | no extension means the final path element has no '.' |
| FilmgameInit.ExtFromPlain | cmd/cmd/filmgame/init.go:147 | the scan over a plain '.'-suffix finds exactly that suffix |
| FilmgameInit.ExtOfAppend | cmd/cmd/filmgame/init.go:147 | appending a '.' and a tail with no '.' or '/' makes that the extension |
| FilmgameInit.StemExt | cmd/cmd/filmgame/init.go:148 | stem and extension make up the name |
| FilmgameInit.ObscuredShape | cmd/cmd/filmgame/init.go:146-149 | the blurred name is stem + ".blur" + extension, five characters longer |
| FilmgameInit.ExampleObscured | cmd/cmd/filmgame/init.go:146-149 | "fargo.jpg" becomes "fargo.blur.jpg" |
| FilmgameInit.FilmNameShape | cmd/cmd/filmgame/init.go:151-160 | a film name is never longer than its file name and has no '-' |
| FilmgameInit.ExampleFilmName | cmd/cmd/filmgame/init.go:151-160 | "fargo.blur.jpg" names the film "fargo" |
| FilmgameInit.FilmNameOfObscured | cmd/cmd/filmgame/init.go:146-160 | the blurred image and the original name the same film, unless the stem already ends in ".blur" |
| FilmgameInit.Kept | cmd/cmd/filmgame/init.go:94-97 | no kept file name contains ".blur."; no more are kept than listed |
| FilmgameInit.KeptCover | cmd/cmd/filmgame/init.go:94-97 | every file without ".blur." is kept |
| FilmgameInit.KeptFrom | cmd/cmd/filmgame/init.go:94-97 | only listed files are kept |
| FilmgameInit.PostersOfFiles | cmd/cmd/filmgame/init.go:94-104 | each file without ".blur." has its poster; every poster is unguessed and comes from a listed file without ".blur." |
| FilmgameInit.CreatePosters | cmd/cmd/filmgame/init.go:94-104 | the loop builds the poster list, one poster per file without ".blur.", in listing order |
| FilmgameInit.SpaceRun | cmd/cmd/filmgame/init.go:20 | a white-space run stays inside the string |
| FilmgameInit.SpaceRunMaximal | cmd/cmd/filmgame/init.go:20 | the run is all white space and is followed by none (`\s+` is greedy) |
| FilmgameInit.DigitRun | cmd/cmd/filmgame/init.go:19 | a digit run stays inside the string |
| FilmgameInit.DigitRunMaximal | cmd/cmd/filmgame/init.go:19 | the run is all digits and is followed by none (`[0-9]+` is greedy) |
| FilmgameInit.DateAt | cmd/cmd/filmgame/init.go:19 | a match length stays inside the string |
| FilmgameInit.DateAtGroup | cmd/cmd/filmgame/init.go:19 | a "(digits)" group at a position is matched there with the white space after it |
| FilmgameInit.DateAtNone | cmd/cmd/filmgame/init.go:19 | with no white space and no "(digits)" group, nothing matches |
| FilmgameInit.StripDatesFrom | cmd/cmd/filmgame/init.go:140 | deleting the matches never lengthens the string |
| FilmgameInit.StripDates | cmd/cmd/filmgame/init.go:140 | the same from the start |
| FilmgameInit.CollapseFrom | cmd/cmd/filmgame/init.go:139-141 | with a space-free replacement there is no white space left; nothing upper-case is introduced |
| FilmgameInit.Collapse | cmd/cmd/filmgame/init.go:139-141 | with a space-free replacement there is no white space left |
| FilmgameInit.FixFileName | cmd/cmd/filmgame/init.go:137-144 | the result has no `\s` character and no upper-case letter |
| FilmgameInit.StripDatesClean | cmd/cmd/filmgame/init.go:140 | a name with no white space and no "(digits)" group loses nothing |
| FilmgameInit.CollapseClean | cmd/cmd/filmgame/init.go:139-141 | a name without white space is not changed by the collapse |
| FilmgameInit.FixFileNameClean | cmd/cmd/filmgame/init.go:137-144 | a lower-case name with no white space and no "(digits)" group is unchanged |

## Left out

- Drawing is left out. This covers the PNG board and poster rendering, `Crossword.String`, `Tiered.Render` (map iteration order and a comparator that never returns 0) and the clue text's solved section. They are formatting, not game rules.
- Discord messages, reactions, threads and JSON state files are left out, as are the locks around them, the ticker goroutines and `time.Since`. These are I/O and concurrency. The callbacks are modelled on the state they change; what they send is modelled as a result (`RequestClue`) or not at all (`ForceCompleteGame`, the completion messages).
- `ImageGameCommand.RequestClue`, `ImageGameCommand.GetClueText`: the game duration is taken and ignored, because the branch that read it is commented out in the source.
- Reading the directory is left out of `FilmgameInit.CreatePosters`: it takes the file names, with directory entries already dropped. `renameImages` (which applies `fixFileName` to each file) is left out as file I/O. The random shuffle of the posters in `createStateFromImages` is left out because it is randomness.
- `Guesses.GuessRoughlyMatchesAnswer` takes the Hamming-similarity test with its 0.8 threshold as a function parameter, because it comes from a foreign library and uses floating point. `ImageGameCommand.ScanGuess` is stated for any answer test, and `CheckGuess` passes it this rough match.
- `Scores.Points` compares `3 * n` with `T` and `2 * T` in integers instead of dividing in floating point. For every integer answer count these are the same comparisons.
- `Scores.Tiered` carries the `lastUser` field the image-game and crossword commands read and clear. The score type shown has no such field, and nothing shown sets it, so the model never assigns it except in `AdminReset`.
- `GoStrings.ToLower`, `GoStrings.ToUpper`: case mapping covers ASCII letters only. `strings.ToLower`/`ToUpper` also map other Unicode letters. The initials clue maps the Latin-1 letter Go makes of a non-ASCII lead byte; the rest of UTF-8 is modelled only as byte lengths.
- `Sorting.SortBy` is a stable insertion sort. Go's `sort.Sort` and `slices.SortFunc` are not stable, so the contracts (sorted and a permutation) promise no order among equal keys, as Go does.
- `CrosswordCommand.Placement`: the label the external crossword library gives a placement (`ClueID`) is an opaque string field. The library's board generation is not part of this model.
- `Crossword.Generator` does not track which cells of the grid belong to which placement after later placements. Each placement's contract says what it writes and what its run held just before. The model does not state that the finished board spells every registered word.
- `Crossword.Generator.Pass`, `Crossword.Generator.RunPasses`, `Crossword.Generator.Generate`: their contracts say what every placement they add satisfies, not which words a pass must place. That is stated one word at a time by `PlaceBest`, on the board as it stood before that step. A whole-pass statement would need a copy of the board at every step.
- The bound check of `placeWord` is strict (`len + x < rows`), while `suggestCoords` accepts runs that end on the last row or column. The model keeps both as written, so such a winner is silently rejected; `PlaceWord`'s contract states the strict bound.
- `Guesses`: the test cases "BiLL oddY" and "The lighthouse" are not proved as literal examples. `SimplifyIgnoresCase` and `RoughMatchIgnoresCase` cover them for every string.
- `FilmgameInit.FixFileName`: the worked example "Fargo (1996).jpg" to "fargo.jpg" is not proved as a literal. `DateAtGroup`, `FixFileName`'s own contract and `FixFileNameClean` state its parts for all names.
