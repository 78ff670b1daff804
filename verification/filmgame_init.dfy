/** The file-name helpers of the film game's set-up command: cleaning an image
    file's name, naming its blurred copy and reading the film's name back. */
module FilmgameInit {
  import opened GoStrings

  // ---------------------------------------------------------------------------
  // path.Ext

  /** No '.' and no '/' in `t`. */
  predicate Plain(t: string) {
    forall k :: 0 <= k < |t| ==> t[k] != '.' && t[k] != '/'
  }

  /** `path.Ext` scanning right to left from position `i`; the characters at
      `i` and after are already known not to be '.' or '/'. */
  function ExtFrom(s: string, i: nat): string
    requires i <= |s| && Plain(s[i..])
  {
    if i == 0 then []
    else if s[i - 1] == '/' then []
    else if s[i - 1] == '.' then s[i - 1..]
    else
      assert s[i - 1..] == [s[i - 1]] + s[i..];
      ExtFrom(s, i - 1)
  }

  /** `path.Ext`: the suffix from the last '.' of the final slash-separated
      element, or "" when that element has no '.'. */
  function Ext(path: string): string {
    ExtFrom(path, |path|)
  }

  /** What the scan finds is a suffix: a '.' followed by neither '.' nor '/'. */
  lemma {:induction false} ExtFromSuffix(s: string, i: nat)
    requires i <= |s| && Plain(s[i..])
    ensures |ExtFrom(s, i)| <= |s| && ExtFrom(s, i) == s[|s| - |ExtFrom(s, i)|..]
    ensures ExtFrom(s, i) != [] ==> ExtFrom(s, i)[0] == '.' && Plain(ExtFrom(s, i)[1..])
    decreases i
  {
    if i > 0 && s[i - 1] != '/' {
      if s[i - 1] == '.' {
        assert s[i - 1..][1..] == s[i..];
      } else {
        assert s[i - 1..] == [s[i - 1]] + s[i..];
        ExtFromSuffix(s, i - 1);
      }
    }
  }

  /** The extension is a suffix of the path: a '.' and then neither '.' nor '/'. */
  lemma ExtSuffix(path: string)
    ensures |Ext(path)| <= |path| && Ext(path) == path[|path| - |Ext(path)|..]
    ensures Ext(path) != [] ==> Ext(path)[0] == '.' && Plain(Ext(path)[1..])
  {
    ExtFromSuffix(path, |path|);
  }

  /** When the scan finds no extension, every '.' before `i` is followed by a
      '/' before `i`. */
  lemma {:induction false} ExtFromNone(s: string, i: nat, k: nat)
    requires i <= |s| && Plain(s[i..]) && ExtFrom(s, i) == []
    requires k < i && s[k] == '.'
    ensures exists j :: k < j < i && s[j] == '/'
    decreases i
  {
    if s[i - 1] != '/' {
      assert s[i - 1] != '.';
      assert s[i - 1..] == [s[i - 1]] + s[i..];
      ExtFromNone(s, i - 1, k);
    }
  }

  /** No extension means the final element of the path has no '.'. */
  lemma ExtNone(path: string, k: nat)
    requires Ext(path) == [] && k < |path| && path[k] == '.'
    ensures exists j :: k < j < |path| && path[j] == '/'
  {
    ExtFromNone(path, |path|, k);
  }

  /** Scanning back over a plain tail that ends a '.'-suffix. */
  lemma {:induction false} ExtFromPlain(t: string, e: string, i: nat)
    requires e != [] && e[0] == '.' && Plain(e[1..])
    requires |t| < i <= |t + e|
    ensures Plain((t + e)[i..])
    ensures ExtFrom(t + e, i) == e
    decreases i
  {
    var s := t + e;
    assert s[i..] == e[i - |t|..];
    assert Plain(s[i..]) by {
      forall k | 0 <= k < |s[i..]| ensures s[i..][k] != '.' && s[i..][k] != '/' {
        assert s[i..][k] == e[1..][i - |t| - 1 + k];
      }
    }
    if i - 1 == |t| {
      assert s[i - 1] == '.';
      assert s[i - 1..] == e;
    } else {
      assert s[i - 1] == e[1..][i - 2 - |t|];
      ExtFromPlain(t, e, i - 1);
    }
  }

  /** Appending a '.'-suffix with no further '.' or '/' makes it the extension. */
  lemma ExtOfAppend(t: string, e: string)
    requires e != [] && e[0] == '.' && Plain(e[1..])
    ensures Ext(t + e) == e
  {
    ExtFromPlain(t, e, |t + e|);
  }

  /** The name without its extension. */
  function Stem(name: string): string {
    TrimSuffix(name, Ext(name))
  }

  /** The stem and the extension make up the name. */
  lemma StemExt(name: string)
    ensures Stem(name) + Ext(name) == name
  {
    ExtSuffix(name);
    TrimSuffixSpec(name, Ext(name));
  }

  // ---------------------------------------------------------------------------
  // obscuredImageName and filmNameFromFilename

  const Blur: string := ".blur"
  const BlurDot: string := ".blur."

  /** `obscuredImageName`: ".blur" inserted before the extension. */
  function ObscuredImageName(originalName: string): string {
    var extension := Ext(originalName);
    TrimSuffix(originalName, extension) + Blur + extension
  }

  /** The blurred name is the original with ".blur" just before the extension. */
  lemma ObscuredShape(originalName: string)
    ensures ObscuredImageName(originalName) == Stem(originalName) + Blur + Ext(originalName)
    ensures |ObscuredImageName(originalName)| == |originalName| + 5
  {
    StemExt(originalName);
  }

  /** `filmNameFromFilename`: drop the extension, then one trailing ".blur",
      then turn every '-' into a space. */
  function FilmNameFromFilename(fileName: string): string {
    ReplaceChar(TrimSuffix(TrimSuffix(fileName, Ext(fileName)), Blur), '-', ' ')
  }

  /** A film name is never longer than its file name and holds no '-'. */
  lemma FilmNameShape(fileName: string)
    ensures |FilmNameFromFilename(fileName)| <= |fileName|
    ensures forall i :: 0 <= i < |FilmNameFromFilename(fileName)| ==> FilmNameFromFilename(fileName)[i] != '-'
  {
    StemExt(fileName);
  }

  /** The blurred copy of an image names the same film as the image, as long
      as the image's own stem does not already end in ".blur". */
  lemma FilmNameOfObscured(name: string)
    requires !HasSuffix(Stem(name), Blur)
    ensures FilmNameFromFilename(ObscuredImageName(name)) == FilmNameFromFilename(name)
  {
    var e, stem := Ext(name), Stem(name);
    var o := ObscuredImageName(name);
    ObscuredShape(name);
    ExtSuffix(name);
    TrimSuffixSpec(stem, Blur);
    TrimSuffixAppend(stem, Blur);
    if e == [] {
      assert o == stem + Blur;
      assert Blur[0] == '.' && Plain(Blur[1..]);
      ExtOfAppend(stem, Blur);
      TrimSuffixSpec(name, e);
    } else {
      assert o == (stem + Blur) + e;
      ExtOfAppend(stem + Blur, e);
      TrimSuffixAppend(stem + Blur, e);
    }
  }

  /** The worked example: "fargo.jpg" is blurred to "fargo.blur.jpg"... */
  lemma ExampleObscured()
    ensures ObscuredImageName("fargo.jpg") == "fargo.blur.jpg"
  {
    var e := ".jpg";
    assert e[0] == '.' && Plain(e[1..]);
    assert "fargo" + e == "fargo.jpg";
    ExtOfAppend("fargo", e);
    TrimSuffixAppend("fargo", e);
  }

  /** ...which names the film "fargo". */
  lemma ExampleFilmName()
    ensures FilmNameFromFilename("fargo.blur.jpg") == "fargo"
  {
    var e := ".jpg";
    assert e[0] == '.' && Plain(e[1..]);
    assert "fargo.blur" + e == "fargo.blur.jpg";
    ExtOfAppend("fargo.blur", e);
    TrimSuffixAppend("fargo.blur", e);
    assert "fargo" + Blur == "fargo.blur";
    TrimSuffixAppend("fargo", Blur);
    assert ReplaceChar("fargo", '-', ' ') == "fargo";
  }

  // ---------------------------------------------------------------------------
  // Posters built from the image files

  /** `strings.Contains(name, ".blur.")`. */
  predicate ContainsBlurDot(name: string) {
    Contains(name, BlurDot)
  }

  datatype Poster = Poster(originalImage: string, obscuredImage: string, answer: string, guessed: bool)

  /** The poster made from one image file. */
  function PosterFor(name: string): Poster {
    Poster(name, ObscuredImageName(name), FilmNameFromFilename(name), false)
  }

  /** The files of a directory that are not blurred copies, in their order. */
  function Kept(names: seq<string>): (r: seq<string>)
    ensures |r| <= |names|
    ensures forall j :: 0 <= j < |r| ==> !ContainsBlurDot(r[j])
  {
    if names == [] then []
    else
      var init := Kept(names[..|names| - 1]);
      var name := names[|names| - 1];
      if ContainsBlurDot(name) then init else init + [name]
  }

  /** Every file that is not a blurred copy is kept. */
  lemma {:induction false} KeptCover(names: seq<string>, k: int)
    requires 0 <= k < |names| && !ContainsBlurDot(names[k])
    ensures names[k] in Kept(names)
  {
    var last := |names| - 1;
    var init := names[..last];
    if k < last {
      assert init[k] == names[k];
      KeptCover(init, k);
    }
  }

  /** Only files of the directory are kept. */
  lemma {:induction false} KeptFrom(names: seq<string>, name: string)
    requires name in Kept(names)
    ensures name in names
  {
    var last := |names| - 1;
    if name != names[last] {
      KeptFrom(names[..last], name);
    }
  }

  /** The posters of `createStateFromImages`, before the shuffle. */
  function Posters(names: seq<string>): seq<Poster> {
    var kept := Kept(names);
    seq(|kept|, j requires 0 <= j < |kept| => PosterFor(kept[j]))
  }

  /** One poster per image file that is not a blurred copy, none guessed yet,
      and no poster for a blurred copy. */
  lemma PostersOfFiles(names: seq<string>, k: int)
    requires 0 <= k < |names| && !ContainsBlurDot(names[k])
    ensures PosterFor(names[k]) in Posters(names)
    ensures forall p :: p in Posters(names) ==> !p.guessed && !ContainsBlurDot(p.originalImage) && p.originalImage in names
  {
    KeptCover(names, k);
    var kept := Kept(names);
    var j :| 0 <= j < |kept| && kept[j] == names[k];
    assert Posters(names)[j] == PosterFor(names[k]);
    forall p | p in Posters(names) ensures !p.guessed && !ContainsBlurDot(p.originalImage) && p.originalImage in names {
      var i :| 0 <= i < |kept| && Posters(names)[i] == p;
      KeptFrom(names, kept[i]);
    }
  }

  /** One more file extends the kept list by that file, unless it is a
      blurred copy. */
  lemma KeptSnoc(names: seq<string>, i: int)
    requires 0 <= i < |names|
    ensures Kept(names[..i + 1]) == Kept(names[..i]) + (if ContainsBlurDot(names[i]) then [] else [names[i]])
  {
    assert names[..i + 1][..i] == names[..i];
  }

  /** The loop of `createStateFromImages` over the directory's files (the
      directory entries already left out). */
  method CreatePosters(names: seq<string>) returns (posters: seq<Poster>)
    ensures posters == Posters(names)
  {
    posters := [];
    ghost var kept: seq<string> := [];
    for i := 0 to |names|
      invariant kept == Kept(names[..i])
      invariant |posters| == |kept|
      invariant forall j :: 0 <= j < |posters| ==> posters[j] == PosterFor(kept[j])
    {
      KeptSnoc(names, i);
      if ContainsBlurDot(names[i]) {
        continue;
      }
      posters := posters + [PosterFor(names[i])];
      kept := kept + [names[i]];
    }
    assert names[..|names|] == names;
  }

  // ---------------------------------------------------------------------------
  // fixFileName

  /** The length of the run of `\s` characters starting at `i`. */
  function SpaceRun(s: string, i: nat): (n: nat)
    requires i <= |s|
    ensures i + n <= |s|
    decreases |s| - i
  {
    if i < |s| && IsRegexSpace(s[i]) then 1 + SpaceRun(s, i + 1) else 0
  }

  /** The run is maximal: white space up to its end, and none right after. */
  lemma {:induction false} SpaceRunMaximal(s: string, i: nat)
    requires i <= |s|
    ensures forall k :: i <= k < i + SpaceRun(s, i) ==> IsRegexSpace(s[k])
    ensures i + SpaceRun(s, i) < |s| ==> !IsRegexSpace(s[i + SpaceRun(s, i)])
    decreases |s| - i
  {
    if i < |s| && IsRegexSpace(s[i]) {
      SpaceRunMaximal(s, i + 1);
    }
  }

  /** The length of the run of decimal digits starting at `i`. */
  function DigitRun(s: string, i: nat): (n: nat)
    requires i <= |s|
    ensures i + n <= |s|
    decreases |s| - i
  {
    if i < |s| && IsDigit(s[i]) then 1 + DigitRun(s, i + 1) else 0
  }

  /** `s[i..j]` is a "(digits)" group: '(' then at least one digit then ')'. */
  predicate DateGroup(s: string, i: int, j: int) {
    0 <= i && i + 2 <= j < |s| && s[i] == '(' && s[j] == ')'
    && forall k :: i < k < j ==> IsDigit(s[k])
  }

  /** The digit run is maximal in the same way. */
  lemma {:induction false} DigitRunMaximal(s: string, i: nat)
    requires i <= |s|
    ensures forall k :: i <= k < i + DigitRun(s, i) ==> IsDigit(s[k])
    ensures i + DigitRun(s, i) < |s| ==> !IsDigit(s[i + DigitRun(s, i)])
    decreases |s| - i
  {
    if i < |s| && IsDigit(s[i]) {
      DigitRunMaximal(s, i + 1);
    }
  }

  /** The length of the match of `(\s+)?\([0-9]+\)(\s+)?` that starts at `i`,
      or 0 when none starts there. All three repetitions are greedy, and the
      pattern leaves no choice: the white space must run up to the '(', the
      digits up to the ')', and the trailing white space is taken whole. */
  function DateAt(s: string, i: nat): (n: nat)
    requires i <= |s|
    ensures i + n <= |s|
  {
    var open := i + SpaceRun(s, i);
    if open < |s| && s[open] == '(' then
      var close := open + 1 + DigitRun(s, open + 1);
      if close > open + 1 && close < |s| && s[close] == ')' then
        close + 1 + SpaceRun(s, close + 1) - i
      else 0
    else 0
  }

  /** A run of digits ended by a non-digit is the whole digit run. */
  lemma {:induction false} DigitRunExact(s: string, a: nat, b: nat)
    requires a <= b < |s| && !IsDigit(s[b])
    requires forall k :: a <= k < b ==> IsDigit(s[k])
    ensures DigitRun(s, a) == b - a
    decreases b - a
  {
    if a < b {
      DigitRunExact(s, a + 1, b);
    }
  }

  /** A "(digits)" group right at `i` is always matched there. */
  lemma DateAtGroup(s: string, i: nat, j: int)
    requires i <= |s| && DateGroup(s, i, j)
    ensures DateAt(s, i) == j + 1 + SpaceRun(s, j + 1) - i
  {
    assert SpaceRun(s, i) == 0;
    DigitRunExact(s, i + 1, j);
  }

  /** `dateInParens.ReplaceAllString(s, "")` from position `i`: at each position
      the match starting there, if any, is deleted and the scan resumes after
      it; otherwise the character is kept. */
  function StripDatesFrom(s: string, i: nat): (r: string)
    requires i <= |s|
    ensures |r| <= |s| - i
    decreases |s| - i
  {
    if i == |s| then []
    else if DateAt(s, i) > 0 then StripDatesFrom(s, i + DateAt(s, i))
    else [s[i]] + StripDatesFrom(s, i + 1)
  }

  function StripDates(s: string): (r: string)
    ensures |r| <= |s|
  {
    StripDatesFrom(s, 0)
  }

  /** `re.ReplaceAllString(s, rep)` for the pattern `\s+` from position `i`:
      every maximal run of white space becomes `rep`. */
  function CollapseFrom(s: string, rep: string, i: nat): (r: string)
    requires i <= |s|
    ensures (forall k :: 0 <= k < |rep| ==> !IsRegexSpace(rep[k])) ==> forall k :: 0 <= k < |r| ==> !IsRegexSpace(r[k])
    ensures (forall k :: 0 <= k < |rep| ==> !IsUpper(rep[k])) && (forall k :: i <= k < |s| ==> !IsUpper(s[k]))
            ==> forall k :: 0 <= k < |r| ==> !IsUpper(r[k])
    decreases |s| - i
  {
    if i == |s| then []
    else if IsRegexSpace(s[i]) then rep + CollapseFrom(s, rep, i + SpaceRun(s, i))
    else [s[i]] + CollapseFrom(s, rep, i + 1)
  }

  function Collapse(s: string, rep: string): (r: string)
    ensures (forall k :: 0 <= k < |rep| ==> !IsRegexSpace(rep[k])) ==> forall k :: 0 <= k < |r| ==> !IsRegexSpace(r[k])
  {
    CollapseFrom(s, rep, 0)
  }

  /** `fixFileName`: delete the "(year)" groups with the white space around
      them, make each white-space run a single space and then a '-', and
      lower-case the result. */
  function FixFileName(oldName: string): (r: string)
    ensures forall k :: 0 <= k < |r| ==> !IsRegexSpace(r[k]) && !IsUpper(r[k])
  {
    var fixed := Collapse(Collapse(StripDates(oldName), " "), "-");
    assert forall k :: 0 <= k < |fixed| ==> !IsRegexSpace(fixed[k]);
    ToLower(fixed)
  }

  /** No white space in `s`. */
  predicate Unspaced(s: string) {
    forall k :: 0 <= k < |s| ==> !IsRegexSpace(s[k])
  }

  /** No "(digits)" group anywhere in `s`. */
  predicate Undated(s: string) {
    forall i, j :: 0 <= i < j < |s| ==> !DateGroup(s, i, j)
  }

  /** Without white space or a "(digits)" group no match starts anywhere. */
  lemma DateAtNone(s: string, i: nat)
    requires i <= |s| && Unspaced(s) && Undated(s)
    ensures DateAt(s, i) == 0
  {
    assert SpaceRun(s, i) == 0;
    if i < |s| {
      DigitRunMaximal(s, i + 1);
      var close := i + 1 + DigitRun(s, i + 1);
      assert close < |s| ==> !DateGroup(s, i, close);
    }
  }

  /** Without white space or a "(digits)" group nothing is deleted. */
  lemma {:induction false} StripDatesClean(s: string, i: nat)
    requires i <= |s| && Unspaced(s) && Undated(s)
    ensures StripDatesFrom(s, i) == s[i..]
    decreases |s| - i
  {
    if i < |s| {
      DateAtNone(s, i);
      StripDatesClean(s, i + 1);
      assert s[i..] == [s[i]] + s[i + 1..];
    }
  }

  /** Without white space there is nothing to collapse. */
  lemma {:induction false} CollapseClean(s: string, rep: string, i: nat)
    requires i <= |s| && Unspaced(s)
    ensures CollapseFrom(s, rep, i) == s[i..]
    decreases |s| - i
  {
    if i < |s| {
      CollapseClean(s, rep, i + 1);
      assert s[i..] == [s[i]] + s[i + 1..];
    }
  }

  /** A name that is already lower-case, without white space and without a
      "(digits)" group, is left as it is. */
  lemma FixFileNameClean(name: string)
    requires Unspaced(name) && Undated(name)
    requires forall k :: 0 <= k < |name| ==> !IsUpper(name[k])
    ensures FixFileName(name) == name
  {
    StripDatesClean(name, 0);
    CollapseClean(name, " ", 0);
    CollapseClean(name, "-", 0);
    ToLowerLower(name);
  }
}
