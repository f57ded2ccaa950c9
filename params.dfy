/** ParameterResolver: turning the four console answers into the run's
    settings (input discovery, output and temporary paths, grid width and
    color mode). */
module Params {
  import opened Common
  import opened Paths
  import opened Color

  // ------------------------------------------------------------------
  // Width: int() on a plain decimal, with a floor of 4 and a default of 160
  // ------------------------------------------------------------------

  const DefaultWidth: int := 160
  const MinWidth: int := 4

  predicate IsDigit(c: char)
  {
    '0' <= c <= '9'
  }

  predicate AllDigits(s: string)
  {
    forall i :: 0 <= i < |s| ==> IsDigit(s[i])
  }

  /** The value of a string of decimal digits, most significant first. */
  function DigitsValue(s: string): (n: nat)
    requires AllDigits(s)
  {
    if |s| == 0 then 0
    else DigitsValue(s[..|s| - 1]) * 10 + (s[|s| - 1] as int - '0' as int)
  }

  /** int(s) for an optional '+' or '-' followed by one or more decimal
      digits; anything else is the ValueError path. */
  function ParseInt(s: string): (r: Option<int>)
    ensures r.Some? ==> |s| > 0
    ensures s == [] ==> r == None
  {
    if |s| > 0 && (s[0] == '-' || s[0] == '+') then
      var t := s[1..];
      if |t| > 0 && AllDigits(t) then
        Some(if s[0] == '-' then -(DigitsValue(t) as int) else DigitsValue(t))
      else None
    else if |s| > 0 && AllDigits(s) then Some(DigitsValue(s))
    else None
  }

  /** str(n) for a non-negative integer. */
  function NatToString(n: nat): (s: string)
    ensures |s| > 0 && AllDigits(s)
  {
    if n < 10 then [('0' as int + n) as char]
    else NatToString(n / 10) + [('0' as int + n % 10) as char]
  }

  /** str(i). */
  function IntToString(i: int): string
  {
    if i < 0 then "-" + NatToString(-i) else NatToString(i)
  }

  lemma {:induction false} NatToStringValue(n: nat)
    ensures DigitsValue(NatToString(n)) == n
  {
    var s := NatToString(n);
    if n >= 10 {
      NatToStringValue(n / 10);
      assert s[..|s| - 1] == NatToString(n / 10);
    }
  }

  /** The parser reads back every integer the way Python prints it. */
  lemma ParseIntRoundTrip(i: int)
    ensures ParseInt(IntToString(i)) == Some(i)
  {
    if i < 0 {
      NatToStringValue(-i);
      assert IntToString(i)[1..] == NatToString(-i);
    } else {
      NatToStringValue(i);
    }
  }

  /** The width setting and whether "Invalid width, using default 160" is shown. */
  datatype WidthChoice = WidthChoice(width: int, warned: bool)

  function ResolveWidth(text: string): (w: WidthChoice)
    ensures w.width >= MinWidth
    ensures w.warned <==> text != [] && ParseInt(text).None?
    ensures ParseInt(text).None? ==> w.width == DefaultWidth
    ensures ParseInt(text).Some? ==> w.width == Max(MinWidth, ParseInt(text).value)
  {
    if text == [] then WidthChoice(DefaultWidth, false)
    else match ParseInt(text)
      case Some(n) => WidthChoice(Max(MinWidth, n), false)
      case None => WidthChoice(DefaultWidth, true)
  }

  /** Typing back any resolved width resolves to that same width. */
  lemma ResolveWidthIdempotent(text: string)
    ensures ResolveWidth(IntToString(ResolveWidth(text).width)) == WidthChoice(ResolveWidth(text).width, false)
  {
    ParseIntRoundTrip(ResolveWidth(text).width);
  }

  /** Typing any integer n gives max(4, n). */
  lemma ResolveWidthOfNumber(n: int)
    ensures ResolveWidth(IntToString(n)) == WidthChoice(Max(MinWidth, n), false)
  {
    ParseIntRoundTrip(n);
  }

  // ------------------------------------------------------------------
  // Color mode
  // ------------------------------------------------------------------

  /** Only the exact answer "1" selects green; anything else, including no
      answer, selects full RGB. */
  function ChooseMode(answer: string): (m: ColorMode)
  {
    if answer != "1" then TrueColor else Green
  }

  /** The menu key that selects each mode. */
  function MenuKey(m: ColorMode): string
  {
    match m
    case Green => "1"
    case TrueColor => "2"
  }

  lemma ChooseModeExact(answer: string)
    ensures ChooseMode(answer) == Green <==> answer == "1"
    ensures answer == "" ==> ChooseMode(answer) == TrueColor
  {
  }

  lemma ChooseModeOfMenuKey(m: ColorMode)
    ensures ChooseMode(MenuKey(m)) == m
  {
  }

  // ------------------------------------------------------------------
  // Input discovery and output naming
  // ------------------------------------------------------------------

  /** The container extensions tried, in order. */
  const Extensions: seq<string> := [".mp4", ".avi", ".mov", ".mkv"]

  /** A leading dot followed by at least one dot-free, separator-free character. */
  lemma DotThenPlain(e: string)
    requires |e| > 1 && e[0] == '.'
    requires forall j :: 1 <= j < |e| ==> e[j] != '.' && e[j] != '/'
    ensures IsExtension(e)
  {
    assert e[0] != '/';
  }

  lemma ExtensionsAreExtensions()
    ensures forall k :: 0 <= k < |Extensions| ==> IsExtension(Extensions[k])
  {
    DotThenPlain(".mp4");
    DotThenPlain(".avi");
    DotThenPlain(".mov");
    DotThenPlain(".mkv");
  }

  /** The first base + ext that is a file, trying exts in order. */
  function FirstExisting(base: string, pathExists: string -> bool, exts: seq<string>): (r: Option<string>)
    ensures r.None? <==> forall k :: 0 <= k < |exts| ==> !pathExists(base + exts[k])
    ensures r.Some? ==>
      exists k :: 0 <= k < |exts| && r.value == base + exts[k] && pathExists(r.value)
        && forall j :: 0 <= j < k ==> !pathExists(base + exts[j])
  {
    if |exts| == 0 then None
    else if pathExists(base + exts[0]) then
      assert base + exts[0] == base + exts[0];
      Some(base + exts[0])
    else
      var r := FirstExisting(base, pathExists, exts[1..]);
      assert forall k :: 1 <= k < |exts| ==> exts[k] == exts[1..][k - 1];
      r
  }

  lemma {:induction false} FirstExistingSkip(base: string, pathExists: string -> bool, exts: seq<string>, i: nat)
    requires i <= |exts|
    requires forall j :: 0 <= j < i ==> !pathExists(base + exts[j])
    ensures FirstExisting(base, pathExists, exts) == FirstExisting(base, pathExists, exts[i..])
  {
    if i > 0 {
      assert exts[1..][i - 1..] == exts[i..];
      FirstExistingSkip(base, pathExists, exts[1..], i - 1);
    }
  }

  /** The extension search loop; None is the "Input file not found!" exit. */
  method FindInput(base: string, pathExists: string -> bool) returns (path: Option<string>)
    ensures path == FirstExisting(base, pathExists, Extensions)
  {
    path := None;
    var i := 0;
    while i < |Extensions|
      invariant 0 <= i <= |Extensions|
      invariant forall j :: 0 <= j < i ==> !pathExists(base + Extensions[j])
    {
      var ext := Extensions[i];
      if pathExists(base + ext) {
        FirstExistingSkip(base, pathExists, Extensions, i);
        path := Some(base + ext);
        return;
      }
      i := i + 1;
    }
  }

  /** The output path: next to the input with "_ascii.mp4" after its stem
      when no name was given, otherwise the given name with ".mp4". */
  function OutputPath(input: string, outputName: string): (out: string)
    ensures outputName != [] ==> out == outputName + ".mp4"
    ensures outputName == [] ==> Dir(out) == Dir(input) && Name(out) == Stem(input) + "_ascii.mp4"
  {
    if outputName == [] then
      StemWithTag(input, "_ascii.mp4");
      WithName(input, Stem(input) + "_ascii.mp4")
    else outputName + ".mp4"
  }

  /** The name the silent video is moved to before remuxing. */
  function TempPath(output: string): (t: string)
    ensures Dir(t) == Dir(output) && Name(t) == Stem(output) + "_temp.mp4"
  {
    StemWithTag(output, "_temp.mp4");
    WithName(output, Stem(output) + "_temp.mp4")
  }

  /** The rename never targets the output path itself. */
  lemma TempDiffersFromOutput(output: string)
    ensures TempPath(output) != output
  {
    var t := TempPath(output);
    var s := Stem(output);
    assert Name(output) == s + Suffix(output);
    if Suffix(output) == [] {
      assert |Name(t)| != |Name(output)|;
    } else {
      assert Name(t)[|s|] == '_' && Name(output)[|s|] == '.';
    }
  }

  /** The default output name never overwrites the input being read. */
  lemma DefaultOutputDiffersFromInput(input: string)
    ensures OutputPath(input, "") != input
  {
    var out := OutputPath(input, "");
    var s := Stem(input);
    assert Name(input) == s + Suffix(input);
    if Suffix(input) == [] {
      assert |Name(out)| != |Name(input)|;
    } else {
      assert Name(out)[|s|] == '_' && Name(input)[|s|] == '.';
    }
  }

  lemma OutputPathParts(input: string)
    ensures OutputPath(input, "") == Dir(input) + (Stem(input) + "_ascii.mp4")
  {
  }

  lemma TempPathParts(q: string)
    ensures TempPath(q) == Dir(q) + (Stem(q) + "_temp.mp4")
  {
  }

  lemma RejoinAppend(p: string, t: string)
    ensures Dir(p) + (Name(p) + t) == p + t
  {
    DirNameSplit(p);
  }

  /** A path p + ".mp4" whose p names a file is renamed to p + "_temp.mp4". */
  lemma {:induction false} TempOfMp4(p: string)
    requires Name(p) != []
    ensures TempPath(p + ".mp4") == p + "_temp.mp4"
  {
    var q := p + ".mp4";
    DotThenPlain(".mp4");
    StemOfExtended(p, ".mp4");
    NameOfAppend(p, ".mp4");
    TempPathParts(q);
    RejoinAppend(p, "_temp.mp4");
  }

  /** For a found input base + ext whose base names a file (not a directory
      ending in '/'), the default output is base + "_ascii.mp4". */
  lemma {:induction false} DefaultOutputPath(base: string, ext: string)
    requires IsExtension(ext)
    requires Name(base) != []
    ensures OutputPath(base + ext, "") == base + "_ascii.mp4"
  {
    StemOfExtended(base, ext);
    NameOfAppend(base, ext);
    OutputPathParts(base + ext);
    RejoinAppend(base, "_ascii.mp4");
  }

  lemma AsciiSuffixes(base: string)
    ensures (base + "_ascii") + ".mp4" == base + "_ascii.mp4"
    ensures (base + "_ascii") + "_temp.mp4" == base + "_ascii_temp.mp4"
  {
  }

  /** ... and the temporary file it is renamed to is base + "_ascii_temp.mp4". */
  lemma {:induction false} DefaultTempPath(base: string)
    requires Name(base) != []
    ensures TempPath(base + "_ascii.mp4") == base + "_ascii_temp.mp4"
  {
    AsciiSuffixes(base);
    NameOfAppend(base, "_ascii");
    TempOfMp4(base + "_ascii");
  }
}
