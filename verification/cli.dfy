/** The command-line front end: the banner printed at start-up and the
    `--watch` flag read from the arguments. */
module Cli {

  /** The default `padWidth` of `generateHeader`. */
  const DefaultPadWidth: int := 7

  /** The title line of the banner for a package version. */
  function Title(version: string): string
  {
    "RepoSync v" + version
  }

  /** `n` copies of `c`; none when `n` is not positive, as a `for` loop whose
      bound is below its start runs no iteration. */
  function Repeat(c: char, n: int): (r: string)
    ensures |r| == if n > 0 then n else 0
    ensures forall i :: 0 <= i < |r| ==> r[i] == c
    decreases if n > 0 then n else 0
  {
    if n <= 0 then "" else Repeat(c, n - 1) + [c]
  }

  /** How many times a `for (i = 0; i < n; i++)` loop runs. */
  function Count(n: int): nat
  {
    if n > 0 then n else 0
  }

  /** Repeating a non-positive number of times is repeating zero times. */
  lemma RepeatCount(c: char, n: int)
    ensures Repeat(c, Count(n)) == Repeat(c, n)
  {
  }

  /** The border line: `+`, one dash per title character and per padding
      column on either side, `+`. */
  function Border(title: string, padWidth: int): string
  {
    "+" + Repeat('-', |title| + padWidth * 2) + "+"
  }

  /** The padding in front of and after the title. */
  function SidePad(padWidth: int): string
  {
    Repeat(' ', padWidth + 1)
  }

  /** The whole banner: border, blank line, padded title (made bold by
      `bold`), blank line, border. */
  function Banner(version: string, padWidth: int, eol: string, bold: string -> string): string
  {
    var line := Border(Title(version), padWidth);
    var pad := SidePad(padWidth);
    line + eol + eol + pad + bold(Title(version)) + pad + eol + eol + line
  }

  /** The border starts and ends with `+` and holds exactly
      `|title| + 2 * padWidth` dashes in between (none when that is
      negative). */
  lemma BorderShape(title: string, padWidth: int)
    ensures var line := Border(title, padWidth);
      var dashes := if |title| + 2 * padWidth > 0 then |title| + 2 * padWidth else 0;
      |line| == dashes + 2 && line[0] == '+' && line[|line| - 1] == '+' &&
      forall i :: 0 < i < |line| - 1 ==> line[i] == '-'
  {
    var line := Border(title, padWidth);
    var dashes := Repeat('-', |title| + padWidth * 2);
    forall i | 0 < i < |line| - 1 ensures line[i] == '-' {
      assert line[i] == dashes[i - 1];
    }
  }

  /** The side padding is `padWidth + 1` spaces. */
  lemma SidePadShape(padWidth: int)
    requires padWidth >= 0
    ensures |SidePad(padWidth)| == padWidth + 1
    ensures forall i :: 0 <= i < |SidePad(padWidth)| ==> SidePad(padWidth)[i] == ' '
  {
  }

  /** The banner begins and ends with the same border. */
  lemma BannerFramed(version: string, padWidth: int, eol: string, bold: string -> string)
    ensures var banner := Banner(version, padWidth, eol, bold);
      var line := Border(Title(version), padWidth);
      |banner| >= 2 * |line| &&
      banner[..|line|] == line && banner[|banner| - |line|..] == line
  {
    var line := Border(Title(version), padWidth);
    var pad := SidePad(padWidth);
    var middle := eol + eol + pad + bold(Title(version)) + pad + eol + eol;
    assert Banner(version, padWidth, eol, bold) == line + middle + line;
  }

  /** With the default width the border is 16 characters wider than the
      title: 14 dashes of padding and the two corners. */
  lemma DefaultBorderWidth(version: string)
    ensures |Border(Title(version), DefaultPadWidth)| == |version| + 10 + 16
  {
  }

  /** One of the two `for` loops of `generateHeader`: `n` copies of `c`
      appended one at a time to `prefix`. */
  method Fill(prefix: string, c: char, n: int) returns (s: string)
    ensures s == prefix + Repeat(c, n)
  {
    s := prefix;
    var i := 0;
    while i < n
      invariant 0 <= i <= Count(n)
      invariant s == prefix + Repeat(c, i)
      decreases n - i
    {
      s := s + [c];
      i := i + 1;
    }
    RepeatCount(c, n);
  }

  /** `generateHeader(padWidth)`: the side padding and the border are built
      one character at a time, then assembled around the bold title. */
  method GenerateHeader(version: string, padWidth: int, eol: string, bold: string -> string) returns (banner: string)
    ensures banner == Banner(version, padWidth, eol, bold)
  {
    var consoleHeader := Title(version);
    var sidePad := Fill("", ' ', padWidth + 1);
    var line := Fill("+", '-', |consoleHeader| + padWidth * 2);
    line := line + "+";
    banner := line + eol + eol + sidePad + bold(consoleHeader) + sidePad + eol + eol + line;
  }

  /** `generateHeader()` with the default width, as printed at start-up. */
  method GenerateDefaultHeader(version: string, eol: string, bold: string -> string) returns (banner: string)
    ensures banner == Banner(version, DefaultPadWidth, eol, bold)
  {
    banner := GenerateHeader(version, DefaultPadWidth, eol, bold);
  }

  /** The `watch` flag: `--watch` or `-w` among the arguments after the
      runtime and the script (`process.argv.slice(2)`). */
  function WatchFlag(argv: seq<string>): (watch: bool)
    ensures watch <==> exists i :: 2 <= i < |argv| && (argv[i] == "--watch" || argv[i] == "-w")
  {
    var args := if |argv| <= 2 then [] else argv[2..];
    assert forall x :: x in args <==> exists i :: 2 <= i < |argv| && argv[i] == x;
    "--watch" in args || "-w" in args
  }
}
