/** The two ignore-file readers, `readGitIgnore` and `readRepoSyncIgnore`:
    the file text is split into lines, each line is trimmed, empty lines and
    lines holding a `#` anywhere are dropped, the git variant also drops a
    line that is exactly `dist`, and one trailing `/` is stripped from what
    is left. The line separator is the platform's end-of-line string, a
    parameter here. */
module IgnoreFiles {
  import opened Strings
  import opened Paths
  import opened Disk

  /** A trimmed line that is kept: not empty and free of `#`. */
  predicate IsPattern(line: string)
  {
    |line| > 0 && '#' !in line
  }

  /** The extra git filter: the line is not exactly `dist`. */
  predicate NotDist(line: string)
  {
    line != "dist"
  }

  /** One trailing `/` removed, if there is one. */
  function StripSlash(line: string): (entry: string)
    ensures entry == line || entry + "/" == line
    ensures |line| > 0 && line[|line| - 1] == '/' <==> entry + "/" == line
  {
    if |line| > 0 && line[|line| - 1] == '/' then line[..|line| - 1] else line
  }

  /** The kept lines, trimmed, in file order. */
  function Patterns(text: string, eol: string): (kept: seq<string>)
    requires |eol| > 0
    ensures forall t :: t in kept ==> |t| > 0 && '#' !in t
  {
    Filter(Map(Split(text, eol), Trim), IsPattern)
  }

  /** The pipeline of `readRepoSyncIgnore` applied to the file text. */
  function ParseRepoSyncIgnore(text: string, eol: string): (entries: seq<string>)
    requires |eol| > 0
    ensures |entries| <= |Split(text, eol)|
    ensures forall e :: e in entries ==> '#' !in e
  {
    var kept := Patterns(text, eol);
    SubseqLength(kept, Map(Split(text, eol), Trim));
    MapMembers(kept, StripSlash);
    Map(kept, StripSlash)
  }

  /** The pipeline of `readGitIgnore` applied to the file text. */
  function ParseGitIgnore(text: string, eol: string): (entries: seq<string>)
    requires |eol| > 0
    ensures forall e :: e in entries ==> '#' !in e
    ensures IsSubseq(entries, ParseRepoSyncIgnore(text, eol))
  {
    var kept := Patterns(text, eol);
    var noDist := Filter(kept, NotDist);
    MapMembers(noDist, StripSlash);
    MapKeepsSubseq(noDist, kept, StripSlash);
    Map(noDist, StripSlash)
  }

  /** Every entry of a `.reposyncignore` comes from a line of the file that
      trims to a non-empty, `#`-free pattern, with at most its trailing `/`
      removed, and every such line yields its entry. */
  lemma RepoSyncIgnoreEntries(text: string, eol: string)
    requires |eol| > 0
    ensures forall e :: e in ParseRepoSyncIgnore(text, eol) <==>
      exists line :: line in Split(text, eol) && IsPattern(Trim(line)) && e == StripSlash(Trim(line))
  {
    forall e | e in ParseRepoSyncIgnore(text, eol)
      ensures exists line :: line in Split(text, eol) && IsPattern(Trim(line)) && e == StripSlash(Trim(line))
    {
      EntryFromLine(text, eol, e);
    }
    forall line | line in Split(text, eol) && IsPattern(Trim(line))
      ensures StripSlash(Trim(line)) in ParseRepoSyncIgnore(text, eol)
    {
      LineGivesEntry(text, eol, line);
    }
  }

  lemma EntryFromLine(text: string, eol: string, e: string)
    requires |eol| > 0 && e in ParseRepoSyncIgnore(text, eol)
    ensures exists line :: line in Split(text, eol) && IsPattern(Trim(line)) && e == StripSlash(Trim(line))
  {
    var lines := Split(text, eol);
    var trimmed := Map(lines, Trim);
    var kept := Patterns(text, eol);
    MapMembers(kept, StripSlash);
    var t :| t in kept && e == StripSlash(t);
    assert t in trimmed;
    var i :| 0 <= i < |trimmed| && trimmed[i] == t;
    assert lines[i] in lines;
  }

  lemma LineGivesEntry(text: string, eol: string, line: string)
    requires |eol| > 0 && line in Split(text, eol) && IsPattern(Trim(line))
    ensures StripSlash(Trim(line)) in ParseRepoSyncIgnore(text, eol)
  {
    var lines := Split(text, eol);
    var trimmed := Map(lines, Trim);
    var kept := Patterns(text, eol);
    var i :| 0 <= i < |lines| && lines[i] == line;
    assert trimmed[i] == Trim(line);
    assert Trim(line) in kept;
    var j :| 0 <= j < |kept| && kept[j] == Trim(line);
    assert Map(kept, StripSlash)[j] == StripSlash(Trim(line));
  }

  /** Every entry of a `.gitignore` comes from a line of the file that trims
      to a non-empty, `#`-free pattern other than `dist`, with at most its
      trailing `/` removed, and every such line yields its entry. */
  lemma GitIgnoreEntries(text: string, eol: string)
    requires |eol| > 0
    ensures forall e :: e in ParseGitIgnore(text, eol) <==>
      exists line :: line in Split(text, eol) && IsPattern(Trim(line)) && NotDist(Trim(line)) && e == StripSlash(Trim(line))
  {
    forall e | e in ParseGitIgnore(text, eol)
      ensures exists line :: line in Split(text, eol) && IsPattern(Trim(line)) && NotDist(Trim(line)) && e == StripSlash(Trim(line))
    {
      GitEntryFromLine(text, eol, e);
    }
    forall line | line in Split(text, eol) && IsPattern(Trim(line)) && NotDist(Trim(line))
      ensures StripSlash(Trim(line)) in ParseGitIgnore(text, eol)
    {
      GitLineGivesEntry(text, eol, line);
    }
  }

  lemma GitEntryFromLine(text: string, eol: string, e: string)
    requires |eol| > 0 && e in ParseGitIgnore(text, eol)
    ensures exists line :: line in Split(text, eol) && IsPattern(Trim(line)) && NotDist(Trim(line)) && e == StripSlash(Trim(line))
  {
    var lines := Split(text, eol);
    var trimmed := Map(lines, Trim);
    var noDist := Filter(Patterns(text, eol), NotDist);
    MapMembers(noDist, StripSlash);
    var t :| t in noDist && e == StripSlash(t);
    assert t in trimmed;
    var i :| 0 <= i < |trimmed| && trimmed[i] == t;
    assert lines[i] in lines;
  }

  lemma GitLineGivesEntry(text: string, eol: string, line: string)
    requires |eol| > 0 && line in Split(text, eol) && IsPattern(Trim(line)) && NotDist(Trim(line))
    ensures StripSlash(Trim(line)) in ParseGitIgnore(text, eol)
  {
    var lines := Split(text, eol);
    var trimmed := Map(lines, Trim);
    var kept := Patterns(text, eol);
    var noDist := Filter(kept, NotDist);
    var i :| 0 <= i < |lines| && lines[i] == line;
    assert trimmed[i] == Trim(line);
    assert Trim(line) in kept;
    assert Trim(line) in noDist;
    var j :| 0 <= j < |noDist| && noDist[j] == Trim(line);
    assert Map(noDist, StripSlash)[j] == StripSlash(Trim(line));
  }

  /** The entries keep the order of the lines they come from: they form a
      subsequence of all lines, trimmed and stripped. */
  lemma RepoSyncIgnoreKeepsOrder(text: string, eol: string)
    requires |eol| > 0
    ensures IsSubseq(ParseRepoSyncIgnore(text, eol), Map(Map(Split(text, eol), Trim), StripSlash))
  {
    MapKeepsSubseq(Patterns(text, eol), Map(Split(text, eol), Trim), StripSlash);
  }

  /** The lines that strip to `dist`. */
  lemma DistEntry(t: string)
    ensures StripSlash(t) == "dist" <==> t == "dist" || t == "dist/"
    ensures IsPattern("dist/") && NotDist("dist/")
  {
    if StripSlash(t) == "dist" && t != "dist" {
      assert t == "dist" + "/";
    }
    assert "dist/"[..4] == "dist";
    assert '#' !in "dist/";
  }

  /** The git reader yields `dist` exactly when some line trims to `dist/`:
      a bare `dist` line is dropped before the slash is stripped. */
  lemma GitIgnoreDist(text: string, eol: string)
    requires |eol| > 0
    ensures "dist" in ParseGitIgnore(text, eol) <==> exists line :: line in Split(text, eol) && Trim(line) == "dist/"
  {
    if "dist" in ParseGitIgnore(text, eol) {
      DistFromSlashedLine(text, eol);
    }
    if exists line :: line in Split(text, eol) && Trim(line) == "dist/" {
      var line :| line in Split(text, eol) && Trim(line) == "dist/";
      SlashedLineGivesDist(text, eol, line);
    }
  }

  lemma DistFromSlashedLine(text: string, eol: string)
    requires |eol| > 0
    requires "dist" in ParseGitIgnore(text, eol)
    ensures exists line :: line in Split(text, eol) && Trim(line) == "dist/"
  {
    var lines := Split(text, eol);
    var trimmed := Map(lines, Trim);
    var noDist := Filter(Patterns(text, eol), NotDist);
    MapMembers(noDist, StripSlash);
    var t :| t in noDist && "dist" == StripSlash(t);
    DistEntry(t);
    assert t in trimmed;
    var i :| 0 <= i < |trimmed| && trimmed[i] == t;
    assert lines[i] in lines && Trim(lines[i]) == "dist/";
  }

  lemma SlashedLineGivesDist(text: string, eol: string, line: string)
    requires |eol| > 0
    requires line in Split(text, eol) && Trim(line) == "dist/"
    ensures "dist" in ParseGitIgnore(text, eol)
  {
    var lines := Split(text, eol);
    var trimmed := Map(lines, Trim);
    var kept := Patterns(text, eol);
    var noDist := Filter(kept, NotDist);
    MapMembers(noDist, StripSlash);
    DistEntry("dist/");
    var i :| 0 <= i < |lines| && lines[i] == line;
    assert trimmed[i] == "dist/";
    assert "dist/" in trimmed;
    assert "dist/" in kept;
    assert "dist/" in noDist;
  }

  /** What a reader returns: `false` when the file does not exist (`Absent`),
      the entries when it can be read, and a thrown error otherwise. */
  datatype ReadOutcome = Absent | Entries(entries: seq<string>) | Failed

  /** Reads the file at `p` from the disk and runs `parse` over its text. */
  function ReadIgnoreFile(disk: Tree, p: Path, parse: string -> seq<string>): (r: ReadOutcome)
    ensures r.Absent? <==> !Exists(disk, p)
    ensures r.Failed? <==> Exists(disk, p) && !IsFile(disk, p)
    ensures r.Entries? ==> IsFile(disk, p) && r.entries == parse(disk[p].content)
  {
    if !Exists(disk, p) then Absent
    else match ReadFileSync(disk, p)
      case None => Failed
      case Some(text) => Entries(parse(text))
  }

  /** `readGitIgnore(dir)`. */
  function ReadGitIgnore(disk: Tree, cwd: Path, dir: string, eol: string): (r: ReadOutcome)
    requires |eol| > 0
    ensures var p := Resolve(cwd, dir + "/.gitignore");
      (r.Absent? <==> !Exists(disk, p)) &&
      (r.Entries? <==> IsFile(disk, p)) &&
      (r.Entries? ==> r.entries == ParseGitIgnore(disk[p].content, eol))
  {
    ReadIgnoreFile(disk, Resolve(cwd, dir + "/.gitignore"), text => ParseGitIgnore(text, eol))
  }

  /** `readRepoSyncIgnore(dir)`. */
  function ReadRepoSyncIgnore(disk: Tree, cwd: Path, dir: string, eol: string): (r: ReadOutcome)
    requires |eol| > 0
    ensures var p := Resolve(cwd, dir + "/.reposyncignore");
      (r.Absent? <==> !Exists(disk, p)) &&
      (r.Entries? <==> IsFile(disk, p)) &&
      (r.Entries? ==> r.entries == ParseRepoSyncIgnore(disk[p].content, eol))
  {
    ReadIgnoreFile(disk, Resolve(cwd, dir + "/.reposyncignore"), text => ParseRepoSyncIgnore(text, eol))
  }
}
