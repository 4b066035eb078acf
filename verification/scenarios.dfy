/** Concrete runs: a one-game datfile and a check directory holding one file. */
module Scenarios {
  import opened Wrappers
  import opened Catalog
  import opened Extensions
  import opened Scanner
  import opened Digest
  import opened Engine
  import opened Pipeline

  /** A rom element with the two attributes the index reads. */
  function Rom(sha1: string, name: string): Element
  {
    Element("rom", map["sha1" := sha1, "name" := name], [])
  }

  /** A datfile whose root holds one game with the given children. */
  function OneGame(children: seq<Element>): Element
  {
    Element("datafile", map[], [Element("game", map["name" := "Game"], children)])
  }

  /** What the recursive walk of `check` yields for a directory holding one
      file: the directory itself, then the file. */
  // The paths are spelled as the concatenations that BasenameBelow and
  // ExtOfName talk about, so no proof has to take string literals apart.
  const Walk: seq<string> := ["check" + "/", "check" + "/" + "game" + "." + "bin"]

  /** A path ending in '/' has an empty final component, hence no extension. */
  lemma DirectoryHasNoExtension(dir: string)
    ensures Ext(dir + "/") == ""
  {
  }

  /** Both entries of the walk get their extension as splitext computes it. */
  lemma WalkExtensions()
    ensures Ext(Walk[0]) == ""
    ensures Ext(Walk[1]) == ".bin"
  {
    DirectoryHasNoExtension("check");
    assert "game"[0] != '.';
    ExtOfName("check", "game", "bin");
  }

  /** With the default option, the walk yields the file as its one candidate. */
  lemma WalkCandidates()
    ensures Candidates(Walk, ExtensionList(DefaultExtensions)) == [Candidate(Walk[1], ".bin")]
  {
    DefaultExtensionList();
    WalkCandidatesAmong(ExtensionList(DefaultExtensions));
  }

  /** The walk's one candidate under any extension list holding `.bin` but not
      the empty extension. */
  lemma WalkCandidatesAmong(exts: seq<string>)
    requires ".bin" in exts && "" !in exts
    ensures Candidates(Walk, exts) == [Candidate(Walk[1], ".bin")]
  {
    WalkExtensions();
    var rest := Walk[1..];
    assert Candidates(Walk, exts) == Candidates(rest, exts);
    assert rest[0] == Walk[1] && rest[1..] == [];
    assert Candidates(rest, exts) == [Candidate(Walk[1], ".bin")] + Candidates([], exts);
  }

  /** The index of the one-rom datfile maps its digest to its name. */
  lemma OneRomIndex(sha1: string, name: string)
    ensures BuildIndex(OneGame([Rom(sha1, name)])) == Success(map[sha1 := name])
  {
    var rom := Rom(sha1, name);
    var games := OneGame([rom]).children;
    assert RomsAmong([rom]) == [rom] by {
      assert [rom][1..] == [];
    }
    assert RomsOf(games) == [rom] by {
      assert games[..0] == [];
      assert GameByGame(games) == GameByGame([]) + RomsAmong([rom]);
    }
    assert IndexRoms([rom]) == Insert(map[], rom) by {
      assert [rom][..0] == [];
    }
  }

  /** A run over a single candidate records that candidate's verdict. */
  lemma RunOne(index: Index, H: seq<byte> -> string, fs: string -> ReadOutcome, c: Candidate)
    ensures Run(index, H, fs, Initial, [c]) == Record(Initial, c.ext, Classify(index, H, fs(c.path)))
  {
  }

  /** Past the two guards, a run is the verification of the walk's files. */
  lemma PastGuards(datfile: Element, index: Index, extOption: string, paths: seq<string>,
                   fs: string -> ReadOutcome, H: seq<byte> -> string)
    requires |datfile.children| > 0 && BuildIndex(datfile) == Success(index) && |index| > 0
    ensures Verify(Some(datfile), extOption, paths, fs, H)
            == Finished(VerifyFiles(index, ExtensionList(extOption), paths, fs, H))
  {
  }

  /** With a one-rom datfile the run records the verdict of the walk's one file. */
  lemma OneRomRun(fs: string -> ReadOutcome, H: seq<byte> -> string, sha1: string, name: string)
    ensures Verify(Some(OneGame([Rom(sha1, name)])), DefaultExtensions, Walk, fs, H)
            == Finished(Record(Initial, ".bin", Classify(map[sha1 := name], H, fs(Walk[1]))))
  {
    var index := map[sha1 := name];
    OneRomIndex(sha1, name);
    assert |index| == 1;
    WalkCandidates();
    RunOne(index, H, fs, Candidate(Walk[1], ".bin"));
    PastGuards(OneGame([Rom(sha1, name)]), index, DefaultExtensions, Walk, fs, H);
  }

  /** An empty file whose digest the datfile lists is a match: checked once,
      nothing bad, nothing skipped. */
  lemma EmptyFileMatches(fs: string -> ReadOutcome, H: seq<byte> -> string)
    requires fs(Walk[1]) == Read([])
    ensures Verify(Some(OneGame([Rom(H([]), "game.bin")])), DefaultExtensions, Walk, fs, H)
            == Finished(Summary(map[".bin" := 1], map[], map[]))
  {
    OneRomRun(fs, H, H([]), "game.bin");
  }

  /** A file whose digest the datfile does not list is checked and bad. */
  lemma UnlistedFileIsBad(fs: string -> ReadOutcome, H: seq<byte> -> string, content: seq<byte>, sha1: string)
    requires fs(Walk[1]) == Read(content)
    requires H(content) != sha1
    ensures Verify(Some(OneGame([Rom(sha1, "other.bin")])), DefaultExtensions, Walk, fs, H)
            == Finished(Summary(map[".bin" := 1], map[".bin" := 1], map[]))
  {
    OneRomRun(fs, H, sha1, "other.bin");
  }

  /** An unreadable file is skipped and neither checked nor bad. */
  lemma UnreadableFileIsSkipped(fs: string -> ReadOutcome, H: seq<byte> -> string, sha1: string)
    requires fs(Walk[1]) == ReadFailed
    ensures Verify(Some(OneGame([Rom(sha1, "game.bin")])), DefaultExtensions, Walk, fs, H)
            == Finished(Summary(map[], map[], map[".bin" := 1]))
  {
    OneRomRun(fs, H, sha1, "game.bin");
  }

  /** A datfile whose game lists no rom yields no reference data. */
  lemma NoRomsAborts(fs: string -> ReadOutcome, H: seq<byte> -> string)
    ensures Verify(Some(OneGame([])), DefaultExtensions, Walk, fs, H) == Aborted(NoReferenceData)
  {
  }

  /** The roms of a one-game datfile are the game's rom children. */
  lemma RomsOfOneGame(children: seq<Element>)
    ensures RomsOf(OneGame(children).children) == RomsAmong(children)
  {
    var games := OneGame(children).children;
    assert games[..0] == [];
    assert GameByGame(games) == GameByGame([]) + RomsAmong(children);
  }

  /** A list of rom elements is its own rom list. */
  lemma {:induction false} AllRoms(xs: seq<Element>)
    requires forall i | 0 <= i < |xs| :: xs[i].tag == "rom"
    ensures RomsAmong(xs) == xs
  {
    if |xs| > 0 {
      AllRoms(xs[1..]);
      assert [xs[0]] + xs[1..] == xs;
    }
  }

  /** The index of a one-game datfile is the index of the game's roms. */
  lemma OneGameIndex(children: seq<Element>)
    ensures BuildIndex(OneGame(children)) == IndexRoms(RomsAmong(children))
  {
    RomsOfOneGame(children);
  }

  /** The index of two roms sharing a digest holds that digest with the later name. */
  lemma TwoRomsSameDigest(sha1: string, first: string, second: string)
    ensures IndexRoms([Rom(sha1, first), Rom(sha1, second)]) == Success(map[sha1 := second])
  {
    var roms := [Rom(sha1, first), Rom(sha1, second)];
    var r := IndexRoms(roms);
    assert r.Success?;
    IndexKeys(roms);
    LastRomWins(roms, 1);
    assert r.value.Keys == {sha1};
    assert r.value == map[sha1 := second];
  }

  /** Two roms sharing a digest: the later name is kept. */
  lemma DuplicateDigestKeepsLastName(sha1: string, first: string, second: string)
    ensures BuildIndex(OneGame([Rom(sha1, first), Rom(sha1, second)])) == Success(map[sha1 := second])
  {
    var roms := [Rom(sha1, first), Rom(sha1, second)];
    AllRoms(roms);
    assert RomsAmong(roms) == roms;
    TwoRomsSameDigest(sha1, first, second);
    assert IndexRoms(roms) == Success(map[sha1 := second]);
    OneGameIndex(roms);
  }

  /** A rom without a `sha1` attribute stops the run with `KeyError('sha1')`,
      whatever the option, the walk and the files. */
  lemma MissingDigestCrashes(name: string, extOption: string, paths: seq<string>,
                             fs: string -> ReadOutcome, H: seq<byte> -> string)
    ensures Verify(Some(OneGame([Element("rom", map["name" := name], [])])), extOption, paths, fs, H)
            == Crashed(KeyError("sha1"))
  {
  }
}
