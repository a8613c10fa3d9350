/** What the main loop derives from a ROM's file name alone: its kind
    (renamer.py:176-183), the configuration name it should get
    (renamer.py:188) and the name looked up for it (renamer.py:185-186). */
module RomNames {
  import opened Wrappers
  import opened Strings
  import DatFiles

  /** How the main loop treats a directory entry, by its name's suffix. */
  datatype Kind = ZipArchive | SevenZipArchive | Sidecar | PlainRom

  /** The suffixes of files that accompany ROMs and are skipped: notes,
      configurations, saves, save RAM, options, save states, XML, playlists,
      and anything ending in "rtc" (checked without a dot). */
  const SidecarSuffixes: seq<string> := [".txt", ".cfg", ".sav", ".srm", ".opt", ".state", ".xml", ".m3u", "rtc"]

  predicate IsSidecarName(name: string)
  {
    exists i :: 0 <= i < |SidecarSuffixes| && EndsWith(name, SidecarSuffixes[i])
  }

  lemma EndsWithLast(name: string, suffix: string)
    requires |suffix| > 0 && EndsWith(name, suffix)
    ensures name[|name| - 1] == suffix[|suffix| - 1]
  {
    assert name[|name| - |suffix|..][|suffix| - 1] == name[|name| - 1];
  }

  /** The archive suffixes and the sidecar suffixes end in different
      letters, so no name carries two of these kinds. */
  lemma SuffixesExclusive(name: string)
    ensures !(EndsWith(name, ".zip") && EndsWith(name, ".7z"))
    ensures IsSidecarName(name) ==> !EndsWith(name, ".zip") && !EndsWith(name, ".7z")
  {
    if EndsWith(name, ".zip") {
      EndsWithLast(name, ".zip");
    }
    if EndsWith(name, ".7z") {
      EndsWithLast(name, ".7z");
    }
    if IsSidecarName(name) {
      var i :| 0 <= i < |SidecarSuffixes| && EndsWith(name, SidecarSuffixes[i]);
      SidecarLastLetter(i);
      EndsWithLast(name, SidecarSuffixes[i]);
    }
  }

  /** No sidecar suffix ends in the last letter of ".zip" or of ".7z". */
  lemma SidecarLastLetter(i: nat)
    requires i < |SidecarSuffixes|
    ensures var x := SidecarSuffixes[i]; |x| > 0 && x[|x| - 1] != 'p' && x[|x| - 1] != 'z'
  {
  }

  /** The dispatch at renamer.py:176-183: `.zip`, else `.7z`, else a
      sidecar suffix, else a plain ROM. Because the suffix families are
      disjoint, each kind holds exactly when its own suffix test does, and
      the order of the tests never decides anything. */
  function Classify(name: string): (k: Kind)
    ensures k == ZipArchive <==> EndsWith(name, ".zip")
    ensures k == SevenZipArchive <==> EndsWith(name, ".7z")
    ensures k == Sidecar <==> IsSidecarName(name)
    ensures k == PlainRom <==> !EndsWith(name, ".zip") && !EndsWith(name, ".7z") && !IsSidecarName(name)
  {
    SuffixesExclusive(name);
    if EndsWith(name, ".zip") then ZipArchive
    else if EndsWith(name, ".7z") then SevenZipArchive
    else if IsSidecarName(name) then Sidecar
    else PlainRom
  }

  /** The bare "rtc" test also skips names such as "Ultrartc", and the
      tests are case-sensitive, so "GAME.ZIP" is read as a plain ROM. */
  lemma ClassifyQuirks()
    ensures Classify("Ultrartc") == Sidecar
    ensures Classify("GAME.ZIP") == PlainRom
  {
    assert EndsWith("Ultrartc", SidecarSuffixes[8]);
    assert !EndsWith("GAME.ZIP", ".zip");
    assert !EndsWith("GAME.ZIP", ".7z");
    assert !IsSidecarName("GAME.ZIP") by {
      forall i | 0 <= i < |SidecarSuffixes|
        ensures !EndsWith("GAME.ZIP", SidecarSuffixes[i])
      {
        if EndsWith("GAME.ZIP", SidecarSuffixes[i]) {
          EndsWithLast("GAME.ZIP", SidecarSuffixes[i]);
        }
      }
    }
  }

  /** `s.rfind(c)`: the index of the last `c` in `s`, or -1. */
  function RFind(s: string, c: char): (r: int)
    ensures -1 <= r < |s|
    ensures r >= 0 ==> s[r] == c
    ensures forall j :: r < j < |s| ==> s[j] != c
  {
    if s == [] then -1
    else if s[|s| - 1] == c then |s| - 1
    else RFind(s[..|s| - 1], c)
  }

  /** `os.path.splitext(p)[0]` on POSIX: `p` without its extension, the
      extension being the part from the last '.' after the last '/',
      provided some character between that '/' and that '.' is not a '.'
      (so a leading-dot name such as ".bashrc" has no extension).
      What is cut off is always a '.' followed by neither '.' nor '/'. */
  function SplitextRoot(p: string): (root: string)
    ensures |root| <= |p| && root == p[..|root|]
    ensures |root| < |p| ==> p[|root|] == '.' && '.' !in p[|root| + 1..] && '/' !in p[|root| + 1..]
  {
    var sepIndex := RFind(p, '/');
    var dotIndex := RFind(p, '.');
    if dotIndex > sepIndex && exists k :: sepIndex < k < dotIndex && p[k] != '.' then
      assert forall j :: dotIndex < j < |p| ==> p[j] != '.' && p[j] != '/';
      p[..dotIndex]
    else p
  }

  /** A file name made of a stem that is not all dots and an extension
      loses exactly its extension: "Super Mario Bros. (World).zip" gives
      "Super Mario Bros. (World)". */
  lemma SplitextStem(stem: string, ext: string)
    requires '/' !in stem && '/' !in ext && '.' !in ext
    requires exists k :: 0 <= k < |stem| && stem[k] != '.'
    ensures SplitextRoot(stem + "." + ext) == stem
  {
    var p := stem + "." + ext;
    var sepIndex := RFind(p, '/');
    var dotIndex := RFind(p, '.');
    assert p[|stem|] == '.';
    assert forall j :: |stem| < j < |p| ==> p[j] == ext[j - |stem| - 1];
    assert dotIndex == |stem|;
    assert sepIndex == -1;
    var k :| 0 <= k < |stem| && stem[k] != '.';
    assert p[k] == stem[k];
  }

  /** A name without any '.' has no extension. */
  lemma SplitextNoDot(p: string)
    requires '.' !in p
    ensures SplitextRoot(p) == p
  {
  }

  /** `f'{os.path.splitext(rom_filename)[0]}.cfg'`: the configuration name
      a ROM's configuration is renamed to. */
  function NewConfigName(romFilename: string): (n: string)
    ensures EndsWith(n, ".cfg")
    ensures n[..|n| - 4] == SplitextRoot(romFilename)
  {
    SplitextRoot(romFilename) + ".cfg"
  }

  /** `f'{game_name}.cfg'`: the configuration name the frontend setup
      gave the game. */
  function OldConfigName(gameName: string): (n: string)
    ensures EndsWith(n, ".cfg") && n[..|n| - 4] == gameName
  {
    gameName + ".cfg"
  }

  /** A ROM named by a stem that is not all dots and an extension gets
      the stem's configuration name: "Super Mario Bros. (World).zip" gives
      "Super Mario Bros. (World).cfg". */
  lemma NewConfigNameOfStem(stem: string, ext: string)
    requires '/' !in stem && '/' !in ext && '.' !in ext
    requires exists k :: 0 <= k < |stem| && stem[k] != '.'
    ensures NewConfigName(stem + "." + ext) == stem + ".cfg"
  {
    SplitextStem(stem, ext);
  }

  /** A ROM name without any '.' keeps all of itself: "Tetris" gives
      "Tetris.cfg". */
  lemma NewConfigNameNoDot(romFilename: string)
    requires '.' !in romFilename
    ensures NewConfigName(romFilename) == romFilename + ".cfg"
  {
    SplitextNoDot(romFilename);
  }

  /** A name that is a single '.' and an extension counts as having no
      extension, so ".zip" gives ".zip.cfg", not ".cfg". */
  lemma {:induction false} NewConfigNameLeadingDot(ext: string)
    requires '/' !in ext && '.' !in ext
    ensures NewConfigName("." + ext) == "." + ext + ".cfg"
  {
    var p := "." + ext;
    assert forall j :: 0 < j < |p| ==> p[j] == ext[j - 1] && p[j] != '.' && p[j] != '/';
    var dotIndex := RFind(p, '.');
    assert p[0] == '.';
    assert dotIndex == 0;
    assert RFind(p, '/') == -1;
  }

  /** Renaming moves the configuration onto itself exactly when the ROM's
      name without its extension is the game name. */
  lemma ConfigNamesAgree(romFilename: string, gameName: string)
    ensures NewConfigName(romFilename) == OldConfigName(gameName) <==> SplitextRoot(romFilename) == gameName
  {
  }

  /** `crc_to_name_mapping.get(crc)` followed by the test `if game_name:`:
      a name is found only when the checksum is a key and its value is a
      present, non-empty name. */
  function GameNameFor(mapping: DatFiles.CrcMap, crc: DatFiles.Crc): (r: Option<string>)
    ensures r.Some? <==> crc in mapping && mapping[crc].Some? && mapping[crc].value != ""
    ensures r.Some? ==> mapping[crc] == Some(r.value)
  {
    if crc in mapping && mapping[crc].Some? && mapping[crc].value != "" then mapping[crc] else None
  }

  /** Looked up in the merged mapping, a checksum yields the name `n`
      exactly when `n` is not empty and the last `rom` entry carrying that
      checksum, over all DAT files in order, belongs to a game named `n`. */
  lemma GameNameForMerged(dats: seq<DatFiles.Dat>, crc: DatFiles.Crc, n: string)
    ensures GameNameFor(DatFiles.MergedMapping(dats), crc) == Some(n) <==>
      n != "" && exists i :: (DatFiles.LastWriteAt(DatFiles.AllWrites(dats), crc, i) &&
        DatFiles.AllWrites(dats)[i].1 == Some(n))
  {
    var ws := DatFiles.AllWrites(dats);
    var m := DatFiles.MergedMapping(dats);
    DatFiles.MergedLastWriteWins(dats);
    if crc in m {
      DatFiles.LastWriteExists(ws, crc);
      var i :| DatFiles.LastWriteAt(ws, crc, i);
      assert m[crc] == ws[i].1;
      forall j | DatFiles.LastWriteAt(ws, crc, j)
        ensures j == i
      {
        DatFiles.LastWriteIsUnique(ws, crc, i, j);
      }
    }
  }
}
