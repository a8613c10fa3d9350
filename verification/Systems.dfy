/** The table of supported systems (renamer.py:12-63) and the reverse
    lookup from a ROM directory to a system name, `get_system_from_rom_dir`
    (renamer.py:67-73). */
module Systems {
  import opened Wrappers

  /** `supported_systems`, in its insertion order: (system, ROM directory).
      Python dictionaries iterate in insertion order, so the order is part
      of the behaviour: "nes" and "msx" each appear twice. */
  const SupportedSystems: seq<(string, string)> := [
    ("Amiga", "amiga"),
    ("AmstradCPC", "amstradcpc"),
    ("Atari2600", "atari2600"),
    ("Atari5200", "atari5200"),
    ("Atari7800", "atari7800"),
    ("Atari800", "atari800"),
    ("AtariJaguar", "atarijaguar"),
    ("AtariLynx", "atarilynx"),
    ("AtariST", "atarist"),
    ("C64", "c64"),
    ("ColecoVision", "coleco"),
    ("Dreamcast", "dreamcast"),
    ("FDS", "fds"),
    ("Famicom", "nes"),
    ("GB", "gb"),
    ("GBA", "gba"),
    ("GBC", "gbc"),
    ("GCEVectrex", "vectrex"),
    ("GameGear", "gamegear"),
    ("Intellivision", "intellivision"),
    ("MAME", "mame-libretro"),
    ("MSX", "msx"),
    ("MSX2", "msx"),
    ("MasterSystem", "mastersystem"),
    ("MegaDrive", "megadrive"),
    ("N64", "n64"),
    ("NDS", "nds"),
    ("NES", "nes"),
    ("NGP", "ngp"),
    ("NGPC", "ngpc"),
    ("PCEngine", "pcengine"),
    ("PSX", "psx"),
    ("SG-1000", "sg-1000"),
    ("SNES", "snes"),
    ("Saturn", "saturn"),
    ("Sega32X", "sega32x"),
    ("SegaCD", "segacd"),
    ("Videopac", "videopac"),
    ("Virtualboy", "virtualboy")
  ]

  /** Positions in the table of the entries that share a ROM directory:
      "Famicom" and "NES" both use "nes" (renamer.py:29, renamer.py:43),
      "MSX" and "MSX2" both use "msx" (renamer.py:37-38). */
  const FamicomIndex: nat := 13
  const MsxIndex: nat := 21
  const Msx2Index: nat := 22
  const NesIndex: nat := 27

  /** `os.path.basename(path)`: everything after the last '/', which is
      empty when the path ends in '/'. */
  function Basename(path: string): (b: string)
    ensures |b| <= |path| && b == path[|path| - |b|..]
    ensures '/' !in b
    ensures |b| < |path| ==> path[|path| - |b| - 1] == '/'
  {
    if path == [] || path[|path| - 1] == '/' then []
    else Basename(path[..|path| - 1]) + [path[|path| - 1]]
  }

  /** Index of the first entry of `table` whose ROM directory is `dir`. */
  function FirstIndexFor(table: seq<(string, string)>, dir: string): (r: Option<nat>)
    ensures r.Some? ==> r.value < |table| && table[r.value].1 == dir
    ensures r.Some? ==> forall j :: 0 <= j < r.value ==> table[j].1 != dir
    ensures r.None? <==> forall j :: 0 <= j < |table| ==> table[j].1 != dir
  {
    if table == [] then None
    else if table[0].1 == dir then Some(0)
    else match FirstIndexFor(table[1..], dir)
      case None => None
      case Some(i) => Some(i + 1)
  }

  /** `get_system_from_rom_dir(rom_dir)`: the first system, in table order,
      whose ROM directory is the basename of `romDir`; None when no entry has it. */
  function GetSystemFromRomDir(romDir: string): (r: Option<string>)
    ensures r.Some? ==> exists i :: (0 <= i < |SupportedSystems| &&
      SupportedSystems[i] == (r.value, Basename(romDir)) &&
      forall j :: 0 <= j < i ==> SupportedSystems[j].1 != Basename(romDir))
    ensures r.None? <==> forall j :: 0 <= j < |SupportedSystems| ==> SupportedSystems[j].1 != Basename(romDir)
  {
    match FirstIndexFor(SupportedSystems, Basename(romDir))
    case None => None
    case Some(i) => Some(SupportedSystems[i].0)
  }

  /** An entry is the answer when it matches and no earlier entry does. */
  lemma {:induction false} FirstIndexForHit(table: seq<(string, string)>, dir: string, k: nat)
    requires k < |table| && table[k].1 == dir
    requires forall j :: 0 <= j < k ==> table[j].1 != dir
    ensures FirstIndexFor(table, dir) == Some(k)
  {
    if k > 0 {
      FirstIndexForHit(table[1..], dir, k - 1);
    }
  }

  /** An entry whose directory also appears earlier is never the answer. */
  lemma Shadowed(table: seq<(string, string)>, dir: string, j: nat, i: nat)
    requires j < i < |table| && table[j].1 == table[i].1
    ensures FirstIndexFor(table, dir) != Some(i)
  {
  }

  /** The duplicated ROM directories resolve to their first system:
      a directory named "nes" gives "Famicom", never "NES". */
  lemma NesIsFamicom(romDir: string)
    requires Basename(romDir) == "nes"
    ensures GetSystemFromRomDir(romDir) == Some("Famicom")
  {
    var d := Basename(romDir);
    FirstMatchAt(d, FamicomIndex);
    SystemAt(FamicomIndex);
    ResolvesTo(romDir, d, FamicomIndex, "Famicom");
  }

  lemma FirstMatchAt(d: string, k: nat)
    requires (d, k) == ("nes", FamicomIndex) || (d, k) == ("msx", MsxIndex)
    ensures FirstIndexFor(SupportedSystems, d) == Some(k)
  {
    FirstIndexForHit(SupportedSystems, d, k);
  }

  lemma SystemAt(k: nat)
    requires k == FamicomIndex || k == MsxIndex
    ensures k < |SupportedSystems|
    ensures SupportedSystems[k].0 == if k == FamicomIndex then "Famicom" else "MSX"
  {
  }

  lemma ResolvesTo(romDir: string, d: string, k: nat, system: string)
    requires k < |SupportedSystems| && Basename(romDir) == d
    requires FirstIndexFor(SupportedSystems, d) == Some(k)
    requires SupportedSystems[k].0 == system
    ensures GetSystemFromRomDir(romDir) == Some(system)
  {
  }

  /** A directory named "msx" gives "MSX", never "MSX2". */
  lemma MsxIsMsx(romDir: string)
    requires Basename(romDir) == "msx"
    ensures GetSystemFromRomDir(romDir) == Some("MSX")
  {
    var d := Basename(romDir);
    FirstMatchAt(d, MsxIndex);
    SystemAt(MsxIndex);
    ResolvesTo(romDir, d, MsxIndex, "MSX");
  }

  /** A full path is looked up by its last component. */
  lemma LastComponentDecides(parent: string, name: string)
    requires '/' !in name
    ensures GetSystemFromRomDir(parent + "/" + name) == GetSystemFromRomDir(name)
  {
    BasenameAfterSlash(parent, name);
  }

  /** The second system of a duplicated directory, "NES" and "MSX2", is
      never the answer. */
  lemma ShadowedSystemsUnreachable(romDir: string)
    ensures GetSystemFromRomDir(romDir) != Some("NES")
    ensures GetSystemFromRomDir(romDir) != Some("MSX2")
  {
    var d := Basename(romDir);
    var r := FirstIndexFor(SupportedSystems, d);
    if r.Some? {
      NesShadowed(d);
      Msx2Shadowed(d);
      AnswerAt(romDir, r.value);
    }
  }

  lemma NesShadowed(d: string)
    ensures FirstIndexFor(SupportedSystems, d) != Some(NesIndex)
  {
    Shadowed(SupportedSystems, d, FamicomIndex, NesIndex);
  }

  lemma Msx2Shadowed(d: string)
    ensures FirstIndexFor(SupportedSystems, d) != Some(Msx2Index)
  {
    Shadowed(SupportedSystems, d, MsxIndex, Msx2Index);
  }

  lemma AnswerAt(romDir: string, i: nat)
    requires FirstIndexFor(SupportedSystems, Basename(romDir)) == Some(i)
    requires i != NesIndex && i != Msx2Index
    ensures GetSystemFromRomDir(romDir) != Some("NES")
    ensures GetSystemFromRomDir(romDir) != Some("MSX2")
  {
    KeysAt(i);
    ResolvesTo(romDir, Basename(romDir), i, SupportedSystems[i].0);
  }

  /** "NES" and "MSX2" each name exactly one entry of the table: they are
      present, at `NesIndex` and `Msx2Index`, sharing the ROM directories of
      the "Famicom" and "MSX" entries, and at no other position. */
  lemma KeysAt(i: nat)
    requires i < |SupportedSystems|
    ensures SupportedSystems[FamicomIndex] == ("Famicom", "nes")
    ensures SupportedSystems[NesIndex] == ("NES", "nes")
    ensures SupportedSystems[MsxIndex] == ("MSX", "msx")
    ensures SupportedSystems[Msx2Index] == ("MSX2", "msx")
    ensures SupportedSystems[i].0 == "NES" ==> i == NesIndex
    ensures SupportedSystems[i].0 == "MSX2" ==> i == Msx2Index
  {
  }

  /** A path ending in '/' has an empty basename, and no system has an
      empty ROM directory, so it is never recognised. */
  lemma TrailingSlashUnrecognised(path: string)
    ensures GetSystemFromRomDir(path + "/") == None
  {
    var p := path + "/";
    assert p[|p| - 1] == '/';
    assert Basename(p) == [];
    forall j | 0 <= j < |SupportedSystems|
      ensures SupportedSystems[j].1 != []
    {
      assert |SupportedSystems[j].1| > 0;
    }
  }

  lemma BasenameAfterSlash(parent: string, name: string)
    requires '/' !in name
    ensures Basename(parent + "/" + name) == name
  {
    var p := parent + "/" + name;
    assert p[|p| - |name|..] == name;
    assert p[|p| - |name| - 1] == '/';
  }
}
