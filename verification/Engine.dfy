/** The match-and-rename engine, renamer.py:166-214: for every entry of the
    ROM directory, compute its checksum, look the checksum up in the merged
    DAT mapping, and either rename the game's configuration file in every
    emulator namespace, in order, or record the ROM as unmatched.

    The configuration tree is an abstract file system from (namespace,
    file name) to contents. Reading ROM bytes is assumed reliable; the
    archive decoders and the failure of `os.rename` are parameters. */
module Engine {
  import opened Wrappers
  import opened Strings
  import Checksum
  import Archives
  import DatFiles
  import opened RomNames

  /** A configuration file: (emulator namespace, file name). */
  type Path = (string, string)
  type FileSystem = map<Path, seq<bv8>>

  /** What the run depends on besides the ROM directory and the files. */
  datatype Env = Env(
    namespaces: seq<string>,           // `supported_emulators`, in listing order
    dryRun: bool,                      // `DRY_RUN`
    mapping: DatFiles.CrcMap,          // `crc_to_name_mapping`
    unzip: seq<bv8> -> Option<seq<Archives.ZipMember>>,           // None: `zipfile` raises
    unSevenZip: seq<bv8> -> Option<seq<Archives.SevenZipMember>>,  // None: `py7zr` raises
    renameFails: (string, string, string) -> bool)  // `os.rename` in (namespace, old, new) raises

  /** An entry of `os.listdir` of the ROM directory. */
  datatype RomEntry = Directory(name: string) | RomFile(name: string, bytes: seq<bv8>)

  /** How the namespace loop for one ROM ended. */
  datatype Stop =
    | Completed             // every namespace visited
    | NotFound(at: nat)     // `break`: namespace `at` lacks the old configuration
    | RenameFailed(at: nat) // `except`: renaming in namespace `at` raised

  /** What happened to one directory entry. */
  datatype Outcome = Skipped | Unmatched | Matched(stop: Stop) | ExtractionFailed

  datatype State = State(fs: FileSystem, missing: seq<string>)

  /** The state the run leaves and, when an extraction raised, the name of
      the file it raised on (the run ends there, without a report). */
  datatype RunResult = RunResult(state: State, abortedAt: Option<string>)

  // ---------------------------------------------------------------------
  // Renaming one configuration across the namespaces (renamer.py:192-207)
  // ---------------------------------------------------------------------

  /** `os.rename` of `from` to `to` inside namespace `ns`: the target is
      overwritten; renaming a file onto itself changes nothing. */
  function Move(fs: FileSystem, ns: string, from: string, to: string): (r: FileSystem)
    requires (ns, from) in fs
    ensures (ns, to) in r && r[(ns, to)] == fs[(ns, from)]
    ensures from != to ==> (ns, from) !in r
    ensures forall q :: q != (ns, from) && q != (ns, to) ==> (q in r <==> q in fs)
    ensures forall q :: q in fs && q != (ns, from) && q != (ns, to) ==> r[q] == fs[q]
  {
    if from == to then fs else (fs - {(ns, from)})[(ns, to) := fs[(ns, from)]]
  }

  function StopIndex(stop: Stop, n: nat): nat
  {
    match stop
    case Completed => n
    case NotFound(i) => i
    case RenameFailed(i) => i
  }

  /** The namespace loop from namespace `i` on, on file system `fs`. */
  function RenameFrom(env: Env, fs: FileSystem, i: nat, from: string, to: string): (FileSystem, Stop)
    requires i <= |env.namespaces|
    decreases |env.namespaces| - i
  {
    if i == |env.namespaces| then (fs, Completed)
    else
      var ns := env.namespaces[i];
      if (ns, from) !in fs then (fs, NotFound(i))
      else if env.dryRun then RenameFrom(env, fs, i + 1, from, to)
      else if env.renameFails(ns, from, to) then (fs, RenameFailed(i))
      else RenameFrom(env, Move(fs, ns, from, to), i + 1, from, to)
  }

  predicate Distinct(names: seq<string>)
  {
    forall i, j :: 0 <= i < j < |names| ==> names[i] != names[j]
  }

  function Get(fs: FileSystem, p: Path): Option<seq<bv8>>
  {
    if p in fs then Some(fs[p]) else None
  }

  /** What file `p` should hold once `from` has been renamed to `to` in
      each namespace of `done`, starting from `fs0`. */
  function Expected(fs0: FileSystem, done: seq<string>, from: string, to: string, p: Path): Option<seq<bv8>>
  {
    if p.0 in done && from != to then
      if p.1 == from then None
      else if p.1 == to then Get(fs0, (p.0, from))
      else Get(fs0, p)
    else Get(fs0, p)
  }

  /** `fs` is `fs0` with `from` renamed to `to` in exactly the namespaces
      of `done`, and nothing else changed. */
  ghost predicate RenamedIn(fs0: FileSystem, fs: FileSystem, done: seq<string>, from: string, to: string)
  {
    forall p :: Get(fs, p) == Expected(fs0, done, from, to, p)
  }

  /** The first namespace, from `i` on, that lacks `name`; |namespaces| if none. */
  function FirstLacking(fs: FileSystem, namespaces: seq<string>, i: nat, name: string): (k: nat)
    requires i <= |namespaces|
    ensures i <= k <= |namespaces|
    ensures forall j :: i <= j < k ==> (namespaces[j], name) in fs
    ensures k < |namespaces| ==> (namespaces[k], name) !in fs
    decreases |namespaces| - i
  {
    if i == |namespaces| || (namespaces[i], name) !in fs then i
    else FirstLacking(fs, namespaces, i + 1, name)
  }

  lemma {:induction false} RenameFromLive(env: Env, fs0: FileSystem, fs: FileSystem, i: nat, from: string, to: string)
    requires !env.dryRun && Distinct(env.namespaces) && i <= |env.namespaces|
    requires forall j :: 0 <= j < i ==>
      (env.namespaces[j], from) in fs0 && !env.renameFails(env.namespaces[j], from, to)
    requires RenamedIn(fs0, fs, env.namespaces[..i], from, to)
    ensures var (fs', stop) := RenameFrom(env, fs, i, from, to);
      var nss, k := env.namespaces, StopIndex(stop, |env.namespaces|);
      && i <= k <= |nss|
      && (forall j :: 0 <= j < k ==> (nss[j], from) in fs0 && !env.renameFails(nss[j], from, to))
      && (stop.NotFound? ==> k < |nss| && (nss[k], from) !in fs0)
      && (stop.RenameFailed? ==> k < |nss| && (nss[k], from) in fs0 && env.renameFails(nss[k], from, to))
      && RenamedIn(fs0, fs', nss[..k], from, to)
    decreases |env.namespaces| - i
  {
    var nss := env.namespaces;
    if i < |nss| {
      var ns := nss[i];
      assert ns !in nss[..i];
      assert Get(fs, (ns, from)) == Get(fs0, (ns, from));
      if (ns, from) in fs && !env.renameFails(ns, from, to) {
        var fs1 := Move(fs, ns, from, to);
        assert nss[..i + 1] == nss[..i] + [ns];
        forall p | true
          ensures Get(fs1, p) == Expected(fs0, nss[..i + 1], from, to, p)
        {
          assert Get(fs, p) == Expected(fs0, nss[..i], from, to, p);
        }
        RenameFromLive(env, fs0, fs1, i + 1, from, to);
      }
    } else {
      assert nss[..i] == nss;
    }
  }

  /** A live run renames the old configuration in exactly the longest
      prefix of namespaces that hold it (and where the rename succeeds):
      the loop stops at the first namespace lacking it (`break`) or at the
      first rename that raises (`except`), those before it have the file
      moved to its new name, overwriting any file already there, and no
      other (namespace, file) pair changes. Namespaces are the names of
      distinct directories. */
  lemma RenameLoopLive(env: Env, fs: FileSystem, from: string, to: string)
    requires !env.dryRun && Distinct(env.namespaces)
    ensures var (fs', stop) := RenameFrom(env, fs, 0, from, to);
      var nss, k := env.namespaces, StopIndex(stop, |env.namespaces|);
      && k <= |nss|
      && (forall j :: 0 <= j < k ==> (nss[j], from) in fs && !env.renameFails(nss[j], from, to))
      && (stop.NotFound? ==> k < |nss| && (nss[k], from) !in fs)
      && (stop.RenameFailed? ==> k < |nss| && (nss[k], from) in fs && env.renameFails(nss[k], from, to))
      && RenamedIn(fs, fs', nss[..k], from, to)
  {
    assert env.namespaces[..0] == [];
    RenameFromLive(env, fs, fs, 0, from, to);
  }

  lemma {:induction false} RenameFromDry(env: Env, fs: FileSystem, i: nat, from: string, to: string)
    requires env.dryRun && i <= |env.namespaces|
    ensures var k := FirstLacking(fs, env.namespaces, i, from);
      RenameFrom(env, fs, i, from, to) == (fs, if k == |env.namespaces| then Completed else NotFound(k))
    decreases |env.namespaces| - i
  {
    if i < |env.namespaces| && (env.namespaces[i], from) in fs {
      RenameFromDry(env, fs, i + 1, from, to);
    }
  }

  /** A dry run changes no file and stops exactly at the first namespace
      lacking the old configuration. */
  lemma RenameLoopDry(env: Env, fs: FileSystem, from: string, to: string)
    requires env.dryRun
    ensures var k := FirstLacking(fs, env.namespaces, 0, from);
      RenameFrom(env, fs, 0, from, to) == (fs, if k == |env.namespaces| then Completed else NotFound(k))
  {
    RenameFromDry(env, fs, 0, from, to);
  }

  /** A dry run visits the same namespaces as the live run would: it ends
      the same way unless a live rename raises, in which case the dry run,
      which calls no rename, goes further. */
  lemma DryRunVisitsSameNamespaces(env: Env, fs: FileSystem, from: string, to: string)
    requires Distinct(env.namespaces)
    ensures var live := RenameFrom(env.(dryRun := false), fs, 0, from, to).1;
      var dry := RenameFrom(env.(dryRun := true), fs, 0, from, to).1;
      && (!live.RenameFailed? ==> live == dry)
      && (live.RenameFailed? ==> StopIndex(live, |env.namespaces|) < StopIndex(dry, |env.namespaces|))
  {
    RenameLoopLive(env.(dryRun := false), fs, from, to);
    RenameLoopDry(env.(dryRun := true), fs, from, to);
  }

  // ---------------------------------------------------------------------
  // One directory entry (renamer.py:169-211)
  // ---------------------------------------------------------------------

  datatype Extraction = Extracted(crc: DatFiles.Crc) | Unreadable

  /** The checksum of a file that is not a sidecar: the selected member's
      for an archive (None when it has no payload member, Unreadable when
      the archive library raises), the whole file's otherwise. */
  function RomCrc(env: Env, name: string, bytes: seq<bv8>): Extraction
  {
    match Classify(name)
    case ZipArchive =>
      (match env.unzip(bytes)
       case None => Unreadable
       case Some(members) => Extracted(Archives.ExtractCrcFromZip(members)))
    case SevenZipArchive =>
      (match env.unSevenZip(bytes)
       case None => Unreadable
       case Some(members) => Extracted(Archives.ExtractCrcFromSevenZip(members)))
    case _ => Extracted(Some(Checksum.CalculateCrc32(bytes)))
  }

  /** Directories and sidecar files are skipped before any checksum. */
  predicate IsSkipped(e: RomEntry)
  {
    e.Directory? || Classify(e.name) == Sidecar
  }

  /** The body of the main loop for one entry. */
  function Step(env: Env, st: State, e: RomEntry): (State, Outcome)
  {
    if IsSkipped(e) then (st, Skipped)
    else match RomCrc(env, e.name, e.bytes)
      case Unreadable => (st, ExtractionFailed)
      case Extracted(crc) => AfterLookup(env, st, e.name, crc)
  }

  /** The lookup and its consequence, renamer.py:185-211. */
  function AfterLookup(env: Env, st: State, romFilename: string, crc: DatFiles.Crc): (State, Outcome)
  {
    match GameNameFor(env.mapping, crc)
    case None => (State(st.fs, st.missing + [romFilename]), Unmatched)
    case Some(game) =>
      var (fs', stop) := RenameFrom(env, st.fs, 0, OldConfigName(game), NewConfigName(romFilename));
      (State(fs', st.missing), Matched(stop))
  }

  /** The main loop over the listing; an extraction that raises ends the run. */
  function Run(env: Env, st: State, listing: seq<RomEntry>): RunResult
    decreases |listing|
  {
    if listing == [] then RunResult(st, None)
    else
      var (st', outcome) := Step(env, st, listing[0]);
      if outcome == ExtractionFailed then RunResult(st, Some(listing[0].name))
      else Run(env, st', listing[1..])
  }

  /** `"\n".join(missing_crcs) + "\n"`, written only when the list is not empty. */
  function Report(missing: seq<string>): (r: Option<string>)
    ensures r.Some? <==> |missing| > 0
  {
    if |missing| > 0 then Some(Join(missing, "\n") + "\n") else None
  }

  /** The report holds the unmatched file names one per line, in order. */
  lemma ReportLines(missing: seq<string>)
    requires |missing| > 0
    requires forall k :: 0 <= k < |missing| ==> '\n' !in missing[k]
    ensures Lines(Report(missing).value) == missing
  {
    LinesOfJoin(missing);
  }

  // ---------------------------------------------------------------------
  // Independent descriptions of what the run does
  // ---------------------------------------------------------------------

  /** An archive that its library cannot open. */
  predicate IsUnreadable(env: Env, e: RomEntry)
  {
    && !IsSkipped(e)
    && match Classify(e.name)
       case ZipArchive => env.unzip(e.bytes).None?
       case SevenZipArchive => env.unSevenZip(e.bytes).None?
       case _ => false
  }

  /** A file that is checksummed and whose checksum finds no name. */
  predicate IsUnmatched(env: Env, e: RomEntry)
  {
    !IsSkipped(e) && match RomCrc(env, e.name, e.bytes)
      case Unreadable => false
      case Extracted(crc) => GameNameFor(env.mapping, crc).None?
  }

  /** The names of the unmatched files of `listing`, in listing order. */
  function UnmatchedNames(env: Env, listing: seq<RomEntry>): seq<string>
  {
    if listing == [] then []
    else (if IsUnmatched(env, listing[0]) then [listing[0].name] else []) + UnmatchedNames(env, listing[1..])
  }

  /** The index of the first entry whose extraction raises, or |listing|. */
  function FirstUnreadable(env: Env, listing: seq<RomEntry>): (k: nat)
    ensures k <= |listing|
  {
    if listing == [] || IsUnreadable(env, listing[0]) then 0
    else 1 + FirstUnreadable(env, listing[1..])
  }

  /** FirstUnreadable finds the first unreadable entry: none before it is. */
  lemma FirstUnreadableIsFirst(env: Env, listing: seq<RomEntry>)
    ensures var k := FirstUnreadable(env, listing);
      && (forall j :: 0 <= j < k ==> !IsUnreadable(env, listing[j]))
      && (k < |listing| ==> IsUnreadable(env, listing[k]))
  {
    forall j | 0 <= j < FirstUnreadable(env, listing)
      ensures !IsUnreadable(env, listing[j])
    {
      ReadableBefore(env, listing, j);
    }
    if FirstUnreadable(env, listing) < |listing| {
      UnreadableAt(env, listing);
    }
  }

  lemma {:induction false} ReadableBefore(env: Env, listing: seq<RomEntry>, j: nat)
    requires j < FirstUnreadable(env, listing)
    ensures !IsUnreadable(env, listing[j])
    decreases j
  {
    if j > 0 {
      ReadableBefore(env, listing[1..], j - 1);
    }
  }

  lemma {:induction false} UnreadableAt(env: Env, listing: seq<RomEntry>)
    requires FirstUnreadable(env, listing) < |listing|
    ensures IsUnreadable(env, listing[FirstUnreadable(env, listing)])
    decreases |listing|
  {
    if !IsUnreadable(env, listing[0]) {
      UnreadableAt(env, listing[1..]);
    }
  }

  /** The run processes the listing up to the first entry whose extraction
      raises and aborts there, naming it; with no such entry it completes.
      The namespaces, the dry-run switch and the configuration files play
      no part in where it stops. */
  lemma {:induction false} RunAbortsAtFirstUnreadable(env: Env, st: State, listing: seq<RomEntry>)
    ensures var k := FirstUnreadable(env, listing);
      Run(env, st, listing).abortedAt == (if k < |listing| then Some(listing[k].name) else None)
    decreases |listing|
  {
    if listing != [] {
      if IsUnreadable(env, listing[0]) {
        RunConsUnreadable(env, st, listing);
      } else {
        RunConsReadable(env, st, listing);
        RunAbortsAtFirstUnreadable(env, Step(env, st, listing[0]).0, listing[1..]);
      }
    }
  }

  /** The run appends to the unmatched list exactly the unmatched files
      before the first unreadable one, each once, in listing order. */
  lemma RunCollectsUnmatched(env: Env, st: State, listing: seq<RomEntry>)
    ensures Run(env, st, listing).state.missing ==
      st.missing + UnmatchedNames(env, listing[..FirstUnreadable(env, listing)])
  {
    RunAppendsUnmatchedBefore(env, st, listing);
    UnmatchedBeforeIsPrefix(env, listing);
  }

  /** The unmatched names met before the first unreadable entry. */
  function UnmatchedBefore(env: Env, listing: seq<RomEntry>): seq<string>
  {
    if listing == [] || IsUnreadable(env, listing[0]) then []
    else (if IsUnmatched(env, listing[0]) then [listing[0].name] else []) + UnmatchedBefore(env, listing[1..])
  }

  lemma {:induction false} RunAppendsUnmatchedBefore(env: Env, st: State, listing: seq<RomEntry>)
    ensures Run(env, st, listing).state.missing == st.missing + UnmatchedBefore(env, listing)
    decreases |listing|
  {
    if listing != [] {
      if IsUnreadable(env, listing[0]) {
        RunConsUnreadable(env, st, listing);
      } else {
        RunConsReadable(env, st, listing);
        RunAppendsUnmatchedBefore(env, Step(env, st, listing[0]).0, listing[1..]);
      }
    }
  }

  lemma {:induction false} UnmatchedBeforeIsPrefix(env: Env, listing: seq<RomEntry>)
    ensures UnmatchedBefore(env, listing) == UnmatchedNames(env, listing[..FirstUnreadable(env, listing)])
    decreases |listing|
  {
    if listing != [] && !IsUnreadable(env, listing[0]) {
      UnmatchedBeforeIsPrefix(env, listing[1..]);
      UnmatchedNamesOfPrefix(env, listing, FirstUnreadable(env, listing));
    }
  }

  /** A first entry whose extraction raises ends the run at once. */
  lemma RunConsUnreadable(env: Env, st: State, listing: seq<RomEntry>)
    requires listing != [] && IsUnreadable(env, listing[0])
    ensures Run(env, st, listing) == RunResult(st, Some(listing[0].name))
    ensures FirstUnreadable(env, listing) == 0
  {
    StepOnMissing(env, st, listing[0]);
  }

  /** Any other first entry is one turn of the loop, adding its name to the
      unmatched list exactly when it is unmatched. */
  lemma RunConsReadable(env: Env, st: State, listing: seq<RomEntry>)
    requires listing != [] && !IsUnreadable(env, listing[0])
    ensures Run(env, st, listing) == Run(env, Step(env, st, listing[0]).0, listing[1..])
    ensures FirstUnreadable(env, listing) == 1 + FirstUnreadable(env, listing[1..])
    ensures Step(env, st, listing[0]).0.missing ==
      st.missing + (if IsUnmatched(env, listing[0]) then [listing[0].name] else [])
  {
    StepOnMissing(env, st, listing[0]);
  }

  lemma UnmatchedNamesOfPrefix(env: Env, listing: seq<RomEntry>, k: nat)
    requires 0 < k <= |listing|
    ensures UnmatchedNames(env, listing[..k]) ==
      (if IsUnmatched(env, listing[0]) then [listing[0].name] else []) + UnmatchedNames(env, listing[1..][..k - 1])
  {
    assert listing[..k][1..] == listing[1..][..k - 1];
    assert listing[..k][0] == listing[0];
  }

  /** One step aborts exactly on an unreadable archive, and otherwise
      appends the entry's name exactly when it is unmatched. */
  lemma StepOnMissing(env: Env, st: State, e: RomEntry)
    ensures Step(env, st, e).1 == ExtractionFailed <==> IsUnreadable(env, e)
    ensures Step(env, st, e).1 != ExtractionFailed ==>
      Step(env, st, e).0.missing == st.missing + (if IsUnmatched(env, e) then [e.name] else [])
  {
  }

  /** A zip archive with no payload member has no checksum (None), and the
      lookup of None finds whatever game a DAT `rom` entry without a `crc`
      attribute named: such an archive is renamed after that game. */
  lemma PayloadlessZipTakesCrclessName(env: Env, st: State, e: RomEntry, members: seq<Archives.ZipMember>, game: string)
    requires e.RomFile? && EndsWith(e.name, ".zip")
    requires env.unzip(e.bytes) == Some(members)
    requires forall j :: 0 <= j < |members| ==> !Archives.IsZipPayload(members[j])
    requires None in env.mapping && env.mapping[None] == Some(game) && game != ""
    ensures var (fs', stop) := RenameFrom(env, st.fs, 0, OldConfigName(game), NewConfigName(e.name));
      Step(env, st, e) == (State(fs', st.missing), Matched(stop))
  {
  }

  /** In a dry run the configuration files are left exactly as they were,
      whether the run completes or aborts. */
  lemma {:induction false} DryRunKeepsFiles(env: Env, st: State, listing: seq<RomEntry>)
    requires env.dryRun
    ensures Run(env, st, listing).state.fs == st.fs
    decreases |listing|
  {
    if listing != [] {
      var e := listing[0];
      if !IsSkipped(e) {
        match RomCrc(env, e.name, e.bytes)
        case Unreadable =>
        case Extracted(crc) =>
          if GameNameFor(env.mapping, crc).Some? {
            RenameLoopDry(env, st.fs, OldConfigName(GameNameFor(env.mapping, crc).value), NewConfigName(e.name));
          }
      }
      var (st', _) := Step(env, st, e);
      DryRunKeepsFiles(env, st', listing[1..]);
    }
  }

  /** Directories and sidecar files are inert: removing one from anywhere
      in the listing changes neither the files, nor the unmatched list, nor
      whether and where the run aborts. */
  lemma {:induction false} SkippedEntryInert(env: Env, st: State, before: seq<RomEntry>, e: RomEntry, after: seq<RomEntry>)
    requires IsSkipped(e)
    ensures Run(env, st, before + [e] + after) == Run(env, st, before + after)
    decreases |before|
  {
    if before == [] {
      assert before + [e] + after == [e] + after;
      assert ([e] + after)[1..] == after;
      assert before + after == after;
    } else {
      var (st', outcome) := Step(env, st, before[0]);
      assert (before + [e] + after)[0] == before[0];
      assert (before + after)[0] == before[0];
      assert (before + [e] + after)[1..] == before[1..] + [e] + after;
      assert (before + after)[1..] == before[1..] + after;
      if outcome != ExtractionFailed {
        SkippedEntryInert(env, st', before[1..], e, after);
      }
    }
  }

  // ---------------------------------------------------------------------
  // The imperative main loop
  // ---------------------------------------------------------------------

  /** The script's mutable state: the configuration tree and `missing_crcs`. */
  class Renamer {
    const env: Env
    var fs: FileSystem
    var missingCrcs: seq<string>

    constructor (env: Env, fs: FileSystem)
      ensures this.env == env && this.fs == fs && missingCrcs == []
    {
      this.env := env;
      this.fs := fs;
      missingCrcs := [];
    }

    /** The `try` block of renamer.py:192-207 for one matched ROM. */
    method RenameConfigs(oldConfigFilename: string, newConfigFilename: string) returns (stop: Stop)
      modifies this
      ensures (fs, stop) == RenameFrom(env, old(fs), 0, oldConfigFilename, newConfigFilename)
      ensures missingCrcs == old(missingCrcs)
    {
      var i := 0;
      stop := Completed;
      while i < |env.namespaces|
        invariant 0 <= i <= |env.namespaces|
        invariant missingCrcs == old(missingCrcs)
        invariant RenameFrom(env, fs, i, oldConfigFilename, newConfigFilename)
          == RenameFrom(env, old(fs), 0, oldConfigFilename, newConfigFilename)
      {
        var emulator := env.namespaces[i];
        if (emulator, oldConfigFilename) !in fs {
          stop := NotFound(i);
          break;
        }
        if !env.dryRun {
          if env.renameFails(emulator, oldConfigFilename, newConfigFilename) {
            stop := RenameFailed(i);
            break;
          }
          fs := Move(fs, emulator, oldConfigFilename, newConfigFilename);
        }
        i := i + 1;
      }
    }

    /** The body of the main loop (renamer.py:170-211) for one entry. */
    method ProcessRom(e: RomEntry) returns (outcome: Outcome)
      modifies this
      ensures (State(fs, missingCrcs), outcome) == Step(env, State(old(fs), old(missingCrcs)), e)
    {
      if e.Directory? {
        return Skipped;
      }
      var romFilename := e.name;
      var crc: DatFiles.Crc;
      if EndsWith(romFilename, ".zip") {
        var members := env.unzip(e.bytes);
        if members.None? {
          return ExtractionFailed;
        }
        crc := Archives.ExtractCrcFromZip(members.value);
      } else if EndsWith(romFilename, ".7z") {
        var members := env.unSevenZip(e.bytes);
        if members.None? {
          return ExtractionFailed;
        }
        crc := Archives.ExtractCrcFromSevenZip(members.value);
      } else if IsSidecarName(romFilename) {
        return Skipped;
      } else {
        crc := Some(Checksum.CalculateCrc32(e.bytes));
      }
      var gameName := GameNameFor(env.mapping, crc);
      if gameName.Some? {
        var newConfigFilename := NewConfigName(romFilename);
        var oldConfigFilename := OldConfigName(gameName.value);
        var stop := RenameConfigs(oldConfigFilename, newConfigFilename);
        outcome := Matched(stop);
      } else {
        missingCrcs := missingCrcs + [romFilename];
        outcome := Unmatched;
      }
    }

    /** The main loop and the report (renamer.py:166-214). When an
        extraction raises, the run stops there and no report is written. */
    method ProcessAll(listing: seq<RomEntry>) returns (abortedAt: Option<string>, report: Option<string>)
      modifies this
      ensures RunResult(State(fs, missingCrcs), abortedAt) == Run(env, State(old(fs), old(missingCrcs)), listing)
      ensures report == if abortedAt.None? then Report(missingCrcs) else None
    {
      var i := 0;
      abortedAt := None;
      while i < |listing|
        invariant 0 <= i <= |listing|
        invariant Run(env, State(fs, missingCrcs), listing[i..]) == Run(env, State(old(fs), old(missingCrcs)), listing)
      {
        assert listing[i..][1..] == listing[i + 1..];
        var outcome := ProcessRom(listing[i]);
        if outcome == ExtractionFailed {
          abortedAt := Some(listing[i].name);
          report := None;
          return;
        }
        i := i + 1;
      }
      report := Report(missingCrcs);
    }
  }
}
