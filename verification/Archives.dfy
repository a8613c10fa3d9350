/** Choosing the member of an archive whose checksum stands for the ROM:
    `extract_crc_from_zip` (renamer.py:123-130) and `extract_crc_from_7z`
    (renamer.py:133-142). Decompression is not modelled: an archive is the
    sequence of its members in the order the archive library yields them. */
module Archives {
  import opened Wrappers
  import opened Strings
  import Checksum

  /** A zip member as `infolist()` lists it: its name, its declared
      uncompressed size (`file_size`) and its decompressed bytes. */
  datatype ZipMember = ZipMember(filename: string, fileSize: nat, data: seq<bv8>)

  /** A 7z member as `readall()` yields it: its name and its bytes; the
      size the code tests is measured by seeking to the end of the bytes. */
  datatype SevenZipMember = SevenZipMember(name: string, data: seq<bv8>)

  /** The test both functions apply: non-empty, and not a `.txt` note. */
  predicate IsPayload(name: string, size: nat)
  {
    size > 0 && !EndsWith(name, ".txt")
  }

  predicate IsZipPayload(m: ZipMember)
  {
    IsPayload(m.filename, m.fileSize)
  }

  /** Member `i` is the first payload member. */
  ghost predicate FirstPayloadAt(members: seq<ZipMember>, i: int)
  {
    0 <= i < |members| && IsZipPayload(members[i]) &&
    forall j :: 0 <= j < i ==> !IsZipPayload(members[j])
  }

  /** Index of the first payload member, if any. */
  function FirstPayload(members: seq<ZipMember>): (r: Option<nat>)
    ensures r.Some? ==> FirstPayloadAt(members, r.value)
    ensures r.None? <==> forall j :: 0 <= j < |members| ==> !IsZipPayload(members[j])
  {
    if members == [] then None
    else if IsZipPayload(members[0]) then Some(0)
    else match FirstPayload(members[1..])
      case None => None
      case Some(i) => Some(i + 1)
  }

  /** Member `r` is the last member called `name`. */
  ghost predicate LastNamedAt(members: seq<ZipMember>, name: string, r: int)
  {
    0 <= r < |members| && members[r].filename == name &&
    forall j :: r < j < |members| ==> members[j].filename != name
  }

  /** The member `ZipFile.open(name)` reads: `getinfo(name)` looks the name
      up in the archive's name table, which keeps the last member listed
      under each name. */
  function LastNamed(members: seq<ZipMember>, name: string): (r: nat)
    requires exists j :: 0 <= j < |members| && members[j].filename == name
    ensures LastNamedAt(members, name, r)
    decreases |members|
  {
    var n := |members| - 1;
    if members[n].filename == name then n
    else
      assert forall j :: 0 <= j < n ==> members[..n][j] == members[j];
      LastNamed(members[..n], name)
  }

  lemma LastNamedIsUnique(members: seq<ZipMember>, name: string, r: int)
    requires LastNamedAt(members, name, r)
    ensures LastNamed(members, name) == r
  {
  }

  /** `extract_crc_from_zip`: selects the first member that is not empty
      and not a `.txt` note, then reads it back by its name, and checksums
      what it reads; None (the function falls off its end) when no member
      qualifies. Reading by name gives the last member of that name. */
  function ExtractCrcFromZip(members: seq<ZipMember>): (crc: Option<string>)
    ensures crc.None? <==> forall j :: 0 <= j < |members| ==> !IsZipPayload(members[j])
    ensures crc.Some? ==> exists i, r :: (FirstPayloadAt(members, i) &&
      LastNamedAt(members, members[i].filename, r) &&
      crc.value == Checksum.CalculateCrc32(members[r].data))
  {
    match FirstPayload(members)
    case None => None
    case Some(i) =>
      var r := LastNamed(members, members[i].filename);
      Some(Checksum.CalculateCrc32(members[r].data))
  }

  /** A 7z member seen as a zip member whose size is its byte count. */
  function AsZipMember(m: SevenZipMember): ZipMember
  {
    ZipMember(m.name, |m.data|, m.data)
  }

  /** `extract_crc_from_7z`: the checksum of the first member that is not
      empty and not a `.txt` note, the size being the length of the
      member's bytes; the bytes are those `readall` gave for that member. */
  function ExtractCrcFromSevenZip(members: seq<SevenZipMember>): (crc: Option<string>)
    ensures crc.None? <==> forall j :: 0 <= j < |members| ==> !IsPayload(members[j].name, |members[j].data|)
    ensures crc.Some? ==> exists i :: (0 <= i < |members| &&
      IsPayload(members[i].name, |members[i].data|) &&
      (forall j :: 0 <= j < i ==> !IsPayload(members[j].name, |members[j].data|)) &&
      crc.value == Checksum.CalculateCrc32(members[i].data))
  {
    var asZip := seq(|members|, i requires 0 <= i < |members| => AsZipMember(members[i]));
    assert forall j :: 0 <= j < |members| ==> asZip[j] == AsZipMember(members[j]);
    match FirstPayload(asZip)
    case None => None
    case Some(i) => Some(Checksum.CalculateCrc32(members[i].data))
  }

  /** Once a payload member has been found, members listed after it never
      change the result, as long as none of them repeats its name. */
  lemma {:induction false} LaterMembersIgnored(members: seq<ZipMember>, i: nat, later: seq<ZipMember>)
    requires FirstPayloadAt(members, i)
    requires forall j :: 0 <= j < |later| ==> later[j].filename != members[i].filename
    ensures ExtractCrcFromZip(members + later) == ExtractCrcFromZip(members)
  {
    var all := members + later;
    var name := members[i].filename;
    FirstPayloadIsUnique(members, i, FirstPayload(members));
    FirstPayloadIsUnique(all, i, FirstPayload(all));
    var r := LastNamed(members, name);
    forall j | r < j < |all|
      ensures all[j].filename != name
    {
      if j >= |members| {
        assert all[j] == later[j - |members|];
      }
    }
    LastNamedIsUnique(all, name, r);
  }

  /** A later member that repeats the payload's name is the one read, even
      an empty one: with two members called "game.bin", the second one's
      bytes are checksummed. */
  lemma DuplicateNameReadsLast(first: seq<bv8>, second: seq<bv8>)
    requires |first| > 0
    ensures ExtractCrcFromZip([ZipMember("game.bin", |first|, first), ZipMember("game.bin", |second|, second)])
      == Some(Checksum.CalculateCrc32(second))
  {
    var ms := [ZipMember("game.bin", |first|, first), ZipMember("game.bin", |second|, second)];
    assert !EndsWith("game.bin", ".txt") by {
      assert "game.bin"[4..] != ".txt";
    }
    FirstPayloadIsUnique(ms, 0, FirstPayload(ms));
    LastNamedIsUnique(ms, "game.bin", 1);
  }

  /** Members that are empty or `.txt` notes never change the result,
      wherever they stand before the payload. */
  lemma {:induction false} SkippedMembersIgnored(skipped: seq<ZipMember>, members: seq<ZipMember>)
    requires forall j :: 0 <= j < |skipped| ==> !IsZipPayload(skipped[j])
    ensures ExtractCrcFromZip(skipped + members) == ExtractCrcFromZip(members)
  {
    var all := skipped + members;
    match FirstPayload(members)
    case None =>
      assert forall j :: 0 <= j < |all| ==> !IsZipPayload(all[j]) by {
        forall j | 0 <= j < |all| ensures !IsZipPayload(all[j]) {
          if j >= |skipped| {
            assert all[j] == members[j - |skipped|];
          }
        }
      }
    case Some(i) =>
      var name := members[i].filename;
      var k := |skipped| + i;
      assert all[k] == members[i];
      FirstPayloadIsUnique(all, k, FirstPayload(all));
      var r := LastNamed(members, name);
      forall j | |skipped| + r < j < |all|
        ensures all[j].filename != name
      {
        assert all[j] == members[j - |skipped|];
      }
      assert all[|skipped| + r] == members[r];
      LastNamedIsUnique(all, name, |skipped| + r);
  }

  lemma FirstPayloadIsUnique(members: seq<ZipMember>, i: int, r: Option<nat>)
    requires FirstPayloadAt(members, i)
    requires r == FirstPayload(members)
    ensures r == Some(i)
  {
  }

  /** A `.txt` note before the ROM image does not hide it. */
  lemma ReadmeFirst(note: seq<bv8>, rom: seq<bv8>)
    requires |note| > 0 && |rom| > 0
    ensures ExtractCrcFromZip([ZipMember("readme.txt", |note|, note), ZipMember("game.bin", |rom|, rom)])
      == Some(Checksum.CalculateCrc32(rom))
  {
    var ms := [ZipMember("readme.txt", |note|, note), ZipMember("game.bin", |rom|, rom)];
    assert EndsWith("readme.txt", ".txt");
    assert !EndsWith("game.bin", ".txt") by {
      assert "game.bin"[4..] != ".txt";
    }
    FirstPayloadIsUnique(ms, 1, FirstPayload(ms));
    LastNamedIsUnique(ms, "game.bin", 1);
  }
}
