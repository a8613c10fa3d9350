/** The CRC-to-name mapping built from the DAT files: `parse_dat_file`
    (renamer.py:111-120) and the merge loop (renamer.py:156-158).
    A DAT file is taken as already parsed: its `game` elements in document
    order, each with its `name` attribute and the `crc` attributes of its
    `rom` children in order. Both attributes are read with `.get`, so
    either may be absent (`None`). */
module DatFiles {
  import opened Wrappers

  /** A `crc` attribute (a dictionary key): None when the attribute is absent. */
  type Crc = Option<string>
  /** A `name` attribute (a dictionary value): None when the attribute is absent. */
  type GameName = Option<string>

  datatype Game = Game(name: GameName, romCrcs: seq<Crc>)
  type Dat = seq<Game>
  type CrcMap = map<Crc, GameName>

  /** One dictionary write `crc_to_name[crc] = game_name`. */
  type Write = (Crc, GameName)

  /** The writes one game makes, one per `rom` child, in order. */
  function GameWrites(g: Game): (ws: seq<Write>)
    ensures |ws| == |g.romCrcs|
    ensures forall j :: 0 <= j < |ws| ==> ws[j] == (g.romCrcs[j], g.name)
  {
    seq(|g.romCrcs|, j requires 0 <= j < |g.romCrcs| => (g.romCrcs[j], g.name))
  }

  /** The writes a whole DAT file makes, game by game. */
  function DatWrites(dat: Dat): seq<Write>
  {
    if dat == [] then [] else DatWrites(dat[..|dat| - 1]) + GameWrites(dat[|dat| - 1])
  }

  /** The writes all DAT files make, file by file. */
  function AllWrites(dats: seq<Dat>): seq<Write>
  {
    if dats == [] then [] else AllWrites(dats[..|dats| - 1]) + DatWrites(dats[|dats| - 1])
  }

  /** The dictionary `m` after the writes `ws`, in order. */
  function Apply(m: CrcMap, ws: seq<Write>): CrcMap
  {
    if ws == [] then m else Apply(m, ws[..|ws| - 1])[ws[|ws| - 1].0 := ws[|ws| - 1].1]
  }

  /** What `parse_dat_file` returns for a DAT file. */
  function DatMapping(dat: Dat): CrcMap
  {
    Apply(map[], DatWrites(dat))
  }

  /** What the merge loop leaves in `crc_to_name_mapping`: the per-file
      dictionaries combined by `dict.update` in file order. */
  function MergedMapping(dats: seq<Dat>): CrcMap
  {
    if dats == [] then map[] else MergedMapping(dats[..|dats| - 1]) + DatMapping(dats[|dats| - 1])
  }

  /** `ws[i]` is the last write to key `k`. */
  ghost predicate LastWriteAt(ws: seq<Write>, k: Crc, i: int)
  {
    0 <= i < |ws| && ws[i].0 == k && forall j :: i < j < |ws| ==> ws[j].0 != k
  }

  /** Last write wins: after the writes, a key is present exactly when it
      was present before or some write names it; a written key holds the
      value of its last write, and an unwritten key keeps its old value. */
  lemma {:induction false} ApplyLastWriteWins(m: CrcMap, ws: seq<Write>)
    ensures forall k :: k in Apply(m, ws) <==> k in m || exists i :: 0 <= i < |ws| && ws[i].0 == k
    ensures forall k, i :: LastWriteAt(ws, k, i) ==> Apply(m, ws)[k] == ws[i].1
    ensures forall k :: k in m && (forall i :: 0 <= i < |ws| ==> ws[i].0 != k) ==> Apply(m, ws)[k] == m[k]
    decreases |ws|
  {
    if ws != [] {
      var n := |ws| - 1;
      var front := ws[..n];
      ApplyLastWriteWins(m, front);
      forall k | k in m || exists i :: 0 <= i < |ws| && ws[i].0 == k
        ensures k in Apply(m, ws)
      {
        if k != ws[n].0 && k !in m {
          var i :| 0 <= i < |ws| && ws[i].0 == k;
          assert front[i].0 == k;
        }
      }
      forall k | k in Apply(m, ws) && k !in m
        ensures exists i :: 0 <= i < |ws| && ws[i].0 == k
      {
        if k != ws[n].0 {
          var i :| 0 <= i < |front| && front[i].0 == k;
          assert ws[i].0 == k;
        }
      }
      forall k, i | LastWriteAt(ws, k, i)
        ensures Apply(m, ws)[k] == ws[i].1
      {
        if i < n {
          assert LastWriteAt(front, k, i);
        }
      }
      forall k | k in m && (forall i :: 0 <= i < |ws| ==> ws[i].0 != k)
        ensures Apply(m, ws)[k] == m[k]
      {
        assert forall i :: 0 <= i < |front| ==> front[i].0 != k by {
          forall i | 0 <= i < |front| ensures front[i].0 != k {
            assert front[i] == ws[i];
          }
        }
      }
    }
  }

  /** Applying two batches of writes is applying their concatenation. */
  lemma {:induction false} ApplyAppend(m: CrcMap, a: seq<Write>, b: seq<Write>)
    ensures Apply(m, a + b) == Apply(Apply(m, a), b)
    decreases |b|
  {
    if b == [] {
      assert a + b == a;
    } else {
      var n := |b| - 1;
      assert (a + b)[..|a + b| - 1] == a + b[..n];
      ApplyAppend(m, a, b[..n]);
    }
  }

  /** `m.update(Apply({}, ws))` is the same as applying `ws` to `m`. */
  lemma {:induction false} UpdateIsApply(m: CrcMap, ws: seq<Write>)
    ensures m + Apply(map[], ws) == Apply(m, ws)
    decreases |ws|
  {
    if ws != [] {
      var n := |ws| - 1;
      UpdateIsApply(m, ws[..n]);
      var k, v := ws[n].0, ws[n].1;
      var inner := Apply(map[], ws[..n]);
      assert m + inner[k := v] == (m + inner)[k := v];
    }
  }

  /** Merging the per-file dictionaries is the same as making every write
      of every file into one dictionary, file by file and record by record. */
  lemma {:induction false} MergedIsAllWrites(dats: seq<Dat>)
    ensures MergedMapping(dats) == Apply(map[], AllWrites(dats))
    decreases |dats|
  {
    if dats != [] {
      var n := |dats| - 1;
      MergedIsAllWrites(dats[..n]);
      UpdateIsApply(MergedMapping(dats[..n]), DatWrites(dats[n]));
      ApplyAppend(map[], AllWrites(dats[..n]), DatWrites(dats[n]));
    }
  }

  /** The merged mapping's keys are exactly the `crc` attributes of all
      files, and each maps to the game of the last (game, rom) pair that
      carries it, in file order and then record order. */
  lemma MergedLastWriteWins(dats: seq<Dat>)
    ensures forall k :: k in MergedMapping(dats) <==>
      exists i :: 0 <= i < |AllWrites(dats)| && AllWrites(dats)[i].0 == k
    ensures forall k, i :: LastWriteAt(AllWrites(dats), k, i) ==>
      MergedMapping(dats)[k] == AllWrites(dats)[i].1
  {
    MergedIsAllWrites(dats);
    ApplyLastWriteWins(map[], AllWrites(dats));
  }

  /** A key that is written at all has a last write. */
  lemma {:induction false} LastWriteExists(ws: seq<Write>, k: Crc)
    requires exists i :: 0 <= i < |ws| && ws[i].0 == k
    ensures exists i :: LastWriteAt(ws, k, i)
    decreases |ws|
  {
    var n := |ws| - 1;
    if ws[n].0 == k {
      assert LastWriteAt(ws, k, n);
    } else {
      var front := ws[..n];
      var j :| 0 <= j < |ws| && ws[j].0 == k;
      assert front[j].0 == k;
      LastWriteExists(front, k);
      var i :| LastWriteAt(front, k, i);
      assert LastWriteAt(ws, k, i);
    }
  }

  /** There is at most one last write of a key. */
  lemma LastWriteIsUnique(ws: seq<Write>, k: Crc, i: int, j: int)
    requires LastWriteAt(ws, k, i) && LastWriteAt(ws, k, j)
    ensures i == j
  {
  }

  lemma ApplySnoc(m: CrcMap, ws: seq<Write>, w: Write)
    ensures Apply(m, ws + [w]) == Apply(m, ws)[w.0 := w.1]
  {
    assert (ws + [w])[..|ws|] == ws;
  }

  lemma DatWritesSnoc(dat: Dat, i: nat)
    requires i < |dat|
    ensures DatWrites(dat[..i + 1]) == DatWrites(dat[..i]) + GameWrites(dat[i])
  {
    assert dat[..i + 1][..i] == dat[..i];
  }

  /** `parse_dat_file(dat_file)`: fills a fresh dictionary game by game
      and rom by rom. */
  method ParseDatFile(dat: Dat) returns (crcToName: CrcMap)
    ensures crcToName == DatMapping(dat)
  {
    crcToName := map[];
    var i := 0;
    while i < |dat|
      invariant 0 <= i <= |dat|
      invariant crcToName == Apply(map[], DatWrites(dat[..i]))
    {
      var game := dat[i];
      ghost var before := DatWrites(dat[..i]);
      ghost var writes := GameWrites(game);
      var j := 0;
      assert before + writes[..j] == before;
      while j < |game.romCrcs|
        invariant 0 <= j <= |game.romCrcs|
        invariant crcToName == Apply(map[], before + writes[..j])
      {
        var crc := game.romCrcs[j];
        assert writes[..j + 1] == writes[..j] + [(crc, game.name)];
        assert before + writes[..j + 1] == (before + writes[..j]) + [(crc, game.name)];
        ApplySnoc(map[], before + writes[..j], (crc, game.name));
        crcToName := crcToName[crc := game.name];
        j := j + 1;
      }
      assert writes[..j] == writes;
      DatWritesSnoc(dat, i);
      i := i + 1;
    }
    assert dat[..i] == dat;
  }

  /** The merge loop: `crc_to_name_mapping.update(parse_dat_file(f))` for
      each DAT file in turn. */
  method BuildMapping(dats: seq<Dat>) returns (crcToNameMapping: CrcMap)
    ensures crcToNameMapping == MergedMapping(dats)
  {
    crcToNameMapping := map[];
    var i := 0;
    while i < |dats|
      invariant 0 <= i <= |dats|
      invariant crcToNameMapping == MergedMapping(dats[..i])
    {
      var parsed := ParseDatFile(dats[i]);
      assert dats[..i + 1][..i] == dats[..i];
      crcToNameMapping := crcToNameMapping + parsed;
      i := i + 1;
    }
    assert dats[..i] == dats;
  }

  /** Two DAT files that give one checksum different names: the file read
      last decides. */
  lemma LaterFileWins(crc: string, first: string, second: string)
    ensures MergedMapping([[Game(Some(first), [Some(crc)])], [Game(Some(second), [Some(crc)])]])[Some(crc)] == Some(second)
  {
    var dats := [[Game(Some(first), [Some(crc)])], [Game(Some(second), [Some(crc)])]];
    assert dats[..1] == [dats[0]] && [dats[0]][..0] == [];
    assert DatWrites(dats[1]) == [(Some(crc), Some(second))] by {
      assert dats[1][..0] == [];
    }
  }
}
