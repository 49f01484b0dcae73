/** fs_write: exactly when it succeeds, and what it leaves when it does not. */
module FatRuns {
  import opened FatBytes
  import opened FatTheory
  import opened FatDisk
  import opened FileMaps
  import opened FatView
  import opened ShortNames
  import opened FatSearch
  import opened FatFs
  import opened FatOps
  import opened FatWrite
  import opened FatAppend

  // ----- fs_write ------------------------------------------------------------------------

  predicate Creates(flags: u32) { flags % 2 == 1 }
  predicate Truncates(flags: u32) { flags / 2 % 2 == 1 }
  predicate Appends(flags: u32) { flags / 4 % 2 == 1 }
  predicate Excludes(flags: u32) { flags / 8 % 2 == 1 }

  /** What the flags ask the file to read as afterwards. */
  function Wanted(was: Text, buffer: Text, flags: u32): Text {
    if Truncates(flags) then buffer
    else if Appends(flags) then was + buffer
    else if buffer == [] then was
    else buffer
  }

  function Content(f: map<Text, Text>, n: Text): Text {
    if n in f then f[n] else []
  }

  /** The flags allow writing to this name. */
  ghost predicate Admitted(f: map<Text, Text>, n: Text, flags: u32) {
    && !(Appends(flags) && Truncates(flags))
    && if n in f then !Excludes(flags) else Creates(flags)
  }

  /** What a failing fs_write leaves: the name as it was, or empty if the call got as far as
      creating or truncating the file. */
  ghost function LeftBy(f: map<Text, Text>, n: Text, empties: bool): map<Text, Text> {
    if empties then f[n := []] else f
  }

  /** What fs_write leaves: what the flags ask for if it succeeds. */
  ghost function WrittenBy(f: map<Text, Text>, n: Text, buffer: Text, flags: u32, ok: bool, empties: bool): map<Text, Text> {
    if ok then f[n := Wanted(Content(f, n), buffer, flags)] else LeftBy(f, n, empties)
  }

  ghost predicate FilesAre(g: Geo, d: seq<Sector>, m: Meta, f: map<Text, Text>) {
    HealthyDisk(g, d, m) && Files(g, d, m) == f
  }

  lemma FilesHere(g: Geo, d: seq<Sector>, m: Meta) returns (f: map<Text, Text>)
    requires HealthyDisk(g, d, m)
    ensures Fits(g, d) && f == Files(g, d, m) && FilesAre(g, d, m, f)
  {
    hide Files, ChainsWf, DirWf, CopiesAgree;
    assert Fits(g, d);
    f := Files(g, d, m);
  }

  /** The part of fs_write that needs the name to exist will succeed. */
  ghost predicate RestSucceeds(g: Geo, d: seq<Sector>, m: Meta, name: seq<byte>, buffer: seq<byte>, flags: u32)
    requires Fits(g, d)
  {
    FileNamed(g, d, m, name) && (buffer == [] || RoomToWrite(g, d, m, ShortName(name), |buffer|, flags))
  }

  ghost predicate RoomToWrite(g: Geo, d: seq<Sector>, m: Meta, n: seq<byte>, size: nat, flags: u32)
    requires Fits(g, d)
  {
    if Truncates(flags) then size <= g.BytesPerCluster() && (HasFree(g, d) || HasChain(g, d, m, n))
    else if !HasChain(g, d, m, n) then size <= g.BytesPerCluster() && HasFree(g, d)
    else if Appends(flags) then Appendable(g, d, m, n, size)
    else size <= g.BytesPerCluster() && Writable(g, d, m, n)
  }

  /** Exactly when fs_write succeeds. */
  ghost predicate WriteSucceeds(g: Geo, d: seq<Sector>, m: Meta, name: seq<byte>, buffer: seq<byte>, flags: u32)
    requires Fits(g, d)
  {
    && Accepted(name) && Admitted(Files(g, d, m), ShortName(name), flags)
    && if ShortName(name) in Files(g, d, m) then RestSucceeds(g, d, m, name, buffer, flags)
       else HasRoom(g, d, m) && (buffer == [] || (|buffer| <= g.BytesPerCluster() && HasFree(g, d)))
  }

  /** fs_write gets as far as creating or truncating the file, after which it can still fail. */
  ghost predicate Empties(g: Geo, d: seq<Sector>, m: Meta, name: seq<byte>, flags: u32)
    requires Fits(g, d)
  {
    && Accepted(name) && Admitted(Files(g, d, m), ShortName(name), flags)
    && if ShortName(name) in Files(g, d, m) then Truncates(flags) && !DirectoryNamed(g, d, m, ShortName(name))
       else HasRoom(g, d, m)
  }

  lemma LeavesAlone(f: map<Text, Text>, n: Text, empties: bool)
    ensures LeftBy(f, n, empties) == f <==> !empties || (n in f && f[n] == [])
  {
    if empties && n in f && f[n] == [] {
      assert f[n := []] == f;
    }
  }

  ghost predicate ContentIs(f: map<Text, Text>, n: Text, text: Text) {
    n in f && f[n] == text
  }

  /** A failing fs_write leaves every file as it was exactly if it did not get that far, or the
      file was empty already. */
  lemma FailureKeeps(f: map<Text, Text>, n: Text)
    ensures forall empties {:trigger LeftBy(f, n, empties)} ::
              LeftBy(f, n, empties) == f <==> !empties || ContentIs(f, n, [])
  {
    forall empties ensures LeftBy(f, n, empties) == f <==> !empties || ContentIs(f, n, []) {
      LeavesAlone(f, n, empties);
    }
  }

  const FLAG_TRUNCATE: u32 := 2

  /** Truncating any file to more than one cluster of data fails, and the file is empty then. */
  lemma TruncateLoses(g: Geo, d: seq<Sector>, m: Meta, name: seq<byte>, buffer: seq<byte>)
    requires HealthyDisk(g, d, m) && Fits(g, d) && FileNamed(g, d, m, name) && |buffer| == g.BytesPerCluster() + 1
    ensures !WriteSucceeds(g, d, m, name, buffer, FLAG_TRUNCATE) && Empties(g, d, m, name, FLAG_TRUNCATE)
    ensures Files(g, d, m)[ShortName(name)] != [] ==>
              LeftBy(Files(g, d, m), ShortName(name), Empties(g, d, m, name, FLAG_TRUNCATE)) != Files(g, d, m)
  {
    hide Files, ChainsWf, DirWf, CopiesAgree, Accepted, ShortName, DirectoryNamed, Dir, HasRoom, HasFree, HasChain, Writable, Appendable;
    assert Truncates(FLAG_TRUNCATE) && !Appends(FLAG_TRUNCATE) && !Excludes(FLAG_TRUNCATE);
    LeavesAlone(Files(g, d, m), ShortName(name), true);
  }

  lemma EntryExists(g: Geo, d: seq<Sector>, m: Meta, n: seq<byte>) returns (k: nat)
    requires HealthyDisk(g, d, m) && n in Files(g, d, m)
    ensures EntryAt(g, d, m, n, k)
  {
    hide ChainsWf, DirWf, CopiesAgree, Dir, Rest, Fat, ForeignIs, ChainBytes, FileMap, RootChain;
    hide Geo.MaxCluster, Geo.DataStart, Geo.BytesPerCluster;
    var items := Listing(g, d, m);
    InMap(items, n);
    k :| At(items, n, k);
  }

  /** Without a cluster, a whole-file write needs a free one. */
  lemma NoChainWrite(g: Geo, d: seq<Sector>, m: Meta, n: seq<byte>)
    requires HealthyDisk(g, d, m) && n in Files(g, d, m) && !HasChain(g, d, m, n)
    ensures Writable(g, d, m, n) <==> HasFree(g, d)
  {
    hide HealthyDisk, Files, EntryAt, HasFree, Fits;
    var k := EntryExists(g, d, m, n);
    OneEntry(g, d, m, n, k);
  }

  lemma FreshFacts(g: Geo, d: seq<Sector>, m: Meta, name: seq<byte>)
    requires Fresh(g, d, m, ShortName(name)) && Accepted(name)
    ensures Fits(g, d) && FileNamed(g, d, m, name) && !HasChain(g, d, m, ShortName(name))
    ensures Writable(g, d, m, ShortName(name)) <==> HasFree(g, d)
  {
    hide Dir, Files, HasFree, DirectoryNamed, IsDirectory, ShortName, EntryAt;
    var n := ShortName(name);
    var k: nat :| EntryAt(g, d, m, n, k) && FreshSlot(g, d, m, k);
    EntryFacts(g, d, m, n, k);
    OneEntry(g, d, m, n, k);
  }

  method CreateFile(v: Volume, name: seq<byte>, ghost f: map<Text, Text>) returns (ok: bool)
    requires FilesAre(v.g, v.disk, v.meta, f)
    modifies v`disk, v`sector, v`log
    ensures FilesAre(v.g, v.disk, v.meta, if ok then f[ShortName(name) := []] else f)
    ensures Fits(v.g, v.disk) && Fits(v.g, old(v.disk))
    ensures ok <==> Accepted(name) && ShortName(name) !in f && HasRoom(v.g, old(v.disk), v.meta)
    ensures ok ==> Fresh(v.g, v.disk, v.meta, ShortName(name)) && (HasFree(v.g, v.disk) <==> HasFree(v.g, old(v.disk)))
  {
    hide Files, ChainsWf, DirWf, CopiesAgree, HasRoom, Accepted, ShortName, Fat, Dir, Fresh;
    ok := FsCreate(v, name);
  }

  method TruncateFile(v: Volume, name: seq<byte>, ghost f: map<Text, Text>) returns (ok: bool)
    requires FilesAre(v.g, v.disk, v.meta, f)
    modifies v
    ensures FilesAre(v.g, v.disk, v.meta, if ok then f[ShortName(name) := []] else f)
    ensures Fits(v.g, v.disk) && Fits(v.g, old(v.disk)) && (ok <==> FileNamed(v.g, old(v.disk), old(v.meta), name))
    ensures ok ==> Fresh(v.g, v.disk, v.meta, ShortName(name))
    ensures ok ==> (HasFree(v.g, v.disk) <==>
                    HasFree(v.g, old(v.disk)) || HasChain(v.g, old(v.disk), old(v.meta), ShortName(name)))
  {
    hide Files, ChainsWf, DirWf, CopiesAgree, FileNamed, ShortName, HasChain, HasFree, Fresh, Dir;
    ok := FsTruncateFile(v, name);
  }

  method WriteFile(v: Volume, name: seq<byte>, buffer: seq<byte>, ghost f: map<Text, Text>) returns (ok: bool)
    requires FilesAre(v.g, v.disk, v.meta, f) && |buffer| < 0x1_0000_0000
    modifies v
    ensures FilesAre(v.g, v.disk, v.meta, if ok && buffer != [] then f[ShortName(name) := buffer] else f)
    ensures Fits(v.g, old(v.disk))
    ensures ok <==> FileNamed(v.g, old(v.disk), old(v.meta), name) && |buffer| <= v.g.BytesPerCluster()
                    && (buffer == [] || Writable(v.g, old(v.disk), old(v.meta), ShortName(name)))
  {
    hide Files, ChainsWf, DirWf, CopiesAgree, FileNamed, ShortName, Writable, SafeUntilLast, HasChain, Dir;
    ok := FsWriteFile(v, name, buffer);
  }

  method AppendFile(v: Volume, name: seq<byte>, buffer: seq<byte>, ghost f: map<Text, Text>) returns (ok: bool)
    requires FilesAre(v.g, v.disk, v.meta, f) && |buffer| < 0x1_0000_0000
    modifies v
    ensures ok && buffer != [] ==> ShortName(name) in f
    ensures FilesAre(v.g, v.disk, v.meta,
                     if ok && buffer != [] then f[ShortName(name) := Content(f, ShortName(name)) + buffer] else f)
    ensures Fits(v.g, old(v.disk))
    ensures ok <==> buffer == [] || (FileNamed(v.g, old(v.disk), old(v.meta), name)
                                     && Appendable(v.g, old(v.disk), old(v.meta), ShortName(name), |buffer|))
  {
    hide Files, ChainsWf, DirWf, CopiesAgree, FileNamed, ShortName, Appendable, SafeUntilLast, AllSafe, Dir;
    ok := FsAppendFile(v, name, buffer);
  }

  /** Looks an entry up again, in a volume whose files are f. */
  method LookUp(v: Volume, name: seq<byte>, ghost f: map<Text, Text>) returns (found: bool, directory: bool, first: nat)
    requires FilesAre(v.g, v.disk, v.meta, f)
    modifies v`sector
    ensures Fits(v.g, v.disk) && (found <==> ShortName(name) in f)
    ensures found ==> (directory <==> DirectoryNamed(v.g, v.disk, v.meta, ShortName(name)))
    ensures found ==> (first == 0 <==> !HasChain(v.g, v.disk, v.meta, ShortName(name)))
    ensures found && first == 0 ==> f[ShortName(name)] == []
  {
    hide Files, ChainsWf, DirWf, CopiesAgree, ShortName, Located, IsDirectory, FirstOf, DirectoryNamed;
    var e, lba, index;
    ghost var k;
    found, e, lba, index, k := FindEntry(v, name);
    directory, first := IsDirectory(e), FirstOf(e);
    if found {
      LookedUp(v.g, v.disk, v.meta, ShortName(name), k, e);
    }
  }

  lemma LookedUp(g: Geo, d: seq<Sector>, m: Meta, n: seq<byte>, k: nat, e: Slot)
    requires EntryAt(g, d, m, n, k) && k < |Dir(g, d, m)| && e == Dir(g, d, m)[k]
    ensures Fits(g, d) && n in Files(g, d, m) && (FirstOf(e) == 0 ==> Files(g, d, m)[n] == [])
    ensures FirstOf(e) == 0 <==> !HasChain(g, d, m, n)
    ensures DirectoryNamed(g, d, m, n) <==> IsDirectory(e)
  {
    EntryFacts(g, d, m, n, k);
    OneEntry(g, d, m, n, k);
    hide ChainBytes, Rest, ChainsWf, Fat, CopiesAgree, Dir, IsDirectory, DirectoryNamed;
  }

  /** fs_write: create if asked, then truncate, append or overwrite as the flags say. */
  method FsWrite(v: Volume, name: seq<byte>, buffer: seq<byte>, flags: u32) returns (ok: bool)
    requires HealthyDisk(v.g, v.disk, v.meta) && |buffer| < 0x1_0000_0000
    modifies v
    ensures HealthyDisk(v.g, v.disk, v.meta) && Fits(v.g, v.disk) && Fits(v.g, old(v.disk))
    ensures ok <==> WriteSucceeds(v.g, old(v.disk), old(v.meta), name, buffer, flags)
    ensures Files(v.g, v.disk, v.meta) == WrittenBy(Files(v.g, old(v.disk), old(v.meta)), ShortName(name), buffer, flags, ok,
                                                    Empties(v.g, old(v.disk), old(v.meta), name, flags))
    ensures !ok ==> (Files(v.g, v.disk, v.meta) == Files(v.g, old(v.disk), old(v.meta)) <==>
                       !Empties(v.g, old(v.disk), old(v.meta), name, flags)
                       || ContentIs(Files(v.g, old(v.disk), old(v.meta)), ShortName(name), []))
  {
    hide Empties, Files, Fits, ChainsWf, DirWf, CopiesAgree, HealthyDisk, ShortName, Creates, Truncates, Appends, Excludes, Accepted, Sound, Wanted, ContentIs,
         RestSucceeds, RoomToWrite, WriteSucceeds, HasRoom, HasFree, HasChain, Fresh, Writable, Appendable, FileNamed, DirectoryNamed;
    ghost var d, m := v.disk, v.meta;
    ghost var f := FilesHere(v.g, d, m);
    ghost var n := ShortName(name);
    FilesAreFits(v.g, d, m, f);
    Outcome(v.g, d, m, f, name, buffer, flags);
    FailureKeeps(f, n);
    if Appends(flags) && Truncates(flags) {
      return false;
    }
    var shortName := new byte[11];
    ok := MakeShortNameChecked(name, shortName);
    if !ok {
      return;
    }
    var present, directory, first := LookUp(v, name, f);
    if present && directory {
      return false;
    }
    if present && Excludes(flags) {
      return false;
    }
    ghost var f1 := f;
    if !present {
      if !Creates(flags) {
        return false;
      }
      ok := CreateFile(v, name, f);
      FilesAreFits(v.g, v.disk, v.meta, if ok then f[n := []] else f);
      if !ok {
        return;
      }
      f1 := f[n := []];
      FreshOutcome(v.g, v.disk, v.meta, name, buffer, flags);
    }
    assert Base(f, f1, n) && n in f1;
    ok := WriteExisting(v, name, buffer, flags, f, f1);
  }

  lemma Outcome(g: Geo, d: seq<Sector>, m: Meta, f: map<Text, Text>, name: seq<byte>, buffer: seq<byte>, flags: u32)
    requires FilesAre(g, d, m, f)
    ensures Fits(g, d)
    ensures WriteSucceeds(g, d, m, name, buffer, flags) <==>
            && Accepted(name) && Admitted(f, ShortName(name), flags)
            && if ShortName(name) in f then RestSucceeds(g, d, m, name, buffer, flags)
               else HasRoom(g, d, m) && (buffer == [] || (|buffer| <= g.BytesPerCluster() && HasFree(g, d)))
    ensures DirectoryNamed(g, d, m, ShortName(name)) ==> !RestSucceeds(g, d, m, name, buffer, flags)
    ensures Empties(g, d, m, name, flags) <==>
            && Accepted(name) && Admitted(f, ShortName(name), flags)
            && if ShortName(name) in f then Truncates(flags) && !DirectoryNamed(g, d, m, ShortName(name)) else HasRoom(g, d, m)
  {
    hide Files, ChainsWf, DirWf, CopiesAgree, Admitted, Accepted, ShortName, RoomToWrite, DirectoryNamed, Dir;
  }

  lemma FreshOutcome(g: Geo, d: seq<Sector>, m: Meta, name: seq<byte>, buffer: seq<byte>, flags: u32)
    requires Fresh(g, d, m, ShortName(name)) && Accepted(name)
    requires !(Truncates(flags) && Appends(flags))
    ensures Fits(g, d) && !DirectoryNamed(g, d, m, ShortName(name))
    ensures RestSucceeds(g, d, m, name, buffer, flags) <==> buffer == [] || (|buffer| <= g.BytesPerCluster() && HasFree(g, d))
  {
    hide Fits, Fresh, Accepted, ShortName, HasFree, HasChain, Appendable, DirectoryNamed, Files, Writable, Truncates, Appends;
    FreshFacts(g, d, m, name);
  }

  /** The rest of fs_write, once the entry exists: f1 is f with the name created if need be. */
  method WriteExisting(v: Volume, name: seq<byte>, buffer: seq<byte>, flags: u32, ghost f: map<Text, Text>,
                       ghost f1: map<Text, Text>) returns (ok: bool)
    requires FilesAre(v.g, v.disk, v.meta, f1) && |buffer| < 0x1_0000_0000 && Admitted(f, ShortName(name), flags)
    requires Base(f, f1, ShortName(name)) && ShortName(name) in f1
    requires Accepted(name) && Fits(v.g, v.disk) && !DirectoryNamed(v.g, v.disk, v.meta, ShortName(name))
    modifies v
    ensures HealthyDisk(v.g, v.disk, v.meta) && Fits(v.g, v.disk)
    ensures ok <==> RestSucceeds(v.g, old(v.disk), old(v.meta), name, buffer, flags)
    ensures Files(v.g, v.disk, v.meta) == WrittenBy(f, ShortName(name), buffer, flags, ok, Truncates(flags) || ShortName(name) !in f)
  {
    hide *;
    ghost var n := ShortName(name);
    RestOutcome(v.g, v.disk, v.meta, f1, name, buffer, flags);
    if Truncates(flags) {
      RoomTruncating(v.g, v.disk, v.meta, n, |buffer|, flags);
      ok := TruncateThenWrite(v, name, buffer, f1);
      FilesAreFits(v.g, v.disk, v.meta, f1[n := if ok then buffer else []]);
      WrittenTruncating(f, f1, Files(v.g, v.disk, v.meta), n, buffer, flags, ok);
      return;
    }
    if Appends(flags) {
      RoomAppending(v.g, v.disk, v.meta, n, |buffer|, flags);
      ok := AppendOrWrite(v, name, buffer, f1);
      FilesAreFits(v.g, v.disk, v.meta, if ok then f1[n := f1[n] + buffer] else f1);
      WrittenAppending(f, f1, Files(v.g, v.disk, v.meta), n, buffer, flags, ok);
      return;
    }
    ok := WriteFile(v, name, buffer, f1);
    FilesAreFits(v.g, v.disk, v.meta, if ok && buffer != [] then f1[n := buffer] else f1);
    WrittenOver(f, f1, Files(v.g, v.disk, v.meta), n, buffer, flags, ok);
  }

  lemma FilesAreFits(g: Geo, d: seq<Sector>, m: Meta, f: map<Text, Text>)
    requires FilesAre(g, d, m, f)
    ensures HealthyDisk(g, d, m) && Fits(g, d) && Files(g, d, m) == f
  {
  }

  lemma RestOutcome(g: Geo, d: seq<Sector>, m: Meta, f: map<Text, Text>, name: seq<byte>, buffer: seq<byte>, flags: u32)
    requires FilesAre(g, d, m, f) && ShortName(name) in f && Accepted(name) && Fits(g, d)
    requires !DirectoryNamed(g, d, m, ShortName(name))
    ensures FileNamed(g, d, m, name) && HealthyDisk(g, d, m)
    ensures RestSucceeds(g, d, m, name, buffer, flags) <==>
              buffer == [] || RoomToWrite(g, d, m, ShortName(name), |buffer|, flags)
    ensures !Truncates(flags) && !Appends(flags) ==>
              (RestSucceeds(g, d, m, name, buffer, flags) <==>
                 |buffer| <= g.BytesPerCluster() && (buffer == [] || Writable(g, d, m, ShortName(name))))
  {
    hide Files, ChainsWf, DirWf, CopiesAgree, Accepted, ShortName, DirectoryNamed, Dir, Appendable, Writable, HasFree, HasChain,
         Appends, Truncates, Sound;
    if !HasChain(g, d, m, ShortName(name)) {
      NoChainWrite(g, d, m, ShortName(name));
    }
  }

  method TruncateThenWrite(v: Volume, name: seq<byte>, buffer: seq<byte>, ghost f: map<Text, Text>) returns (ok: bool)
    requires FilesAre(v.g, v.disk, v.meta, f) && |buffer| < 0x1_0000_0000 && Accepted(name)
    requires Fits(v.g, v.disk) && FileNamed(v.g, v.disk, v.meta, name)
    modifies v
    ensures FilesAre(v.g, v.disk, v.meta, f[ShortName(name) := if ok then buffer else []])
    ensures ok <==> buffer == []
                    || (|buffer| <= v.g.BytesPerCluster()
                        && (HasFree(v.g, old(v.disk)) || HasChain(v.g, old(v.disk), old(v.meta), ShortName(name))))
  {
    hide *;
    ok := TruncateFile(v, name, f);
    if !ok {
      return;
    }
    if |buffer| == 0 {
      assert buffer == [];
      return;
    }
    FreshFacts(v.g, v.disk, v.meta, name);
    ok := WriteFile(v, name, buffer, f[ShortName(name) := []]);
    assert f[ShortName(name) := []][ShortName(name) := buffer] == f[ShortName(name) := buffer];
  }

  method AppendOrWrite(v: Volume, name: seq<byte>, buffer: seq<byte>, ghost f: map<Text, Text>) returns (ok: bool)
    requires FilesAre(v.g, v.disk, v.meta, f) && |buffer| < 0x1_0000_0000 && HealthyDisk(v.g, v.disk, v.meta)
    requires Fits(v.g, v.disk) && FileNamed(v.g, v.disk, v.meta, name) && ShortName(name) in f
    modifies v
    ensures FilesAre(v.g, v.disk, v.meta, if ok then f[ShortName(name) := f[ShortName(name)] + buffer] else f)
    ensures ok <==> buffer == []
                    || if HasChain(v.g, old(v.disk), old(v.meta), ShortName(name))
                       then Appendable(v.g, old(v.disk), old(v.meta), ShortName(name), |buffer|)
                       else |buffer| <= v.g.BytesPerCluster() && HasFree(v.g, old(v.disk))
  {
    hide *;
    ghost var n := ShortName(name);
    if |buffer| == 0 {
      assert buffer == [] && f[n] + buffer == f[n] && f[n := f[n]] == f;
      return true;
    }
    var found, directory, first := LookUp(v, name, f);
    if !found {
      return false;
    }
    if first == 0 {
      assert f[n] + buffer == buffer;
      SameNow(v.g, v.disk, v.meta, f, n);
      ok := WriteFile(v, name, buffer, f);
      return;
    }
    ContentHere(f, n);
    ok := AppendFile(v, name, buffer, f);
  }

  lemma RoomTruncating(g: Geo, d: seq<Sector>, m: Meta, n: seq<byte>, size: nat, flags: u32)
    requires Fits(g, d) && Truncates(flags)
    ensures RoomToWrite(g, d, m, n, size, flags) <==> size <= g.BytesPerCluster() && (HasFree(g, d) || HasChain(g, d, m, n))
  {
  }

  lemma RoomAppending(g: Geo, d: seq<Sector>, m: Meta, n: seq<byte>, size: nat, flags: u32)
    requires Fits(g, d) && Appends(flags) && !Truncates(flags)
    ensures RoomToWrite(g, d, m, n, size, flags) <==>
              if HasChain(g, d, m, n) then Appendable(g, d, m, n, size) else size <= g.BytesPerCluster() && HasFree(g, d)
  {
    hide HasFree, HasChain, Appendable;
  }

  lemma SameNow(g: Geo, d: seq<Sector>, m: Meta, f: map<Text, Text>, n: seq<byte>)
    requires FilesAre(g, d, m, f) && n in f && !HasChain(g, d, m, n)
    ensures Fits(g, d) && (Writable(g, d, m, n) <==> HasFree(g, d))
  {
    hide Files, ChainsWf, DirWf, CopiesAgree, Dir, Writable, HasFree, HasChain;
    NoChainWrite(g, d, m, n);
  }

  lemma ContentHere(f: map<Text, Text>, n: Text)
    requires n in f
    ensures Content(f, n) == f[n]
  {
  }

  ghost predicate Base(f: map<Text, Text>, f1: map<Text, Text>, n: Text) {
    f1 == if n in f then f else f[n := []]
  }

  lemma WrittenTruncating(f: map<Text, Text>, f1: map<Text, Text>, f': map<Text, Text>, n: Text, buffer: Text, flags: u32, ok: bool)
    requires Base(f, f1, n) && Admitted(f, n, flags) && Truncates(flags) && f' == f1[n := if ok then buffer else []]
    ensures f' == WrittenBy(f, n, buffer, flags, ok, Truncates(flags) || n !in f)
  {
  }

  lemma WrittenAppending(f: map<Text, Text>, f1: map<Text, Text>, f': map<Text, Text>, n: Text, buffer: Text, flags: u32, ok: bool)
    requires Base(f, f1, n) && Admitted(f, n, flags) && Appends(flags) && n in f1
    requires f' == if ok then f1[n := f1[n] + buffer] else f1
    ensures f' == WrittenBy(f, n, buffer, flags, ok, Truncates(flags) || n !in f)
  {
    assert f1[n] == Content(f, n);
  }

  lemma WrittenOver(f: map<Text, Text>, f1: map<Text, Text>, f': map<Text, Text>, n: Text, buffer: Text, flags: u32, ok: bool)
    requires Base(f, f1, n) && Admitted(f, n, flags) && !Appends(flags) && !Truncates(flags)
    requires f' == if ok && buffer != [] then f1[n := buffer] else f1
    ensures f' == WrittenBy(f, n, buffer, flags, ok, Truncates(flags) || n !in f)
  {
    if ok && buffer == [] {
      assert f[n := Content(f, n)] == f1;
    }
  }
}
