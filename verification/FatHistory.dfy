/** Whole runs of the public operations against the abstract map of files. */
module FatHistory {
  import opened FatBytes
  import opened FatTheory
  import opened FatDisk
  import opened FileMaps
  import opened FatView
  import opened ShortNames
  import opened FatSearch
  import opened FatOps
  import opened FatWrite
  import opened FatAppend
  import opened FatRuns
  import opened FatLedger

  datatype Call =
    | Create(name: seq<byte>)
    | WriteWhole(name: seq<byte>, buffer: seq<byte>)
    | Append(name: seq<byte>, buffer: seq<byte>)
    | Write(name: seq<byte>, buffer: seq<byte>, flags: u32)
    | Truncate(name: seq<byte>)
    | Delete(name: seq<byte>)
    | Rename(name: seq<byte>, newName: seq<byte>)

  predicate CallOk(c: Call) {
    (c.WriteWhole? || c.Append? || c.Write?) ==> |c.buffer| < 0x1_0000_0000
  }

  /** A volume between two calls. */
  datatype Image = Image(disk: seq<Sector>, meta: Meta)

  /** Exactly when a call succeeds. */
  ghost predicate Succeeds(g: Geo, d: seq<Sector>, m: Meta, c: Call)
    requires Fits(g, d)
  {
    var n := ShortName(c.name);
    match c
    case Create(name) => Accepted(name) && n !in Files(g, d, m) && HasRoom(g, d, m)
    case WriteWhole(name, buffer) =>
      FileNamed(g, d, m, name) && |buffer| <= g.BytesPerCluster() && (buffer == [] || Writable(g, d, m, n))
    case Append(name, buffer) => buffer == [] || (FileNamed(g, d, m, name) && Appendable(g, d, m, n, |buffer|))
    case Write(name, buffer, flags) => WriteSucceeds(g, d, m, name, buffer, flags)
    case Truncate(name) => FileNamed(g, d, m, name)
    case Delete(name) => FileNamed(g, d, m, name)
    case Rename(name, newName) =>
      Accepted(newName) && n in Files(g, d, m) && !DirectoryNamed(g, d, m, n) && ShortName(newName) !in Files(g, d, m)
  }

  /** What a call makes of the files: the abstract file system. Only fs_write changes them when
      it fails, and only if it had to create or truncate the file first. */
  ghost function Effect(c: Call, f: map<Text, Text>, ok: bool, empties: bool): map<Text, Text> {
    var n := ShortName(c.name);
    if c.Write? then WrittenBy(f, n, c.buffer, c.flags, ok, empties)
    else if !ok then f
    else
      match c
      case Create(_) => f[n := []]
      case WriteWhole(_, buffer) => if buffer == [] then f else f[n := buffer]
      case Append(_, buffer) => if buffer == [] then f else f[n := Content(f, n) + buffer]
      case Truncate(_) => f[n := []]
      case Delete(_) => f - {n}
      case Rename(_, newName) => (f - {n})[ShortName(newName) := Content(f, n)]
      case Write(_, _, _) => f
  }

  ghost predicate EmptiesFirst(g: Geo, d: seq<Sector>, m: Meta, c: Call)
    requires Fits(g, d)
  {
    c.Write? && Empties(g, d, m, c.name, c.flags)
  }

  ghost function FilesOf(g: Geo, s: Image): map<Text, Text> {
    if Fits(g, s.disk) then Files(g, s.disk, s.meta) else map[]
  }

  ghost predicate Healthy(g: Geo, s: Image) {
    Fits(g, s.disk) && HealthyDisk(g, s.disk, s.meta)
  }

  /** One call: whether it succeeds, and what the files are afterwards, is determined. */
  ghost predicate CallStep(g: Geo, c: Call, ok: bool, s: Image, s': Image) {
    && Healthy(g, s) && Healthy(g, s') && (ok <==> Succeeds(g, s.disk, s.meta, c))
    && FilesOf(g, s') == Effect(c, FilesOf(g, s), ok, EmptiesFirst(g, s.disk, s.meta, c))
  }

  /** One call per step, from the first volume to the last. */
  ghost predicate History(g: Geo, calls: seq<Call>, oks: seq<bool>, trace: seq<Image>) {
    && |oks| == |calls| && |trace| == |calls| + 1
    && forall i :: 0 <= i < |calls| ==> CallStep(g, calls[i], oks[i], trace[i], trace[i + 1])
  }

  lemma InFiles(g: Geo, d: seq<Sector>, m: Meta, name: seq<byte>, f: map<Text, Text>)
    requires FilesAre(g, d, m, f)
    ensures Fits(g, d) && (FileNamed(g, d, m, name) ==> ShortName(name) in f)
  {
  }

  lemma Stepped(g: Geo, c: Call, ok: bool, d: seq<Sector>, m: Meta, f: map<Text, Text>, d': seq<Sector>, m': Meta, f': map<Text, Text>)
    requires FilesAre(g, d, m, f) && FilesAre(g, d', m', f') && Fits(g, d) && (ok <==> Succeeds(g, d, m, c))
    requires f' == Effect(c, f, ok, EmptiesFirst(g, d, m, c))
    ensures CallStep(g, c, ok, Image(d, m), Image(d', m'))
  {
    hide Files, HealthyDisk, FilesAre, Fits, Succeeds, Effect, EmptiesFirst;
    FilesAreFits(g, d, m, f);
    FilesAreFits(g, d', m', f');
  }

  method Perform(v: Volume, c: Call) returns (ok: bool)
    requires HealthyDisk(v.g, v.disk, v.meta) && CallOk(c)
    modifies v
    ensures CallStep(v.g, c, ok, Image(old(v.disk), old(v.meta)), Image(v.disk, v.meta))
  {
    hide Files, Fits, Sound, CopiesAgree, FileNamed, HealthyDisk, ShortName, DirectoryNamed, Accepted, FilesAre, Appendable, CallStep,
         Writable, HasFree, HasChain, Fresh, WriteSucceeds, HasRoom, Wanted, Empties, LeftBy, WrittenBy, ContentIs;
    ghost var d, m := v.disk, v.meta;
    ghost var f := FilesHere(v.g, d, m);
    ghost var f' := f;
    InFiles(v.g, d, m, c.name, f);
    FilesAreFits(v.g, d, m, f);
    match c {
      case Create(name) =>
        ok := CreateFile(v, name, f);
        f' := if ok then f[ShortName(name) := []] else f;
      case WriteWhole(name, buffer) =>
        ok := WriteFile(v, name, buffer, f);
        f' := if ok && buffer != [] then f[ShortName(name) := buffer] else f;
      case Append(name, buffer) =>
        ok := AppendFile(v, name, buffer, f);
        f' := if ok && buffer != [] then f[ShortName(name) := Content(f, ShortName(name)) + buffer] else f;
      case Write(name, buffer, flags) =>
        ok := FsWrite(v, name, buffer, flags);
        f' := FilesHere(v.g, v.disk, v.meta);
      case Truncate(name) =>
        ok := TruncateFile(v, name, f);
        f' := if ok then f[ShortName(name) := []] else f;
      case Delete(name) =>
        ok := FsDeleteFile(v, name);
        f' := FilesHere(v.g, v.disk, v.meta);
      case Rename(name, newName) =>
        ok := FsRenameFile(v, name, newName);
        f' := FilesHere(v.g, v.disk, v.meta);
    }
    Stepped(v.g, c, ok, d, m, f, v.disk, v.meta, f');
  }

  lemma StepFacts(g: Geo, c: Call, ok: bool, s: Image, s': Image)
    requires CallStep(g, c, ok, s, s')
    ensures Fits(g, s'.disk) && HealthyDisk(g, s'.disk, s'.meta)
  {
    hide Sound, CopiesAgree, Files, Fits, HealthyDisk, Succeeds, Effect, EmptiesFirst;
  }

  /** Any sequence of calls, failing ones included, is a history in which every outcome is
      determined, and ends in a healthy volume whose clusters all are accounted for. */
  method Run(v: Volume, calls: seq<Call>) returns (oks: seq<bool>, ghost trace: seq<Image>)
    requires HealthyDisk(v.g, v.disk, v.meta) && forall i :: 0 <= i < |calls| ==> CallOk(calls[i])
    modifies v
    ensures HealthyDisk(v.g, v.disk, v.meta) && Fits(v.g, v.disk)
    ensures History(v.g, calls, oks, trace)
    ensures trace[0] == Image(old(v.disk), old(v.meta)) && trace[|calls|] == Image(v.disk, v.meta)
    ensures ForeignClusters(v.meta.own) == ForeignClusters(old(v.meta.own))
    ensures v.g.MaxCluster() >= 2 && FreeCount(Fat(v.g, v.disk)) + Lengths(v.meta.chains, |Dir(v.g, v.disk, v.meta)|)
              + |Outside(v.g)| == v.g.MaxCluster() - 2
    ensures v.g.foreign == {} ==>
              FreeCount(Fat(v.g, v.disk)) + Lengths(v.meta.chains, |Dir(v.g, v.disk, v.meta)|) == v.g.MaxCluster() - 2
  {
    hide Files, Fits, Sound, CopiesAgree, HealthyDisk, CallStep, Lengths, FreeCount, Geo.MaxCluster, ForeignClusters, Dir, Fat, CallOk;
    OutsideStays(v.g, v.disk, v.meta);
    oks, trace := [], [Image(v.disk, v.meta)];
    for i := 0 to |calls|
      invariant HealthyDisk(v.g, v.disk, v.meta) && |trace| == i + 1 && trace[i] == Image(v.disk, v.meta)
      invariant trace[0] == Image(old(v.disk), old(v.meta))
      invariant History(v.g, calls[..i], oks, trace)
    {
      var ok := Perform(v, calls[i]);
      StepFacts(v.g, calls[i], ok, trace[i], Image(v.disk, v.meta));
      HistoryStep(v.g, calls[..i], calls[i], oks, ok, trace, Image(v.disk, v.meta));
      assert calls[..i] + [calls[i]] == calls[..i + 1];
      oks, trace := oks + [ok], trace + [Image(v.disk, v.meta)];
    }
    assert calls[..|calls|] == calls;
    OutsideStays(v.g, v.disk, v.meta);
    VolumeBalances(v.g, v.disk, v.meta);
  }

  lemma HistoryStep(g: Geo, calls: seq<Call>, c: Call, oks: seq<bool>, ok: bool, trace: seq<Image>, s: Image)
    requires History(g, calls, oks, trace) && CallStep(g, c, ok, trace[|calls|], s)
    ensures History(g, calls + [c], oks + [ok], trace + [s])
  {
    hide CallStep;
  }

  // ----- laws of histories ----------------------------------------------------------------

  predicate Mentions(c: Call, n: Text) {
    ShortName(c.name) == n || (c.Rename? && ShortName(c.newName) == n)
  }

  lemma HistoryInit(g: Geo, calls: seq<Call>, oks: seq<bool>, trace: seq<Image>)
    requires History(g, calls, oks, trace) && calls != []
    ensures var i := |calls| - 1;
            History(g, calls[..i], oks[..i], trace[..i + 1]) && CallStep(g, calls[i], oks[i], trace[i], trace[i + 1])
  {
    hide CallStep;
  }

  lemma StepEffect(g: Geo, c: Call, ok: bool, s: Image, s': Image)
    requires CallStep(g, c, ok, s, s')
    ensures exists empties :: FilesOf(g, s') == Effect(c, FilesOf(g, s), ok, empties)
  {
    hide FilesOf, Healthy, Succeeds, Effect, Empties;
  }

  /** A file no call names is the same at the end. */
  lemma {:induction false} Untouched(g: Geo, calls: seq<Call>, oks: seq<bool>, trace: seq<Image>, n: Text)
    requires History(g, calls, oks, trace)
    requires forall i :: 0 <= i < |calls| ==> !Mentions(calls[i], n)
    ensures n in FilesOf(g, trace[|calls|]) <==> n in FilesOf(g, trace[0])
    ensures n in FilesOf(g, trace[0]) ==> FilesOf(g, trace[|calls|])[n] == FilesOf(g, trace[0])[n]
  {
    hide FilesOf, CallStep, Effect;
    if calls != [] {
      var i := |calls| - 1;
      HistoryInit(g, calls, oks, trace);
      Untouched(g, calls[..i], oks[..i], trace[..i + 1], n);
      StepEffect(g, calls[i], oks[i], trace[i], trace[i + 1]);
      var empties :| FilesOf(g, trace[i + 1]) == Effect(calls[i], FilesOf(g, trace[i]), oks[i], empties);
      EffectElsewhere(calls[i], FilesOf(g, trace[i]), oks[i], empties, n);
    }
  }

  lemma EffectElsewhere(c: Call, f: map<Text, Text>, ok: bool, empties: bool, n: Text)
    requires !Mentions(c, n)
    ensures n in Effect(c, f, ok, empties) <==> n in f
    ensures n in f ==> Effect(c, f, ok, empties)[n] == f[n]
  {
    hide ShortName, Wanted, Content;
  }

  function Concat(calls: seq<Call>): Text
    requires forall i :: 0 <= i < |calls| ==> calls[i].Append?
  {
    if calls == [] then [] else Concat(calls[..|calls| - 1]) + calls[|calls| - 1].buffer
  }

  lemma AppendEffect(c: Call, f: map<Text, Text>, ok: bool, empties: bool)
    requires c.Append? && ok && ShortName(c.name) in f
    ensures var n := ShortName(c.name); Effect(c, f, ok, empties) == f[n := f[n] + c.buffer]
  {
    hide ShortName;
    var n := ShortName(c.name);
    if c.buffer == [] {
      assert f[n] + [] == f[n] && f[n := f[n]] == f;
    }
  }

  /** Appends that succeed, one after another, leave the old content with all buffers behind it. */
  lemma {:induction false} AppendsConcatenate(g: Geo, calls: seq<Call>, oks: seq<bool>, trace: seq<Image>, n: Text)
    requires History(g, calls, oks, trace) && n in FilesOf(g, trace[0])
    requires forall i :: 0 <= i < |calls| ==> calls[i].Append? && ShortName(calls[i].name) == n && oks[i]
    ensures FilesOf(g, trace[|calls|]) == FilesOf(g, trace[0])[n := FilesOf(g, trace[0])[n] + Concat(calls)]
  {
    hide FilesOf, CallStep, Effect, ShortName;
    var f := FilesOf(g, trace[0]);
    if calls == [] {
      assert f[n] + [] == f[n] && f[n := f[n]] == f;
    } else {
      var i := |calls| - 1;
      HistoryInit(g, calls, oks, trace);
      AppendsConcatenate(g, calls[..i], oks[..i], trace[..i + 1], n);
      StepEffect(g, calls[i], oks[i], trace[i], trace[i + 1]);
      var empties :| FilesOf(g, trace[i + 1]) == Effect(calls[i], FilesOf(g, trace[i]), oks[i], empties);
      AppendEffect(calls[i], FilesOf(g, trace[i]), oks[i], empties);
      assert f[n] + Concat(calls[..i]) + calls[i].buffer == f[n] + Concat(calls);
    }
  }
}
