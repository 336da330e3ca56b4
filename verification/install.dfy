/** Installing a model set: stage it in a temporary directory, verify, write the manifest, rename. */
module Installer {
  import opened Catalogue
  import opened ModelStore
  import opened Options
  import opened Versions

  const PROVIDER_ID := "mozilla-remote-settings"

  datatype Download = Download(role: string, record: Record)

  type Server = string -> Option<Bytes>

  function Pick(files: Files, ft: FileType, role: string): seq<Download> {
    if ft in files then [Download(role, files[ft])] else []
  }

  /** The files to fetch, in the order of their types; shortlists only on request. */
  function Downloads(files: Files, lex: bool): seq<Download> {
    Pick(files, Model, "model") + (if lex then Pick(files, Lex, "lex") else []) + Pick(files, Vocab, "vocab")
    + Pick(files, SrcVocab, "srcvocab") + Pick(files, TrgVocab, "trgvocab")
  }

  /** `verify`: the size, and the digest without regard to case. */
  predicate Passes(w: World, bytes: Bytes, size: nat, hash: string) {
    |bytes| == size && EqIgnoreCase(w.sha(bytes), hash)
  }

  /** The verified content of a file, if the server delivers one. */
  function Payload(w: World, server: Server, r: Record): Option<Bytes> {
    match server(r.attachment.location)
    case None => None
    case Some(bytes) =>
      if !Passes(w, bytes, r.attachment.size, r.attachment.hash) || w.unzstd(bytes).None? then None
      else
        var content := w.unzstd(bytes).value;
        if Passes(w, content, r.decompressedSize, r.decompressedHash) then Some(content) else None
  }

  predicate Delivers(w: World, server: Server, ds: seq<Download>) {
    forall i :: 0 <= i < |ds| ==> Payload(w, server, ds[i].record).Some?
  }

  /** The directory after the files were written one after the other. */
  function Built(w: World, server: Server, ds: seq<Download>): Directory
    requires Delivers(w, server, ds)
  {
    if |ds| == 0 then map[]
    else
      var last := ds[|ds| - 1].record;
      Built(w, server, ds[..|ds| - 1])[last.name := Payload(w, server, last).value]
  }

  function FileEntries(ds: seq<Download>): (r: seq<ManifestFile>)
    ensures |r| == |ds|
    ensures forall i :: 0 <= i < |r| ==>
      r[i] == ManifestFile(ds[i].record.name, ds[i].role, ds[i].record.decompressedSize, ds[i].record.decompressedHash)
  {
    seq(|ds|, i requires 0 <= i < |ds| =>
      ManifestFile(ds[i].record.name, ds[i].role, ds[i].record.decompressedSize, ds[i].record.decompressedHash))
  }

  function ManifestFor(m: ModelSet, ds: seq<Download>): Manifest {
    Manifest(SCHEMA_VERSION, m.key.source, m.key.target, m.raw, FileEntries(ds))
  }

  function Finished(w: World, server: Server, m: ModelSet, ds: seq<Download>): Directory
    requires Delivers(w, server, ds)
  {
    Built(w, server, ds)[MANIFEST_FILE := w.encode(ManifestFor(m, ds))]
  }

  function FinalPlace(m: ModelSet): Place {
    Place(PROVIDER_ID, PairName(m.key.source, m.key.target), m.raw)
  }

  function TmpPlace(m: ModelSet, pid: string): Place {
    Place(PROVIDER_ID, PairName(m.key.source, m.key.target), TMP_PREFIX + m.raw + "-" + pid)
  }

  /** The file names neither clash with each other nor with the manifest. */
  predicate DistinctNames(ds: seq<Download>) {
    && (forall i :: 0 <= i < |ds| ==> ds[i].record.name != MANIFEST_FILE)
    && (forall i, j :: 0 <= i < j < |ds| ==> ds[i].record.name != ds[j].record.name)
  }

  /** The catalogue gives the digests in lower case. */
  predicate LowerHashes(ds: seq<Download>) {
    forall i :: 0 <= i < |ds| ==> Lower(ds[i].record.decompressedHash) == ds[i].record.decompressedHash
  }

  // ----- What the finished directory looks like to a scan

  lemma {:induction false} BuiltFiles(w: World, server: Server, ds: seq<Download>)
    requires Delivers(w, server, ds) && DistinctNames(ds)
    ensures forall i :: 0 <= i < |ds| ==>
      ds[i].record.name in Built(w, server, ds)
      && Built(w, server, ds)[ds[i].record.name] == Payload(w, server, ds[i].record).value
  {
    if |ds| > 0 {
      BuiltFiles(w, server, ds[..|ds| - 1]);
      assert forall i :: 0 <= i < |ds| - 1 ==> ds[..|ds| - 1][i] == ds[i];
    }
  }

  /** A version text starts with a digit, so its directory is not taken for an unfinished install. */
  lemma VersionIsNoTmp(raw: string)
    requires Parse(raw).Some?
    ensures !(TMP_PREFIX <= raw)
  {
    if TMP_PREFIX <= raw {
      assert raw[0] == TMP_PREFIX[0];
      FirstParses(Text.Split('.', raw));
    }
  }

  lemma {:induction false} FirstParses(pieces: seq<string>)
    requires |pieces| > 0 && ParseParts(pieces).Some?
    ensures ParsePart(pieces[0]).Some?
  {
    if |pieces| > 1 {
      FirstParses(pieces[..|pieces| - 1]);
    }
  }

  lemma FinishedIsSeen(w: World, server: Server, m: ModelSet, ds: seq<Download>)
    requires Lawful(w) && Delivers(w, server, ds) && DistinctNames(ds) && Parse(m.raw).Some?
    ensures Seen(w, FinalPlace(m), Finished(w, server, m, ds)) == Some(ManifestFor(m, ds))
  {
    BuiltFiles(w, server, ds);
    VersionIsNoTmp(m.raw);
    var d, manifest := Finished(w, server, m, ds), ManifestFor(m, ds);
    assert w.decode(d[MANIFEST_FILE]) == Some(manifest);
    assert SizesMatch(d, manifest.files);
  }

  /** Full verification of what was installed succeeds exactly when the digests came in lower case. */
  lemma FinishedVerifiesIff(w: World, server: Server, m: ModelSet, ds: seq<Download>)
    requires Lawful(w) && Delivers(w, server, ds) && DistinctNames(ds)
    ensures Verified(w, Finished(w, server, m, ds), ManifestFor(m, ds)) <==> LowerHashes(ds)
  {
    BuiltFiles(w, server, ds);
    var d, files := Finished(w, server, m, ds), FileEntries(ds);
    forall i | 0 <= i < |ds|
      ensures files[i].name in d && |d[files[i].name]| == files[i].size
      ensures w.sha(d[files[i].name]) == files[i].sha256 <==>
        Lower(ds[i].record.decompressedHash) == ds[i].record.decompressedHash
    {
      var content := Payload(w, server, ds[i].record).value;
      assert d[files[i].name] == content && Lower(w.sha(content)) == w.sha(content);
    }
  }

  // ----- Which files those are

  /** All types but the unknown one, shortlists only on request. */
  predicate Wanted(files: Files, lex: bool, ft: FileType) {
    ft in files && ft != Unknown && (ft == Lex ==> lex)
  }

  predicate RoleIs(role: string, ft: FileType) {
    match ft
    case Model => role == "model"
    case Lex => role == "lex"
    case Vocab => role == "vocab"
    case SrcVocab => role == "srcvocab"
    case TrgVocab => role == "trgvocab"
    case Unknown => false
  }

  predicate FileOf(files: Files, lex: bool, d: Download, ft: FileType) {
    Wanted(files, lex, ft) && d.record == files[ft] && RoleIs(d.role, ft)
  }

  predicate RolesDiffer(ds: seq<Download>) {
    forall i, j :: 0 <= i < j < |ds| ==> ds[i].role != ds[j].role
  }

  /** Every wanted file is fetched, under its role. */
  lemma WantedIsPicked(files: Files, lex: bool, ft: FileType) returns (d: Download)
    requires Wanted(files, lex, ft)
    ensures d in Downloads(files, lex) && FileOf(files, lex, d, ft)
  {
    var role := match ft
      case Model => "model"
      case Lex => "lex"
      case Vocab => "vocab"
      case SrcVocab => "srcvocab"
      case _ => "trgvocab";
    d := Download(role, files[ft]);
    assert d in Pick(files, ft, role);
  }

  /** Nothing else is. */
  lemma PickedIsWanted(files: Files, lex: bool, d: Download) returns (ft: FileType)
    requires d in Downloads(files, lex)
    ensures FileOf(files, lex, d, ft)
  {
    if d in Pick(files, Model, "model") {
      ft := Model;
    } else if lex && d in Pick(files, Lex, "lex") {
      ft := Lex;
    } else if d in Pick(files, Vocab, "vocab") {
      ft := Vocab;
    } else if d in Pick(files, SrcVocab, "srcvocab") {
      ft := SrcVocab;
    } else {
      ft := TrgVocab;
    }
  }

  /** Parts whose types come one after the other. */
  lemma RolesDifferAcross(files: Files, lex: bool, a: seq<Download>, b: seq<Download>, ft: FileType, role: string)
    requires RolesDiffer(a) && b == Pick(files, ft, role) && RoleIs(role, ft)
    requires forall d :: d in a ==> d.role != role
    ensures RolesDiffer(a + b)
    ensures forall d :: d in a + b ==> d in a || d.role == role
  {
  }

  lemma DownloadsDiffer(files: Files, lex: bool)
    ensures RolesDiffer(Downloads(files, lex))
  {
    var model, vocab, src, trg, short := "model", "vocab", "srcvocab", "trgvocab", "lex";
    assert model[0] != short[0] && model[0] != vocab[0] && model[0] != src[0] && model[0] != trg[0];
    assert short[0] != vocab[0] && short[0] != src[0] && short[0] != trg[0];
    assert vocab[0] != src[0] && vocab[0] != trg[0] && src[0] != trg[0];
    var a := Pick(files, Model, model);
    var b := a + (if lex then Pick(files, Lex, short) else []);
    if lex {
      RolesDifferAcross(files, lex, a, Pick(files, Lex, short), Lex, short);
    } else {
      assert b == a;
    }
    RolesDifferAcross(files, lex, b, Pick(files, Vocab, vocab), Vocab, vocab);
    var c := b + Pick(files, Vocab, vocab);
    RolesDifferAcross(files, lex, c, Pick(files, SrcVocab, src), SrcVocab, src);
    var d := c + Pick(files, SrcVocab, src);
    RolesDifferAcross(files, lex, d, Pick(files, TrgVocab, trg), TrgVocab, trg);
  }

  /** The server delivers the file: both stages have the size and the digest that the record gives. */
  predicate Deliverable(w: World, server: Server, r: Record) {
    && server(r.attachment.location).Some?
    && var bytes := server(r.attachment.location).value;
    && |bytes| == r.attachment.size && EqIgnoreCase(w.sha(bytes), r.attachment.hash)
    && w.unzstd(bytes).Some?
    && var content := w.unzstd(bytes).value;
    && |content| == r.decompressedSize && EqIgnoreCase(w.sha(content), r.decompressedHash)
  }

  predicate EntryOf(e: ManifestFile, ft: FileType, r: Record) {
    RoleIs(e.role, ft) && e.name == r.name && e.size == r.decompressedSize && e.sha256 == r.decompressedHash
  }

  ghost predicate HasEntry(entries: seq<ManifestFile>, ft: FileType, r: Record) {
    exists i :: 0 <= i < |entries| && EntryOf(entries[i], ft, r)
  }

  ghost predicate IsEntry(e: ManifestFile, m: ModelSet, lex: bool) {
    exists ft :: Wanted(m.files, lex, ft) && EntryOf(e, ft, m.files[ft])
  }

  /** The manifest describes the set: one entry for each wanted file, and no other. */
  ghost predicate Describes(manifest: Manifest, m: ModelSet, lex: bool) {
    && manifest.schema == 1 && manifest.version == m.raw
    && manifest.source == m.key.source && manifest.target == m.key.target
    && EntriesAre(manifest.files, m, lex)
  }

  ghost predicate EntriesAre(entries: seq<ManifestFile>, m: ModelSet, lex: bool) {
    && (forall ft {:trigger HasEntry(entries, ft, m.files[ft])} :: Wanted(m.files, lex, ft) ==> HasEntry(entries, ft, m.files[ft]))
    && (forall i {:trigger IsEntry(entries[i], m, lex)} :: 0 <= i < |entries| ==> IsEntry(entries[i], m, lex))
    && (forall i, j :: 0 <= i < j < |entries| ==> entries[i].role != entries[j].role)
  }

  /** The wanted file is there with the content that the server's download decompresses to. */
  ghost predicate Stored(w: World, server: Server, d: Directory, r: Record) {
    && Deliverable(w, server, r) && r.name in d
    && Some(d[r.name]) == w.unzstd(server(r.attachment.location).value)
  }

  ghost predicate IsFile(name: string, m: ModelSet, lex: bool) {
    exists ft :: Wanted(m.files, lex, ft) && m.files[ft].name == name
  }

  /** The directory holds the manifest and the decompressed content of each wanted file, and nothing else. */
  ghost predicate Holds(w: World, server: Server, d: Directory, manifest: Manifest, m: ModelSet, lex: bool) {
    && "manifest.json" in d && w.decode(d["manifest.json"]) == Some(manifest)
    && (forall ft {:trigger Stored(w, server, d, m.files[ft])} :: Wanted(m.files, lex, ft) ==> Stored(w, server, d, m.files[ft]))
    && (forall name {:trigger IsFile(name, m, lex)} :: name in d ==> name == "manifest.json" || IsFile(name, m, lex))
  }

  lemma EntriesDescribe(m: ModelSet, lex: bool, ds: seq<Download>)
    requires ds == Downloads(m.files, lex)
    ensures EntriesAre(FileEntries(ds), m, lex)
  {
    var entries := FileEntries(ds);
    DownloadsDiffer(m.files, lex);
    forall ft | Wanted(m.files, lex, ft)
      ensures HasEntry(entries, ft, m.files[ft])
    {
      var d := WantedIsPicked(m.files, lex, ft);
      var i :| 0 <= i < |ds| && ds[i] == d;
      assert EntryOf(entries[i], ft, m.files[ft]);
    }
    forall i | 0 <= i < |entries|
      ensures IsEntry(entries[i], m, lex)
    {
      var ft := PickedIsWanted(m.files, lex, ds[i]);
      assert EntryOf(entries[i], ft, m.files[ft]);
    }
  }

  ghost predicate HasRole(entries: seq<ManifestFile>, role: string) {
    exists i :: 0 <= i < |entries| && entries[i].role == role
  }

  /** What is installed of a complete set is complete again: a model with its vocabulary, or with both. */
  lemma InstalledIsComplete(manifest: Manifest, m: ModelSet, lex: bool)
    requires Describes(manifest, m, lex)
    requires Model in m.files && (Vocab in m.files || (SrcVocab in m.files && TrgVocab in m.files))
    ensures HasRole(manifest.files, "model")
    ensures HasRole(manifest.files, "vocab") || (HasRole(manifest.files, "srcvocab") && HasRole(manifest.files, "trgvocab"))
  {
    assert HasEntry(manifest.files, Model, m.files[Model]);
    if Vocab in m.files {
      assert HasEntry(manifest.files, Vocab, m.files[Vocab]);
    } else {
      assert HasEntry(manifest.files, SrcVocab, m.files[SrcVocab]);
      assert HasEntry(manifest.files, TrgVocab, m.files[TrgVocab]);
    }
  }

  lemma ManifestDescribes(m: ModelSet, lex: bool)
    ensures Describes(ManifestFor(m, Downloads(m.files, lex)), m, lex)
  {
    EntriesDescribe(m, lex, Downloads(m.files, lex));
  }

  lemma {:induction false} BuiltNames(w: World, server: Server, ds: seq<Download>, name: string)
    requires Delivers(w, server, ds) && name in Built(w, server, ds)
    ensures exists i :: 0 <= i < |ds| && ds[i].record.name == name
  {
    if ds[|ds| - 1].record.name != name {
      BuiltNames(w, server, ds[..|ds| - 1], name);
      var i :| 0 <= i < |ds| - 1 && ds[..|ds| - 1][i].record.name == name;
      assert ds[i].record.name == name;
    }
  }

  lemma FinishedHolds(w: World, server: Server, m: ModelSet, lex: bool, ds: seq<Download>)
    requires Lawful(w) && ds == Downloads(m.files, lex) && Delivers(w, server, ds) && DistinctNames(ds)
    ensures Holds(w, server, Finished(w, server, m, ds), ManifestFor(m, ds), m, lex)
  {
    var d := Finished(w, server, m, ds);
    assert w.decode(d["manifest.json"]) == Some(ManifestFor(m, ds));
    BuiltFiles(w, server, ds);
    forall ft | Wanted(m.files, lex, ft)
      ensures Stored(w, server, d, m.files[ft])
    {
      var x := WantedIsPicked(m.files, lex, ft);
      var i :| 0 <= i < |ds| && ds[i] == x;
      assert Payload(w, server, ds[i].record).Some?;
    }
    forall name | name in d && name != "manifest.json"
      ensures IsFile(name, m, lex)
    {
      BuiltNames(w, server, ds, name);
      var i :| 0 <= i < |ds| && ds[i].record.name == name;
      var ft := PickedIsWanted(m.files, lex, ds[i]);
    }
  }

  /** A refusal has its cause: a wanted file that the server does not deliver as the record says. */
  lemma RefusalHasCause(w: World, server: Server, m: ModelSet, lex: bool)
    ensures Delivers(w, server, Downloads(m.files, lex)) <==>
      forall ft :: Wanted(m.files, lex, ft) ==> Deliverable(w, server, m.files[ft])
  {
    var ds := Downloads(m.files, lex);
    if Delivers(w, server, ds) {
      forall ft | Wanted(m.files, lex, ft)
        ensures Deliverable(w, server, m.files[ft])
      {
        var d := WantedIsPicked(m.files, lex, ft);
        assert Payload(w, server, d.record).Some?;
      }
    } else {
      var i :| 0 <= i < |ds| && Payload(w, server, ds[i].record).None?;
      var ft := PickedIsWanted(m.files, lex, ds[i]);
      assert !Deliverable(w, server, m.files[ft]);
    }
  }

  // ----- The installation

  datatype Outcome =
    | Present(manifest: Manifest)   // this version was already there
    | Fresh(manifest: Manifest)
    | Refused                       // a download failed or did not verify
    | Blocked                       // the rename failed
    | Dead                          // the process died on the way

  /** A change in a temporary directory is invisible. */
  lemma TmpIsInvisible(w: World, before: Dirs, after: Dirs, tmp: Place)
    requires OnlyAt(before, after, tmp) && TMP_PREFIX <= tmp.dir
    ensures Visible(w, after) == Visible(w, before)
    ensures Good(w, before) ==> Good(w, after)
  {
    VisibleUnchanged(w, before, after, tmp);
    if Good(w, before) {
      GoodUnchanged(w, before, after, tmp);
    }
  }

  /** Makes room for the new directory: a damaged leftover goes, a readable copy is returned. */
  method ClearFinal(disk: Disk, w: World, final: Place)
    returns (s: Step, present: Option<Manifest>, ghost order: seq<string>)
    requires Good(w, disk.dirs) && !(TMP_PREFIX <= final.dir)
    modifies disk
    ensures Good(w, disk.dirs) && Visible(w, disk.dirs) == Visible(w, old(disk.dirs))
    ensures OnlyAt(old(disk.dirs), disk.dirs, final)
    ensures present == SeenAt(w, old(disk.dirs), final)
    ensures present.Some? ==> disk.dirs == old(disk.dirs) && s.Done?
    ensures s.Died? ==> disk.fuel == 0
    ensures Blocking(old(disk.dirs), final) ==> s.Done? && disk.dirs == old(disk.dirs)
    ensures final in old(disk.dirs) ==> Lists(order, old(disk.dirs)[final])
    ensures Blocking(disk.dirs, final) <==>
      Blocking(old(disk.dirs), final) || (Damaged(w, old(disk.dirs), final) && CutsShort(order, old(disk.fuel)))
    ensures s.Done? && present.None? ==>
      if final in disk.dirs then disk.dirs == old(disk.dirs) && MANIFEST_FILE !in disk.dirs[final]
      else !(final in old(disk.dirs) && MANIFEST_FILE !in old(disk.dirs)[final])
  {
    s, present, order := Done, None, [];
    if final in disk.dirs {
      var listing := Listing(disk.dirs[final]);
      order := listing;
      if MANIFEST_FILE in disk.dirs[final] {
        present := ScanDir(w, disk.dirs[final]);
        if present.None? {
          ghost var before, steps := disk.dirs, disk.fuel;
          s := disk.RemoveAll(final, listing);
          RemovedOnlyAt(before, disk.dirs, final, listing, if s.Done? then 0 else steps);
          RemovalHides(w, before, disk.dirs, final);
          assert SeenAt(w, before, final) == None;
          VisibleUnchanged(w, before, disk.dirs, final);
          if s.Died? {
            InterruptedRemovalBlocks(before, final, listing, steps);
          }
        }
      }
    }
  }

  /** A directory with a manifest that no scan accepts. */
  predicate Damaged(w: World, dirs: Dirs, p: Place) {
    p in dirs && MANIFEST_FILE in dirs[p] && ScanDir(w, dirs[p]).None?
  }

  /** An empty temporary directory, whatever was there before. */
  method PrepareTmp(disk: Disk, tmp: Place) returns (s: Step)
    modifies disk
    ensures OnlyAt(old(disk.dirs), disk.dirs, tmp)
    ensures if s.Done? then tmp in disk.dirs && disk.dirs[tmp] == map[] else disk.fuel == 0
  {
    if tmp in disk.dirs {
      var order := Listing(disk.dirs[tmp]);
      ghost var steps := disk.fuel;
      s := disk.RemoveAll(tmp, order);
      RemovedOnlyAt(old(disk.dirs), disk.dirs, tmp, order, if s.Done? then 0 else steps);
      if s.Died? {
        return;
      }
    }
    s := disk.CreateDir(tmp);
  }

  /** Fetches, verifies and writes the files one by one. */
  method Stage(disk: Disk, w: World, server: Server, tmp: Place, ds: seq<Download>) returns (s: Step, ok: bool)
    requires tmp in disk.dirs && disk.dirs[tmp] == map[]
    modifies disk
    ensures OnlyAt(old(disk.dirs), disk.dirs, tmp) && tmp in disk.dirs
    ensures s.Died? ==> disk.fuel == 0
    ensures s.Done? ==> (ok <==> Delivers(w, server, ds))
    ensures s.Done? && ok ==> disk.dirs[tmp] == Built(w, server, ds)
  {
    s := Done;
    for i := 0 to |ds|
      invariant s.Done? && OnlyAt(old(disk.dirs), disk.dirs, tmp) && tmp in disk.dirs
      invariant Delivers(w, server, ds[..i]) && disk.dirs[tmp] == Built(w, server, ds[..i])
    {
      var content := Payload(w, server, ds[i].record);
      if content.None? {
        return s, false;
      }
      assert ds[..i + 1][..i] == ds[..i];
      s := disk.WriteFile(tmp, ds[i].record.name, content.value);
      if s.Died? {
        return s, false;
      }
    }
    assert ds[..|ds|] == ds;
    return s, true;
  }

  /** The finished directory appears at its place in one step. */
  lemma RenameShows(w: World, server: Server, m: ModelSet, ds: seq<Download>, before: Dirs, after: Dirs, tmp: Place)
    requires Lawful(w) && Delivers(w, server, ds) && Parse(m.raw).Some?
    requires TMP_PREFIX <= tmp.dir && SeenAt(w, before, FinalPlace(m)) == None && Good(w, before)
    requires after == (before - {tmp})[FinalPlace(m) := Finished(w, server, m, ds)]
    ensures DistinctNames(ds) ==> Visible(w, after) == Visible(w, before)[FinalPlace(m) := ManifestFor(m, ds)]
    ensures DistinctNames(ds) && LowerHashes(ds) ==> Good(w, after)
  {
    var final := FinalPlace(m);
    VersionIsNoTmp(m.raw);
    assert forall q :: q != final ==> SeenAt(w, after, q) == SeenAt(w, before, q);
    if DistinctNames(ds) {
      FinishedIsSeen(w, server, m, ds);
      MapPlus(Visible(w, after), Visible(w, before), final, ManifestFor(m, ds));
      if LowerHashes(ds) {
        FinishedVerifiesIff(w, server, m, ds);
        assert GoodAt(w, final, after[final]);
        forall p | p in after && Seen(w, p, after[p]).Some?
          ensures GoodAt(w, p, after[p])
        {
          if p != final {
            assert GoodAt(w, p, before[p]);
          }
        }
      }
    }
  }

  lemma RenameMoves(before: Dirs, staged: Dirs, after: Dirs, final: Place, tmp: Place)
    requires OnlyAt(before, staged, tmp) && final in after && after == (staged - {tmp})[final := after[final]]
    ensures OnlyAtBoth(before, after, final, tmp)
  {
  }

  lemma ChangedInTurn(a: Dirs, b: Dirs, c: Dirs, p: Place, q: Place)
    requires OnlyAt(a, b, p) && OnlyAtBoth(b, c, p, q)
    ensures OnlyAtBoth(a, c, p, q)
  {
  }

  lemma MapPlus(a: map<Place, Manifest>, b: map<Place, Manifest>, p: Place, m: Manifest)
    requires p in a && a[p] == m && forall q :: q != p ==> (q in a <==> q in b)
    requires forall q :: q != p && q in a && q in b ==> a[q] == b[q]
    ensures a == b[p := m]
  {
  }

  /** Staging and renaming, once the place is clear. */
  method StageAndRename(disk: Disk, w: World, server: Server, m: ModelSet, ds: seq<Download>, tmp: Place)
    returns (outcome: Outcome, renamed: bool)
    requires Lawful(w) && Good(w, disk.dirs) && Parse(m.raw).Some? && TMP_PREFIX <= tmp.dir
    requires SeenAt(w, disk.dirs, FinalPlace(m)) == None
    modifies disk
    ensures outcome.Fresh? ==> renamed && outcome.manifest == ManifestFor(m, ds)
    ensures outcome.Refused? ==> !Delivers(w, server, ds)
    ensures outcome.Blocked? ==> FinalPlace(m) in old(disk.dirs) && old(disk.dirs)[FinalPlace(m)] != map[]
    ensures outcome.Dead? ==> disk.fuel == 0
    ensures !outcome.Present?
    ensures !renamed ==> Visible(w, disk.dirs) == Visible(w, old(disk.dirs)) && Good(w, disk.dirs)
    ensures !renamed ==> OnlyAt(old(disk.dirs), disk.dirs, tmp)
    ensures OnlyAtBoth(old(disk.dirs), disk.dirs, FinalPlace(m), tmp)
    ensures renamed ==>
      && Delivers(w, server, ds)
      && (FinalPlace(m) !in old(disk.dirs) || old(disk.dirs)[FinalPlace(m)] == map[])
      && FinalPlace(m) in disk.dirs && disk.dirs[FinalPlace(m)] == Finished(w, server, m, ds)
      && (DistinctNames(ds) ==>
            Visible(w, disk.dirs) == Visible(w, old(disk.dirs))[FinalPlace(m) := ManifestFor(m, ds)])
      && (DistinctNames(ds) && LowerHashes(ds) ==> Good(w, disk.dirs))
  {
    ghost var before := disk.dirs;
    VersionIsNoTmp(m.raw);
    renamed := false;
    var s := PrepareTmp(disk, tmp);
    TmpIsInvisible(w, before, disk.dirs, tmp);
    if s.Died? {
      return Dead, renamed;
    }
    var ok;
    s, ok := Stage(disk, w, server, tmp, ds);
    TmpIsInvisible(w, before, disk.dirs, tmp);
    if s.Died? || !ok {
      return if s.Died? then Dead else Refused, renamed;
    }
    s := disk.WriteFile(tmp, MANIFEST_FILE, w.encode(ManifestFor(m, ds)));
    TmpIsInvisible(w, before, disk.dirs, tmp);
    if s.Died? {
      return Dead, renamed;
    }
    ghost var staged := disk.dirs;
    s, renamed := disk.Rename(tmp, FinalPlace(m));
    if !renamed {
      return if s.Died? then Dead else Blocked, renamed;
    }
    RenameShows(w, server, m, ds, staged, disk.dirs, tmp);
    ghost var shown := disk.dirs;
    RenameMoves(before, staged, shown, FinalPlace(m), tmp);
    s := disk.Tick();
    outcome := if s.Died? then Dead else Fresh(ManifestFor(m, ds));
  }

  lemma StaysBlocking(before: Dirs, after: Dirs, final: Place, tmp: Place)
    requires OnlyAt(before, after, tmp) && tmp != final
    ensures Blocking(before, final) <==> Blocking(after, final)
  {
  }

  /**
    Installs a model set. The process can die before any step. Whatever happens, what a scan
    sees is what it saw before, or that and the new model; and as long as names are distinct
    and digests in lower case, everything it sees verifies.
   */
  method Install(disk: Disk, w: World, server: Server, m: ModelSet, lex: bool, pid: string)
    returns (outcome: Outcome, ghost order: seq<string>)
    requires Lawful(w) && Good(w, disk.dirs) && Parse(m.raw).Some?
    modifies disk
    ensures DistinctNames(Downloads(m.files, lex)) && LowerHashes(Downloads(m.files, lex)) ==> Good(w, disk.dirs)
    ensures DistinctNames(Downloads(m.files, lex)) ==>
      || Visible(w, disk.dirs) == Visible(w, old(disk.dirs))
      || (SeenAt(w, old(disk.dirs), FinalPlace(m)) == None
          && Visible(w, disk.dirs)
             == Visible(w, old(disk.dirs))[FinalPlace(m) := ManifestFor(m, Downloads(m.files, lex))])
    ensures outcome.Present? ==>
      disk.dirs == old(disk.dirs) && Some(outcome.manifest) == SeenAt(w, disk.dirs, FinalPlace(m))
    ensures outcome.Present? ==>
      && PairName(outcome.manifest.source, outcome.manifest.target) == PairName(m.key.source, m.key.target)
      && outcome.manifest.version == m.raw
    ensures outcome.Fresh? ==>
      && Delivers(w, server, Downloads(m.files, lex))
      && outcome.manifest == ManifestFor(m, Downloads(m.files, lex))
      && FinalPlace(m) in disk.dirs
      && disk.dirs[FinalPlace(m)] == Finished(w, server, m, Downloads(m.files, lex))
    ensures outcome.Fresh? ==>
      Place("mozilla-remote-settings", m.key.source + "-" + m.key.target, m.raw) in disk.dirs
    ensures outcome.Fresh? ==> Describes(outcome.manifest, m, lex)
    ensures outcome.Fresh? && DistinctNames(Downloads(m.files, lex)) ==>
      Holds(w, server, disk.dirs[FinalPlace(m)], outcome.manifest, m, lex)
    ensures outcome.Refused? || outcome.Blocked? ==> Visible(w, disk.dirs) == Visible(w, old(disk.dirs))
    ensures outcome.Refused? ==> exists ft :: Wanted(m.files, lex, ft) && !Deliverable(w, server, m.files[ft])
    ensures outcome.Blocked? ==> Blocking(old(disk.dirs), FinalPlace(m))
    ensures Blocking(old(disk.dirs), FinalPlace(m)) ==> !outcome.Fresh? && !outcome.Present?
    ensures FinalPlace(m) in old(disk.dirs) ==> Lists(order, old(disk.dirs)[FinalPlace(m)])
    ensures Blocking(disk.dirs, FinalPlace(m)) <==>
      || Blocking(old(disk.dirs), FinalPlace(m))
      || (Damaged(w, old(disk.dirs), FinalPlace(m)) && CutsShort(order, old(disk.fuel)))
    ensures outcome.Dead? ==> disk.fuel == 0
    ensures OnlyAtBoth(old(disk.dirs), disk.dirs,
              Place("mozilla-remote-settings", m.key.source + "-" + m.key.target, m.raw),
              Place("mozilla-remote-settings", m.key.source + "-" + m.key.target, ".tmp-" + m.raw + "-" + pid))
  {
    VersionIsNoTmp(m.raw);
    RefusalHasCause(w, server, m, lex);
    var s, present;
    s, present, order := ClearFinal(disk, w, FinalPlace(m));
    if present.Some? {
      assert GoodAt(w, FinalPlace(m), disk.dirs[FinalPlace(m)]);
      return Present(present.value), order;
    }
    if s.Died? {
      return Dead, order;
    }
    assert SeenAt(w, disk.dirs, FinalPlace(m)) == None;
    ghost var cleared := disk.dirs;
    var renamed;
    outcome, renamed := StageAndRename(disk, w, server, m, Downloads(m.files, lex), TmpPlace(m, pid));
    ChangedInTurn(old(disk.dirs), cleared, disk.dirs, FinalPlace(m), TmpPlace(m, pid));
    if !renamed {
      StaysBlocking(cleared, disk.dirs, FinalPlace(m), TmpPlace(m, pid));
    } else {
      ManifestDescribes(m, lex);
      if DistinctNames(Downloads(m.files, lex)) {
        FinishedHolds(w, server, m, lex, Downloads(m.files, lex));
      }
    }
  }

  /** A successful installation of this version can be seen, and verifies exactly when its digests are in lower case. */
  lemma InstalledCanBeSeen(w: World, server: Server, m: ModelSet, ds: seq<Download>, dirs: Dirs)
    requires Lawful(w) && Delivers(w, server, ds) && DistinctNames(ds) && Parse(m.raw).Some?
    requires FinalPlace(m) in dirs && dirs[FinalPlace(m)] == Finished(w, server, m, ds)
    ensures SeenAt(w, dirs, FinalPlace(m)) == Some(ManifestFor(m, ds))
    ensures Verified(w, dirs[FinalPlace(m)], ManifestFor(m, ds)) <==> LowerHashes(ds)
  {
    FinishedIsSeen(w, server, m, ds);
    FinishedVerifiesIff(w, server, m, ds);
  }

  /**
    A removal that dies after `steps` files, then a restart and an installation of the same
    version. Without its manifest the rest of the directory is taken neither for a copy nor for
    a damaged one. The rename fails only if, and the installation cannot succeed if, the removal
    was cut short between the manifest and the last file; the directory then stays in the way of
    every later installation as well.
   */
  method RemoveThenInstall(dirs: Dirs, w: World, server: Server, m: ModelSet, lex: bool, pid: string,
                           order: seq<string>, steps: nat, fuel: nat)
    returns (outcome: Outcome, left: Dirs)
    requires Lawful(w) && Good(w, dirs) && Parse(m.raw).Some?
    requires FinalPlace(m) in dirs && Lists(order, dirs[FinalPlace(m)])
    ensures CutsShort(order, steps) ==> !outcome.Fresh? && !outcome.Present? && Blocking(left, FinalPlace(m))
    ensures outcome.Blocked? ==> CutsShort(order, steps)
  {
    var disk := new Disk(dirs, steps);
    var _ := disk.Remove(w, FinalPlace(m), order);
    var restarted := new Disk(disk.dirs, fuel);
    ghost var listing;
    outcome, listing := Install(restarted, w, server, m, lex, pid);
    left := restarted.dirs;
  }

  /** Variants of a pair share their place, and so do pairs with the same joined name. */
  lemma SharePlaceIff(m: ModelSet, n: ModelSet)
    ensures FinalPlace(m) == FinalPlace(n) <==>
      PairName(m.key.source, m.key.target) == PairName(n.key.source, n.key.target) && m.raw == n.raw
  {
  }
}
