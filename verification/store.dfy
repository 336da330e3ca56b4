/**
  Model directories on disk: what a scan sees of them, what full verification asks, and the
  primitive steps by which they change. A process can die before any step.
 */
module ModelStore {
  import opened Options
  import opened Text
  import opened Versions

  const MANIFEST_FILE := "manifest.json"
  const SCHEMA_VERSION: nat := 1
  const TMP_PREFIX := ".tmp-"

  type Bytes = seq<bv8>

  datatype ManifestFile = ManifestFile(name: string, role: string, size: nat, sha256: string)

  datatype Manifest = Manifest(schema: nat, source: string, target: string, version: string, files: seq<ManifestFile>)

  /** A directory `<provider>/<pair>/<dir>` of the store. */
  datatype Place = Place(provider: string, pair: string, dir: string)

  type Directory = map<string, Bytes>

  type Dirs = map<Place, Directory>

  /** The libraries: SHA-256 in hexadecimal, zstd, and JSON. */
  datatype World = World(
    sha: Bytes -> string,
    unzstd: Bytes -> Option<Bytes>,
    encode: Manifest -> Bytes,
    decode: Bytes -> Option<Manifest>)

  function LowerChar(c: char): char {
    if 'A' <= c <= 'Z' then (c as int + 32) as char else c
  }

  function Lower(s: string): (r: string)
    ensures |r| == |s|
  {
    seq(|s|, i requires 0 <= i < |s| => LowerChar(s[i]))
  }

  predicate EqIgnoreCase(a: string, b: string) {
    Lower(a) == Lower(b)
  }

  /** Texts that agree but for case: at each place the same character, or the two cases of one letter. */
  lemma SameButCase(a: string, b: string)
    ensures EqIgnoreCase(a, b) <==>
      |a| == |b| && forall i :: 0 <= i < |a| ==> a[i] == b[i] || TwoCases(a[i], b[i]) || TwoCases(b[i], a[i])
  {
    if EqIgnoreCase(a, b) {
      forall i | 0 <= i < |a|
        ensures a[i] == b[i] || TwoCases(a[i], b[i]) || TwoCases(b[i], a[i])
      {
        assert Lower(a)[i] == Lower(b)[i];
      }
    }
  }

  predicate TwoCases(upper: char, lower: char) {
    'A' <= upper <= 'Z' && lower as int == upper as int + 32
  }

  /** A manifest is read back as written, and digests are printed in lower case. */
  ghost predicate Lawful(w: World) {
    && (forall m :: w.decode(w.encode(m)) == Some(m))
    && (forall b :: Lower(w.sha(b)) == w.sha(b))
  }

  predicate SizesMatch(d: Directory, files: seq<ManifestFile>) {
    forall i :: 0 <= i < |files| ==> files[i].name in d && |d[files[i].name]| == files[i].size
  }

  /** `scan_model_dir`: the manifest of a directory that passes the cheap check. */
  function ScanDir(w: World, d: Directory): Option<Manifest> {
    if MANIFEST_FILE !in d then None
    else
      match w.decode(d[MANIFEST_FILE])
      case None => None
      case Some(m) =>
        if m.schema == SCHEMA_VERSION && Parse(m.version).Some? && SizesMatch(d, m.files) then Some(m) else None
  }

  /** What a scan of the store sees at a place; unfinished installs are passed over. */
  function Seen(w: World, p: Place, d: Directory): Option<Manifest> {
    if TMP_PREFIX <= p.dir then None else ScanDir(w, d)
  }

  function SeenAt(w: World, dirs: Dirs, p: Place): Option<Manifest> {
    if p in dirs then Seen(w, p, dirs[p]) else None
  }

  /** All models a scan sees. */
  function Visible(w: World, dirs: Dirs): (r: map<Place, Manifest>)
    ensures forall p :: p in r <==> SeenAt(w, dirs, p).Some?
    ensures forall p :: p in r ==> Some(r[p]) == SeenAt(w, dirs, p)
  {
    map p | p in dirs && SeenAt(w, dirs, p).Some? :: SeenAt(w, dirs, p).value
  }

  /** `Stores::verify`: sizes and digests of every file. */
  predicate Verified(w: World, d: Directory, m: Manifest) {
    forall i :: 0 <= i < |m.files| ==>
      && m.files[i].name in d
      && |d[m.files[i].name]| == m.files[i].size
      && w.sha(d[m.files[i].name]) == m.files[i].sha256
  }

  function PairName(source: string, target: string): string {
    source + "-" + target
  }

  /** The joined name tells the languages exactly if neither has the separator in it. */
  lemma PairNameIff(source: string, target: string)
    ensures (forall a, b :: PairName(a, b) == PairName(source, target) ==> a == source && b == target)
            <==> '-' !in source && '-' !in target
  {
    if '-' in source {
      var i :| 0 <= i < |source| && source[i] == '-';
      SameName(source[..i], source[i + 1..], target);
      assert source == source[..i] + "-" + source[i + 1..];
    } else if '-' in target {
      var i :| 0 <= i < |target| && target[i] == '-';
      SameName(source, target[..i], target[i + 1..]);
      assert target == target[..i] + "-" + target[i + 1..];
      assert |source + "-" + target[..i]| > |source|;
    } else {
      forall a, b | PairName(a, b) == PairName(source, target)
        ensures a == source && b == target
      {
        NameTells(a, b, source, target);
      }
    }
  }

  /** A separator inside a language can be taken for the one between the two. */
  lemma SameName(a: string, b: string, c: string)
    ensures PairName(a + "-" + b, c) == PairName(a, b + "-" + c)
  {
  }

  lemma NameTells(a: string, b: string, source: string, target: string)
    requires '-' !in source && '-' !in target && PairName(a, b) == PairName(source, target)
    ensures a == source && b == target
  {
    var name := PairName(source, target);
    assert PairName(a, b)[|a|] == '-' && name[|source|] == '-';
    assert forall i :: 0 <= i < |source| ==> name[i] == source[i];
    assert forall i :: |source| < i < |name| ==> name[i] == target[i - |source| - 1];
    assert |a| == |source|;
    assert a == name[..|a|] == source;
    assert b == name[|a| + 1..] == target;
  }

  /** Every model a scan can see passes full verification and sits where its manifest says. */
  predicate Good(w: World, dirs: Dirs) {
    forall p :: p in dirs && Seen(w, p, dirs[p]).Some? ==> GoodAt(w, p, dirs[p])
  }

  predicate GoodAt(w: World, p: Place, d: Directory) {
    Seen(w, p, d).Some? ==>
      var m := Seen(w, p, d).value;
      Verified(w, d, m) && PairName(m.source, m.target) == p.pair && m.version == p.dir
  }

  /**
    What a scan takes for a model: not an unfinished installation, a readable manifest of the known
    schema with a version that parses, and every file there with the size the manifest gives.
   */
  lemma SeenIff(w: World, p: Place, d: Directory, m: Manifest)
    ensures Seen(w, p, d) == Some(m) <==>
      && !(".tmp-" <= p.dir)
      && "manifest.json" in d && w.decode(d["manifest.json"]) == Some(m)
      && m.schema == 1 && Parse(m.version).Some?
      && forall i :: 0 <= i < |m.files| ==> m.files[i].name in d && |d[m.files[i].name]| == m.files[i].size
  {
  }

  /** A file that is missing, has another size or another digest fails full verification, and nothing else does. */
  lemma VerifiedIff(w: World, d: Directory, m: Manifest)
    ensures !Verified(w, d, m) <==>
      exists i :: 0 <= i < |m.files| &&
        var file := m.files[i];
        file.name !in d || |d[file.name]| != file.size || w.sha(d[file.name]) != file.sha256
  {
  }

  // ----- Partial removal

  /** What is left of a directory while its files are being removed. */
  predicate Remnant(left: Directory, d: Directory) {
    forall name :: name in left ==> name in d && left[name] == d[name]
  }

  /** Removing files never makes a directory visible, and never changes what is seen or whether it verifies. */
  lemma RemnantsHide(w: World, p: Place, left: Directory, d: Directory)
    requires Remnant(left, d)
    ensures Seen(w, p, left).Some? ==> Seen(w, p, d) == Seen(w, p, left)
    ensures GoodAt(w, p, d) ==> GoodAt(w, p, left)
  {
  }

  /** The names of a directory, each once, in the order in which they are listed. */
  ghost predicate Lists(order: seq<string>, d: Directory) {
    && (forall name :: name in order <==> name in d)
    && forall i, j :: 0 <= i < j < |order| ==> order[i] != order[j]
  }

  /** The directory when the first `n` names have been removed. */
  ghost function LeftAfter(d: Directory, order: seq<string>, n: nat): (r: Directory)
    requires n <= |order|
    ensures Remnant(r, d)
  {
    d - set name | name in order[..n]
  }

  /** The store when the first `n` names of the directory at `p` have been removed. */
  ghost function DirsAfter(dirs: Dirs, p: Place, order: seq<string>, n: nat): (r: Dirs)
    requires p in dirs && n <= |order|
    ensures p in r && r[p] == LeftAfter(dirs[p], order, n)
  {
    dirs[p := LeftAfter(dirs[p], order, n)]
  }

  lemma DirsAtFirst(dirs: Dirs, p: Place, order: seq<string>)
    requires p in dirs
    ensures DirsAfter(dirs, p, order, 0) == dirs
  {
    assert LeftAfter(dirs[p], order, 0) == dirs[p];
  }

  lemma DirsNext(dirs: Dirs, p: Place, order: seq<string>, n: nat)
    requires p in dirs && n < |order|
    ensures var held := DirsAfter(dirs, p, order, n);
      DirsAfter(dirs, p, order, n + 1) == held[p := held[p] - {order[n]}]
  {
    assert order[..n + 1] == order[..n] + [order[n]];
    assert LeftAfter(dirs[p], order, n + 1) == LeftAfter(dirs[p], order, n) - {order[n]};
  }

  /** Whatever is left, the change is at `p` only. */
  lemma RemovedOnlyAt(before: Dirs, after: Dirs, p: Place, order: seq<string>, n: nat)
    requires p in before && n <= |order|
    requires after == before - {p} || after == DirsAfter(before, p, order, n)
    ensures OnlyAt(before, after, p) && (p in after ==> Remnant(after[p], before[p]))
  {
  }

  lemma NothingLeft(d: Directory, order: seq<string>)
    requires Lists(order, d)
    ensures LeftAfter(d, order, |order|) == map[]
  {
    assert order[..|order|] == order;
  }

  /** The two stores differ at most at `p`. */
  predicate OnlyAt(before: Dirs, after: Dirs, p: Place) {
    && (forall q :: q in before && q != p ==> q in after && after[q] == before[q])
    && (forall q :: q in after && q != p ==> q in before)
  }

  /** The two stores differ at most at `p` and `q`. */
  predicate OnlyAtBoth(before: Dirs, after: Dirs, p: Place, q: Place) {
    && (forall r :: r in before && r != p && r != q ==> r in after && after[r] == before[r])
    && (forall r :: r in after && r != p && r != q ==> r in before)
  }

  /** A change at one place that does not change what is seen there changes nothing visible. */
  lemma VisibleUnchanged(w: World, before: Dirs, after: Dirs, p: Place)
    requires OnlyAt(before, after, p) && SeenAt(w, after, p) == SeenAt(w, before, p)
    ensures Visible(w, after) == Visible(w, before)
  {
    assert forall q :: SeenAt(w, after, q) == SeenAt(w, before, q);
  }

  lemma GoodUnchanged(w: World, before: Dirs, after: Dirs, p: Place)
    requires Good(w, before) && OnlyAt(before, after, p) && (p in after ==> GoodAt(w, p, after[p]))
    ensures Good(w, after)
  {
  }

  // ----- The disk

  datatype Step = Done | Died

  class Disk {
    var dirs: Dirs
    var fuel: nat   // steps until the process dies

    constructor (dirs: Dirs, fuel: nat)
      ensures this.dirs == dirs && this.fuel == fuel
    {
      this.dirs, this.fuel := dirs, fuel;
    }

    method Tick() returns (s: Step)
      modifies this`fuel
      ensures s.Done? <==> old(fuel) > 0
      ensures fuel == if s.Done? then old(fuel) - 1 else 0
    {
      if fuel == 0 {
        return Died;
      }
      fuel := fuel - 1;
      return Done;
    }

    method RemoveFile(p: Place, name: string) returns (s: Step)
      requires p in dirs
      modifies this
      ensures s.Done? <==> old(fuel) > 0
      ensures fuel == if s.Done? then old(fuel) - 1 else 0
      ensures dirs == if s.Done? then old(dirs)[p := old(dirs)[p] - {name}] else old(dirs)
    {
      s := Tick();
      if s.Done? {
        dirs := dirs[p := dirs[p] - {name}];
      }
    }

    /** Removes the files named, one by one. */
    method RemoveFiles(p: Place, order: seq<string>) returns (s: Step)
      requires p in dirs
      modifies this
      ensures s.Done? <==> old(fuel) >= |order|
      ensures fuel == if s.Done? then old(fuel) - |order| else 0
      ensures dirs == DirsAfter(old(dirs), p, order, if s.Done? then |order| else old(fuel))
    {
      ghost var before, lent := dirs, fuel;
      DirsAtFirst(before, p, order);
      s := Done;
      for n := 0 to |order|
        invariant s.Done? && fuel == lent - n
        invariant p in dirs && dirs == DirsAfter(before, p, order, n)
      {
        DirsNext(before, p, order, n);
        s := RemoveFile(p, order[n]);
        if s.Died? {
          return;
        }
      }
    }

    /** Removes a directory file by file, in the order of its listing, and then the directory itself. */
    method RemoveAll(p: Place, order: seq<string>) returns (s: Step)
      requires p in dirs && Lists(order, dirs[p])
      modifies this
      ensures s.Done? <==> old(fuel) > |order|
      ensures s.Done? ==> dirs == old(dirs) - {p}
      ensures s.Died? ==> fuel == 0 && dirs == DirsAfter(old(dirs), p, order, old(fuel))
    {
      s := RemoveFiles(p, order);
      if s.Done? {
        s := Tick();
        if s.Done? {
          dirs := dirs - {p};
        }
      }
    }

    method CreateDir(p: Place) returns (s: Step)
      modifies this
      ensures OnlyAt(old(dirs), dirs, p)
      ensures if s.Done? then p in dirs && dirs[p] == map[] else dirs == old(dirs) && fuel == 0
    {
      s := Tick();
      if s.Done? {
        dirs := dirs[p := map[]];
      }
    }

    /** Creates or truncates the file and writes it out; a death on the way leaves a part of it. */
    method WriteFile(p: Place, name: string, bytes: Bytes) returns (s: Step)
      requires p in dirs
      modifies this
      ensures OnlyAt(old(dirs), dirs, p) && p in dirs
      ensures if s.Done? then dirs[p] == old(dirs)[p][name := bytes] else fuel == 0
    {
      s := Tick();
      if s.Died? {
        return;
      }
      var written: Bytes := [];
      dirs := dirs[p := dirs[p][name := written]];
      while |written| < |bytes|
        invariant |written| <= |bytes| && written == bytes[..|written|]
        invariant OnlyAt(old(dirs), dirs, p) && p in dirs && dirs[p] == old(dirs)[p][name := written]
        invariant s.Done?
      {
        s := Tick();
        if s.Died? {
          return;
        }
        written := written + [bytes[|written|]];
        dirs := dirs[p := dirs[p][name := written]];
      }
      assert written == bytes;
    }

    /** An atomic rename; a directory cannot replace one that is not empty. */
    method Rename(from: Place, target: Place) returns (s: Step, ok: bool)
      requires from in dirs && from != target
      modifies this
      ensures s.Died? ==> !ok && fuel == 0
      ensures s.Done? ==> (ok <==> target !in old(dirs) || old(dirs)[target] == map[])
      ensures dirs == if ok then (old(dirs) - {from})[target := old(dirs)[from]] else old(dirs)
    {
      s := Tick();
      ok := s.Done? && (target !in dirs || dirs[target] == map[]);
      if ok {
        dirs := (dirs - {from})[target := dirs[from]];
      }
    }

    /**
      Removes an installed version. Whenever the process dies, the other models are untouched,
      nothing new is visible, and what is still visible verifies.
     */
    method Remove(w: World, p: Place, order: seq<string>) returns (s: Step)
      requires p in dirs && Good(w, dirs) && Lists(order, dirs[p])
      modifies this
      ensures Good(w, dirs)
      ensures Visible(w, dirs) == Visible(w, old(dirs)) || Visible(w, dirs) == Visible(w, old(dirs)) - {p}
      ensures s.Done? ==> p !in dirs
      ensures Blocking(dirs, p) <==> CutsShort(order, old(fuel))
    {
      s := RemoveAll(p, order);
      RemovedOnlyAt(old(dirs), dirs, p, order, if s.Done? then 0 else old(fuel));
      RemovalHides(w, old(dirs), dirs, p);
      if s.Died? {
        InterruptedRemovalBlocks(old(dirs), p, order, old(fuel));
      }
    }
  }

  /** The listing of a directory, in whatever order. */
  method Listing(d: Directory) returns (order: seq<string>)
    ensures Lists(order, d)
  {
    order := [];
    var rest := d.Keys;
    while rest != {}
      invariant rest <= d.Keys
      invariant forall name :: name in order <==> name in d && name !in rest
      invariant forall i, j :: 0 <= i < j < |order| ==> order[i] != order[j]
      decreases |rest|
    {
      var name :| name in rest;
      order, rest := order + [name], rest - {name};
    }
  }

  /** A removal, complete or not, at most hides the model at its place. */
  lemma RemovalHides(w: World, before: Dirs, after: Dirs, p: Place)
    requires p in before && OnlyAt(before, after, p) && (p in after ==> Remnant(after[p], before[p]))
    ensures SeenAt(w, after, p) == None || SeenAt(w, after, p) == SeenAt(w, before, p)
    ensures Visible(w, after) == Visible(w, before) || Visible(w, after) == Visible(w, before) - {p}
    ensures Good(w, before) ==> Good(w, after)
  {
    if p in after {
      RemnantsHide(w, p, after[p], before[p]);
    }
    if Good(w, before) {
      GoodUnchanged(w, before, after, p);
    }
    if SeenAt(w, after, p) == SeenAt(w, before, p) {
      VisibleUnchanged(w, before, after, p);
    } else {
      VisibleMinus(w, before, after, p);
    }
  }

  lemma MapMinus(a: map<Place, Manifest>, b: map<Place, Manifest>, p: Place)
    requires p !in a && forall q :: q != p ==> (q in a <==> q in b)
    requires forall q :: q in a && q in b ==> a[q] == b[q]
    ensures a == b - {p}
  {
  }

  lemma VisibleMinus(w: World, before: Dirs, after: Dirs, p: Place)
    requires OnlyAt(before, after, p) && SeenAt(w, after, p) == None
    ensures Visible(w, after) == Visible(w, before) - {p}
  {
    assert forall q :: q != p ==> SeenAt(w, after, q) == SeenAt(w, before, q);
    MapMinus(Visible(w, after), Visible(w, before), p);
  }

  /**
    A removal that dies right after the manifest can leave a directory that is not empty and
    not recognised as damaged either; the next rename onto it fails.
   */
  predicate Blocking(dirs: Dirs, p: Place) {
    p in dirs && dirs[p] != map[] && MANIFEST_FILE !in dirs[p]
  }

  /** A removal in this order that dies after `steps` files: the manifest is gone, other files are not. */
  predicate CutsShort(order: seq<string>, steps: nat) {
    steps < |order| && MANIFEST_FILE !in order[steps..]
  }

  /** Exactly these removals leave a blocking directory. */
  lemma InterruptedRemovalBlocks(dirs: Dirs, p: Place, order: seq<string>, steps: nat)
    requires p in dirs && Lists(order, dirs[p]) && steps <= |order|
    ensures Blocking(DirsAfter(dirs, p, order, steps), p) <==> CutsShort(order, steps)
  {
    var left := LeftAfter(dirs[p], order, steps);
    forall i | 0 <= i < |order|
      ensures order[i] in left <==> steps <= i
    {
      ListedOnce(order, i, steps);
    }
    if steps < |order| {
      assert order[steps] in left;
      assert MANIFEST_FILE in left <==> MANIFEST_FILE in order[steps..] by {
        ListedFrom(order, steps, left);
      }
    } else {
      NothingLeft(dirs[p], order);
    }
  }

  lemma ListedOnce(order: seq<string>, i: nat, steps: nat)
    requires i < |order| && steps <= |order|
    requires forall i, j :: 0 <= i < j < |order| ==> order[i] != order[j]
    ensures order[i] in order[..steps] <==> i < steps
  {
    assert forall j :: 0 <= j < steps ==> order[..steps][j] == order[j] && (order[j] == order[i] <==> j == i);
  }

  lemma ListedFrom(order: seq<string>, steps: nat, left: Directory)
    requires steps <= |order|
    requires forall i :: 0 <= i < |order| ==> (order[i] in left <==> steps <= i)
    requires forall name :: name in left ==> name in order
    ensures MANIFEST_FILE in left <==> MANIFEST_FILE in order[steps..]
  {
    if MANIFEST_FILE in left {
      var i :| 0 <= i < |order| && order[i] == MANIFEST_FILE;
      assert order[steps..][i - steps] == MANIFEST_FILE;
    }
    if MANIFEST_FILE in order[steps..] {
      var i :| 0 <= i < |order[steps..]| && order[steps..][i] == MANIFEST_FILE;
      assert order[steps + i] == MANIFEST_FILE;
    }
  }
}
