/** Looking a pair up in the stores: the newest supported copy, the system's one on a tie. */
module Resolver {
  import opened Catalogue
  import Installer
  import opened ModelStore
  import opened Options
  import opened Versions

  datatype Origin = System | User

  datatype InstalledModel = InstalledModel(origin: Origin, place: Place, version: Version, manifest: Manifest)

  /** Everything a scan finds in one store, in no particular order. */
  method Scan(w: World, dirs: Dirs, origin: Origin) returns (found: seq<InstalledModel>)
    ensures forall i :: 0 <= i < |found| ==> Found(w, dirs, origin, found[i])
    ensures forall p :: p in Visible(w, dirs) ==> exists i :: 0 <= i < |found| && found[i].place == p
  {
    found := [];
    var rest := dirs.Keys;
    while rest != {}
      invariant rest <= dirs.Keys
      invariant forall i :: 0 <= i < |found| ==> Found(w, dirs, origin, found[i])
      invariant forall p :: p in Visible(w, dirs) && p !in rest ==> exists i :: 0 <= i < |found| && found[i].place == p
      decreases |rest|
    {
      var p :| p in rest;
      rest := rest - {p};
      var m := Seen(w, p, dirs[p]);
      if m.Some? {
        ghost var before := found;
        found := found + [InstalledModel(origin, p, Parse(m.value.version).value, m.value)];
        assert found[|before|].place == p;
        assert forall i :: 0 <= i < |before| ==> found[i] == before[i];
      }
    }
  }

  predicate Found(w: World, dirs: Dirs, origin: Origin, model: InstalledModel) {
    && model.origin == origin
    && SeenAt(w, dirs, model.place) == Some(model.manifest)
    && Parse(model.manifest.version) == Some(model.version)
  }

  /** Of the pair, and of a version the engine supports. */
  predicate Candidate(model: InstalledModel, source: string, target: string) {
    PairName(model.manifest.source, model.manifest.target) == PairName(source, target) && InWindow(model.version)
  }

  /** Newer, or equally new and a system copy where the other is not. */
  ghost predicate Better(a: InstalledModel, b: InstalledModel) {
    Less(b.version, a.version) || (Same(a.version, b.version) && a.origin.System? && b.origin.User?)
  }

  ghost predicate Resolved(models: seq<InstalledModel>, source: string, target: string, best: Option<InstalledModel>) {
    match best
    case None => forall i :: 0 <= i < |models| ==> !Candidate(models[i], source, target)
    case Some(model) =>
      && model in models && Candidate(model, source, target)
      && forall i :: 0 <= i < |models| && Candidate(models[i], source, target) ==> !Better(models[i], model)
  }

  /** Being better is transitive over not being worse, so one pass finds a best one. */
  lemma BetterChain(a: InstalledModel, b: InstalledModel, c: InstalledModel)
    requires !Better(b, a) && !Better(c, b)
    ensures !Better(c, a)
  {
    NotNewerChain(c.version, b.version, a.version);
  }

  method IsBetter(a: InstalledModel, b: InstalledModel) returns (r: bool)
    ensures r <==> Better(a, b)
  {
    var ord := Cmp(a.version, b.version);
    r := ord == Gt || (ord == Eq && a.origin.System? && b.origin.User?);
  }

  /** Spelled out: the joined names agree and the leading number is 3. */
  predicate IsModelFor(model: InstalledModel, source: string, target: string) {
    && model.manifest.source + "-" + model.manifest.target == source + "-" + target
    && |model.version| > 0 && model.version[0].number == 3
  }

  /** `resolve` over everything the scans found. */
  method Resolve(models: seq<InstalledModel>, source: string, target: string) returns (best: Option<InstalledModel>)
    ensures Resolved(models, source, target, best)
    ensures best.Some? ==>
      && best.value in models && IsModelFor(best.value, source, target)
      && forall i :: 0 <= i < |models| && IsModelFor(models[i], source, target) ==>
           && !Less(best.value.version, models[i].version)
           && (Same(best.value.version, models[i].version) && models[i].origin.System? ==> best.value.origin.System?)
    ensures best.None? ==> forall i :: 0 <= i < |models| ==> !IsModelFor(models[i], source, target)
    ensures best.Some? && '-' !in source && '-' !in target ==>
      best.value.manifest.source == source && best.value.manifest.target == target
  {
    PairNameIff(source, target);
    best := None;
    for i := 0 to |models|
      invariant Resolved(models[..i], source, target, best)
    {
      assert models[..i + 1] == models[..i] + [models[i]];
      if Candidate(models[i], source, target) {
        NotBetterThanItself(models[i]);
        if best.None? {
          best := Some(models[i]);
        } else {
          var worse := IsBetter(best.value, models[i]);
          if !worse {
            forall j | 0 <= j < i && Candidate(models[j], source, target)
              ensures !Better(models[j], models[i])
            {
              assert models[..i][j] == models[j];
              BetterChain(models[i], best.value, models[j]);
            }
            best := Some(models[i]);
          } else {
            BetterIsOneWay(best.value, models[i]);
          }
        }
      }
    }
    assert models[..|models|] == models;
  }

  /** A model for two other languages answers when the names happen to join alike: `zh-hant` and `en` for `zh` and `hant-en`. */
  lemma OtherLanguages(model: InstalledModel, a: string, b: string, c: string)
    requires model.manifest.source == a + "-" + b && model.manifest.target == c && InWindow(model.version)
    ensures Resolved([model], a, b + "-" + c, Some(model))
    ensures model.manifest.source != a && model.manifest.target != b + "-" + c
  {
    SameName(a, b, c);
    NotBetterThanItself(model);
    assert |model.manifest.source| > |a| && |model.manifest.target| < |b + "-" + c|;
  }

  lemma NotBetterThanItself(a: InstalledModel)
    ensures !Better(a, a)
  {
    NotLessThanItself(a.version, a.version);
  }

  lemma BetterIsOneWay(a: InstalledModel, b: InstalledModel)
    requires Better(a, b)
    ensures !Better(b, a)
  {
    Trichotomy(a.version, b.version);
    Trichotomy(b.version, a.version);
  }

  /**
    Once a supported model can be seen by a scan, looking its pair up yields a version at
    least as new; an equally old system copy is the only thing that can take its place.
   */
  lemma InstalledIsResolved(models: seq<InstalledModel>, source: string, target: string, model: InstalledModel,
                            best: Option<InstalledModel>)
    requires Resolved(models, source, target, best)
    requires model in models && Candidate(model, source, target)
    ensures best.Some? && !Less(best.value.version, model.version)
    ensures Same(best.value.version, model.version) && model.origin.System? ==> best.value.origin.System?
  {
    var i :| 0 <= i < |models| && models[i] == model;
    if best.Some? {
      SameOtherWay(best.value.version, model.version);
    }
  }

  lemma SameOtherWay(a: Version, b: Version)
    ensures Same(a, b) <==> Same(b, a)
  {
  }

  /** Install, scan and look up in one go, as after an on-demand installation. */
  method InstallAndResolve(disk: Disk, w: World, server: Installer.Server, m: ModelSet, lex: bool, pid: string,
                           system: seq<InstalledModel>)
    returns (outcome: Installer.Outcome, best: Option<InstalledModel>)
    requires Lawful(w) && Good(w, disk.dirs) && Parse(m.raw) == Some(m.version) && InWindow(m.version)
    requires Installer.DistinctNames(Installer.Downloads(m.files, lex))
    modifies disk
    ensures outcome.Fresh? || outcome.Present? ==> best.Some? && !Less(best.value.version, m.version)
    ensures best.Some? && '-' !in m.key.source && '-' !in m.key.target ==>
      best.value.manifest.source == m.key.source && best.value.manifest.target == m.key.target
  {
    ghost var listing;
    outcome, listing := Installer.Install(disk, w, server, m, lex, pid);
    var user := Scan(w, disk.dirs, User);
    best := Resolve(user + system, m.key.source, m.key.target);
    if outcome.Fresh? || outcome.Present? {
      var final := Installer.FinalPlace(m);
      if outcome.Fresh? {
        Installer.InstalledCanBeSeen(w, server, m, Installer.Downloads(m.files, lex), disk.dirs);
      }
      assert SeenAt(w, disk.dirs, final) == Some(outcome.manifest);
      assert final in Visible(w, disk.dirs);
      var i :| 0 <= i < |user| && user[i].place == final;
      assert user[i] in user + system && user[i].manifest == outcome.manifest;
      InstalledIsResolved(user + system, m.key.source, m.key.target, user[i], best);
    }
  }
}
