/** The acceptance rule: group records into model sets and keep the newest complete one. */
module Catalogue {
  import opened Filters
  import opened Options
  import opened Text
  import opened Versions

  const MODEL_MAJOR_MIN: nat := 3
  const MODEL_MAJOR_MAX: nat := 3

  datatype FileType = Model | Lex | Vocab | SrcVocab | TrgVocab | Unknown

  datatype Attachment = Attachment(hash: string, size: nat, location: string)

  datatype Record = Record(
    name: string, source: string, target: string, version: string, fileType: FileType,
    variant: Option<string>, architecture: Option<string>, filter: Option<string>,
    attachment: Attachment, decompressedHash: string, decompressedSize: nat)

  /** A record with its filter's answer and its parsed version. */
  datatype Entry = Entry(record: Record, verdict: Option<bool>, version: Option<Version>)

  datatype SetKey = SetKey(source: string, target: string, variant: Option<string>)

  datatype GroupKey = GroupKey(set_: SetKey, version: string)

  type Files = map<FileType, Record>

  datatype ModelSet = ModelSet(key: SetKey, raw: string, version: Version, architecture: Option<string>, files: Files)

  function Judge(record: Record, env: FilterEnv): Entry {
    Entry(record, Matches(if record.filter.Some? then record.filter.value else "", env), Parse(record.version))
  }

  function JudgeAll(records: seq<Record>, env: FilterEnv): (r: seq<Entry>)
    ensures |r| == |records|
    ensures forall i :: 0 <= i < |r| ==> r[i] == Judge(records[i], env)
  {
    seq(|records|, i requires 0 <= i < |records| => Judge(records[i], env))
  }

  predicate InWindow(v: Version) {
    |v| > 0 && MODEL_MAJOR_MIN <= v[0].number <= MODEL_MAJOR_MAX
  }

  predicate Eligible(e: Entry) {
    e.verdict == Some(true) && e.version.Some? && InWindow(e.version.value)
  }

  function KeyOf(e: Entry): GroupKey {
    GroupKey(SetKey(e.record.source, e.record.target, e.record.variant), e.record.version)
  }

  /** The eligible records of one group, in catalogue order. */
  function GroupOf(entries: seq<Entry>, key: GroupKey): seq<Entry> {
    if |entries| == 0 then []
    else
      var last := entries[|entries| - 1];
      GroupOf(entries[..|entries| - 1], key) + if Eligible(last) && KeyOf(last) == key then [last] else []
  }

  /** One record per file type; a later record of the same type replaces an earlier one. */
  function FilesOf(group: seq<Entry>): Files {
    if |group| == 0 then map[]
    else
      var last := group[|group| - 1].record;
      FilesOf(group[..|group| - 1])[last.fileType := last]
  }

  predicate Complete(files: Files) {
    Model in files && (Vocab in files || (SrcVocab in files && TrgVocab in files))
  }

  /** A group is on offer when its files are complete. */
  predicate OnOffer(entries: seq<Entry>, key: GroupKey) {
    Complete(FilesOf(GroupOf(entries, key)))
  }

  /** The version of a group; every record in it carries the same text. */
  function VersionOf(entries: seq<Entry>, key: GroupKey): Version {
    var group := GroupOf(entries, key);
    if |group| > 0 && group[0].version.Some? then group[0].version.value else []
  }

  function SetOf(entries: seq<Entry>, key: GroupKey): ModelSet
    requires OnOffer(entries, key)
  {
    var files := FilesOf(GroupOf(entries, key));
    ModelSet(key.set_, key.version, VersionOf(entries, key), files[Model].architecture, files)
  }

  // ----- The order in which groups are visited

  predicate VariantLess(a: Option<string>, b: Option<string>) {
    b.Some? && (a.None? || StringLess(a.value, b.value))
  }

  /** Field by field, the version text last. */
  predicate KeyLess(a: GroupKey, b: GroupKey) {
    if a.set_.source != b.set_.source then StringLess(a.set_.source, b.set_.source)
    else if a.set_.target != b.set_.target then StringLess(a.set_.target, b.set_.target)
    else if a.set_.variant != b.set_.variant then VariantLess(a.set_.variant, b.set_.variant)
    else StringLess(a.version, b.version)
  }

  lemma KeyOrder(a: GroupKey, b: GroupKey, c: GroupKey)
    ensures KeyLess(a, b) || a == b || KeyLess(b, a)
    ensures KeyLess(a, b) && KeyLess(b, c) ==> KeyLess(a, c)
  {
    StringOrder(a.set_.source, b.set_.source, c.set_.source);
    StringOrder(a.set_.target, b.set_.target, c.set_.target);
    StringOrder(a.version, b.version, c.version);
    if a.set_.variant.Some? && b.set_.variant.Some? {
      StringOrder(a.set_.variant.value, b.set_.variant.value,
                  if c.set_.variant.Some? then c.set_.variant.value else "");
    }
  }

  method LeastKey(keys: set<GroupKey>) returns (least: GroupKey)
    requires keys != {}
    ensures least in keys && forall k :: k in keys ==> k == least || KeyLess(least, k)
  {
    least :| least in keys;
    var rest := keys - {least};
    while rest != {}
      invariant rest <= keys && least in keys
      invariant forall k :: k in keys && k !in rest ==> k == least || KeyLess(least, k)
      decreases |rest|
    {
      var next :| next in rest;
      rest := rest - {next};
      KeyOrder(next, least, next);
      if KeyLess(next, least) {
        forall k | k in keys
          ensures KeyLess(least, k) ==> KeyLess(next, k)
        {
          KeyOrder(next, least, k);
        }
        least := next;
      }
    }
  }

  // ----- Selection

  /** `a` is at least as new as `b`, and of equally new versions it comes first. */
  ghost predicate Preferred(entries: seq<Entry>, a: GroupKey, b: GroupKey) {
    && !Less(VersionOf(entries, a), VersionOf(entries, b))
    && (Same(VersionOf(entries, a), VersionOf(entries, b)) ==> a == b || StringLess(a.version, b.version))
  }

  /** `m` is the set of a group in `keys` that is preferred to all offers of its pair and variant there. */
  ghost predicate BestAmong(entries: seq<Entry>, keys: set<GroupKey>, m: ModelSet) {
    var key := GroupKey(m.key, m.raw);
    && key in keys && OnOffer(entries, key) && m == SetOf(entries, key)
    && forall other :: other in keys && other.set_ == m.key && OnOffer(entries, other) ==>
         Preferred(entries, key, other)
  }

  /** `best` holds the preferred set of each pair and variant that has an offer in `keys`, and nothing else. */
  ghost predicate Selected(entries: seq<Entry>, keys: set<GroupKey>, best: map<SetKey, ModelSet>) {
    && (forall k :: k in best ==> best[k].key == k && BestAmong(entries, keys, best[k]))
    && (forall key :: key in keys && OnOffer(entries, key) ==> key.set_ in best)
  }

  lemma {:induction false} GroupMembers(entries: seq<Entry>, key: GroupKey)
    ensures forall i :: 0 <= i < |GroupOf(entries, key)| ==>
      var e := GroupOf(entries, key)[i]; e in entries && Eligible(e) && KeyOf(e) == key
    ensures forall e :: e in entries && Eligible(e) && KeyOf(e) == key ==> e in GroupOf(entries, key)
  {
    if |entries| > 0 {
      GroupMembers(entries[..|entries| - 1], key);
      assert entries == entries[..|entries| - 1] + [entries[|entries| - 1]];
    }
  }

  lemma {:induction false} FilesMembers(group: seq<Entry>)
    ensures forall ft :: ft in FilesOf(group) ==>
      FilesOf(group)[ft].fileType == ft && exists i :: 0 <= i < |group| && group[i].record == FilesOf(group)[ft]
    ensures forall i :: 0 <= i < |group| ==> group[i].record.fileType in FilesOf(group)
  {
    if |group| > 0 {
      FilesMembers(group[..|group| - 1]);
      assert group == group[..|group| - 1] + [group[|group| - 1]];
    }
  }

  /** The groups, built record by record. */
  method Group(entries: seq<Entry>) returns (groups: map<GroupKey, seq<Entry>>)
    ensures forall key :: key in groups <==> |GroupOf(entries, key)| > 0
    ensures forall key :: key in groups ==> groups[key] == GroupOf(entries, key)
  {
    groups := map[];
    for i := 0 to |entries|
      invariant forall key :: key in groups <==> |GroupOf(entries[..i], key)| > 0
      invariant forall key :: key in groups ==> groups[key] == GroupOf(entries[..i], key)
    {
      assert entries[..i + 1][..i] == entries[..i];
      var e := entries[i];
      if Eligible(e) {
        var key := KeyOf(e);
        groups := groups[key := (if key in groups then groups[key] else []) + [e]];
      }
    }
    assert entries[..|entries|] == entries;
  }

  /** The files of a group, record by record. */
  method Collect(group: seq<Entry>) returns (files: Files)
    ensures files == FilesOf(group)
  {
    files := map[];
    for i := 0 to |group|
      invariant files == FilesOf(group[..i])
    {
      assert group[..i + 1][..i] == group[..i];
      files := files[group[i].record.fileType := group[i].record];
    }
    assert group[..|group|] == group;
  }

  /** The filters that were not understood, each once, in order of appearance. */
  method Skipped(entries: seq<Entry>) returns (skipped: seq<string>)
    ensures forall i, j :: 0 <= i < j < |skipped| ==> skipped[i] != skipped[j]
    ensures forall text :: text in skipped <==> text in RefusedTexts(entries)
  {
    skipped := [];
    for i := 0 to |entries|
      invariant forall i, j :: 0 <= i < j < |skipped| ==> skipped[i] != skipped[j]
      invariant forall text :: text in skipped <==> text in RefusedTexts(entries[..i])
    {
      assert entries[..i + 1] == entries[..i] + [entries[i]];
      if entries[i].verdict.None? && FilterText(entries[i].record) !in skipped {
        skipped := skipped + [FilterText(entries[i].record)];
      }
    }
    assert entries[..|entries|] == entries;
  }

  /** The filters that gave no answer. */
  ghost function RefusedTexts(entries: seq<Entry>): set<string> {
    set i | 0 <= i < |entries| && entries[i].verdict.None? :: FilterText(entries[i].record)
  }

  function FilterText(record: Record): string {
    if record.filter.Some? then record.filter.value else ""
  }

  /** A strictly newer offer is preferred to everything the old choice was preferred to. */
  lemma NewerIsPreferred(entries: seq<Entry>, earlier: GroupKey, key: GroupKey, other: GroupKey)
    requires Less(VersionOf(entries, earlier), VersionOf(entries, key)) && Preferred(entries, earlier, other)
    ensures Preferred(entries, key, other)
  {
    var v0, v, w := VersionOf(entries, earlier), VersionOf(entries, key), VersionOf(entries, other);
    if Less(v, w) {
      LessTransitive(v0, v, w);
    }
    if Same(v, w) {
      SameComparesAlike(v, w, v0);
    }
  }

  lemma PreferredToItself(entries: seq<Entry>, key: GroupKey)
    ensures Preferred(entries, key, key)
  {
    NotLessThanItself(VersionOf(entries, key), VersionOf(entries, key));
  }

  /** The first offer of a pair and variant, or a newer one, takes the place. */
  lemma Replaced(entries: seq<Entry>, keys: set<GroupKey>, key: GroupKey, best: map<SetKey, ModelSet>)
    requires Selected(entries, keys, best) && OnOffer(entries, key)
    requires key.set_ in best ==> Less(best[key.set_].version, VersionOf(entries, key))
    ensures Selected(entries, keys + {key}, best[key.set_ := SetOf(entries, key)])
  {
    var m := SetOf(entries, key);
    forall other | other in keys + {key} && other.set_ == m.key && OnOffer(entries, other)
      ensures Preferred(entries, key, other)
    {
      if other == key {
        PreferredToItself(entries, key);
      } else {
        var m0 := best[key.set_];
        NewerIsPreferred(entries, GroupKey(m0.key, m0.raw), key, other);
      }
    }
    OthersUntouched(entries, keys, key, best);
  }

  /** Choices of other pairs and variants do not see the new group. */
  lemma OthersUntouched(entries: seq<Entry>, keys: set<GroupKey>, key: GroupKey, best: map<SetKey, ModelSet>)
    requires Selected(entries, keys, best)
    ensures forall k :: k in best && k != key.set_ ==> BestAmong(entries, keys + {key}, best[k])
  {
  }

  /** An offer that is not newer leaves the choice as it is: the earlier version text was visited first. */
  lemma Kept(entries: seq<Entry>, keys: set<GroupKey>, key: GroupKey, best: map<SetKey, ModelSet>)
    requires Selected(entries, keys, best) && key.set_ in best
    requires forall k :: k in keys ==> KeyLess(k, key)
    requires OnOffer(entries, key) ==> !Less(best[key.set_].version, VersionOf(entries, key))
    ensures Selected(entries, keys + {key}, best)
  {
    var m0 := best[key.set_];
    var key0 := GroupKey(m0.key, m0.raw);
    assert KeyLess(key0, key);
    OthersUntouched(entries, keys, key, best);
  }

  lemma NotOnOffer(entries: seq<Entry>, keys: set<GroupKey>, key: GroupKey, best: map<SetKey, ModelSet>)
    requires Selected(entries, keys, best) && !OnOffer(entries, key)
    ensures Selected(entries, keys + {key}, best)
  {
  }

  /** One group of the second pass: a complete set replaces what is there unless that is at least as new. */
  method Consider(entries: seq<Entry>, ghost keys: set<GroupKey>, key: GroupKey, group: seq<Entry>,
                  best: map<SetKey, ModelSet>) returns (best': map<SetKey, ModelSet>)
    requires group == GroupOf(entries, key) && Selected(entries, keys, best)
    requires forall k :: k in keys ==> KeyLess(k, key)
    ensures Selected(entries, keys + {key}, best')
  {
    var files := Collect(group);
    if !Complete(files) {
      NotOnOffer(entries, keys, key, best);
      return best;
    }
    var version := VersionOf(entries, key);
    if key.set_ in best {
      var ord := Cmp(best[key.set_].version, version);
      if ord != Lt {
        Kept(entries, keys, key, best);
        return best;
      }
    }
    Replaced(entries, keys, key, best);
    best' := best[key.set_ := ModelSet(key.set_, key.version, version, files[Model].architecture, files)];
  }

  /** The second pass: the groups in key order. */
  method SelectBest(entries: seq<Entry>, groups: map<GroupKey, seq<Entry>>) returns (best: map<SetKey, ModelSet>)
    requires forall key :: key in groups <==> |GroupOf(entries, key)| > 0
    requires forall key :: key in groups ==> groups[key] == GroupOf(entries, key)
    ensures Accepted(entries, best)
  {
    best := map[];
    var rest := groups.Keys;
    ghost var seen: set<GroupKey> := {};
    while rest != {}
      invariant seen + rest == groups.Keys && seen !! rest
      invariant Selected(entries, seen, best)
      invariant forall k, other :: k in seen && other in rest ==> KeyLess(k, other)
      decreases |rest|
    {
      var key := LeastKey(rest);
      best := Consider(entries, seen, key, groups[key], best);
      rest, seen := rest - {key}, seen + {key};
    }
    AllGroups(entries, seen, best);
  }

  /** The acceptance rule over a whole catalogue. */
  method AcceptedSets(records: seq<Record>, env: FilterEnv)
    returns (best: map<SetKey, ModelSet>, skipped: seq<string>)
    ensures Accepted(JudgeAll(records, env), best) && Parsed(JudgeAll(records, env))
    ensures forall k :: k in best ==> best[k].key == k && MadeOf(records, env, best[k])
    ensures forall k, raw :: Offers(records, env, k, raw) ==> k in best && NotBehind(best[k], raw)
    ensures forall text :: text in skipped <==> IsRefused(records, env, text)
    ensures forall i, j :: 0 <= i < j < |skipped| ==> skipped[i] != skipped[j]
  {
    RefusedAre(records, env);
    JudgedAreParsed(records, env);
    var entries := JudgeAll(records, env);
    skipped := Skipped(entries);
    var groups := Group(entries);
    best := SelectBest(entries, groups);
    forall k | k in best
      ensures MadeOf(records, env, best[k])
    {
      SetIsMade(records, env, best, k);
    }
    forall k, raw | Offers(records, env, k, raw)
      ensures k in best && NotBehind(best[k], raw)
    {
      OfferIsHeeded(records, env, best, k, raw);
    }
  }

  // ----- The same in terms of the records

  /** Some record has this filter text, and the text gets no answer. */
  ghost predicate IsRefused(records: seq<Record>, env: FilterEnv, text: string) {
    Matches(text, env).None?
    && exists i :: 0 <= i < |records| && text == if records[i].filter.Some? then records[i].filter.value else ""
  }

  lemma RefusedAre(records: seq<Record>, env: FilterEnv)
    ensures forall text :: text in RefusedTexts(JudgeAll(records, env)) <==> IsRefused(records, env, text)
  {
    var entries := JudgeAll(records, env);
    forall text
      ensures text in RefusedTexts(entries) <==> IsRefused(records, env, text)
    {
      if IsRefused(records, env, text) {
        var i :| 0 <= i < |records| && text == if records[i].filter.Some? then records[i].filter.value else "";
        assert entries[i].verdict.None?;
      }
    }
  }

  /** The record's filter answers true, its version parses and has major 3, and it belongs to the pair, variant and version text. */
  predicate Takes(env: FilterEnv, r: Record, k: SetKey, raw: string) {
    && Matches(if r.filter.Some? then r.filter.value else "", env) == Some(true)
    && Parse(r.version).Some? && |Parse(r.version).value| > 0 && Parse(r.version).value[0].number == 3
    && r.source == k.source && r.target == k.target && r.variant == k.variant && r.version == raw
  }

  /** The last such record of its type. */
  predicate LastAt(records: seq<Record>, env: FilterEnv, k: SetKey, raw: string, i: nat) {
    && i < |records| && Takes(env, records[i], k, raw)
    && forall j :: i < j < |records| && Takes(env, records[j], k, raw) ==> records[j].fileType != records[i].fileType
  }

  /**
    The set is complete, its version is the parse of its text, and each of its files is the last
    record of its type that the set takes; no type that it takes is missing.
   */
  ghost predicate MadeOf(records: seq<Record>, env: FilterEnv, m: ModelSet) {
    && Parse(m.raw) == Some(m.version)
    && Model in m.files && (Vocab in m.files || (SrcVocab in m.files && TrgVocab in m.files))
    && m.architecture == m.files[Model].architecture
    && FilesFit(records, env, m.key, m.raw, m.files)
  }

  ghost predicate FilesFit(records: seq<Record>, env: FilterEnv, k: SetKey, raw: string, files: Files) {
    && (forall ft :: ft in files ==> exists i: nat :: LastAt(records, env, k, raw, i) && records[i] == files[ft] && records[i].fileType == ft)
    && (forall i :: 0 <= i < |records| && Takes(env, records[i], k, raw) ==> records[i].fileType in files)
  }

  ghost predicate HasType(records: seq<Record>, env: FilterEnv, k: SetKey, raw: string, ft: FileType) {
    exists i :: 0 <= i < |records| && Takes(env, records[i], k, raw) && records[i].fileType == ft
  }

  /** The catalogue has a complete set for the pair and variant with this version text. */
  ghost predicate Offers(records: seq<Record>, env: FilterEnv, k: SetKey, raw: string) {
    && HasType(records, env, k, raw, Model)
    && (HasType(records, env, k, raw, Vocab)
        || (HasType(records, env, k, raw, SrcVocab) && HasType(records, env, k, raw, TrgVocab)))
  }

  /** The set is at least as new as the text says, and comes first among equally new texts. */
  ghost predicate NotBehind(m: ModelSet, raw: string) {
    && Parse(raw).Some? && !Less(m.version, Parse(raw).value)
    && (Same(m.version, Parse(raw).value) ==> m.raw == raw || StringLess(m.raw, raw))
  }

  lemma TakesIs(records: seq<Record>, env: FilterEnv, key: GroupKey, i: nat)
    requires i < |records|
    ensures Takes(env, records[i], key.set_, key.version) <==>
      Eligible(JudgeAll(records, env)[i]) && KeyOf(JudgeAll(records, env)[i]) == key
  {
  }

  /** `files` holds the last record of each type among those marked. */
  ghost predicate LastMarked(records: seq<Record>, marks: seq<bool>, files: Files)
    requires |marks| == |records|
  {
    && (forall ft :: ft in files ==> exists i: nat :: IsLast(records, marks, i) && records[i] == files[ft] && records[i].fileType == ft)
    && (forall i :: 0 <= i < |records| && marks[i] ==> records[i].fileType in files)
  }

  predicate IsLast(records: seq<Record>, marks: seq<bool>, i: nat)
    requires |marks| == |records|
  {
    && i < |records| && marks[i]
    && forall j :: i < j < |records| && marks[j] ==> records[j].fileType != records[i].fileType
  }

  lemma LastMarkedNext(records: seq<Record>, marks: seq<bool>, r: Record, mark: bool, files: Files)
    requires |marks| == |records| && LastMarked(records, marks, files)
    ensures LastMarked(records + [r], marks + [mark], if mark then files[r.fileType := r] else files)
  {
    var more, marked := records + [r], marks + [mark];
    var files' := if mark then files[r.fileType := r] else files;
    forall ft | ft in files'
      ensures exists i: nat :: IsLast(more, marked, i) && more[i] == files'[ft] && more[i].fileType == ft
    {
      if mark && ft == r.fileType {
        assert IsLast(more, marked, |records|);
      } else {
        var i: nat :| IsLast(records, marks, i) && records[i] == files[ft] && records[i].fileType == ft;
        assert IsLast(more, marked, i) && more[i] == files'[ft];
      }
    }
  }

  /** Which records a group takes. */
  function Marks(entries: seq<Entry>, key: GroupKey): (r: seq<bool>)
    ensures |r| == |entries|
    ensures forall i :: 0 <= i < |r| ==> (r[i] <==> Eligible(entries[i]) && KeyOf(entries[i]) == key)
  {
    seq(|entries|, i requires 0 <= i < |entries| => Eligible(entries[i]) && KeyOf(entries[i]) == key)
  }

  function RecordsOf(entries: seq<Entry>): (r: seq<Record>)
    ensures |r| == |entries|
    ensures forall i :: 0 <= i < |r| ==> r[i] == entries[i].record
  {
    seq(|entries|, i requires 0 <= i < |entries| => entries[i].record)
  }

  /** The files of a group are the last records of their types. */
  lemma {:induction false} FilesAreLast(entries: seq<Entry>, key: GroupKey)
    ensures LastMarked(RecordsOf(entries), Marks(entries, key), FilesOf(GroupOf(entries, key)))
  {
    if |entries| > 0 {
      var last := |entries| - 1;
      var before, e := entries[..last], entries[last];
      FilesAreLast(before, key);
      var mark := Eligible(e) && KeyOf(e) == key;
      LastMarkedNext(RecordsOf(before), Marks(before, key), e.record, mark, FilesOf(GroupOf(before, key)));
      assert RecordsOf(entries) == RecordsOf(before) + [e.record];
      assert Marks(entries, key) == Marks(before, key) + [mark];
      FilesMore(GroupOf(before, key), e);
    }
  }

  lemma FilesMore(group: seq<Entry>, e: Entry)
    ensures FilesOf(group + [e]) == FilesOf(group)[e.record.fileType := e.record]
    ensures group + [] == group
  {
    assert (group + [e])[..|group|] == group;
  }

  lemma LastOfType(records: seq<Record>, env: FilterEnv, key: GroupKey)
    ensures FilesFit(records, env, key.set_, key.version, FilesOf(GroupOf(JudgeAll(records, env), key)))
  {
    var entries := JudgeAll(records, env);
    var marks, files := Marks(entries, key), FilesOf(GroupOf(entries, key));
    assert RecordsOf(entries) == records;
    FilesAreLast(entries, key);
    forall i | 0 <= i < |records|
      ensures marks[i] <==> Takes(env, records[i], key.set_, key.version)
    {
      TakesIs(records, env, key, i);
    }
    forall ft | ft in files
      ensures exists i: nat :: LastAt(records, env, key.set_, key.version, i) && records[i] == files[ft] && records[i].fileType == ft
    {
      var i: nat :| IsLast(records, marks, i) && records[i] == files[ft] && records[i].fileType == ft;
      assert LastAt(records, env, key.set_, key.version, i);
    }
  }

  lemma OfferIsMade(records: seq<Record>, env: FilterEnv, key: GroupKey)
    requires OnOffer(JudgeAll(records, env), key)
    ensures MadeOf(records, env, SetOf(JudgeAll(records, env), key))
  {
    JudgedAreParsed(records, env);
    OfferIsNonEmpty(JudgeAll(records, env), key);
    OfferVersion(JudgeAll(records, env), key);
    LastOfType(records, env, key);
    PutTogether(records, env, key, SetOf(JudgeAll(records, env), key));
  }

  lemma PutTogether(records: seq<Record>, env: FilterEnv, key: GroupKey, m: ModelSet)
    requires m.key == key.set_ && m.raw == key.version && Parse(m.raw) == Some(m.version)
    requires Complete(m.files) && m.architecture == m.files[Model].architecture
    requires FilesFit(records, env, key.set_, key.version, m.files)
    ensures MadeOf(records, env, m)
  {
  }

  lemma SetIsMade(records: seq<Record>, env: FilterEnv, best: map<SetKey, ModelSet>, k: SetKey)
    requires Accepted(JudgeAll(records, env), best) && k in best
    ensures MadeOf(records, env, best[k])
  {
    assert IsBest(JudgeAll(records, env), best[k]);
    OfferIsMade(records, env, GroupKey(best[k].key, best[k].raw));
  }

  lemma OfferIsHeeded(records: seq<Record>, env: FilterEnv, best: map<SetKey, ModelSet>, k: SetKey, raw: string)
    requires Accepted(JudgeAll(records, env), best) && Offers(records, env, k, raw)
    ensures k in best && NotBehind(best[k], raw)
  {
    var key := GroupKey(k, raw);
    JudgedAreParsed(records, env);
    LastOfType(records, env, key);
    assert OnOffer(JudgeAll(records, env), key);
    OfferIsNonEmpty(JudgeAll(records, env), key);
    OfferVersion(JudgeAll(records, env), key);
  }

  /** The rule without reference to any order of visiting: one preferred set where there is an offer. */
  ghost predicate Accepted(entries: seq<Entry>, best: map<SetKey, ModelSet>) {
    && (forall k :: k in best ==> best[k].key == k && IsBest(entries, best[k]))
    && (forall key :: OnOffer(entries, key) ==> key.set_ in best)
  }

  ghost predicate IsBest(entries: seq<Entry>, m: ModelSet) {
    var key := GroupKey(m.key, m.raw);
    && OnOffer(entries, key) && m == SetOf(entries, key)
    && forall other: GroupKey :: other.set_ == m.key && OnOffer(entries, other) ==> Preferred(entries, key, other)
  }

  lemma AllGroups(entries: seq<Entry>, keys: set<GroupKey>, best: map<SetKey, ModelSet>)
    requires Selected(entries, keys, best)
    requires forall key :: key in keys <==> |GroupOf(entries, key)| > 0
    ensures Accepted(entries, best)
  {
    forall key | OnOffer(entries, key)
      ensures key in keys
    {
    }
  }

  // ----- What the selection means

  /** Every entry carries the parse of its own version text. */
  predicate Parsed(entries: seq<Entry>) {
    forall e :: e in entries ==> e.version == Parse(e.record.version)
  }

  lemma JudgedAreParsed(records: seq<Record>, env: FilterEnv)
    ensures Parsed(JudgeAll(records, env))
  {
  }

  /** An offer's version is the parse of its text and lies in the window. */
  lemma OfferVersion(entries: seq<Entry>, key: GroupKey)
    requires Parsed(entries) && |GroupOf(entries, key)| > 0
    ensures Parse(key.version) == Some(VersionOf(entries, key)) && InWindow(VersionOf(entries, key))
  {
    GroupMembers(entries, key);
    var first := GroupOf(entries, key)[0];
    assert first in entries && KeyOf(first) == key;
  }

  lemma OfferIsNonEmpty(entries: seq<Entry>, key: GroupKey)
    requires OnOffer(entries, key)
    ensures |GroupOf(entries, key)| > 0
  {
  }

  /** An eligible record of the group has the file's type and content. */
  ghost predicate FromGroup(entries: seq<Entry>, key: GroupKey, ft: FileType, file: Record) {
    exists e :: e in entries && Eligible(e) && KeyOf(e) == key && e.record == file && file.fileType == ft
  }

  lemma FilesAreEligible(entries: seq<Entry>, key: GroupKey, ft: FileType)
    requires ft in FilesOf(GroupOf(entries, key))
    ensures FromGroup(entries, key, ft, FilesOf(GroupOf(entries, key))[ft])
  {
    var group := GroupOf(entries, key);
    GroupMembers(entries, key);
    FilesMembers(group);
    var i :| 0 <= i < |group| && group[i].record == FilesOf(group)[ft];
    assert group[i] in entries;
  }

  /**
    What is selected: complete, in the window, made of eligible records of its own version,
    and no complete eligible set of the same pair and variant is strictly newer.
   */
  lemma SelectedIsNewest(entries: seq<Entry>, best: map<SetKey, ModelSet>, k: SetKey, other: GroupKey)
    requires Parsed(entries) && Accepted(entries, best) && k in best
    requires other.set_ == k && OnOffer(entries, other)
    ensures Complete(best[k].files) && InWindow(best[k].version) && Parse(best[k].raw) == Some(best[k].version)
    ensures Parse(other.version).Some? && !Less(best[k].version, Parse(other.version).value)
    ensures forall ft :: ft in best[k].files ==>
      FromGroup(entries, GroupKey(k, best[k].raw), ft, best[k].files[ft])
  {
    var key := GroupKey(k, best[k].raw);
    OfferIsNonEmpty(entries, key);
    OfferIsNonEmpty(entries, other);
    OfferVersion(entries, key);
    OfferVersion(entries, other);
    forall ft | ft in best[k].files
      ensures FromGroup(entries, key, ft, best[k].files[ft])
    {
      FilesAreEligible(entries, key, ft);
    }
  }

  /** The rule leaves no choice. */
  lemma SelectionIsUnique(entries: seq<Entry>, a: map<SetKey, ModelSet>, b: map<SetKey, ModelSet>)
    requires Accepted(entries, a) && Accepted(entries, b)
    ensures a == b
  {
    forall k | k in a
      ensures k in b && a[k] == b[k]
    {
      BestIsUnique(entries, a[k], b[k]);
    }
    forall k | k in b
      ensures k in a
    {
      assert OnOffer(entries, GroupKey(k, b[k].raw));
    }
  }

  lemma BestIsUnique(entries: seq<Entry>, m: ModelSet, n: ModelSet)
    requires IsBest(entries, m) && IsBest(entries, n) && m.key == n.key
    ensures m == n
  {
    var a, b := GroupKey(m.key, m.raw), GroupKey(n.key, n.raw);
    assert Preferred(entries, a, b) && Preferred(entries, b, a);
    Trichotomy(VersionOf(entries, a), VersionOf(entries, b));
    SameComparesAlike(VersionOf(entries, a), VersionOf(entries, b), VersionOf(entries, a));
    StringOrder(m.raw, n.raw, m.raw);
  }

  /** In each group every file type occurs once. */
  predicate UniqueTypes(entries: seq<Entry>) {
    forall e, f :: e in entries && f in entries && e != f && Eligible(e) && Eligible(f) && KeyOf(e) == KeyOf(f) ==>
      e.record.fileType != f.record.fileType
  }

  ghost predicate SameEntries(a: seq<Entry>, b: seq<Entry>) {
    forall e :: e in a <==> e in b
  }

  /** With unique types the order of the catalogue does not show in the files of a group. */
  lemma FilesIgnoreOrder(a: seq<Entry>, b: seq<Entry>, key: GroupKey)
    requires SameEntries(a, b) && UniqueTypes(a)
    ensures FilesOf(GroupOf(a, key)) == FilesOf(GroupOf(b, key))
  {
    forall ft | ft in FilesOf(GroupOf(a, key))
      ensures ft in FilesOf(GroupOf(b, key)) && FilesOf(GroupOf(a, key))[ft] == FilesOf(GroupOf(b, key))[ft]
    {
      FileWithin(a, b, key, ft);
    }
    forall ft | ft in FilesOf(GroupOf(b, key))
      ensures ft in FilesOf(GroupOf(a, key))
    {
      FileWithin(b, a, key, ft);
    }
  }

  lemma GroupIgnoresOrder(a: seq<Entry>, b: seq<Entry>, key: GroupKey)
    requires SameEntries(a, b)
    ensures forall e :: e in GroupOf(a, key) <==> e in GroupOf(b, key)
    ensures |GroupOf(a, key)| > 0 ==> |GroupOf(b, key)| > 0
  {
    GroupMembers(a, key);
    GroupMembers(b, key);
    forall e
      ensures e in GroupOf(a, key) <==> e in GroupOf(b, key)
    {
    }
    if |GroupOf(a, key)| > 0 {
      assert GroupOf(a, key)[0] in GroupOf(b, key);
    }
  }

  /** Records of one group with the same type are the same. */
  lemma OneOfAType(entries: seq<Entry>, key: GroupKey, e: Entry, f: Entry)
    requires UniqueTypes(entries) && e in GroupOf(entries, key) && f in GroupOf(entries, key)
    requires e.record.fileType == f.record.fileType
    ensures e == f
  {
    GroupMembers(entries, key);
  }

  lemma FileWithin(a: seq<Entry>, b: seq<Entry>, key: GroupKey, ft: FileType)
    requires SameEntries(a, b) && UniqueTypes(a) && ft in FilesOf(GroupOf(a, key))
    ensures ft in FilesOf(GroupOf(b, key)) && FilesOf(GroupOf(a, key))[ft] == FilesOf(GroupOf(b, key))[ft]
  {
    var g, h := GroupOf(a, key), GroupOf(b, key);
    GroupIgnoresOrder(a, b, key);
    FilesMembers(g);
    FilesMembers(h);
    var i :| 0 <= i < |g| && g[i].record == FilesOf(g)[ft];
    assert g[i] in h;
    var j :| 0 <= j < |h| && h[j].record == FilesOf(h)[ft];
    assert h[j] in g;
    OneOfAType(a, key, g[i], h[j]);
  }

  lemma VersionIgnoresOrder(a: seq<Entry>, b: seq<Entry>, key: GroupKey)
    requires SameEntries(a, b) && Parsed(a)
    ensures VersionOf(a, key) == VersionOf(b, key)
  {
    GroupIgnoresOrder(a, b, key);
    GroupIgnoresOrder(b, a, key);
    if |GroupOf(a, key)| > 0 {
      OfferVersion(a, key);
      OfferVersion(b, key);
    }
  }

  /** Permuting the records does not change what is accepted, as long as types are unique in each group. */
  lemma OrderDoesNotMatter(a: seq<Entry>, b: seq<Entry>, best: map<SetKey, ModelSet>)
    requires SameEntries(a, b) && UniqueTypes(a) && Parsed(a) && Accepted(a, best)
    ensures Accepted(b, best)
  {
    forall key
      ensures FilesOf(GroupOf(a, key)) == FilesOf(GroupOf(b, key)) && VersionOf(a, key) == VersionOf(b, key)
    {
      FilesIgnoreOrder(a, b, key);
      VersionIgnoresOrder(a, b, key);
    }
    forall k | k in best
      ensures IsBest(b, best[k])
    {
      forall other: GroupKey | other.set_ == k && OnOffer(b, other)
        ensures Preferred(b, GroupKey(k, best[k].raw), other)
      {
        assert Preferred(a, GroupKey(k, best[k].raw), other);
      }
    }
  }

  lemma JudgedAlike(a: seq<Record>, b: seq<Record>, env: FilterEnv)
    requires multiset(a) == multiset(b)
    ensures SameEntries(JudgeAll(a, env), JudgeAll(b, env))
  {
    forall e
      ensures e in JudgeAll(a, env) <==> e in JudgeAll(b, env)
    {
      JudgedFrom(a, env, e);
      JudgedFrom(b, env, e);
      assert forall r :: r in a <==> r in multiset(a);
      assert forall r :: r in b <==> r in multiset(b);
    }
  }

  lemma JudgedFrom(records: seq<Record>, env: FilterEnv, e: Entry)
    ensures e in JudgeAll(records, env) <==> exists r :: r in records && Judge(r, env) == e
  {
    if e in JudgeAll(records, env) {
      var i :| 0 <= i < |records| && JudgeAll(records, env)[i] == e;
      assert records[i] in records && Judge(records[i], env) == e;
    }
    if r :| r in records && Judge(r, env) == e {
      var i :| 0 <= i < |records| && records[i] == r;
      assert JudgeAll(records, env)[i] == e;
    }
  }

  /** Two catalogues with the same records in any order lead to the same sets. */
  lemma ResultIgnoresOrder(a: seq<Record>, b: seq<Record>, env: FilterEnv, x: map<SetKey, ModelSet>, y: map<SetKey, ModelSet>)
    requires multiset(a) == multiset(b) && UniqueTypes(JudgeAll(a, env))
    requires Accepted(JudgeAll(a, env), x) && Accepted(JudgeAll(b, env), y)
    ensures x == y
  {
    JudgedAlike(a, b, env);
    JudgedAreParsed(a, env);
    OrderDoesNotMatter(JudgeAll(a, env), JudgeAll(b, env), x);
    SelectionIsUnique(JudgeAll(b, env), x, y);
  }
}
