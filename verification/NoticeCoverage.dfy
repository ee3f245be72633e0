/** The two coverage passes of `generate` (packaging/generate_rust_notices.py:431-491, 611-616):
    every shipped crate ends up with at least one licence text, or generation fails. */
module NoticeCoverage {
  import opened Outcomes

  /** A crate with the texts of its own notice files and its repository key. */
  datatype Crate = Crate(name: string, version: string, key: string, license: string,
                         notices: seq<string>, repository: Option<string>)

  datatype SnapshotFile = SnapshotFile(text: string, sha256: string)

  datatype Snapshot = Snapshot(manifestGrant: bool, files: seq<SnapshotFile>)

  datatype Class = OwnNotices | VcsSnapshot | ManifestGrant | RepositoryTexts

  datatype Entry = Entry(text: string, labels: set<string>)

  datatype CoverageError = NoLicense | CorruptSnapshot | EmptySnapshot | MissingTexts

  type Snapshots = map<string, Snapshot>

  function Label(c: Crate): string {
    c.name + " " + c.version
  }

  function ClassOf(c: Crate, snapshots: Snapshots): Class {
    if c.notices != [] then OwnNotices
    else if c.key !in snapshots then RepositoryTexts
    else if snapshots[c.key].manifestGrant then ManifestGrant
    else VcsSnapshot
  }

  function FileTexts(files: seq<SnapshotFile>): (texts: seq<string>)
    ensures |texts| == |files| && forall i :: 0 <= i < |files| ==> texts[i] == files[i].text
  {
    seq(|files|, i requires 0 <= i < |files| => files[i].text)
  }

  /** The texts a crate contributes in the first pass. */
  function OwnTexts(c: Crate, snapshots: Snapshots): seq<string> {
    match ClassOf(c, snapshots)
    case OwnNotices => c.notices
    case RepositoryTexts => []
    case _ => FileTexts(snapshots[c.key].files)
  }

  /** A usable repository key. */
  predicate SameRepository(c: Crate, q: Crate) {
    c.repository.Some? && c.repository.value != "" && c.repository == q.repository
  }

  /** The checks of the first pass on one crate. */
  ghost predicate Admissible(c: Crate, snapshots: Snapshots, hash: string -> string) {
    && c.license != ""
    && (ClassOf(c, snapshots) in {VcsSnapshot, ManifestGrant} ==>
          && snapshots[c.key].files != []
          && forall f :: f in snapshots[c.key].files ==> f.sha256 == hash(f.text))
  }

  ghost predicate Contributes(c: Crate, snapshots: Snapshots, hash: string -> string, digest: string) {
    exists t :: t in OwnTexts(c, snapshots) && hash(t) == digest
  }

  /** The crate's own texts, or those of a crate from the same repository if it has none. */
  ghost predicate Carries(crates: seq<Crate>, snapshots: Snapshots, hash: string -> string, c: Crate, digest: string) {
    || Contributes(c, snapshots, hash, digest)
    || (ClassOf(c, snapshots) == RepositoryTexts &&
        exists q :: q in crates && SameRepository(c, q) && Contributes(q, snapshots, hash, digest))
  }

  /** Generation succeeds exactly when every crate is admissible and carries some text. */
  ghost predicate Complete(crates: seq<Crate>, snapshots: Snapshots, hash: string -> string) {
    forall c :: c in crates ==> Admissible(c, snapshots, hash) && exists d :: Carries(crates, snapshots, hash, c, d)
  }

  ghost predicate LabelCovered(crates: seq<Crate>, snapshots: Snapshots, hash: string -> string, tag: string, digest: string) {
    exists c :: c in crates && Label(c) == tag && Carries(crates, snapshots, hash, c, digest)
  }

  /** Coverage depends only on which crates there are, not on their order. */
  lemma OrderIrrelevant(crates: seq<Crate>, other: seq<Crate>, snapshots: Snapshots, hash: string -> string)
    requires multiset(crates) == multiset(other)
    ensures Complete(crates, snapshots, hash) <==> Complete(other, snapshots, hash)
    ensures forall tag, d :: LabelCovered(crates, snapshots, hash, tag, d) <==> LabelCovered(other, snapshots, hash, tag, d)
  {
    hide Contributes, Admissible, ClassOf, SameRepository, Label;
    forall c ensures c in crates <==> c in other {
      assert c in crates <==> c in multiset(crates);
      assert c in other <==> c in multiset(other);
    }
    forall c, d ensures Carries(crates, snapshots, hash, c, d) <==> Carries(other, snapshots, hash, c, d) {
    }
  }

  // ---- The running tables --------------------------------------------------------------------

  /** A text recorded for a crate. */
  type Record = (Crate, string)

  /** `texts` and `repository_texts`. */
  datatype Tables = Tables(texts: map<string, Entry>, repositories: map<string, set<string>>)

  ghost predicate HasDigest(records: seq<Record>, hash: string -> string, d: string) {
    exists r :: r in records && hash(r.1) == d
  }

  ghost predicate HasLabel(records: seq<Record>, hash: string -> string, d: string, tag: string) {
    exists r :: r in records && hash(r.1) == d && Label(r.0) == tag
  }

  ghost predicate HasKey(records: seq<Record>, hash: string -> string, d: string, key: string) {
    exists r :: r in records && hash(r.1) == d && r.0.repository == Some(key)
  }

  lemma HasMore(records: seq<Record>, hash: string -> string, c: Crate, text: string)
    ensures forall d :: HasDigest(records + [(c, text)], hash, d) <==> HasDigest(records, hash, d) || d == hash(text)
    ensures forall d, tag :: HasLabel(records + [(c, text)], hash, d, tag) <==>
              HasLabel(records, hash, d, tag) || (d == hash(text) && tag == Label(c))
    ensures forall d, key :: HasKey(records + [(c, text)], hash, d, key) <==>
              HasKey(records, hash, d, key) || (d == hash(text) && c.repository == Some(key))
  {
    hide Label;
    var more := records + [(c, text)];
    assert more[|records|] == (c, text);
    assert forall r :: r in more <==> r in records || r == (c, text);
  }

  ghost predicate TextsRecord(texts: map<string, Entry>, records: seq<Record>, hash: string -> string) {
    && (forall d :: d in texts <==> HasDigest(records, hash, d))
    && (forall d, tag :: d in texts ==> (tag in texts[d].labels <==> HasLabel(records, hash, d, tag)))
    && (forall d :: d in texts ==> hash(texts[d].text) == d)
  }

  ghost predicate RepositoriesRecord(repositories: map<string, set<string>>, records: seq<Record>, hash: string -> string) {
    forall key, d :: (key in repositories && d in repositories[key]) <==> (key != "" && HasKey(records, hash, d, key))
  }

  ghost predicate TablesRecord(t: Tables, records: seq<Record>, hash: string -> string) {
    TextsRecord(t.texts, records, hash) && RepositoriesRecord(t.repositories, records, hash)
  }

  function AddText(t: Tables, c: Crate, text: string, hash: string -> string): Tables {
    var d := hash(text);
    var entry := if d in t.texts then t.texts[d] else Entry(text, {});
    var texts := t.texts[d := Entry(entry.text, entry.labels + {Label(c)})];
    if c.repository.Some? && c.repository.value != "" then
      var key := c.repository.value;
      var known := if key in t.repositories then t.repositories[key] else {};
      Tables(texts, t.repositories[key := known + {d}])
    else Tables(texts, t.repositories)
  }

  lemma AddTextRecords(t: Tables, records: seq<Record>, c: Crate, text: string, hash: string -> string)
    requires TablesRecord(t, records, hash)
    ensures TablesRecord(AddText(t, c, text, hash), records + [(c, text)], hash)
  {
    hide Label, HasDigest, HasLabel, HasKey;
    HasMore(records, hash, c, text);
    NewDigest(records, hash, c, hash(text));
  }

  lemma NewDigest(records: seq<Record>, hash: string -> string, c: Crate, d: string)
    ensures !HasDigest(records, hash, d) ==> forall tag :: !HasLabel(records, hash, d, tag)
  {
  }

  // ---- First pass ----------------------------------------------------------------------------

  ghost function Pairs(c: Crate, texts: seq<string>): (rs: seq<Record>)
    ensures |rs| == |texts| && forall i :: 0 <= i < |texts| ==> rs[i] == (c, texts[i])
  {
    seq(|texts|, i requires 0 <= i < |texts| => (c, texts[i]))
  }

  /** Everything the first pass records, crate by crate. */
  ghost function Records(crates: seq<Crate>, snapshots: Snapshots): seq<Record> {
    if crates == [] then []
    else
      var c := crates[|crates| - 1];
      Records(crates[..|crates| - 1], snapshots) + Pairs(c, OwnTexts(c, snapshots))
  }

  lemma {:induction false} RecordedTexts(crates: seq<Crate>, snapshots: Snapshots, r: Record)
    ensures r in Records(crates, snapshots) <==> r.0 in crates && r.1 in OwnTexts(r.0, snapshots)
  {
    hide OwnTexts;
    if crates != [] {
      var front, c := crates[..|crates| - 1], crates[|crates| - 1];
      RecordedTexts(front, snapshots, r);
      var pairs := Pairs(c, OwnTexts(c, snapshots));
      assert r in pairs <==> r.0 == c && r.1 in OwnTexts(c, snapshots) by {
        if r.0 == c && r.1 in OwnTexts(c, snapshots) {
          var i :| 0 <= i < |OwnTexts(c, snapshots)| && OwnTexts(c, snapshots)[i] == r.1;
          assert pairs[i] == r;
        }
      }
      assert crates == front + [c];
    }
  }

  /** The inner loop: record every text of one crate. */
  method AddTexts(tables: Tables, c: Crate, texts: seq<string>, hash: string -> string, ghost records: seq<Record>)
    returns (t: Tables)
    requires TablesRecord(tables, records, hash)
    ensures TablesRecord(t, records + Pairs(c, texts), hash)
  {
    hide TablesRecord, AddText;
    t := tables;
    assert records + Pairs(c, texts[..0]) == records;
    for j := 0 to |texts|
      invariant TablesRecord(t, records + Pairs(c, texts[..j]), hash)
    {
      AddTextRecords(t, records + Pairs(c, texts[..j]), c, texts[j], hash);
      assert records + Pairs(c, texts[..j]) + [(c, texts[j])] == records + Pairs(c, texts[..j + 1]);
      t := AddText(t, c, texts[j], hash);
    }
    assert texts[..|texts|] == texts;
  }

  /** The digest check of a snapshot. */
  method CheckSnapshot(files: seq<SnapshotFile>, hash: string -> string) returns (r: Outcome<CoverageError>)
    ensures r.Pass? <==> files != [] && forall f :: f in files ==> f.sha256 == hash(f.text)
  {
    for i := 0 to |files|
      invariant forall j :: 0 <= j < i ==> files[j].sha256 == hash(files[j].text)
    {
      if files[i].sha256 != hash(files[i].text) {
        return Fail(CorruptSnapshot);
      }
    }
    return if files == [] then Fail(EmptySnapshot) else Pass;
  }

  /** The crates of one class, in order. */
  function OfClass(crates: seq<Crate>, snapshots: Snapshots, class': Class): (r: seq<Crate>)
    ensures forall c :: c in r <==> c in crates && ClassOf(c, snapshots) == class'
  {
    if crates == [] then []
    else
      var c := crates[|crates| - 1];
      assert crates == crates[..|crates| - 1] + [c];
      OfClass(crates[..|crates| - 1], snapshots, class') + if ClassOf(c, snapshots) == class' then [c] else []
  }

  lemma OfClassSnoc(crates: seq<Crate>, snapshots: Snapshots, class': Class, c: Crate)
    ensures OfClass(crates + [c], snapshots, class') ==
            OfClass(crates, snapshots, class') + if ClassOf(c, snapshots) == class' then [c] else []
  {
    hide ClassOf;
    assert (crates + [c])[..|crates|] == crates;
  }

  /** The four lists partition the crates: each occurrence of a crate is in the list of its class
      and in no other. */
  lemma {:induction false} ClassesPartition(crates: seq<Crate>, snapshots: Snapshots, class': Class, c: Crate)
    ensures multiset(OfClass(crates, snapshots, class'))[c] ==
            if ClassOf(c, snapshots) == class' then multiset(crates)[c] else 0
  {
    hide ClassOf;
    if crates != [] {
      var front, last := crates[..|crates| - 1], crates[|crates| - 1];
      ClassesPartition(front, snapshots, class', c);
      assert crates == front + [last];
      OfClassSnoc(front, snapshots, class', last);
      hide OfClass;
      var kept := if ClassOf(last, snapshots) == class' then [last] else [];
      assert multiset(crates) == multiset(front) + multiset{last};
      assert multiset(OfClass(crates, snapshots, class')) == multiset(OfClass(front, snapshots, class')) + multiset(kept);
    }
  }

  lemma RecordsSnoc(crates: seq<Crate>, snapshots: Snapshots, c: Crate)
    ensures Records(crates + [c], snapshots) == Records(crates, snapshots) + Pairs(c, OwnTexts(c, snapshots))
  {
    hide OwnTexts;
    assert (crates + [c])[..|crates|] == crates;
  }

  /** The lists and tables built by the first pass. */
  datatype FirstPass = FirstPass(tables: Tables, pending: seq<Crate>, vcs: seq<Crate>, grants: seq<Crate>)

  ghost predicate FirstPassOf(p: FirstPass, crates: seq<Crate>, snapshots: Snapshots, hash: string -> string) {
    && TablesRecord(p.tables, Records(crates, snapshots), hash)
    && p.pending == OfClass(crates, snapshots, RepositoryTexts)
    && p.vcs == OfClass(crates, snapshots, VcsSnapshot)
    && p.grants == OfClass(crates, snapshots, ManifestGrant)
  }

  /** One crate in the first pass: check it, file it under its class, record its texts. */
  method AdmitCrate(p: FirstPass, c: Crate, snapshots: Snapshots, hash: string -> string, ghost before: seq<Crate>)
    returns (r: Result<FirstPass, CoverageError>)
    requires FirstPassOf(p, before, snapshots, hash)
    ensures r.Success? <==> Admissible(c, snapshots, hash)
    ensures r.Success? ==> FirstPassOf(r.value, before + [c], snapshots, hash)
  {
    hide TablesRecord, Records, OfClass;
    RecordsSnoc(before, snapshots, c);
    OfClassSnoc(before, snapshots, RepositoryTexts, c);
    OfClassSnoc(before, snapshots, VcsSnapshot, c);
    OfClassSnoc(before, snapshots, ManifestGrant, c);
    if c.license == "" {
      return Failure(NoLicense);
    }
    var pending, vcs, grants := p.pending, p.vcs, p.grants;
    if c.notices == [] {
      if c.key !in snapshots {
        assert Records(before, snapshots) + Pairs(c, []) == Records(before, snapshots);
        return Success(FirstPass(p.tables, pending + [c], vcs, grants));
      }
      if snapshots[c.key].manifestGrant {
        grants := grants + [c];
      } else {
        vcs := vcs + [c];
      }
      var checked := CheckSnapshot(snapshots[c.key].files, hash);
      if checked.Fail? {
        return Failure(checked.error);
      }
    }
    var tables := AddTexts(p.tables, c, OwnTexts(c, snapshots), hash, Records(before, snapshots));
    return Success(FirstPass(tables, pending, vcs, grants));
  }

  /** The first pass. */
  method CollectTexts(crates: seq<Crate>, snapshots: Snapshots, hash: string -> string)
    returns (r: Result<FirstPass, CoverageError>)
    ensures r.Success? <==> forall c :: c in crates ==> Admissible(c, snapshots, hash)
    ensures r.Success? ==> FirstPassOf(r.value, crates, snapshots, hash)
  {
    hide FirstPassOf, Admissible;
    NothingRecorded(snapshots, hash);
    var p := FirstPass(Tables(map[], map[]), [], [], []);
    assert crates[..0] == [];
    for i := 0 to |crates|
      invariant forall j :: 0 <= j < i ==> Admissible(crates[j], snapshots, hash)
      invariant FirstPassOf(p, crates[..i], snapshots, hash)
    {
      assert crates[i] in crates;
      var next := AdmitCrate(p, crates[i], snapshots, hash, crates[..i]);
      if next.Failure? {
        return next;
      }
      p := next.value;
      assert crates[..i + 1] == crates[..i] + [crates[i]];
    }
    assert crates[..|crates|] == crates;
    return Success(p);
  }

  lemma NothingRecorded(snapshots: Snapshots, hash: string -> string)
    ensures FirstPassOf(FirstPass(Tables(map[], map[]), [], [], []), [], snapshots, hash)
  {
  }

  // ---- Second pass ---------------------------------------------------------------------------

  ghost predicate SomeText(crates: seq<Crate>, snapshots: Snapshots, hash: string -> string, d: string) {
    exists c :: c in crates && Contributes(c, snapshots, hash, d)
  }

  ghost predicate SomeLabelled(crates: seq<Crate>, snapshots: Snapshots, hash: string -> string, d: string, tag: string) {
    exists c :: c in crates && Label(c) == tag && Contributes(c, snapshots, hash, d)
  }

  ghost predicate SomeKeyed(crates: seq<Crate>, snapshots: Snapshots, hash: string -> string, d: string, key: string) {
    exists c :: c in crates && c.repository == Some(key) && Contributes(c, snapshots, hash, d)
  }

  /** The records speak about exactly the crates and the texts they contribute. */
  lemma RecordsMean(crates: seq<Crate>, snapshots: Snapshots, hash: string -> string, d: string, tag: string)
    ensures var records := Records(crates, snapshots);
            && (HasDigest(records, hash, d) <==> SomeText(crates, snapshots, hash, d))
            && (HasLabel(records, hash, d, tag) <==> SomeLabelled(crates, snapshots, hash, d, tag))
            && (HasKey(records, hash, d, tag) <==> SomeKeyed(crates, snapshots, hash, d, tag))
  {
    hide Label, OwnTexts, Records;
    var records := Records(crates, snapshots);
    forall r | r in records && hash(r.1) == d ensures r.0 in crates && Contributes(r.0, snapshots, hash, d) {
      RecordedTexts(crates, snapshots, r);
    }
    forall c | c in crates && Contributes(c, snapshots, hash, d) ensures exists t :: (c, t) in records && hash(t) == d {
      var t :| t in OwnTexts(c, snapshots) && hash(t) == d;
      RecordedTexts(crates, snapshots, (c, t));
    }
    forall c, t | (c, t) in records && hash(t) == d
      ensures HasDigest(records, hash, d) && HasLabel(records, hash, d, Label(c))
      ensures c.repository == Some(tag) ==> HasKey(records, hash, d, tag)
    {
      var r := (c, t);
      assert r in records && hash(r.1) == d && r.0 == c;
    }
  }

  /** What the tables hold after the first pass, in terms of the crates. */
  lemma TablesMean(tables: Tables, crates: seq<Crate>, snapshots: Snapshots, hash: string -> string)
    requires TablesRecord(tables, Records(crates, snapshots), hash)
    ensures forall d :: d in tables.texts <==> SomeText(crates, snapshots, hash, d)
    ensures forall d, tag :: d in tables.texts ==> (tag in tables.texts[d].labels <==> SomeLabelled(crates, snapshots, hash, d, tag))
    ensures forall key, d :: (key in tables.repositories && d in tables.repositories[key]) <==>
              (key != "" && SomeKeyed(crates, snapshots, hash, d, key))
  {
    hide HasDigest, HasLabel, HasKey, SomeText, SomeLabelled, SomeKeyed, Records;
    var records := Records(crates, snapshots);
    forall d ensures HasDigest(records, hash, d) <==> SomeText(crates, snapshots, hash, d) {
      RecordsMean(crates, snapshots, hash, d, "");
    }
    forall d, tag ensures HasLabel(records, hash, d, tag) <==> SomeLabelled(crates, snapshots, hash, d, tag) {
      RecordsMean(crates, snapshots, hash, d, tag);
    }
    forall d, key ensures HasKey(records, hash, d, key) <==> SomeKeyed(crates, snapshots, hash, d, key) {
      RecordsMean(crates, snapshots, hash, d, key);
    }
  }

  lemma HasOwnText(c: Crate, snapshots: Snapshots, hash: string -> string)
    requires Admissible(c, snapshots, hash) && ClassOf(c, snapshots) != RepositoryTexts
    ensures exists d :: Contributes(c, snapshots, hash, d)
  {
    var t := OwnTexts(c, snapshots)[0];
    assert t in OwnTexts(c, snapshots);
    assert Contributes(c, snapshots, hash, hash(t));
  }

  /** A crate without texts of its own carries exactly what the table holds for its repository. */
  lemma InheritedIsCarried(tables: Tables, crates: seq<Crate>, snapshots: Snapshots, hash: string -> string, c: Crate, d: string)
    requires TablesRecord(tables, Records(crates, snapshots), hash) && ClassOf(c, snapshots) == RepositoryTexts
    ensures Carries(crates, snapshots, hash, c, d) <==> d in Inherited(tables.repositories, c)
  {
    TablesMean(tables, crates, snapshots, hash);
    CarriesOwn(crates, snapshots, hash, c);
    hide TablesRecord, ClassOf, OwnTexts, Contributes, SomeText, SomeLabelled;
    if c.repository.Some? {
      assert SomeKeyed(crates, snapshots, hash, d, c.repository.value) <==>
             exists q :: q in crates && q.repository == c.repository && Contributes(q, snapshots, hash, d);
    }
  }

  /** A crate of another class contributes a text; a crate without one only inherits. */
  lemma OwnOrInherited(tables: Tables, crates: seq<Crate>, snapshots: Snapshots, hash: string -> string, c: Crate)
    requires TablesRecord(tables, Records(crates, snapshots), hash) && Admissible(c, snapshots, hash)
    ensures ClassOf(c, snapshots) != RepositoryTexts ==> exists d :: Contributes(c, snapshots, hash, d)
    ensures ClassOf(c, snapshots) == RepositoryTexts ==>
              forall d :: Carries(crates, snapshots, hash, c, d) <==> d in Inherited(tables.repositories, c)
  {
    hide TablesRecord, ClassOf, OwnTexts, Contributes, Carries, Inherited, Admissible;
    if ClassOf(c, snapshots) != RepositoryTexts {
      HasOwnText(c, snapshots, hash);
    } else {
      forall d ensures Carries(crates, snapshots, hash, c, d) <==> d in Inherited(tables.repositories, c) {
        InheritedIsCarried(tables, crates, snapshots, hash, c, d);
      }
    }
  }

  /** Adding one label to each of a set of entries. */
  method LabelAll(texts: map<string, Entry>, digests: set<string>, tag: string) returns (r: map<string, Entry>)
    requires digests <= texts.Keys
    ensures r.Keys == texts.Keys
    ensures forall d :: d in r ==> r[d] == if d in digests then Entry(texts[d].text, texts[d].labels + {tag}) else texts[d]
  {
    r := texts;
    var rest := digests;
    while rest != {}
      invariant rest <= digests && r.Keys == texts.Keys
      invariant forall d :: d in r ==>
        r[d] == if d in digests - rest then Entry(texts[d].text, texts[d].labels + {tag}) else texts[d]
      decreases rest
    {
      var d :| d in rest;
      r := r[d := Entry(r[d].text, r[d].labels + {tag})];
      rest := rest - {d};
    }
  }

  /** The texts a pending crate inherits. */
  function Inherited(repositories: map<string, set<string>>, c: Crate): set<string> {
    var key := if c.repository.Some? then c.repository.value else "";
    if key in repositories then repositories[key] else {}
  }

  /** The second pass: pending crates take over the texts of their repository. */
  method InheritTexts(texts: map<string, Entry>, repositories: map<string, set<string>>, pending: seq<Crate>)
    returns (r: map<string, Entry>, inherited: seq<Crate>, missing: seq<Crate>)
    requires forall key :: key in repositories ==> repositories[key] <= texts.Keys
    ensures r.Keys == texts.Keys && forall d :: d in r ==> r[d].text == texts[d].text
    ensures forall d, tag :: d in r ==> (tag in r[d].labels <==>
              tag in texts[d].labels || exists c :: c in pending && Label(c) == tag && d in Inherited(repositories, c))
    ensures missing == [] <==> forall c :: c in pending ==> Inherited(repositories, c) != {}
    ensures missing == [] ==> inherited == pending
  {
    hide Label;
    r, inherited, missing := texts, [], [];
    for i := 0 to |pending|
      invariant r.Keys == texts.Keys && forall d :: d in r ==> r[d].text == texts[d].text
      invariant forall d, tag :: d in r ==> (tag in r[d].labels <==>
                  tag in texts[d].labels || exists j :: 0 <= j < i && Label(pending[j]) == tag && d in Inherited(repositories, pending[j]))
      invariant missing == [] <==> forall j :: 0 <= j < i ==> Inherited(repositories, pending[j]) != {}
      invariant missing == [] ==> inherited == pending[..i]
    {
      var digests := Inherited(repositories, pending[i]);
      if digests == {} {
        missing := missing + [pending[i]];
      } else {
        r := LabelAll(r, digests, Label(pending[i]));
        inherited := inherited + [pending[i]];
      }
    }
    assert pending[..|pending|] == pending;
  }

  /** The covered texts and the class lists of a successful generation. */
  datatype Coverage = Coverage(texts: map<string, Entry>, vcs: seq<Crate>, grants: seq<Crate>, inherited: seq<Crate>)

  /** `generate` up to rendering: succeeds exactly when every crate is covered, and then lists
      for each text exactly the labels of the crates that carry it. */
  method Generate(crates: seq<Crate>, snapshots: Snapshots, hash: string -> string) returns (r: Result<Coverage, CoverageError>)
    ensures r.Success? <==> Complete(crates, snapshots, hash)
    ensures r.Success? ==> forall d :: d in r.value.texts <==> exists c :: c in crates && Contributes(c, snapshots, hash, d)
    ensures r.Success? ==> forall d, tag :: d in r.value.texts ==>
              (tag in r.value.texts[d].labels <==> LabelCovered(crates, snapshots, hash, tag, d))
    ensures r.Success? ==> forall d :: d in r.value.texts ==> hash(r.value.texts[d].text) == d
    ensures r.Success? ==> r.value.vcs == OfClass(crates, snapshots, VcsSnapshot)
    ensures r.Success? ==> r.value.grants == OfClass(crates, snapshots, ManifestGrant)
    ensures r.Success? ==> r.value.inherited == OfClass(crates, snapshots, RepositoryTexts)
  {
    hide Label, Contributes, OfClass, ClassOf, Admissible, TablesRecord, Carries, SomeLabelled, SomeKeyed;
    var first := CollectTexts(crates, snapshots, hash);
    if first.Failure? {
      return Failure(first.error);
    }
    var p := first.value;
    TablesMean(p.tables, crates, snapshots, hash);
    KeyedHaveText(p.tables, crates, snapshots, hash);
    var texts, inherited, missing := InheritTexts(p.tables.texts, p.tables.repositories, p.pending);
    PendingDecides(p, crates, snapshots, hash);
    if missing != [] {
      return Failure(MissingTexts);
    }
    forall d, tag | d in texts ensures tag in texts[d].labels <==> LabelCovered(crates, snapshots, hash, tag, d) {
      LabelsCover(p, crates, snapshots, hash, d, tag);
    }
    TextsHashToKeys(p.tables, Records(crates, snapshots), hash);
    return Success(Coverage(texts, p.vcs, p.grants, inherited));
  }

  lemma TextsHashToKeys(tables: Tables, records: seq<Record>, hash: string -> string)
    requires TablesRecord(tables, records, hash)
    ensures forall d :: d in tables.texts ==> hash(tables.texts[d].text) == d
  {
  }

  lemma KeyedHaveText(tables: Tables, crates: seq<Crate>, snapshots: Snapshots, hash: string -> string)
    requires TablesRecord(tables, Records(crates, snapshots), hash)
    ensures forall key :: key in tables.repositories ==> tables.repositories[key] <= tables.texts.Keys
  {
    TablesMean(tables, crates, snapshots, hash);
    hide TablesRecord, Contributes;
    forall key, d | key in tables.repositories && d in tables.repositories[key] ensures d in tables.texts {
      assert SomeKeyed(crates, snapshots, hash, d, key);
    }
  }

  /** Completeness is decided by the pending crates. */
  lemma PendingDecides(p: FirstPass, crates: seq<Crate>, snapshots: Snapshots, hash: string -> string)
    requires FirstPassOf(p, crates, snapshots, hash) && forall c :: c in crates ==> Admissible(c, snapshots, hash)
    ensures Complete(crates, snapshots, hash) <==>
            forall c :: c in p.pending ==> Inherited(p.tables.repositories, c) != {}
  {
    hide TablesRecord, Contributes, Carries, Inherited, Admissible, ClassOf;
    forall c | c in crates
      ensures (exists d :: Carries(crates, snapshots, hash, c, d)) <==>
              (ClassOf(c, snapshots) == RepositoryTexts ==> Inherited(p.tables.repositories, c) != {})
    {
      OwnOrInherited(p.tables, crates, snapshots, hash, c);
      CarriesOwn(crates, snapshots, hash, c);
    }
  }

  lemma CarriesOwn(crates: seq<Crate>, snapshots: Snapshots, hash: string -> string, c: Crate)
    ensures forall d :: Contributes(c, snapshots, hash, d) ==> Carries(crates, snapshots, hash, c, d)
    ensures ClassOf(c, snapshots) != RepositoryTexts ==>
              forall d :: Carries(crates, snapshots, hash, c, d) ==> Contributes(c, snapshots, hash, d)
    ensures ClassOf(c, snapshots) == RepositoryTexts ==> forall d :: !Contributes(c, snapshots, hash, d)
  {
  }

  /** The labels of a text are those of the crates that carry it. */
  lemma LabelsCover(p: FirstPass, crates: seq<Crate>, snapshots: Snapshots, hash: string -> string, d: string, tag: string)
    requires FirstPassOf(p, crates, snapshots, hash) && forall c :: c in crates ==> Admissible(c, snapshots, hash)
    ensures LabelCovered(crates, snapshots, hash, tag, d) <==>
            || SomeLabelled(crates, snapshots, hash, d, tag)
            || exists c :: c in p.pending && Label(c) == tag && d in Inherited(p.tables.repositories, c)
  {
    hide TablesRecord, Contributes, Carries, Inherited, Admissible, ClassOf, Label;
    forall c | c in crates
      ensures Carries(crates, snapshots, hash, c, d) <==>
              Contributes(c, snapshots, hash, d) ||
              (ClassOf(c, snapshots) == RepositoryTexts && d in Inherited(p.tables.repositories, c))
    {
      OwnOrInherited(p.tables, crates, snapshots, hash, c);
      CarriesOwn(crates, snapshots, hash, c);
    }
  }

  /** Every crate of a complete set is listed under some text, and a crate without its own texts
      only under texts contributed by a crate of the same repository. */
  lemma EveryCrateCovered(crates: seq<Crate>, snapshots: Snapshots, hash: string -> string, c: Crate)
    requires Complete(crates, snapshots, hash) && c in crates
    ensures exists d :: LabelCovered(crates, snapshots, hash, Label(c), d)
    ensures ClassOf(c, snapshots) == RepositoryTexts ==> forall d :: Carries(crates, snapshots, hash, c, d) ==>
              exists q :: q in crates && SameRepository(c, q) && ClassOf(q, snapshots) != RepositoryTexts &&
                          Contributes(q, snapshots, hash, d)
  {
    hide Label, Admissible;
    var d :| Carries(crates, snapshots, hash, c, d);
    assert LabelCovered(crates, snapshots, hash, Label(c), d);
    if ClassOf(c, snapshots) == RepositoryTexts {
      CarriesOwn(crates, snapshots, hash, c);
      forall d | Carries(crates, snapshots, hash, c, d)
        ensures exists q :: q in crates && SameRepository(c, q) && ClassOf(q, snapshots) != RepositoryTexts &&
                            Contributes(q, snapshots, hash, d)
      {
        var q :| q in crates && SameRepository(c, q) && Contributes(q, snapshots, hash, d);
        CarriesOwn(crates, snapshots, hash, q);
      }
    }
  }

  // ---- What the classes and checks are ---------------------------------------------------------

  /** Which of the four lists a crate is in, in terms of its notices and its snapshot. */
  lemma ListsMean(crates: seq<Crate>, snapshots: Snapshots, c: Crate)
    ensures c in OfClass(crates, snapshots, OwnNotices) <==> c in crates && c.notices != []
    ensures c in OfClass(crates, snapshots, ManifestGrant) <==>
            c in crates && c.notices == [] && c.key in snapshots && snapshots[c.key].manifestGrant
    ensures c in OfClass(crates, snapshots, VcsSnapshot) <==>
            c in crates && c.notices == [] && c.key in snapshots && !snapshots[c.key].manifestGrant
    ensures c in OfClass(crates, snapshots, RepositoryTexts) <==> c in crates && c.notices == [] && c.key !in snapshots
  {
  }

  /** What a crate contributes: its own notices if it has any, else the files of its snapshot. */
  lemma ContributionMeans(c: Crate, snapshots: Snapshots, hash: string -> string, d: string)
    ensures Contributes(c, snapshots, hash, d) <==>
            || (exists t :: t in c.notices && hash(t) == d)
            || (c.notices == [] && c.key in snapshots && exists f :: f in snapshots[c.key].files && hash(f.text) == d)
  {
    if c.notices == [] && c.key in snapshots {
      var files := snapshots[c.key].files;
      assert OwnTexts(c, snapshots) == FileTexts(files);
      forall f | f in files ensures f.text in FileTexts(files) {
        var i :| 0 <= i < |files| && files[i] == f;
        assert FileTexts(files)[i] == f.text;
      }
      forall t | t in FileTexts(files) ensures exists f :: f in files && f.text == t {
        var i :| 0 <= i < |files| && FileTexts(files)[i] == t;
        assert files[i] in files;
      }
    }
  }

  /** What a generation that succeeds says of each crate. */
  lemma CompleteMeans(crates: seq<Crate>, snapshots: Snapshots, hash: string -> string, c: Crate)
    requires Complete(crates, snapshots, hash) && c in crates
    ensures c.license != ""
    ensures c.notices == [] && c.key in snapshots ==>
              snapshots[c.key].files != [] && forall f :: f in snapshots[c.key].files ==> f.sha256 == hash(f.text)
    ensures c.notices == [] && c.key !in snapshots ==>
              exists q, d :: q in crates && Given(c, q) && Contributes(q, snapshots, hash, d)
  {
    hide Contributes;
    var d :| Carries(crates, snapshots, hash, c, d);
    if c.notices == [] && c.key !in snapshots {
      assert !Contributes(c, snapshots, hash, d) by { ContributionMeans(c, snapshots, hash, d); }
      var q :| q in crates && SameRepository(c, q) && Contributes(q, snapshots, hash, d);
      assert Given(c, q);
    }
  }

  /** Both crates name one nonempty repository key. */
  ghost predicate Given(c: Crate, q: Crate) {
    exists key :: key != "" && c.repository == Some(key) && q.repository == Some(key)
  }

  /** A text lists "name version" for the crates that carry it. */
  lemma LabelMeans(crates: seq<Crate>, snapshots: Snapshots, hash: string -> string, c: Crate, d: string)
    requires c in crates && Contributes(c, snapshots, hash, d)
    ensures LabelCovered(crates, snapshots, hash, c.name + " " + c.version, d)
  {
    hide Contributes;
    assert Label(c) == c.name + " " + c.version;
    assert Carries(crates, snapshots, hash, c, d);
  }
}
