/** The archive manifest (packaging/n8n_update_migration_canary.py:45-77): which archives are
    accepted, and what the digest of an accepted one identifies. */
module Archive {
  import opened Outcomes
  import opened Sorting
  import opened TextSearch

  datatype Kind = File | Directory | OtherKind

  /** A tar member; `chunks` is its content as read, `None` if no stream could be opened. */
  datatype Member = Member(name: string, typeCode: string, size: int, mode: int, chunks: Option<seq<string>>)

  /** `isfile` and `isdir`, by the type code of the header; symbolic and hard links are neither. */
  function KindOf(typeCode: string): Kind {
    if typeCode in ["0", "\0", "7", "S"] then File else if typeCode == "5" then Directory else OtherKind
  }

  datatype Row = Row(name: string, typeCode: string, size: int, mode: int, content: string)

  datatype ArchiveError = SizeInvalid | MemberCount | MemberUnsafe | TotalBytes | MemberRead | Empty

  const MAX_ARCHIVE_BYTES := 128 * 1024 * 1024
  const MAX_ARCHIVE_MEMBERS := 20_000
  const MAX_MEMBER_BYTES := 64 * 1024 * 1024

  // ---- Names ---------------------------------------------------------------------------------

  function Join(parts: seq<string>): string {
    if parts == [] then "" else if |parts| == 1 then parts[0] else parts[0] + "/" + Join(parts[1..])
  }

  predicate RealPart(p: string) { p != "" && p != "." }

  function RealParts(parts: seq<string>): (r: seq<string>)
    ensures forall p :: p in r <==> p in parts && RealPart(p)
  {
    if parts == [] then []
    else
      assert parts == [parts[0]] + parts[1..];
      (if RealPart(parts[0]) then [parts[0]] else []) + RealParts(parts[1..])
  }

  /** `PurePosixPath(name).parts` of a relative name. */
  function Parts(name: string): seq<string> {
    RealParts(Split(name, '/'))
  }

  /** `PurePosixPath(name).as_posix()` of a relative name. */
  function Normalised(name: string): string {
    if Parts(name) == [] then "." else Join(Parts(name))
  }

  lemma {:induction false} SplitJoin(parts: seq<string>)
    requires parts != [] && forall p :: p in parts ==> '/' !in p
    ensures Split(Join(parts), '/') == parts
  {
    if |parts| == 1 {
      SplitPlain(parts[0], '/');
    } else {
      SplitJoin(parts[1..]);
      SplitFirst(parts[0], Join(parts[1..]), '/');
      assert Join(parts) == parts[0] + ("/" + Join(parts[1..]));
      assert parts == [parts[0]] + parts[1..];
    }
  }

  lemma {:induction false} RealPartsFixed(parts: seq<string>)
    requires forall p :: p in parts ==> RealPart(p)
    ensures RealParts(parts) == parts
  {
    if parts != [] {
      RealPartsFixed(parts[1..]);
      assert parts == [parts[0]] + parts[1..];
    }
  }

  /** Normalising keeps the parts, so it is idempotent and equal names mean equal parts. */
  lemma NormalisedKeepsParts(name: string)
    ensures Parts(Normalised(name)) == Parts(name) && Normalised(Normalised(name)) == Normalised(name)
  {
    if Parts(name) == [] {
      assert Split(".", '/') == ["."] by { SplitPlain(".", '/'); }
      assert RealParts(["."]) == [];
    } else {
      SplitJoin(Parts(name));
      RealPartsFixed(Parts(name));
    }
  }

  lemma SameNameSameParts(a: string, b: string)
    ensures Normalised(a) == Normalised(b) <==> Parts(a) == Parts(b)
  {
    hide Parts, Join;
    NormalisedKeepsParts(a);
    NormalisedKeepsParts(b);
  }

  // ---- Acceptance ----------------------------------------------------------------------------

  predicate SafeMember(m: Member) {
    && m.name != "" && m.name[0] != '/' && '\\' !in m.name && ".." !in Parts(m.name)
    && KindOf(m.typeCode) != OtherKind && (Normalised(m.name) == "." ==> KindOf(m.typeCode) == Directory)
    && 0 <= m.size <= MAX_MEMBER_BYTES
  }

  function Concat(chunks: seq<string>): string {
    if chunks == [] then "" else Concat(chunks[..|chunks| - 1]) + chunks[|chunks| - 1]
  }

  /** A file's stream opens and delivers exactly the announced number of bytes. */
  predicate Readable(m: Member) {
    KindOf(m.typeCode) == File ==> m.chunks.Some? && |Concat(m.chunks.value)| == m.size
  }

  function TotalSize(members: seq<Member>): int {
    if members == [] then 0 else TotalSize(members[..|members| - 1]) + members[|members| - 1].size
  }

  ghost predicate DistinctNames(members: seq<Member>) {
    forall i, j :: 0 <= i < j < |members| ==> Normalised(members[i].name) != Normalised(members[j].name)
  }

  /** The archives that are accepted. */
  ghost predicate Accepted(members: seq<Member>) {
    && 0 < |members| <= MAX_ARCHIVE_MEMBERS
    && (forall m :: m in members ==> SafeMember(m) && Readable(m))
    && DistinctNames(members) && TotalSize(members) <= MAX_ARCHIVE_BYTES
  }

  function RowOf(m: Member, hash: string -> string): Row {
    Row(Normalised(m.name), m.typeCode, m.size, m.mode,
        if KindOf(m.typeCode) == File && m.chunks.Some? then hash(Concat(m.chunks.value)) else "dir")
  }

  function RowsOf(members: seq<Member>, hash: string -> string): (rows: seq<Row>)
    ensures |rows| == |members| && forall i :: 0 <= i < |members| ==> rows[i] == RowOf(members[i], hash)
  {
    seq(|members|, i requires 0 <= i < |members| => RowOf(members[i], hash))
  }

  // ---- Manifest ------------------------------------------------------------------------------

  /** Python's order on `[name, type, size, mode, content]`. */
  predicate RowLe(a: Row, b: Row) {
    if a.name != b.name then StringLe(a.name, b.name)
    else if a.typeCode != b.typeCode then StringLe(a.typeCode, b.typeCode)
    else if a.size != b.size then a.size < b.size
    else if a.mode != b.mode then a.mode < b.mode
    else StringLe(a.content, b.content)
  }

  lemma RowLeIsTotalOrder()
    ensures TotalOrder(RowLe)
  {
    forall a, b ensures (RowLe(a, b) || RowLe(b, a)) && (RowLe(a, b) && RowLe(b, a) ==> a == b) {
      StringLeConnex(a.name, b.name);
      StringLeConnex(a.typeCode, b.typeCode);
      StringLeConnex(a.content, b.content);
    }
    forall a, b, c | RowLe(a, b) && RowLe(b, c) ensures RowLe(a, c) {
      RowLeTransitive(a, b, c);
    }
  }

  lemma StringLeMixed(a: string, b: string, c: string)
    requires StringLe(a, b) && StringLe(b, c)
    ensures StringLe(a, c) && (a == c ==> a == b)
  {
    StringLeTransitive(a, b, c);
    StringLeConnex(a, b);
  }

  lemma RowLeTransitive(a: Row, b: Row, c: Row)
    requires RowLe(a, b) && RowLe(b, c)
    ensures RowLe(a, c)
  {
    hide StringLe;
    if a.name != b.name && b.name != c.name {
      StringLeMixed(a.name, b.name, c.name);
    } else if a.name == b.name && b.name == c.name {
      if a.typeCode != b.typeCode && b.typeCode != c.typeCode {
        StringLeMixed(a.typeCode, b.typeCode, c.typeCode);
      } else if a.typeCode == b.typeCode && b.typeCode == c.typeCode && a.size == b.size == c.size && a.mode == b.mode == c.mode {
        StringLeMixed(a.content, b.content, c.content);
      }
    }
  }

  /** One canonical line per row. */
  function Lines(rows: seq<Row>, canonical: Row -> string): string {
    if rows == [] then "" else canonical(rows[0]) + ['\n'] + Lines(rows[1..], canonical)
  }

  function Manifest(rows: seq<Row>, canonical: Row -> string, hash: string -> string): string {
    hash(Lines(Sorted(rows, RowLe), canonical))
  }

  /** What is used of `json.dumps`: injective, and newlines are escaped. */
  ghost predicate CanonicalForm(canonical: Row -> string) {
    (forall r, s :: canonical(r) == canonical(s) ==> r == s) && forall r :: '\n' !in canonical(r)
  }

  lemma {:induction false} LinesInjective(a: seq<Row>, b: seq<Row>, canonical: Row -> string)
    requires CanonicalForm(canonical) && Lines(a, canonical) == Lines(b, canonical)
    ensures a == b
  {
    if a != [] && b != [] {
      SplitAt(canonical(a[0]), canonical(b[0]), Lines(a[1..], canonical), Lines(b[1..], canonical), '\n');
      LinesInjective(a[1..], b[1..], canonical);
      assert a == [a[0]] + a[1..] && b == [b[0]] + b[1..];
    }
  }

  /** The manifest depends on the rows only, not on their order; with an injective hash it
      determines them. */
  lemma ManifestIdentifiesRows(a: seq<Row>, b: seq<Row>, canonical: Row -> string, hash: string -> string)
    requires CanonicalForm(canonical)
    ensures multiset(a) == multiset(b) ==> Manifest(a, canonical, hash) == Manifest(b, canonical, hash)
    ensures Injective(hash) && Manifest(a, canonical, hash) == Manifest(b, canonical, hash) ==> multiset(a) == multiset(b)
  {
    hide RowLe, Sorted;
    RowLeIsTotalOrder();
    SortedByContents(a, b, RowLe);
    var x, y := Sorted(a, RowLe), Sorted(b, RowLe);
    if Lines(x, canonical) == Lines(y, canonical) {
      LinesInjective(x, y, canonical);
    }
  }

  lemma {:induction false} DistinctRowsAsSet(rows: seq<Row>, r: Row)
    requires forall i, j :: 0 <= i < j < |rows| ==> rows[i] != rows[j]
    ensures multiset(rows)[r] == if r in rows then 1 else 0
  {
    if rows != [] {
      var front, last := rows[..|rows| - 1], rows[|rows| - 1];
      DistinctRowsAsSet(front, r);
      assert rows == front + [last];
    }
  }

  /** Two accepted archives have the same manifest exactly when they hold the same rows. */
  lemma AcceptedManifestsAgree(a: seq<Member>, b: seq<Member>, canonical: Row -> string, hash: string -> string)
    requires Accepted(a) && Accepted(b) && CanonicalForm(canonical) && Injective(hash)
    ensures Manifest(RowsOf(a, hash), canonical, hash) == Manifest(RowsOf(b, hash), canonical, hash) <==>
            forall r :: r in RowsOf(a, hash) <==> r in RowsOf(b, hash)
  {
    hide SafeMember, Readable, Normalised, Manifest, Injective, CanonicalForm;
    var x, y := RowsOf(a, hash), RowsOf(b, hash);
    ManifestIdentifiesRows(x, y, canonical, hash);
    forall r ensures multiset(x)[r] == (if r in x then 1 else 0) && multiset(y)[r] == (if r in y then 1 else 0) {
      DistinctRowsAsSet(x, r);
      DistinctRowsAsSet(y, r);
    }
    if forall r :: r in x <==> r in y {
      assert multiset(x) == multiset(y);
    }
  }

  // ---- The streaming loop --------------------------------------------------------------------

  /** Reads one file in bounded chunks. */
  method ReadFile(m: Member, hash: string -> string) returns (content: Option<string>)
    requires KindOf(m.typeCode) == File
    ensures content.Some? <==> Readable(m)
    ensures content.Some? ==> content.value == hash(Concat(m.chunks.value))
  {
    if m.chunks.None? {
      return None;
    }
    var chunks := m.chunks.value;
    var fed, total := "", 0;
    for i := 0 to |chunks|
      invariant fed == Concat(chunks[..i]) && total == |fed|
    {
      total := total + |chunks[i]|;
      assert chunks[..i + 1][..i] == chunks[..i];
      if total > m.size {
        ConcatGrows(chunks, i + 1);
        return None;
      }
      fed := fed + chunks[i];
    }
    assert chunks[..|chunks|] == chunks;
    return if total != m.size then None else Some(hash(fed));
  }

  lemma {:induction false} ConcatGrows(chunks: seq<string>, i: nat)
    requires i <= |chunks|
    ensures |Concat(chunks[..i])| <= |Concat(chunks)|
    decreases |chunks|
  {
    if i == |chunks| {
      assert chunks[..i] == chunks;
    } else {
      assert chunks[..|chunks| - 1][..i] == chunks[..i];
      ConcatGrows(chunks[..|chunks| - 1], i);
    }
  }

  lemma {:induction false} SizeGrows(members: seq<Member>, i: nat)
    requires i <= |members| && forall m :: m in members ==> SafeMember(m)
    ensures TotalSize(members[..i]) <= TotalSize(members)
    decreases |members|
  {
    hide Parts, Normalised;
    if i == |members| {
      assert members[..i] == members;
    } else {
      assert members[..|members| - 1][..i] == members[..i];
      assert members[|members| - 1] in members;
      SizeGrows(members[..|members| - 1], i);
    }
  }

  lemma TooManyBytes(members: seq<Member>, i: nat)
    requires i <= |members| && TotalSize(members[..i]) > MAX_ARCHIVE_BYTES
    ensures !Accepted(members)
  {
    hide SafeMember, Readable, Normalised;
    if forall m :: m in members ==> SafeMember(m) {
      SizeGrows(members, i);
    }
  }

  /** What the loop variables hold after the members in `done`. */
  ghost predicate SoFar(done: seq<Member>, rows: seq<Row>, names: set<string>, total: int, hash: string -> string) {
    && |done| <= MAX_ARCHIVE_MEMBERS && rows == RowsOf(done, hash)
    && names == (set m | m in done :: Normalised(m.name))
    && (forall m :: m in done ==> SafeMember(m) && Readable(m))
    && DistinctNames(done) && total == TotalSize(done) <= MAX_ARCHIVE_BYTES
  }

  lemma NothingRead(hash: string -> string)
    ensures SoFar([], [], {}, 0, hash)
  {
  }

  lemma OneMoreMember(done: seq<Member>, rows: seq<Row>, names: set<string>, total: int, hash: string -> string, m: Member)
    requires SoFar(done, rows, names, total, hash) && |done| < MAX_ARCHIVE_MEMBERS
    requires SafeMember(m) && Readable(m) && Normalised(m.name) !in names && total + m.size <= MAX_ARCHIVE_BYTES
    ensures SoFar(done + [m], rows + [RowOf(m, hash)], names + {Normalised(m.name)}, total + m.size, hash)
  {
    hide SafeMember, Readable, Normalised, RowOf;
    var more := done + [m];
    assert more[..|done|] == done;
    RowsGrow(done, m, hash);
    NamesGrow(done, m);
    hide DistinctNames, RowsOf;
  }

  lemma RowsGrow(done: seq<Member>, m: Member, hash: string -> string)
    ensures RowsOf(done + [m], hash) == RowsOf(done, hash) + [RowOf(m, hash)]
  {
    hide RowOf;
  }

  lemma NamesGrow(done: seq<Member>, m: Member)
    requires DistinctNames(done) && Normalised(m.name) !in (set x | x in done :: Normalised(x.name))
    ensures DistinctNames(done + [m])
    ensures (set x | x in done + [m] :: Normalised(x.name))
         == (set x | x in done :: Normalised(x.name)) + {Normalised(m.name)}
  {
    hide Normalised;
    var more := done + [m];
    assert forall i :: 0 <= i < |done| ==> more[i] in done;
  }

  lemma TooManyMembers(members: seq<Member>)
    requires |members| > MAX_ARCHIVE_MEMBERS
    ensures !Accepted(members)
  {
  }

  lemma TooLarge(members: seq<Member>, i: nat, rows: seq<Row>, names: set<string>, total: int, hash: string -> string)
    requires i < |members| && SoFar(members[..i], rows, names, total, hash)
    requires total + members[i].size > MAX_ARCHIVE_BYTES
    ensures !Accepted(members)
  {
    hide SafeMember, Readable, Normalised, RowsOf, DistinctNames, Accepted;
    var more := members[..i + 1];
    assert more[..i] == members[..i] && more[i] == members[i];
    TooManyBytes(members, i + 1);
  }

  /** A member that repeats a name, is unsafe or is unreadable spoils the whole archive. */
  lemma Spoiled(members: seq<Member>, i: nat, rows: seq<Row>, names: set<string>, total: int, hash: string -> string)
    requires i < |members| && SoFar(members[..i], rows, names, total, hash)
    requires !SafeMember(members[i]) || !Readable(members[i]) || Normalised(members[i].name) in names
    ensures !Accepted(members)
  {
    hide SafeMember, Readable, Normalised, RowsOf;
    assert members[i] in members;
    if Normalised(members[i].name) in names {
      var m :| m in members[..i] && Normalised(m.name) == Normalised(members[i].name);
      var j :| 0 <= j < i && members[j] == m;
    }
  }

  lemma AllRead(members: seq<Member>, rows: seq<Row>, names: set<string>, total: int, hash: string -> string)
    requires SoFar(members, rows, names, total, hash)
    ensures rows == RowsOf(members, hash) && (members != [] <==> Accepted(members))
  {
    hide SafeMember, Readable, Normalised, RowsOf;
  }

  /** The row of a safe member, or `None` if its content cannot be read. */
  method MakeRow(m: Member, hash: string -> string) returns (row: Option<Row>)
    requires SafeMember(m)
    ensures row.Some? <==> Readable(m)
    ensures row.Some? ==> row.value == RowOf(m, hash)
  {
    hide Normalised, Parts;
    var content := "dir";
    if KindOf(m.typeCode) == File {
      var read := ReadFile(m, hash);
      if read.None? {
        return None;
      }
      content := read.value;
    }
    return Some(Row(Normalised(m.name), m.typeCode, m.size, m.mode, content));
  }

  /** `safe_archive_manifest` on the members of a readable regular file. */
  method SafeArchiveManifest(fileOk: bool, members: seq<Member>, canonical: Row -> string, hash: string -> string)
    returns (r: Result<string, ArchiveError>)
    ensures r.Success? <==> fileOk && Accepted(members)
    ensures r.Success? ==> r.value == Manifest(RowsOf(members, hash), canonical, hash)
  {
    hide SafeMember, Readable, Normalised, Manifest, RowOf, RowsOf, SoFar, Accepted;
    if !fileOk {
      return Failure(SizeInvalid);
    }
    var rows: seq<Row>, names: set<string>, total := [], {}, 0;
    NothingRead(hash);
    assert members[..0] == [];
    for i := 0 to |members|
      invariant SoFar(members[..i], rows, names, total, hash)
    {
      if i + 1 > MAX_ARCHIVE_MEMBERS {
        TooManyMembers(members);
        return Failure(MemberCount);
      }
      var m := members[i];
      if !SafeMember(m) || Normalised(m.name) in names {
        Spoiled(members, i, rows, names, total, hash);
        return Failure(MemberUnsafe);
      }
      if total + m.size > MAX_ARCHIVE_BYTES {
        TooLarge(members, i, rows, names, total, hash);
        return Failure(TotalBytes);
      }
      var row := MakeRow(m, hash);
      if row.None? {
        Spoiled(members, i, rows, names, total, hash);
        return Failure(MemberRead);
      }
      OneMoreMember(members[..i], rows, names, total, hash, m);
      assert members[..i + 1] == members[..i] + [m];
      rows, names, total := rows + [row.value], names + {Normalised(m.name)}, total + m.size;
    }
    assert members[..|members|] == members;
    AllRead(members, rows, names, total, hash);
    if |members| == 0 {
      return Failure(Empty);
    }
    return Success(Manifest(rows, canonical, hash));
  }

  // ---- What an accepted archive holds ----------------------------------------------------------

  /** Every accepted archive: at most 20000 members and 128 MiB, relative names without parent steps
      or backslashes, no two alike, regular files and directories only, files of the announced size. */
  lemma AcceptedMeans(members: seq<Member>)
    requires Accepted(members)
    ensures 0 < |members| <= 20000 && TotalSize(members) <= 134217728
    ensures forall m :: m in members ==>
              && m.name != "" && m.name[0] != '/' && '\\' !in m.name && ".." !in Split(m.name, '/')
              && 0 <= m.size <= 67108864 && m.typeCode in ["0", "\0", "7", "S", "5"]
              && (m.typeCode != "5" ==> m.chunks.Some? && |Concat(m.chunks.value)| == m.size)
              && (Parts(m.name) == [] ==> m.typeCode == "5")
    ensures forall i, j :: 0 <= i < j < |members| ==> Parts(members[i].name) != Parts(members[j].name)
  {
    forall m | m in members ensures ".." !in Split(m.name, '/') {
      assert SafeMember(m);
      assert RealPart("..") by { assert |".."| == 2 && |"."| == 1; }
      assert ".." !in RealParts(Split(m.name, '/'));
    }
    forall i, j | 0 <= i < j < |members| ensures Parts(members[i].name) != Parts(members[j].name) {
      SameNameSameParts(members[i].name, members[j].name);
    }
    hide Normalised, RealParts;
  }

  /** What two members with one row have in common. */
  lemma SameRowMeans(m: Member, n: Member, hash: string -> string)
    requires Injective(hash) && SafeMember(m) && Readable(m) && SafeMember(n) && Readable(n) && RowOf(m, hash) == RowOf(n, hash)
    ensures Normalised(m.name) == Normalised(n.name) && m.typeCode == n.typeCode && m.size == n.size && m.mode == n.mode
    ensures m.typeCode != "5" ==> Concat(m.chunks.value) == Concat(n.chunks.value)
  {
    hide Normalised, Concat;
  }

  /** With an injective hash two accepted archives have one manifest only if each member of one has a
      counterpart of the same path, type, size, mode and bytes in the other. */
  lemma SameManifestSameContents(a: seq<Member>, b: seq<Member>, canonical: Row -> string, hash: string -> string, m: Member)
    requires Accepted(a) && Accepted(b) && CanonicalForm(canonical) && Injective(hash) && m in a
    requires Manifest(RowsOf(a, hash), canonical, hash) == Manifest(RowsOf(b, hash), canonical, hash)
    ensures exists n :: n in b && Parts(n.name) == Parts(m.name) && n.typeCode == m.typeCode && n.size == m.size &&
                        n.mode == m.mode && (m.typeCode != "5" ==> Concat(n.chunks.value) == Concat(m.chunks.value))
  {
    AcceptedManifestsAgree(a, b, canonical, hash);
    hide Manifest, CanonicalForm, SafeMember, Readable, RowOf, Injective;
    var i :| 0 <= i < |a| && a[i] == m;
    assert RowsOf(a, hash)[i] in RowsOf(a, hash);
    var j :| 0 <= j < |b| && RowsOf(b, hash)[j] == RowOf(m, hash);
    assert b[j] in b;
    SameRowMeans(m, b[j], hash);
    SameNameSameParts(m.name, b[j].name);
  }
}
