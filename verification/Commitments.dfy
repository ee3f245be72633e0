/** Commitment framing of the relink canaries: three separately written pair encoders and three
    material encoders feed a running SHA-256. Encoders of one commitment are shown to agree, the
    pair preimage to be uniquely decodable, and collisions of the material preimage are described
    exactly (packaging/bluebubbles_daemon_adoption_canary.py:179-197,
    packaging/converted_channel_relink_product_canary.py:63-80,
    packaging/gchat_converted_relink_product_canary.py:484-503). */
module Commitments {
  import opened Outcomes
  import opened TextSearch

  type Byte = b: int | 0 <= b < 256
  type Bytes = seq<Byte>

  /** `hashlib.sha256` fed piece by piece. */
  class Hasher {
    var fed: Bytes

    constructor (initial: Bytes)
      ensures fed == initial
    {
      fed := initial;
    }

    method Update(piece: Bytes)
      modifies this
      ensures fed == old(fed) + piece
    {
      fed := fed + piece;
    }
  }

  /** ASCII text as bytes. */
  function Ascii(s: string): (bs: Bytes)
    ensures |bs| == |s|
  {
    seq(|s|, i requires 0 <= i < |s| => (s[i] as int) % 256)
  }

  // ---- Little-endian lengths -----------------------------------------------------------------

  function Pow256(k: nat): (r: nat)
    ensures r > 0
  {
    if k == 0 then 1 else 256 * Pow256(k - 1)
  }

  /** `n.to_bytes(k, "little")` for n that fits. */
  function LittleEndian(n: nat, k: nat): (bs: Bytes)
    ensures |bs| == k
  {
    if k == 0 then [] else [n % 256] + LittleEndian(n / 256, k - 1)
  }

  function Value(bs: Bytes): (n: nat)
    ensures n < Pow256(|bs|)
  {
    if bs == [] then 0 else bs[0] + 256 * Value(bs[1..])
  }

  lemma {:induction false} ValueOfLittleEndian(n: nat, k: nat)
    requires n < Pow256(k)
    ensures Value(LittleEndian(n, k)) == n
  {
    if k > 0 {
      ValueOfLittleEndian(n / 256, k - 1);
      assert LittleEndian(n, k)[1..] == LittleEndian(n / 256, k - 1);
    }
  }

  lemma {:induction false} LittleEndianOfValue(bs: Bytes)
    ensures LittleEndian(Value(bs), |bs|) == bs
  {
    if bs != [] {
      LittleEndianOfValue(bs[1..]);
      assert Value(bs) / 256 == Value(bs[1..]) && Value(bs) % 256 == bs[0];
      assert bs == [bs[0]] + bs[1..];
    }
  }

  const WIDTH: nat := 8

  /** Lengths that fit in eight bytes; longer input raises `OverflowError`. */
  predicate Fits(raw: Bytes) {
    |raw| < Pow256(WIDTH)
  }

  lemma EightBytes()
    ensures Pow256(WIDTH) == 0x1_0000_0000_0000_0000
  {
    assert Pow256(2) == 0x1_0000 && Pow256(4) == 0x1_0000 * Pow256(2) && Pow256(6) == 0x1_0000 * Pow256(4);
  }

  // ---- Frames --------------------------------------------------------------------------------

  function Frame(raw: Bytes): Bytes {
    LittleEndian(|raw|, WIDTH) + raw
  }

  function Unframe(bs: Bytes): (r: Option<(Bytes, Bytes)>)
    ensures r.Some? ==> |r.value.1| < |bs|
  {
    if |bs| < WIDTH || |bs| - WIDTH < Value(bs[..WIDTH]) then None
    else
      var end := WIDTH + Value(bs[..WIDTH]);
      Some((bs[WIDTH..end], bs[end..]))
  }

  lemma UnframeFrame(raw: Bytes, rest: Bytes)
    requires Fits(raw)
    ensures Unframe(Frame(raw) + rest) == Some((raw, rest))
  {
    var bs := Frame(raw) + rest;
    assert bs[..WIDTH] == LittleEndian(|raw|, WIDTH);
    ValueOfLittleEndian(|raw|, WIDTH);
    assert bs[WIDTH..WIDTH + |raw|] == raw && bs[WIDTH + |raw|..] == rest;
  }

  lemma FrameUnframe(bs: Bytes)
    requires Unframe(bs).Some?
    ensures Fits(Unframe(bs).value.0) && bs == Frame(Unframe(bs).value.0) + Unframe(bs).value.1
  {
    LittleEndianOfValue(bs[..WIDTH]);
    var end := WIDTH + Value(bs[..WIDTH]);
    assert bs == bs[..WIDTH] + bs[WIDTH..end] + bs[end..];
  }

  function Frames(fields: seq<Bytes>): Bytes {
    if fields == [] then [] else Frame(fields[0]) + Frames(fields[1..])
  }

  /** A concatenation of frames determines the list of fields, whatever its length. */
  lemma {:induction false} FramesInjective(a: seq<Bytes>, b: seq<Bytes>)
    requires (forall f :: f in a ==> Fits(f)) && (forall f :: f in b ==> Fits(f))
    requires Frames(a) == Frames(b)
    ensures a == b
  {
    if a != [] && b != [] {
      UnframeFrame(a[0], Frames(a[1..]));
      UnframeFrame(b[0], Frames(b[1..]));
      FramesInjective(a[1..], b[1..]);
      assert a == [a[0]] + a[1..] && b == [b[0]] + b[1..];
    }
  }

  // ---- Pair commitment -----------------------------------------------------------------------

  /** A file that may be missing. */
  datatype Snapshot = Missing | Present(raw: Bytes)

  predicate SnapshotFits(s: Snapshot) {
    s.Present? ==> Fits(s.raw)
  }

  function PairHeader(): Bytes { Ascii("neoth-converted-relink-pair-v1") + [0] }
  function FreedomName(): Bytes { Ascii("freedom.yaml") }
  function CredentialsName(): Bytes { Ascii("credentials.yaml") }

  function Member(s: Snapshot): Bytes {
    if s.Present? then [1] + Frame(s.raw) else [0]
  }

  function PairPreimage(freedom: Snapshot, credentials: Snapshot): Bytes {
    PairHeader() + (FreedomName() + [0] + Member(freedom)) + (CredentialsName() + [0] + Member(credentials))
  }

  function Strip(prefix: Bytes, bs: Bytes): Option<Bytes> {
    if prefix <= bs then Some(bs[|prefix|..]) else None
  }

  function Unmember(bs: Bytes): Option<(Snapshot, Bytes)> {
    if bs == [] then None
    else if bs[0] == 0 then Some((Missing, bs[1..]))
    else if bs[0] == 1 && Unframe(bs[1..]).Some? then
      Some((Present(Unframe(bs[1..]).value.0), Unframe(bs[1..]).value.1))
    else None
  }

  /** Recovers presence and bytes of both files from a preimage. */
  function DecodePair(bs: Bytes): Option<(Snapshot, Snapshot)> {
    var a := Strip(PairHeader() + FreedomName() + [0], bs);
    if a.None? then None else
    var freedom := Unmember(a.value);
    if freedom.None? then None else
    var b := Strip(CredentialsName() + [0], freedom.value.1);
    if b.None? then None else
    var credentials := Unmember(b.value);
    if credentials.None? || credentials.value.1 != [] then None
    else Some((freedom.value.0, credentials.value.0))
  }

  lemma UnmemberMember(s: Snapshot, rest: Bytes)
    requires SnapshotFits(s)
    ensures Unmember(Member(s) + rest) == Some((s, rest))
  {
    hide LittleEndian, Value, Unframe, Frame;
    var bs := Member(s) + rest;
    match s {
      case Missing => assert bs[1..] == rest;
      case Present(raw) =>
        assert bs[1..] == Frame(raw) + rest;
        UnframeFrame(raw, rest);
    }
  }

  lemma MemberUnmember(bs: Bytes)
    requires Unmember(bs).Some?
    ensures SnapshotFits(Unmember(bs).value.0) && bs == Member(Unmember(bs).value.0) + Unmember(bs).value.1
  {
    assert bs == [bs[0]] + bs[1..];
    if bs[0] == 1 {
      FrameUnframe(bs[1..]);
    }
  }

  lemma StripConcat(prefix: Bytes, rest: Bytes)
    ensures Strip(prefix, prefix + rest) == Some(rest)
  {
    assert (prefix + rest)[|prefix|..] == rest;
  }

  /** Decoding inverts encoding. */
  lemma PairRoundTrip(freedom: Snapshot, credentials: Snapshot)
    requires SnapshotFits(freedom) && SnapshotFits(credentials)
    ensures DecodePair(PairPreimage(freedom, credentials)) == Some((freedom, credentials))
  {
    hide Member, Unmember, Ascii, Strip, PairHeader, FreedomName, CredentialsName;
    var tail := CredentialsName() + [0] + Member(credentials);
    var start := PairHeader() + FreedomName() + [0];
    assert PairPreimage(freedom, credentials) == start + (Member(freedom) + tail);
    StripConcat(start, Member(freedom) + tail);
    UnmemberMember(freedom, tail);
    StripConcat(CredentialsName() + [0], Member(credentials));
    UnmemberMember(credentials, []);
    assert Member(credentials) + [] == Member(credentials);
  }

  /** Every byte string the decoder accepts is the encoding of what it returns. */
  lemma PairCanonical(bs: Bytes)
    requires DecodePair(bs).Some?
    ensures var (freedom, credentials) := DecodePair(bs).value;
            SnapshotFits(freedom) && SnapshotFits(credentials) && bs == PairPreimage(freedom, credentials)
  {
    hide Member, Unmember, Ascii, PairHeader, FreedomName, CredentialsName;
    var start := PairHeader() + FreedomName() + [0];
    var a := Strip(start, bs).value;
    assert bs == start + a;
    MemberUnmember(a);
    var rest := Unmember(a).value.1;
    var b := Strip(CredentialsName() + [0], rest).value;
    assert rest == CredentialsName() + [0] + b;
    MemberUnmember(b);
  }

  function PairDigest(hash: Bytes -> string, freedom: Snapshot, credentials: Snapshot): Option<string> {
    if SnapshotFits(freedom) && SnapshotFits(credentials) then Some(hash(PairPreimage(freedom, credentials))) else None
  }

  function Section(name: Bytes, s: Snapshot): Bytes {
    name + [0] + Member(s)
  }

  /** The sections of the first `i` members, in order. */
  ghost function Sections(members: seq<(Bytes, Snapshot)>, i: nat): Bytes
    requires i <= |members|
  {
    if i == 0 then [] else Sections(members, i - 1) + Section(members[i - 1].0, members[i - 1].1)
  }

  function PairMembers(freedom: Snapshot, credentials: Snapshot): seq<(Bytes, Snapshot)> {
    [(FreedomName(), freedom), (CredentialsName(), credentials)]
  }

  lemma PairSections(freedom: Snapshot, credentials: Snapshot)
    ensures PairPreimage(freedom, credentials) == PairHeader() + Sections(PairMembers(freedom, credentials), 2)
  {
    hide Member, Ascii, PairHeader, FreedomName, CredentialsName;
    var members := PairMembers(freedom, credentials);
    assert Sections(members, 1) == Section(FreedomName(), freedom);
    assert Sections(members, 2) == Sections(members, 1) + Section(CredentialsName(), credentials);
  }

  lemma Regroup(a: Bytes, b: Bytes, c: Bytes)
    ensures (a + b) + c == a + (b + c)
  {
  }

  lemma MemberFramed(raw: Bytes)
    ensures Member(Present(raw)) == [1] + LittleEndian(|raw|, WIDTH) + raw
  {
    hide LittleEndian;
    Regroup([1], LittleEndian(|raw|, WIDTH), raw);
  }

  /** One update for the name, one for the member. */
  method FeedTwice(value: Hasher, name: Bytes, member: Snapshot)
    requires SnapshotFits(member)
    modifies value
    ensures value.fed == old(value.fed) + Section(name, member)
  {
    ghost var before := value.fed;
    Regroup(before, name + [0], Member(member));
    if member.Present? {
      MemberFramed(member.raw);
    }
    hide LittleEndian, Frame;
    value.Update(name + [0]);
    value.Update(if member.Present? then [1] + LittleEndian(|member.raw|, WIDTH) + member.raw else [0]);
  }

  /** One update for every component. */
  method FeedSeparately(value: Hasher, name: Bytes, member: Snapshot)
    requires SnapshotFits(member)
    modifies value
    ensures value.fed == old(value.fed) + Section(name, member)
  {
    hide LittleEndian;
    ghost var before := value.fed;
    value.Update(name);
    value.Update([0]);
    if member.Present? {
      value.Update([1]);
      value.Update(LittleEndian(|member.raw|, WIDTH));
      value.Update(member.raw);
      assert value.fed == before + (name + [0] + ([1] + (LittleEndian(|member.raw|, WIDTH) + member.raw)));
    } else {
      value.Update([0]);
      assert value.fed == before + (name + [0] + [0]);
    }
  }

  /** `pair_from_snapshots` of the BlueBubbles canary. */
  method PairFromSnapshots(hash: Bytes -> string, freedom: Snapshot, credentials: Snapshot) returns (r: Option<string>)
    ensures r == PairDigest(hash, freedom, credentials)
  {
    hide Section, PairPreimage, PairHeader;
    var value := new Hasher(PairHeader());
    var members := PairMembers(freedom, credentials);
    for i := 0 to |members|
      invariant fresh(value) && value.fed == PairHeader() + Sections(members, i)
      invariant forall j :: 0 <= j < i ==> SnapshotFits(members[j].1)
    {
      if !SnapshotFits(members[i].1) {
        return None;
      }
      FeedTwice(value, members[i].0, members[i].1);
    }
    PairSections(freedom, credentials);
    assert SnapshotFits(members[0].1) && SnapshotFits(members[1].1);
    return Some(hash(value.fed));
  }

  /** `pair_v1` of the converted-channel canary. */
  method PairV1(hash: Bytes -> string, freedom: Snapshot, credentials: Snapshot) returns (r: Option<string>)
    ensures r == PairDigest(hash, freedom, credentials)
  {
    hide Section, PairPreimage, PairHeader;
    var value := new Hasher(PairHeader());
    var members := PairMembers(freedom, credentials);
    for i := 0 to |members|
      invariant fresh(value) && value.fed == PairHeader() + Sections(members, i)
      invariant forall j :: 0 <= j < i ==> SnapshotFits(members[j].1)
    {
      if !SnapshotFits(members[i].1) {
        return None;
      }
      FeedSeparately(value, members[i].0, members[i].1);
    }
    PairSections(freedom, credentials);
    assert SnapshotFits(members[0].1) && SnapshotFits(members[1].1);
    return Some(hash(value.fed));
  }

  /** `pair_commitment` of the Google Chat canary: the files are read inside the loop. */
  method PairCommitment(hash: Bytes -> string, home: Bytes -> Snapshot) returns (r: Option<string>)
    ensures r == PairDigest(hash, home(FreedomName()), home(CredentialsName()))
  {
    hide Section, PairPreimage, PairHeader, FreedomName, CredentialsName;
    var value := new Hasher(PairHeader());
    var names := [FreedomName(), CredentialsName()];
    ghost var members := PairMembers(home(FreedomName()), home(CredentialsName()));
    for i := 0 to |names|
      invariant fresh(value) && value.fed == PairHeader() + Sections(members, i)
      invariant forall j :: 0 <= j < i ==> SnapshotFits(members[j].1)
    {
      var member := home(names[i]);
      if !SnapshotFits(member) {
        return None;
      }
      FeedTwice(value, names[i], member);
    }
    PairSections(home(FreedomName()), home(CredentialsName()));
    assert SnapshotFits(members[0].1) && SnapshotFits(members[1].1);
    return Some(hash(value.fed));
  }

  /** With an injective hash a pair commitment binds presence and bytes of both files. */
  lemma PairDigestBinds(hash: Bytes -> string, f: Snapshot, c: Snapshot, f': Snapshot, c': Snapshot)
    requires Injective(hash) && SnapshotFits(f) && SnapshotFits(c) && SnapshotFits(f') && SnapshotFits(c')
    ensures PairDigest(hash, f, c) == PairDigest(hash, f', c') <==> f == f' && c == c'
  {
    hide PairPreimage, DecodePair;
    PairRoundTrip(f, c);
    PairRoundTrip(f', c');
  }

  // ---- Material commitment -------------------------------------------------------------------

  function MaterialHeader(): Bytes { Ascii("neoth-converted-relink-material-v1") + [0] }

  /** Domain, channel kind and target, NUL-terminated, then framed fields. */
  function MaterialPreimage(kind: Bytes, target: Bytes, fields: seq<Bytes>): Bytes {
    MaterialHeader() + MaterialBody(kind, target, fields)
  }

  /** What follows the common header. */
  function MaterialBody(kind: Bytes, target: Bytes, fields: seq<Bytes>): Bytes {
    kind + [0] + (target + [0] + Frames(fields))
  }

  lemma SameBody(kind: Bytes, target: Bytes, fields: seq<Bytes>, kind': Bytes, target': Bytes, fields': seq<Bytes>)
    ensures MaterialPreimage(kind, target, fields) == MaterialPreimage(kind', target', fields') <==>
            MaterialBody(kind, target, fields) == MaterialBody(kind', target', fields')
  {
    hide Frames, MaterialHeader, MaterialBody;
    var head, x, y := MaterialHeader(), MaterialBody(kind, target, fields), MaterialBody(kind', target', fields');
    assert (head + x)[|head|..] == x && (head + y)[|head|..] == y;
  }

  /** Two NUL-free channel kinds never share a preimage, whatever the targets. */
  lemma KindDetermined(kind: Bytes, target: Bytes, fields: seq<Bytes>, kind': Bytes, target': Bytes, fields': seq<Bytes>)
    requires 0 !in kind && 0 !in kind'
    requires MaterialPreimage(kind, target, fields) == MaterialPreimage(kind', target', fields')
    ensures kind == kind' && target + [0] + Frames(fields) == target' + [0] + Frames(fields')
  {
    hide Frames, MaterialPreimage;
    SameBody(kind, target, fields, kind', target', fields');
    SplitAt(kind, kind', target + [0] + Frames(fields), target' + [0] + Frames(fields'), 0 as Byte);
  }

  /** The longer target continues the shorter one with a NUL and swallows the start of its frames. */
  ghost predicate Swallows(target: Bytes, fields: seq<Bytes>, target': Bytes, fields': seq<Bytes>) {
    && |target| < |target'| && target + [0] <= target'
    && Frames(fields) == target'[|target| + 1..] + ([0] + Frames(fields'))
  }

  lemma {:induction false} FramesEqual(fields: seq<Bytes>, fields': seq<Bytes>)
    requires (forall f :: f in fields ==> Fits(f)) && (forall f :: f in fields' ==> Fits(f))
    ensures Frames(fields) == Frames(fields') <==> fields == fields'
  {
    if Frames(fields) == Frames(fields') {
      FramesInjective(fields, fields');
    }
  }

  lemma TailsEqual(t: Bytes, x: Bytes, t': Bytes, y: Bytes)
    requires |t| < |t'|
    ensures t + [0] + x == t' + [0] + y <==> t + [0] <= t' && x == t'[|t| + 1..] + ([0] + y)
  {
    var a, b := t + [0] + x, t' + [0] + y;
    var n := |t| + 1;
    assert a[..n] == t + [0] && a[n..] == x;
    assert b[..n] == t'[..n] && b[n..] == t'[n..] + ([0] + y);
    assert a == a[..n] + a[n..] && b == b[..n] + b[n..];
  }

  /** Within one channel the preimages coincide exactly for equal targets and fields, or where one
      target continues the other with a NUL and swallows the start of its frames. */
  lemma MaterialCollision(kind: Bytes, target: Bytes, fields: seq<Bytes>, target': Bytes, fields': seq<Bytes>)
    requires (forall f :: f in fields ==> Fits(f)) && (forall f :: f in fields' ==> Fits(f))
    ensures MaterialPreimage(kind, target, fields) == MaterialPreimage(kind, target', fields') <==>
            || (target == target' && fields == fields')
            || Swallows(target, fields, target', fields')
            || Swallows(target', fields', target, fields)
  {
    var x, y := Frames(fields), Frames(fields');
    SameBody(kind, target, fields, kind, target', fields');
    FramesEqual(fields, fields');
    hide Frames, MaterialPreimage;
    BodiesEqual(kind, target + [0] + x, target' + [0] + y);
    if |target| < |target'| {
      TailsEqual(target, x, target', y);
    } else if |target'| < |target| {
      TailsEqual(target', y, target, x);
    } else {
      SameLength(target, x, target', y);
    }
  }

  lemma BodiesEqual(kind: Bytes, x: Bytes, y: Bytes)
    ensures kind + [0] + x == kind + [0] + y <==> x == y
  {
    assert (kind + [0] + x)[|kind| + 1..] == x && (kind + [0] + y)[|kind| + 1..] == y;
  }

  lemma SameLength(t: Bytes, x: Bytes, t': Bytes, y: Bytes)
    requires |t| == |t'|
    ensures t + [0] + x == t' + [0] + y <==> t == t' && x == y
  {
    var a, b, n := t + [0] + x, t' + [0] + y, |t|;
    assert a[..n] == t && a[n + 1..] == x && b[..n] == t' && b[n + 1..] == y;
  }

  /** For NUL-free kinds and targets the preimage determines kind, target and fields. */
  lemma MaterialInjective(kind: Bytes, target: Bytes, fields: seq<Bytes>, kind': Bytes, target': Bytes, fields': seq<Bytes>)
    requires 0 !in kind && 0 !in kind' && 0 !in target && 0 !in target'
    requires (forall f :: f in fields ==> Fits(f)) && (forall f :: f in fields' ==> Fits(f))
    requires MaterialPreimage(kind, target, fields) == MaterialPreimage(kind', target', fields')
    ensures kind == kind' && target == target' && fields == fields'
  {
    hide MaterialPreimage, Frames;
    KindDetermined(kind, target, fields, kind', target', fields');
    SplitAt(target, target', Frames(fields), Frames(fields'), 0 as Byte);
    FramesInjective(fields, fields');
  }

  function Zeros(n: nat): Bytes {
    seq(n, _ => 0)
  }

  lemma {:induction false} LittleEndianZero(k: nat)
    ensures LittleEndian(0, k) == Zeros(k)
  {
    if k > 0 {
      LittleEndianZero(k - 1);
    }
  }

  /** A target with a NUL byte can collide, whatever fields follow the first one. */
  lemma NulTargetsCollide(kind: Bytes, rest: seq<Bytes>)
    ensures MaterialPreimage(kind, [], [[0, 0]] + rest) == MaterialPreimage(kind, [0, 2], [[]] + rest)
  {
    var fields: seq<Bytes>, fields': seq<Bytes> := [[0, 0]] + rest, [[]] + rest;
    assert fields[1..] == rest && fields'[1..] == rest;
    var tail := Frames(rest);
    assert Frames(fields) == Frame([0, 0]) + tail && Frames(fields') == Frame([]) + tail;
    hide Frames, Frame, MaterialPreimage;
    ShortFrames();
    ZerosShift(tail);
    SameBody(kind, [], fields, kind, [0, 2], fields');
  }

  lemma ZerosShift(tail: Bytes)
    ensures [] + [0] + (([2] + Zeros(9)) + tail) == [0, 2] + [0] + (Zeros(8) + tail)
  {
    assert Zeros(9) == [0] + Zeros(8);
  }

  lemma ShortFrames()
    ensures Frame([]) == Zeros(8) && Frame([0, 0]) == [2] + Zeros(9)
  {
    LittleEndianZero(7);
    LittleEndianZero(8);
    assert LittleEndian(2, 8) == [2] + LittleEndian(0, 7);
  }

  function MaterialDigest(hash: Bytes -> string, kind: Bytes, target: Bytes, fields: seq<Bytes>): Option<string> {
    if forall f :: f in fields ==> Fits(f) then Some(hash(MaterialPreimage(kind, target, fields))) else None
  }

  ghost function FramesUpTo(fields: seq<Bytes>, i: nat): Bytes
    requires i <= |fields|
  {
    if i == 0 then [] else FramesUpTo(fields, i - 1) + Frame(fields[i - 1])
  }

  lemma {:induction false} FramesSplit(fields: seq<Bytes>, i: nat)
    requires i <= |fields|
    ensures Frames(fields) == FramesUpTo(fields, i) + Frames(fields[i..])
  {
    hide Frame;
    if i == 0 {
      assert fields[0..] == fields;
    } else {
      FramesSplit(fields, i - 1);
      assert fields[i - 1..][1..] == fields[i..];
    }
  }

  lemma MaterialFed(kind: Bytes, target: Bytes, fields: seq<Bytes>)
    ensures MaterialPreimage(kind, target, fields)
         == MaterialHeader() + (kind + [0]) + target + [0] + FramesUpTo(fields, |fields|)
  {
    AllFrames(fields);
    hide Frames, FramesUpTo, MaterialHeader;
    var h, k, t, x := MaterialHeader(), kind + [0], target, Frames(fields);
    Regroup(t, [0], x);
    Regroup(h, k, t + ([0] + x));
    Regroup(h + k, t, [0] + x);
    Regroup((h + k) + t, [0], x);
  }

  lemma AllFrames(fields: seq<Bytes>)
    ensures Frames(fields) == FramesUpTo(fields, |fields|)
  {
    FramesSplit(fields, |fields|);
    assert fields[|fields|..] == [];
    assert Frames([]) == [];
    hide FramesUpTo;
  }

  function ImessageKind(): Bytes { Ascii("imessage_bluebubbles") }
  function GchatKind(): Bytes { Ascii("gchat") }

  /** The fixed inputs of the canaries. */
  function Target(): Bytes { Ascii("iMessage;-;+491701234567") }
  function BluebubblesPassword(): Bytes { Ascii("bluebubbles-daemon-canary-password") }
  function Sender(): Bytes { Ascii("+491701234567") }
  function Subscription(): Bytes { Ascii("projects/neoth-canary/subscriptions/relink") }
  function AllowedSender(): Bytes { Ascii("users/neoth-canary") }
  function LoopbackUrl(port: Bytes): Bytes { Ascii("http://127.0.0.1:") + port }

  /** Length and bytes of one field extend the frames fed so far. */
  lemma FieldFed(fed: Bytes, head: Bytes, fields: seq<Bytes>, i: nat)
    requires i < |fields| && fed == head + FramesUpTo(fields, i)
    ensures (fed + LittleEndian(|fields[i]|, WIDTH)) + fields[i] == head + FramesUpTo(fields, i + 1)
  {
    hide LittleEndian;
    Regroup(fed, LittleEndian(|fields[i]|, WIDTH), fields[i]);
    Regroup(head, FramesUpTo(fields, i), Frame(fields[i]));
  }

  /** `material_commitment` of the BlueBubbles canary; `port` is the decimal text of the port. */
  method BluebubblesMaterial(hash: Bytes -> string, port: Bytes, guid: Bytes, target: Bytes) returns (r: Option<string>)
    ensures r == MaterialDigest(hash, ImessageKind(), target, [LoopbackUrl(port), BluebubblesPassword(), guid, Sender()])
  {
    hide Ascii, LittleEndian, Fits, MaterialHeader, MaterialPreimage;
    var value := new Hasher(MaterialHeader());
    value.Update(ImessageKind() + [0]);
    value.Update(target);
    value.Update([0]);
    var fields := [LoopbackUrl(port), BluebubblesPassword(), guid, Sender()];
    ghost var head := value.fed;
    for i := 0 to |fields|
      invariant fresh(value) && value.fed == head + FramesUpTo(fields, i)
      invariant forall j :: 0 <= j < i ==> Fits(fields[j])
    {
      if !Fits(fields[i]) {
        return None;
      }
      FieldFed(value.fed, head, fields, i);
      value.Update(LittleEndian(|fields[i]|, WIDTH));
      value.Update(fields[i]);
    }
    MaterialFed(ImessageKind(), target, fields);
    return Some(hash(value.fed));
  }

  /** `imessage_request_v1` of the converted-channel canary, with its fixed target. */
  method ImessageRequest(hash: Bytes -> string, url: Bytes, password: Bytes, guid: Bytes, sender: Bytes) returns (r: Option<string>)
    ensures r == MaterialDigest(hash, ImessageKind(), Target(), [url, password, guid, sender])
  {
    hide Ascii, LittleEndian, Fits, MaterialHeader, MaterialPreimage;
    var value := new Hasher(MaterialHeader());
    value.Update(ImessageKind() + [0]);
    value.Update(Target());
    value.Update([0]);
    var fields := [url, password, guid, sender];
    ghost var head := value.fed;
    for i := 0 to |fields|
      invariant fresh(value) && value.fed == head + FramesUpTo(fields, i)
      invariant forall j :: 0 <= j < i ==> Fits(fields[j])
    {
      if !Fits(fields[i]) {
        return None;
      }
      FieldFed(value.fed, head, fields, i);
      value.Update(LittleEndian(|fields[i]|, WIDTH));
      value.Update(fields[i]);
    }
    MaterialFed(ImessageKind(), Target(), fields);
    return Some(hash(value.fed));
  }

  /** `material_commitment` of the Google Chat canary, with the bytes of a regular key file. */
  method GchatMaterial(hash: Bytes -> string, key: Bytes, target: Bytes) returns (r: Option<string>)
    ensures r == MaterialDigest(hash, GchatKind(), target, [key, Subscription(), AllowedSender()])
  {
    hide Ascii, LittleEndian, Fits, MaterialHeader, MaterialPreimage;
    var value := new Hasher(MaterialHeader());
    value.Update(GchatKind() + [0]);
    value.Update(target);
    value.Update([0]);
    var fields := [key, Subscription(), AllowedSender()];
    ghost var head := value.fed;
    for i := 0 to |fields|
      invariant fresh(value) && value.fed == head + FramesUpTo(fields, i)
      invariant forall j :: 0 <= j < i ==> Fits(fields[j])
    {
      if !Fits(fields[i]) {
        return None;
      }
      FieldFed(value.fed, head, fields, i);
      value.Update(LittleEndian(|fields[i]|, WIDTH));
      value.Update(fields[i]);
    }
    MaterialFed(GchatKind(), target, fields);
    return Some(hash(value.fed));
  }

  /** On the inputs both iMessage encoders can receive they give the same commitment. */
  method ImessageEncodersAgree(hash: Bytes -> string, port: Bytes, guid: Bytes)
    returns (daemon: Option<string>, request: Option<string>)
    ensures daemon == request
  {
    daemon := BluebubblesMaterial(hash, port, guid, Target());
    request := ImessageRequest(hash, LoopbackUrl(port), BluebubblesPassword(), guid, Sender());
  }

  /** The Google Chat encoder gives one commitment for two key files and two targets. */
  lemma GchatTargetsCollide(hash: Bytes -> string)
    ensures MaterialDigest(hash, GchatKind(), [], [[0, 0], Subscription(), AllowedSender()])
         == MaterialDigest(hash, GchatKind(), [0, 2], [[], Subscription(), AllowedSender()]) != None
  {
    var rest := [Subscription(), AllowedSender()];
    NulTargetsCollide(GchatKind(), rest);
    assert [[0, 0]] + rest == [[0, 0], Subscription(), AllowedSender()];
    assert [[]] + rest == [[], Subscription(), AllowedSender()];
    EightBytes();
    assert |Subscription()| == 42 && |AllowedSender()| == 18;
    hide MaterialPreimage, Ascii, Subscription, AllowedSender, GchatKind;
  }

  lemma KindsAreNulFree()
    ensures 0 !in ImessageKind() && 0 !in GchatKind() && ImessageKind() != GchatKind()
  {
    assert |ImessageKind()| == 20 && |GchatKind()| == 5;
  }

  /** With an injective hash commitments of the two channels never coincide, whatever the targets. */
  lemma ChannelsNeverCoincide(hash: Bytes -> string, target: Bytes, fields: seq<Bytes>, target': Bytes, fields': seq<Bytes>)
    requires Injective(hash) && (forall f :: f in fields ==> Fits(f))
    ensures MaterialDigest(hash, ImessageKind(), target, fields) != MaterialDigest(hash, GchatKind(), target', fields')
  {
    KindsAreNulFree();
    hide MaterialPreimage, ImessageKind, GchatKind;
    if MaterialPreimage(ImessageKind(), target, fields) == MaterialPreimage(GchatKind(), target', fields') {
      KindDetermined(ImessageKind(), target, fields, GchatKind(), target', fields');
    }
  }

  /** With an injective hash two commitments of one channel coincide exactly for the same target and
      fields, or where one target swallows frames of the other; without NUL only the former. */
  lemma MaterialDigestBinds(hash: Bytes -> string, kind: Bytes, target: Bytes, fields: seq<Bytes>, target': Bytes, fields': seq<Bytes>)
    requires Injective(hash) && (forall f :: f in fields ==> Fits(f)) && (forall f :: f in fields' ==> Fits(f))
    ensures MaterialDigest(hash, kind, target, fields) == MaterialDigest(hash, kind, target', fields') <==>
            || (target == target' && fields == fields')
            || Swallows(target, fields, target', fields')
            || Swallows(target', fields', target, fields)
    ensures 0 !in target ==> !Swallows(target', fields', target, fields)
  {
    hide MaterialPreimage, Frames;
    MaterialCollision(kind, target, fields, target', fields');
    if target' + [0] <= target {
      assert (target' + [0])[|target'|] == target[|target'|];
    }
  }

  // ---- The preimages spelled out ---------------------------------------------------------------

  /** ASCII characters are their own codes. */
  lemma AsciiMeans(s: string, i: nat)
    requires i < |s| && s[i] as int < 128
    ensures Ascii(s)[i] == s[i] as int
  {
  }

  /** The pair preimage: header, then each file name with a presence byte and, if present, length and
      bytes. */
  lemma PairSpelled(freedom: Snapshot, credentials: Snapshot)
    ensures PairPreimage(freedom, credentials) ==
            (Ascii("neoth-converted-relink-pair-v1") + [0]) +
            (Ascii("freedom.yaml") + [0] +
             if freedom.Missing? then [0] else [1] + (LittleEndian(|freedom.raw|, 8) + freedom.raw)) +
            (Ascii("credentials.yaml") + [0] +
             if credentials.Missing? then [0] else [1] + (LittleEndian(|credentials.raw|, 8) + credentials.raw))
  {
    hide Ascii, LittleEndian;
  }

  /** The material preimage of the two channels. */
  lemma MaterialSpelled(target: Bytes, a: Bytes, b: Bytes, c: Bytes)
    ensures MaterialPreimage(GchatKind(), target, [a, b, c]) ==
            Ascii("neoth-converted-relink-material-v1") + [0] + Ascii("gchat") + [0] + target + [0] +
            (Frame(a) + (Frame(b) + Frame(c)))
    ensures MaterialPreimage(ImessageKind(), target, []) ==
            Ascii("neoth-converted-relink-material-v1") + [0] + Ascii("imessage_bluebubbles") + [0] + target + [0]
  {
    hide Ascii, Frame;
    assert [a, b, c][1..] == [b, c] && [b, c][1..] == [c] && [c][1..] == [];
    assert Frames([c]) == Frame(c) + Frames([]);
    assert Frames([a, b, c]) == Frame(a) + (Frame(b) + Frame(c));
  }

  /** A length in front, least significant byte first. */
  lemma FrameSpelled(raw: Bytes)
    requires |raw| == 0x0102
    ensures Frame(raw) == [2, 1, 0, 0, 0, 0, 0, 0] + raw
  {
    LittleEndianZero(6);
    assert LittleEndian(0x0102, 8) == [2] + LittleEndian(1, 7);
    assert LittleEndian(1, 7) == [1] + LittleEndian(0, 6);
  }

  /** What the canaries put into their commitments besides their arguments. */
  lemma MaterialConstants(port: Bytes)
    ensures Target() == Ascii("iMessage;-;+491701234567") && Sender() == Ascii("+491701234567")
    ensures BluebubblesPassword() == Ascii("bluebubbles-daemon-canary-password")
    ensures Subscription() == Ascii("projects/neoth-canary/subscriptions/relink") && AllowedSender() == Ascii("users/neoth-canary")
    ensures LoopbackUrl(port) == Ascii("http://127.0.0.1:") + port
  {
    hide Ascii;
  }
}
