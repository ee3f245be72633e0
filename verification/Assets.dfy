/** The closed set of public asset names of a release (packaging/release_asset_contract.py:56-165)
    and the native names the manifest generator demands
    (packaging/generate_release_manifests.py:29, 134-146). */
module Assets {
  import opened Outcomes
  import opened ReleaseVersion

  datatype AssetError = BadVersion(error: VersionError) | CountDrifted | UnknownSet

  /** One payload: the text before and after the version, and whether it has a metadata file. */
  datatype Payload = Payload(prefix: string, suffix: string, metadata: bool)

  function Name(version: string, p: Payload): string {
    p.prefix + (version + p.suffix)
  }

  datatype Sidecar = Itself | Digest | Metadata

  function Extension(k: Sidecar): string {
    match k case Itself => "" case Digest => ".sha256" case Metadata => ".json"
  }

  /** `_with_sidecars`. */
  function WithSidecars(name: string, metadata: bool): (r: set<string>)
    ensures forall n :: n in r <==> exists k: Sidecar :: (k.Metadata? ==> metadata) && n == name + Extension(k)
  {
    assert name == name + Extension(Itself);
    assert name + Extension(Digest) == name + ".sha256";
    assert name + Extension(Metadata) == name + ".json";
    {name, name + ".sha256"} + if metadata then {name + ".json"} else {}
  }

  const GNU_X86 := "x86_64-unknown-linux-gnu"
  const MUSL_X86 := "x86_64-unknown-linux-musl"
  const GNU_ARM := "aarch64-unknown-linux-gnu"
  const WINDOWS_X86 := "x86_64-pc-windows-msvc"
  const WINDOWS_ARM := "aarch64-pc-windows-msvc"
  const APPLE_X86 := "x86_64-apple-darwin"
  const APPLE_ARM := "aarch64-apple-darwin"

  function Archive(target: string, metadata: bool): Payload {
    Payload("neoth-v", "-" + target + ".tar.gz", metadata)
  }

  function Zip(target: string): Payload {
    Payload("neoth-v", "-" + target + ".zip", true)
  }

  function Setup(architecture: string): Payload {
    Payload("NEOTH-", "-" + architecture + "-Setup.exe", true)
  }

  function Package(target: string, extension: string): Payload {
    Payload("NEOTH-", "-" + target + "." + extension, true)
  }

  const LINUX_TARGETS := [GNU_X86, MUSL_X86, GNU_ARM]
  const WINDOWS_TARGETS := [("x64", WINDOWS_X86), ("arm64", WINDOWS_ARM)]
  const PACKAGE_TARGETS := [GNU_X86, GNU_ARM]
  const PACKAGE_EXTENSIONS := ["deb", "rpm"]
  const APPLE_TARGETS := [APPLE_X86, APPLE_ARM]
  const APPLE_EXTENSIONS := ["pkg", "dmg"]

  /** The nineteen payloads of a release. */
  function Inventory(): seq<Payload> {
    [
      Archive(GNU_X86, false), Archive(MUSL_X86, false), Archive(GNU_ARM, false),
      Zip(WINDOWS_X86), Setup("x64"), Zip(WINDOWS_ARM), Setup("arm64"),
      Package(GNU_X86, "deb"), Package(GNU_X86, "rpm"), Package(GNU_ARM, "deb"), Package(GNU_ARM, "rpm"),
      Archive(APPLE_X86, true), Package(APPLE_X86, "pkg"), Package(APPLE_X86, "dmg"),
      Archive(APPLE_ARM, true), Package(APPLE_ARM, "pkg"), Package(APPLE_ARM, "dmg"),
      Payload("neoth-whatsapp-baileys-v", ".tar.gz", false),
      Payload("neoth-package-manifests-v", ".zip", false)
    ]
  }

  /** Every name of a list of payloads with its sidecars. */
  function Names(version: string, ps: seq<Payload>): (r: set<string>)
    ensures forall n :: n in r <==> exists p :: p in ps && n in WithSidecars(Name(version, p), p.metadata)
  {
    if ps == [] then {}
    else
      var last := ps[|ps| - 1];
      assert ps == ps[..|ps| - 1] + [last];
      Names(version, ps[..|ps| - 1]) + WithSidecars(Name(version, last), last.metadata)
  }

  function Canonical(version: string): set<string> {
    Names(version, Inventory())
  }

  // ---- Each name says what it names -----------------------------------------------------------

  /** The last two characters tell a payload from its sidecars and from signatures. */
  predicate PayloadEnding(s: string) {
    && |s| >= 3
    && s[|s| - 1] != '6' && s[|s| - 1] != 'n'
    && !(s[|s| - 2] == 'i' && s[|s| - 1] == 'g')
    && !(s[|s| - 2] == 'l' && s[|s| - 1] == 'e')
  }

  /** Four prefixes, which differ at the first or the seventh character. */
  predicate KnownPrefix(s: string) {
    s in {"neoth-v", "NEOTH-", "neoth-whatsapp-baileys-v", "neoth-package-manifests-v"}
  }

  /** Enough of a payload to tell it from the others. */
  datatype Print = Print(prefix: string, length: int, first: char, third: char)

  function PrintOf(p: Payload): Print
    requires |p.suffix| >= 3
  {
    Print(p.prefix, |p.suffix|, p.suffix[1], p.suffix[|p.suffix| - 3])
  }

  ghost predicate Decodable(p: Payload) {
    KnownPrefix(p.prefix) && Follows(p.suffix) && PayloadEnding(p.suffix)
  }

  predicate IsTarget(t: string) {
    |t| >= 2 && (t[0] == 'x' || (t[0] == 'a' && (t[1] == 'a' || t[1] == 'r')))
  }

  lemma Targets()
    ensures IsTarget(GNU_X86) && |GNU_X86| == 24 && GNU_X86[0] == 'x'
    ensures IsTarget(MUSL_X86) && |MUSL_X86| == 25 && MUSL_X86[0] == 'x'
    ensures IsTarget(GNU_ARM) && |GNU_ARM| == 25 && GNU_ARM[0] == 'a'
    ensures IsTarget(WINDOWS_X86) && |WINDOWS_X86| == 22 && WINDOWS_X86[0] == 'x'
    ensures IsTarget(WINDOWS_ARM) && |WINDOWS_ARM| == 23 && WINDOWS_ARM[0] == 'a'
    ensures IsTarget(APPLE_X86) && |APPLE_X86| == 19 && APPLE_X86[0] == 'x'
    ensures IsTarget(APPLE_ARM) && |APPLE_ARM| == 20 && APPLE_ARM[0] == 'a'
    ensures IsTarget("x64") && IsTarget("arm64")
  {
  }

  lemma ArchivePrint(t: string, metadata: bool)
    requires IsTarget(t)
    ensures Decodable(Archive(t, metadata))
    ensures PrintOf(Archive(t, metadata)) == Print("neoth-v", |t| + 8, t[0], '.')
  {
  }

  lemma ZipPrint(t: string)
    requires IsTarget(t)
    ensures Decodable(Zip(t)) && PrintOf(Zip(t)) == Print("neoth-v", |t| + 5, t[0], 'z')
  {
  }

  lemma SetupPrint(a: string)
    requires IsTarget(a)
    ensures Decodable(Setup(a)) && PrintOf(Setup(a)) == Print("NEOTH-", |a| + 11, a[0], 'e')
  {
  }

  lemma PackagePrint(t: string, extension: string)
    requires IsTarget(t) && extension in PACKAGE_EXTENSIONS + APPLE_EXTENSIONS
    ensures Decodable(Package(t, extension))
    ensures PrintOf(Package(t, extension)) == Print("NEOTH-", |t| + 5, t[0], extension[0])
  {
  }

  function Prints(): seq<Print> {
    [
      Print("neoth-v", 32, 'x', '.'), Print("neoth-v", 33, 'x', '.'), Print("neoth-v", 33, 'a', '.'),
      Print("neoth-v", 27, 'x', 'z'), Print("NEOTH-", 14, 'x', 'e'),
      Print("neoth-v", 28, 'a', 'z'), Print("NEOTH-", 16, 'a', 'e'),
      Print("NEOTH-", 29, 'x', 'd'), Print("NEOTH-", 29, 'x', 'r'),
      Print("NEOTH-", 30, 'a', 'd'), Print("NEOTH-", 30, 'a', 'r'),
      Print("neoth-v", 27, 'x', '.'), Print("NEOTH-", 24, 'x', 'p'), Print("NEOTH-", 24, 'x', 'd'),
      Print("neoth-v", 28, 'a', '.'), Print("NEOTH-", 25, 'a', 'p'), Print("NEOTH-", 25, 'a', 'd'),
      Print("neoth-whatsapp-baileys-v", 7, 't', '.'), Print("neoth-package-manifests-v", 4, 'z', 'z')
    ]
  }

  lemma InventoryPrints(i: nat)
    requires i < |Inventory()|
    ensures |Inventory()| == |Prints()| == 19
    ensures Decodable(Inventory()[i]) && PrintOf(Inventory()[i]) == Prints()[i]
  {
    hide Decodable, PrintOf, IsTarget, Archive, Zip, Setup, Package;
    Targets();
    ArchivePrint(GNU_X86, false);
    ArchivePrint(MUSL_X86, false);
    ArchivePrint(GNU_ARM, false);
    ZipPrint(WINDOWS_X86);
    SetupPrint("x64");
    ZipPrint(WINDOWS_ARM);
    SetupPrint("arm64");
    PackagePrint(GNU_X86, "deb");
    PackagePrint(GNU_X86, "rpm");
    PackagePrint(GNU_ARM, "deb");
    PackagePrint(GNU_ARM, "rpm");
    ArchivePrint(APPLE_X86, true);
    PackagePrint(APPLE_X86, "pkg");
    PackagePrint(APPLE_X86, "dmg");
    ArchivePrint(APPLE_ARM, true);
    PackagePrint(APPLE_ARM, "pkg");
    PackagePrint(APPLE_ARM, "dmg");
    BundlePrints();
  }

  lemma BundlePrints()
    ensures Decodable(Inventory()[17]) && PrintOf(Inventory()[17]) == Print("neoth-whatsapp-baileys-v", 7, 't', '.')
    ensures Decodable(Inventory()[18]) && PrintOf(Inventory()[18]) == Print("neoth-package-manifests-v", 4, 'z', 'z')
  {
    hide Archive, Zip, Setup, Package;
  }

  lemma PrintsDiffer(i: nat, j: nat)
    requires i < 19 && j < 19 && Prints()[i] == Prints()[j]
    ensures i == j
  {
    assert "neoth-v"[0] == 'n' && "NEOTH-"[0] == 'N';
    assert |"neoth-v"| == 7;
  }

  /** The payloads are nineteen different ones, told apart by prefix and suffix alone. */
  lemma PayloadsDiffer(i: nat, j: nat)
    requires i < |Inventory()| && j < |Inventory()|
    requires Inventory()[i].prefix == Inventory()[j].prefix && Inventory()[i].suffix == Inventory()[j].suffix
    ensures i == j
  {
    hide Decodable, Archive, Zip, Setup, Package;
    InventoryPrints(i);
    InventoryPrints(j);
    assert PrintOf(Inventory()[i]) == PrintOf(Inventory()[j]);
    PrintsDiffer(i, j);
  }

  /** A version as it stands in an accepted asset name. */
  ghost predicate Accepted(version: string) {
    ValidateVersion(version).Success?
  }

  /** Every bounded release with a nonzero major or minor number has an accepted version. */
  lemma ReleaseAccepted(r: Release)
    requires Bounded(r) && (r.major != 0 || r.minor != 0)
    ensures Accepted(Show(r))
  {
    ReadShow(r);
  }

  lemma AcceptedVersionsEnd(v: string, w: string, x: string, y: string)
    requires Accepted(v) && Accepted(w) && Follows(x) && Follows(y) && v + x == w + y
    ensures v == w && x == y
  {
    var a: Release :| Bounded(a) && Show(a) == v;
    var b: Release :| Bounded(b) && Show(b) == w;
    VersionsEnd(a, b, x, y);
  }

  lemma PrefixDecides(a: string, b: string, x: string, y: string)
    requires KnownPrefix(a) && KnownPrefix(b) && a + x == b + y && x != "" && y != ""
    ensures a == b && x == y
  {
    var s := a + x;
    assert s[0] == a[0] && s[0] == b[0];
    if a[0] == 'n' {
      assert s[6] == a[6] && s[6] == b[6];
    }
    assert x == s[|a|..] && y == s[|b|..];
  }

  lemma NameEnding(version: string, p: Payload)
    requires PayloadEnding(p.suffix)
    ensures PayloadEnding(Name(version, p))
  {
    var n, s := Name(version, p), p.suffix;
    assert n[|n| - 1] == s[|s| - 1] && n[|n| - 2] == s[|s| - 2];
  }

  lemma SidecarDecides(m: string, n: string, j: Sidecar, k: Sidecar)
    requires PayloadEnding(m) && PayloadEnding(n) && m + Extension(j) == n + Extension(k)
    ensures m == n && j == k
  {
    var s, t := m + Extension(j), n + Extension(k);
    assert j.Itself? ==> s == m;
    assert k.Itself? ==> t == n;
    assert j.Digest? ==> s[|s| - 1] == '6';
    assert k.Digest? ==> t[|t| - 1] == '6';
    assert j.Metadata? ==> s[|s| - 1] == 'n';
    assert k.Metadata? ==> t[|t| - 1] == 'n';
    assert m == s[..|s| - |Extension(j)|] && n == t[..|t| - |Extension(k)|];
  }

  /** A published name determines its version, its payload and its sidecar. */
  lemma NameDetermines(v: string, w: string, i: nat, j: nat, k: Sidecar, l: Sidecar)
    requires Accepted(v) && Accepted(w) && i < |Inventory()| && j < |Inventory()|
    requires Name(v, Inventory()[i]) + Extension(k) == Name(w, Inventory()[j]) + Extension(l)
    ensures v == w && i == j && k == l
  {
    var p, q := Inventory()[i], Inventory()[j];
    InventoryPrints(i);
    InventoryPrints(j);
    NameEnding(v, p);
    NameEnding(w, q);
    SidecarDecides(Name(v, p), Name(w, q), k, l);
    hide KnownPrefix, PayloadEnding, Accepted, Extension, Inventory, Prints, PrintOf;
    PrefixDecides(p.prefix, q.prefix, v + p.suffix, w + q.suffix);
    AcceptedVersionsEnd(v, w, p.suffix, q.suffix);
    PayloadsDiffer(i, j);
  }

  // ---- Counting -------------------------------------------------------------------------------

  /** Names of the first `k` payloads, sidecars included. */
  function Total(k: nat): nat
    requires k <= 19
  {
    if k == 0 then 0 else Total(k - 1) + if Inventory()[k - 1].metadata then 3 else 2
  }

  lemma InventoryTotal()
    ensures |Inventory()| == 19 && Total(19) == 52
  {
    assert Total(3) == 6;
    assert Total(7) == 18;
    assert Total(11) == 30;
    assert Total(17) == 48;
  }

  lemma SidecarCount(name: string, metadata: bool)
    ensures |WithSidecars(name, metadata)| == if metadata then 3 else 2
  {
    assert |name + ".sha256"| == |name| + 7 && |name + ".json"| == |name| + 5;
  }

  /** The names of different payloads never meet, for one version or for two. */
  lemma PayloadNamesDisjoint(v: string, w: string, i: nat, j: nat)
    requires Accepted(v) && Accepted(w) && i < |Inventory()| && j < |Inventory()| && (i != j || v != w)
    ensures WithSidecars(Name(v, Inventory()[i]), Inventory()[i].metadata)
         !! WithSidecars(Name(w, Inventory()[j]), Inventory()[j].metadata)
  {
    var p, q := Inventory()[i], Inventory()[j];
    hide Inventory, Accepted, Extension, Name;
    forall n | n in WithSidecars(Name(v, p), p.metadata) ensures n !in WithSidecars(Name(w, q), q.metadata) {
      if n in WithSidecars(Name(w, q), q.metadata) {
        var k: Sidecar :| n == Name(v, p) + Extension(k);
        var l: Sidecar :| n == Name(w, q) + Extension(l);
        NameDetermines(v, w, i, j, k, l);
      }
    }
  }

  /** The names of the first `k` payloads. */
  function FirstNames(version: string, k: nat): set<string>
    requires k <= |Inventory()|
  {
    Names(version, Inventory()[..k])
  }

  lemma NextNames(version: string, k: nat)
    requires k < |Inventory()|
    ensures FirstNames(version, k + 1)
         == FirstNames(version, k) + WithSidecars(Name(version, Inventory()[k]), Inventory()[k].metadata)
  {
    hide WithSidecars, Name, Inventory;
    var ps := Inventory()[..k + 1];
    assert ps[..k] == Inventory()[..k] && ps[k] == Inventory()[k];
  }

  lemma EarlierNamesDisjoint(version: string, k: nat)
    requires Accepted(version) && k < |Inventory()|
    ensures FirstNames(version, k) !! WithSidecars(Name(version, Inventory()[k]), Inventory()[k].metadata)
  {
    hide WithSidecars, Name, Inventory, Accepted;
    forall n | n in FirstNames(version, k)
      ensures n !in WithSidecars(Name(version, Inventory()[k]), Inventory()[k].metadata) {
      var p :| p in Inventory()[..k] && n in WithSidecars(Name(version, p), p.metadata);
      var i :| 0 <= i < k && Inventory()[i] == p;
      PayloadNamesDisjoint(version, version, i, k);
    }
  }

  lemma CountStep(version: string, k: nat)
    requires Accepted(version) && k < |Inventory()|
    ensures |FirstNames(version, k + 1)| == |FirstNames(version, k)| + if Inventory()[k].metadata then 3 else 2
  {
    hide Inventory, Accepted, WithSidecars, Name, FirstNames;
    NextNames(version, k);
    EarlierNamesDisjoint(version, k);
    var own := WithSidecars(Name(version, Inventory()[k]), Inventory()[k].metadata);
    SidecarCount(Name(version, Inventory()[k]), Inventory()[k].metadata);
    DisjointUnion(FirstNames(version, k), own);
  }

  lemma {:induction false} PrefixCount(version: string, k: nat)
    requires Accepted(version) && k <= |Inventory()| == 19
    ensures |FirstNames(version, k)| == Total(k)
  {
    hide Inventory, Accepted, Names;
    if k == 0 {
      assert Inventory()[..0] == [];
      NoNames(version);
    } else {
      hide FirstNames;
      PrefixCount(version, k - 1);
      CountStep(version, k - 1);
    }
  }

  lemma NoNames(version: string)
    ensures Names(version, []) == {}
  {
  }

  /** The canonical set has 52 names for every accepted version. */
  lemma CanonicalCount(version: string)
    requires Accepted(version)
    ensures |Canonical(version)| == 52
  {
    hide Inventory, Names, Accepted, Total;
    InventoryTotal();
    PrefixCount(version, 19);
    assert Inventory()[..19] == Inventory();
  }

  /** No asset name belongs to two versions. */
  lemma VersionsDisjoint(v: string, w: string)
    requires Accepted(v) && Accepted(w) && v != w
    ensures Canonical(v) !! Canonical(w)
  {
    hide Inventory, Accepted, WithSidecars, Name;
    forall n | n in Canonical(v) ensures n !in Canonical(w) {
      if n in Canonical(w) {
        var p :| p in Inventory() && n in WithSidecars(Name(v, p), p.metadata);
        var q :| q in Inventory() && n in WithSidecars(Name(w, q), q.metadata);
        var i :| 0 <= i < |Inventory()| && Inventory()[i] == p;
        var j :| 0 <= j < |Inventory()| && Inventory()[j] == q;
        PayloadNamesDisjoint(v, w, i, j);
      }
    }
  }

  // ---- The policy -----------------------------------------------------------------------------

  const POLICY_NAME := "NEOTH_INTERNAL_RELEASE_ASSET_POLICY"
  const SIGNING_INPUTS_MANIFEST := "NEOTH_INTERNAL_SIGNING_INPUTS.SHA256"
  const MINISIGN_MANIFEST := "NEOTH_INTERNAL_MINISIGN_SIGNATURES.SHA256"
  const COSIGN_MANIFEST := "NEOTH_INTERNAL_COSIGN_BUNDLES.SHA256"
  const PUBLIC_KEY := "NEOTH_RELEASE_MINISIGN_PUBKEY.txt"
  const SHA256SUMS := "SHA256SUMS"

  function Signable(version: string): set<string> {
    Canonical(version) + {SHA256SUMS}
  }

  function SigningInputs(version: string): set<string> {
    Signable(version) + {PUBLIC_KEY}
  }

  function Suffixed(names: set<string>, extension: string): (r: set<string>)
    ensures forall n :: n in r <==> exists m :: m in names && n == m + extension
  {
    set m | m in names :: m + extension
  }

  function Minisigs(version: string): set<string> {
    Suffixed(Signable(version), ".minisig")
  }

  function Bundles(version: string): set<string> {
    Suffixed(SigningInputs(version), ".cosign.bundle")
  }

  function Publication(version: string): set<string> {
    SigningInputs(version) + Minisigs(version) + Bundles(version)
  }

  datatype ContractSet =
    CanonicalSet | CanonicalPolicy | Signing | SigningTransfer | MinisignTransfer | CosignTransfer
    | PublicationSet | ReleaseTransfer

  function SetNamed(s: string): Option<ContractSet> {
    if s == "canonical" then Some(CanonicalSet)
    else if s == "canonical-policy" then Some(CanonicalPolicy)
    else if s == "signing" then Some(Signing)
    else if s == "signing-transfer" then Some(SigningTransfer)
    else if s == "minisign-transfer" then Some(MinisignTransfer)
    else if s == "cosign-transfer" then Some(CosignTransfer)
    else if s == "publication" then Some(PublicationSet)
    else if s == "release-transfer" then Some(ReleaseTransfer)
    else None
  }

  function Members(version: string, kind: ContractSet): set<string> {
    match kind
    case CanonicalSet => Canonical(version)
    case CanonicalPolicy => Canonical(version) + {POLICY_NAME}
    case Signing => SigningInputs(version) + {POLICY_NAME}
    case SigningTransfer => SigningInputs(version) + {POLICY_NAME, SIGNING_INPUTS_MANIFEST}
    case MinisignTransfer => Minisigs(version) + {MINISIGN_MANIFEST}
    case CosignTransfer => Bundles(version) + {COSIGN_MANIFEST}
    case PublicationSet => Publication(version)
    case ReleaseTransfer =>
      Publication(version) + {POLICY_NAME, SIGNING_INPUTS_MANIFEST, MINISIGN_MANIFEST, COSIGN_MANIFEST}
  }

  // ---- The sets are what the policy says ------------------------------------------------------

  /** Neither a signature nor a bundle. */
  predicate Unsigned(n: string) {
    && |n| >= 3
    && !(n[|n| - 2] == 'i' && n[|n| - 1] == 'g')
    && !(n[|n| - 2] == 'l' && n[|n| - 1] == 'e')
  }

  /** Canonical names have a hyphen where the fixed names have something else. */
  predicate Hyphenated(n: string) {
    |n| >= 6 && n[5] == '-'
  }

  lemma FixedNames()
    ensures Unsigned(POLICY_NAME) && Unsigned(SIGNING_INPUTS_MANIFEST) && Unsigned(MINISIGN_MANIFEST)
    ensures Unsigned(COSIGN_MANIFEST) && Unsigned(PUBLIC_KEY) && Unsigned(SHA256SUMS)
    ensures !Hyphenated(POLICY_NAME) && !Hyphenated(SIGNING_INPUTS_MANIFEST) && !Hyphenated(MINISIGN_MANIFEST)
    ensures !Hyphenated(COSIGN_MANIFEST) && !Hyphenated(PUBLIC_KEY) && !Hyphenated(SHA256SUMS)
    ensures |POLICY_NAME| == 35 && |SIGNING_INPUTS_MANIFEST| == 36 && |MINISIGN_MANIFEST| == 41
    ensures |COSIGN_MANIFEST| == 36 && |PUBLIC_KEY| == 33 && |SHA256SUMS| == 10
    ensures COSIGN_MANIFEST[15] == 'C' && SIGNING_INPUTS_MANIFEST[15] == 'S'
  {
  }

  lemma SidecarUnsigned(n: string, k: Sidecar)
    requires PayloadEnding(n)
    ensures Unsigned(n + Extension(k))
  {
    var s := n + Extension(k);
    match k {
      case Itself => assert s == n;
      case Digest => assert s[|s| - 1] == '6';
      case Metadata => assert s[|s| - 1] == 'n';
    }
  }

  lemma NameHyphenated(version: string, p: Payload)
    requires KnownPrefix(p.prefix) && |p.suffix| >= 3
    ensures Hyphenated(Name(version, p))
  {
    assert Name(version, p)[5] == p.prefix[5];
  }

  lemma CanonicalForm(version: string, n: string)
    requires n in Canonical(version)
    ensures Unsigned(n) && Hyphenated(n)
  {
    hide Inventory, WithSidecars, KnownPrefix, PayloadEnding, Follows, Unsigned, Extension;
    var p :| p in Inventory() && n in WithSidecars(Name(version, p), p.metadata);
    var i :| 0 <= i < |Inventory()| && Inventory()[i] == p;
    InventoryPrints(i);
    var k: Sidecar :| n == Name(version, p) + Extension(k);
    NameEnding(version, p);
    NameHyphenated(version, p);
    SidecarUnsigned(Name(version, p), k);
    assert n[5] == Name(version, p)[5];
  }

  lemma InputForm(version: string, n: string)
    requires n in SigningInputs(version)
    ensures Unsigned(n)
  {
    FixedNames();
    if n in Canonical(version) {
      CanonicalForm(version, n);
    }
  }

  lemma SuffixInjective(m: string, n: string, extension: string)
    ensures m + extension == n + extension <==> m == n
  {
    var s, t := m + extension, n + extension;
    assert s[..|s| - |extension|] == m && t[..|t| - |extension|] == n;
  }

  lemma {:induction false} SuffixedCount(names: set<string>, extension: string)
    ensures |Suffixed(names, extension)| == |names|
  {
    if names != {} {
      var n :| n in names;
      SuffixedCount(names - {n}, extension);
      var rest := Suffixed(names - {n}, extension);
      forall m | m in names - {n} ensures m + extension != n + extension {
        SuffixInjective(m, n, extension);
      }
      assert Suffixed(names, extension) == rest + {n + extension};
    }
  }

  lemma SignedForm(m: string)
    ensures !Unsigned(m + ".minisig") && !Unsigned(m + ".cosign.bundle")
    ensures forall n: string :: m + ".minisig" != n + ".cosign.bundle"
  {
    var s, b := m + ".minisig", m + ".cosign.bundle";
    assert s[|s| - 1] == 'g' && s[|s| - 2] == 'i';
    assert b[|b| - 1] == 'e' && b[|b| - 2] == 'l';
    forall n: string ensures s != n + ".cosign.bundle" {
      var t := n + ".cosign.bundle";
      assert t[|t| - 1] == 'e';
    }
  }

  /** Inputs, signatures and bundles never share a name. */
  lemma PublicationParts(version: string)
    ensures SigningInputs(version) !! Minisigs(version)
    ensures SigningInputs(version) !! Bundles(version)
    ensures Minisigs(version) !! Bundles(version)
    ensures forall n :: n in Minisigs(version) + Bundles(version) ==> !Unsigned(n)
  {
    hide Canonical, Unsigned, SigningInputs, Signable;
    forall n | n in SigningInputs(version) ensures Unsigned(n) {
      InputForm(version, n);
    }
    forall n | n in Minisigs(version) ensures !Unsigned(n) && n !in Bundles(version) {
      var m :| m in Signable(version) && n == m + ".minisig";
      SignedForm(m);
    }
    forall n | n in Bundles(version) ensures !Unsigned(n) {
      var m :| m in SigningInputs(version) && n == m + ".cosign.bundle";
      SignedForm(m);
    }
  }

  lemma InputCounts(version: string)
    requires Accepted(version)
    ensures |Signable(version)| == 53 && |SigningInputs(version)| == 54
    ensures POLICY_NAME !in SigningInputs(version) && SIGNING_INPUTS_MANIFEST !in SigningInputs(version)
    ensures MINISIGN_MANIFEST !in SigningInputs(version) && COSIGN_MANIFEST !in SigningInputs(version)
  {
    hide Canonical, Accepted, Hyphenated, Unsigned;
    FixedNames();
    CanonicalCount(version);
    forall n | n in Canonical(version) ensures Hyphenated(n) {
      CanonicalForm(version, n);
    }
  }

  lemma DisjointUnion(a: set<string>, b: set<string>)
    requires a !! b
    ensures |a + b| == |a| + |b|
  {
  }

  lemma PublicationCounts(version: string)
    requires Accepted(version)
    ensures |Minisigs(version)| == 53 && |Bundles(version)| == 54 && |Publication(version)| == 161
  {
    InputCounts(version);
    PublicationParts(version);
    SuffixedCount(Signable(version), ".minisig");
    SuffixedCount(SigningInputs(version), ".cosign.bundle");
    hide Accepted, Unsigned, SigningInputs, Signable, Suffixed;
    DisjointUnion(SigningInputs(version), Minisigs(version));
    DisjointUnion(SigningInputs(version) + Minisigs(version), Bundles(version));
  }

  /** The size of every contract set, for every accepted version. */
  lemma SetSizes(version: string)
    requires Accepted(version)
    ensures |Members(version, CanonicalSet)| == 52 && |Members(version, CanonicalPolicy)| == 53
    ensures |Members(version, Signing)| == 55 && |Members(version, SigningTransfer)| == 56
    ensures |Members(version, MinisignTransfer)| == 54 && |Members(version, CosignTransfer)| == 55
    ensures |Members(version, PublicationSet)| == 161 && |Members(version, ReleaseTransfer)| == 165
  {
    hide Accepted, Unsigned, Canonical, Minisigs, Bundles, Publication, Hyphenated;
    CanonicalCount(version);
    InputCounts(version);
    PublicationCounts(version);
    FixedNames();
    FixedUnpublished(version);
    hide SigningInputs;
    FourInternal();
    DisjointUnion(SigningInputs(version), {POLICY_NAME, SIGNING_INPUTS_MANIFEST});
    ReleaseSize(version);
  }

  lemma ReleaseSize(version: string)
    requires Accepted(version)
    ensures |Members(version, ReleaseTransfer)| == 165
  {
    hide Accepted, Unsigned, Canonical, Minisigs, Bundles, Publication, SigningInputs;
    PublicationCounts(version);
    FixedUnpublished(version);
    FourInternal();
    DisjointUnion(Publication(version), {POLICY_NAME, SIGNING_INPUTS_MANIFEST, MINISIGN_MANIFEST, COSIGN_MANIFEST});
  }

  lemma FourInternal()
    ensures |{POLICY_NAME, SIGNING_INPUTS_MANIFEST, MINISIGN_MANIFEST, COSIGN_MANIFEST}| == 4
    ensures |{POLICY_NAME, SIGNING_INPUTS_MANIFEST}| == 2
  {
    FixedNames();
    var two := {POLICY_NAME, SIGNING_INPUTS_MANIFEST};
    assert |two| == 2;
    assert |two + {MINISIGN_MANIFEST}| == 3;
    assert two + {MINISIGN_MANIFEST} + {COSIGN_MANIFEST}
        == {POLICY_NAME, SIGNING_INPUTS_MANIFEST, MINISIGN_MANIFEST, COSIGN_MANIFEST};
  }

  /** The internal hand-over files are never published. */
  lemma FixedUnpublished(version: string)
    requires Accepted(version)
    ensures POLICY_NAME !in Publication(version) && SIGNING_INPUTS_MANIFEST !in Publication(version)
    ensures MINISIGN_MANIFEST !in Publication(version) && COSIGN_MANIFEST !in Publication(version)
    ensures MINISIGN_MANIFEST !in Minisigs(version) && COSIGN_MANIFEST !in Bundles(version)
  {
    hide Accepted, Unsigned, Hyphenated, SigningInputs, Minisigs, Bundles, Publication;
    InputCounts(version);
    FixedNames();
    UnsignedUnpublished(version, POLICY_NAME);
    UnsignedUnpublished(version, SIGNING_INPUTS_MANIFEST);
    UnsignedUnpublished(version, MINISIGN_MANIFEST);
    UnsignedUnpublished(version, COSIGN_MANIFEST);
  }

  lemma UnsignedUnpublished(version: string, n: string)
    requires Unsigned(n) && n !in SigningInputs(version)
    ensures n !in Minisigs(version) && n !in Bundles(version) && n !in Publication(version)
  {
    hide Unsigned, SigningInputs, Minisigs, Bundles;
    PublicationParts(version);
  }

  /** What the three signing jobs hand over is, without overlap, what the release job receives. */
  lemma TransfersPartition(version: string)
    requires Accepted(version)
    ensures Members(version, ReleaseTransfer)
         == Members(version, SigningTransfer) + Members(version, MinisignTransfer) + Members(version, CosignTransfer)
    ensures Members(version, SigningTransfer) !! Members(version, MinisignTransfer)
    ensures Members(version, SigningTransfer) !! Members(version, CosignTransfer)
    ensures Members(version, MinisignTransfer) !! Members(version, CosignTransfer)
  {
    hide Canonical, Accepted, Unsigned, SigningInputs, Signable, Minisigs, Bundles;
    InputCounts(version);
    PublicationParts(version);
    FixedNames();
  }

  lemma SuffixedShare(a: set<string>, b: set<string>, extension: string)
    ensures Suffixed(a, extension) * Suffixed(b, extension) == Suffixed(a * b, extension)
  {
    forall n | n in Suffixed(a, extension) && n in Suffixed(b, extension) ensures n in Suffixed(a * b, extension) {
      var k :| k in a && n == k + extension;
      var m :| m in b && n == m + extension;
      SuffixInjective(k, m, extension);
    }
  }

  lemma InputsShare(v: string, w: string)
    requires Accepted(v) && Accepted(w) && v != w
    ensures Signable(v) * Signable(w) == {SHA256SUMS}
    ensures SigningInputs(v) * SigningInputs(w) == {SHA256SUMS, PUBLIC_KEY}
  {
    hide Canonical, Accepted;
    VersionsDisjoint(v, w);
    forall u, n | n in Canonical(u) ensures n != SHA256SUMS && n != PUBLIC_KEY {
      CanonicalForm(u, n);
      FixedNames();
    }
  }

  /** Two versions publish exactly five names in common. */
  lemma PublicationsShare(v: string, w: string)
    requires Accepted(v) && Accepted(w) && v != w
    ensures Publication(v) * Publication(w)
         == {SHA256SUMS, PUBLIC_KEY}
          + Suffixed({SHA256SUMS}, ".minisig") + Suffixed({SHA256SUMS, PUBLIC_KEY}, ".cosign.bundle")
  {
    hide Accepted, Unsigned, SigningInputs, Signable, Suffixed;
    InputsShare(v, w);
    SuffixedShare(Signable(v), Signable(w), ".minisig");
    SuffixedShare(SigningInputs(v), SigningInputs(w), ".cosign.bundle");
    CrossParts(v, w);
    CrossParts(w, v);
    ShareByParts(SigningInputs(v), Minisigs(v), Bundles(v), SigningInputs(w), Minisigs(w), Bundles(w));
  }

  lemma ShareByParts(a: set<string>, b: set<string>, c: set<string>, x: set<string>, y: set<string>, z: set<string>)
    requires a !! y + z && b !! x + z && c !! x + y
    ensures (a + b + c) * (x + y + z) == a * x + b * y + c * z
  {
  }

  /** Inputs of one version are never signatures or bundles of another, nor signatures bundles. */
  lemma CrossParts(v: string, w: string)
    ensures SigningInputs(v) !! Minisigs(w) + Bundles(w)
    ensures Minisigs(v) !! Bundles(w)
  {
    hide Unsigned, SigningInputs, Signable;
    PublicationParts(w);
    forall n | n in SigningInputs(v) ensures Unsigned(n) {
      InputForm(v, n);
    }
    forall n | n in Minisigs(v) ensures n !in Bundles(w) {
      var m :| m in Signable(v) && n == m + ".minisig";
      SignedForm(m);
    }
  }

  // ---- The operations -------------------------------------------------------------------------

  lemma LinuxRows()
    ensures |Inventory()| == 19
    ensures forall i :: 0 <= i < 3 ==> Inventory()[i] == Archive(LINUX_TARGETS[i], false)
  {
    hide Archive, Zip, Setup, Package;
  }

  lemma WindowsRows()
    ensures |Inventory()| == 19
    ensures forall i :: 0 <= i < 2 ==> Inventory()[3 + 2 * i] == Zip(WINDOWS_TARGETS[i].1)
    ensures forall i :: 0 <= i < 2 ==> Inventory()[4 + 2 * i] == Setup(WINDOWS_TARGETS[i].0)
  {
    hide Archive, Zip, Setup, Package;
  }

  lemma PackageRows()
    ensures |Inventory()| == 19
    ensures forall i, j :: 0 <= i < 2 && 0 <= j < 2 ==>
              Inventory()[7 + 2 * i + j] == Package(PACKAGE_TARGETS[i], PACKAGE_EXTENSIONS[j])
  {
    hide Archive, Zip, Setup, Package;
  }

  lemma AppleRows()
    ensures |Inventory()| == 19
    ensures forall i :: 0 <= i < 2 ==> Inventory()[11 + 3 * i] == Archive(APPLE_TARGETS[i], true)
    ensures forall i, j :: 0 <= i < 2 && 0 <= j < 2 ==>
              Inventory()[12 + 3 * i + j] == Package(APPLE_TARGETS[i], APPLE_EXTENSIONS[j])
  {
    hide Archive, Zip, Setup, Package;
  }

  lemma BundleRows()
    ensures |Inventory()| == 19
    ensures Inventory()[17] == Payload("neoth-whatsapp-baileys-v", ".tar.gz", false)
    ensures Inventory()[18] == Payload("neoth-package-manifests-v", ".zip", false)
  {
    hide Archive, Zip, Setup, Package;
  }

  /** One round of accumulation. */
  method AddPayload(version: string, names: set<string>, p: Payload, ghost k: nat) returns (r: set<string>)
    requires k < |Inventory()| && Inventory()[k] == p && names == FirstNames(version, k)
    ensures r == FirstNames(version, k + 1)
  {
    NextNames(version, k);
    hide Inventory, FirstNames;
    r := names + WithSidecars(Name(version, p), p.metadata);
  }

  /** Linux archives carry no metadata. */
  method AddLinux(version: string) returns (names: set<string>)
    ensures |Inventory()| == 19 && names == FirstNames(version, 3)
  {
    hide Archive, Zip, Setup, Package, Inventory, FirstNames, Names;
    LinuxRows();
    NoFirstNames(version);
    names := {};
    for i := 0 to 3
      invariant names == FirstNames(version, i)
    {
      names := AddPayload(version, names, Archive(LINUX_TARGETS[i], false), i);
    }
  }

  method AddWindows(version: string, before: set<string>) returns (names: set<string>)
    requires |Inventory()| == 19 && before == FirstNames(version, 3)
    ensures names == FirstNames(version, 7)
  {
    hide Archive, Zip, Setup, Package, Inventory, FirstNames, Names;
    WindowsRows();
    names := before;
    for i := 0 to 2
      invariant names == FirstNames(version, 3 + 2 * i)
    {
      names := AddPayload(version, names, Zip(WINDOWS_TARGETS[i].1), 3 + 2 * i);
      names := AddPayload(version, names, Setup(WINDOWS_TARGETS[i].0), 4 + 2 * i);
    }
  }

  method AddPackages(version: string, before: set<string>) returns (names: set<string>)
    requires |Inventory()| == 19 && before == FirstNames(version, 7)
    ensures names == FirstNames(version, 11)
  {
    hide Archive, Zip, Setup, Package, Inventory, FirstNames, Names;
    PackageRows();
    names := before;
    for i := 0 to 2
      invariant names == FirstNames(version, 7 + 2 * i)
    {
      for j := 0 to 2
        invariant names == FirstNames(version, 7 + 2 * i + j)
      {
        names := AddPayload(version, names, Package(PACKAGE_TARGETS[i], PACKAGE_EXTENSIONS[j]), 7 + 2 * i + j);
      }
    }
  }

  method AddApple(version: string, before: set<string>) returns (names: set<string>)
    requires |Inventory()| == 19 && before == FirstNames(version, 11)
    ensures names == FirstNames(version, 17)
  {
    hide Archive, Zip, Setup, Package, Inventory, FirstNames, Names;
    AppleRows();
    names := before;
    for i := 0 to 2
      invariant names == FirstNames(version, 11 + 3 * i)
    {
      names := AddPayload(version, names, Archive(APPLE_TARGETS[i], true), 11 + 3 * i);
      for j := 0 to 2
        invariant names == FirstNames(version, 12 + 3 * i + j)
      {
        names := AddPayload(version, names, Package(APPLE_TARGETS[i], APPLE_EXTENSIONS[j]), 12 + 3 * i + j);
      }
    }
  }

  /** `canonical_payload_names`: the count check at the end never fires. */
  method CanonicalPayloadNames(version: string) returns (r: Result<set<string>, AssetError>)
    ensures Accepted(version) ==> r == Success(Canonical(version))
    ensures !Accepted(version) ==> r == Failure(BadVersion(ValidateVersion(version).error))
  {
    hide Inventory, FirstNames, Names, Canonical;
    var checked := ValidateVersion(version);
    if checked.Failure? {
      return Failure(BadVersion(checked.error));
    }
    var names := AddLinux(version);
    names := AddWindows(version, names);
    names := AddPackages(version, names);
    names := AddApple(version, names);
    BundleRows();
    names := AddPayload(version, names, Payload("neoth-whatsapp-baileys-v", ".tar.gz", false), 17);
    names := AddPayload(version, names, Payload("neoth-package-manifests-v", ".zip", false), 18);
    AllNames(version);
    CanonicalCount(version);
    if |names| != 52 {
      return Failure(CountDrifted);
    }
    return Success(names);
  }

  lemma NoFirstNames(version: string)
    ensures FirstNames(version, 0) == {}
  {
    assert Inventory()[..0] == [];
    NoNames(version);
    hide Inventory, Names;
  }

  lemma AllNames(version: string)
    requires |Inventory()| == 19
    ensures FirstNames(version, 19) == Canonical(version)
  {
    hide Inventory, Names;
    assert Inventory()[..19] == Inventory();
  }

  /** `expected_names`: a bad version is reported before an unknown set. */
  method ExpectedNames(version: string, contractSet: string) returns (r: Result<set<string>, AssetError>)
    ensures r.Success? <==> Accepted(version) && SetNamed(contractSet).Some?
    ensures r.Success? ==> r.value == Members(version, SetNamed(contractSet).value)
    ensures r == Failure(UnknownSet) <==> Accepted(version) && SetNamed(contractSet).None?
  {
    hide SetNamed, Members;
    var canonical := CanonicalPayloadNames(version);
    if canonical.Failure? {
      return canonical;
    }
    var kind := SetNamed(contractSet);
    return if kind.None? then Failure(UnknownSet) else Success(Members(version, kind.value));
  }

  // ---- Native packages ------------------------------------------------------------------------

  function RequiredNative(): seq<Payload> {
    [
      Setup("x64"), Setup("arm64"),
      Package(GNU_X86, "deb"), Package(GNU_ARM, "deb"), Package(GNU_X86, "rpm"), Package(GNU_ARM, "rpm"),
      Package(APPLE_X86, "pkg"), Package(APPLE_ARM, "pkg"), Package(APPLE_X86, "dmg"), Package(APPLE_ARM, "dmg")
    ]
  }

  /** `required_native_names`. */
  function RequiredNativeNames(version: string): (r: set<string>) {
    set p | p in RequiredNative() :: Name(version, p)
  }

  /** The suffixes whose assets must have metadata. */
  predicate HasNativeSuffix(n: string) {
    |n| >= 4 && n[|n| - 4..] in {".exe", ".deb", ".rpm", ".pkg", ".dmg"}
  }

  lemma NativeSuffix(version: string, p: Payload)
    requires |p.suffix| >= 4
    ensures HasNativeSuffix(Name(version, p)) <==> HasNativeSuffix(p.suffix)
  {
    var n := Name(version, p);
    assert n[|n| - 4..] == p.suffix[|p.suffix| - 4..];
  }

  lemma SidecarNotNative(n: string, k: Sidecar)
    ensures !k.Itself? ==> !HasNativeSuffix(n + Extension(k))
  {
    var s := n + Extension(k);
    if k.Digest? {
      assert s[|s| - 4..][3] == '6';
    } else if k.Metadata? {
      assert s[|s| - 4..][3] == 'n';
    }
  }

  lemma TargetNative(t: string)
    ensures !HasNativeSuffix(Archive(t, true).suffix) && !HasNativeSuffix(Archive(t, false).suffix)
    ensures !HasNativeSuffix(Zip(t).suffix) && HasNativeSuffix(Setup(t).suffix)
    ensures HasNativeSuffix(Package(t, "deb").suffix) && HasNativeSuffix(Package(t, "rpm").suffix)
    ensures HasNativeSuffix(Package(t, "pkg").suffix) && HasNativeSuffix(Package(t, "dmg").suffix)
  {
    var a, z, e := Archive(t, true).suffix, Zip(t).suffix, Setup(t).suffix;
    assert a[|a| - 4..][3] == 'z' && z[|z| - 4..][3] == 'p';
    assert e[|e| - 4..] == ".exe";
    PackageNative(t, "deb");
    PackageNative(t, "rpm");
    PackageNative(t, "pkg");
    PackageNative(t, "dmg");
  }

  lemma PackageNative(t: string, x: string)
    requires x in PACKAGE_EXTENSIONS + APPLE_EXTENSIONS
    ensures HasNativeSuffix(Package(t, x).suffix)
  {
    var s := Package(t, x).suffix;
    assert s[|s| - 4..] == "." + x;
    assert "." + "deb" == ".deb" && "." + "rpm" == ".rpm" && "." + "pkg" == ".pkg" && "." + "dmg" == ".dmg";
  }

  lemma BundlesNotNative()
    ensures !HasNativeSuffix(".tar.gz") && !HasNativeSuffix(".zip")
  {
    assert ".tar.gz"[3..][3] == 'z' && ".zip"[0..][3] == 'p';
  }

  /** The payloads that are not native packages. */
  function Others(): seq<Payload> {
    [
      Archive(GNU_X86, false), Archive(MUSL_X86, false), Archive(GNU_ARM, false),
      Zip(WINDOWS_X86), Zip(WINDOWS_ARM), Archive(APPLE_X86, true), Archive(APPLE_ARM, true),
      Payload("neoth-whatsapp-baileys-v", ".tar.gz", false), Payload("neoth-package-manifests-v", ".zip", false)
    ]
  }

  lemma InventorySplit(p: Payload)
    ensures p in Inventory() <==> p in RequiredNative() || p in Others()
  {
    hide Archive, Zip, Setup, Package;
  }

  lemma RequiredAreNative(p: Payload)
    requires p in RequiredNative()
    ensures HasNativeSuffix(p.suffix)
  {
    hide HasNativeSuffix;
    TargetNative("x64");
    TargetNative("arm64");
    TargetNative(GNU_X86);
    TargetNative(GNU_ARM);
    TargetNative(APPLE_X86);
    TargetNative(APPLE_ARM);
    hide Archive, Zip, Setup, Package;
  }

  lemma OthersAreNot(p: Payload)
    requires p in Others()
    ensures !HasNativeSuffix(p.suffix)
  {
    hide HasNativeSuffix;
    TargetNative(GNU_X86);
    TargetNative(MUSL_X86);
    TargetNative(GNU_ARM);
    TargetNative(WINDOWS_X86);
    TargetNative(WINDOWS_ARM);
    TargetNative(APPLE_X86);
    TargetNative(APPLE_ARM);
    BundlesNotNative();
    hide Archive, Zip, Setup, Package;
  }

  /** The native names the manifest generator demands are exactly the canonical names that end
      like a native package. */
  lemma NativeNamesExact(version: string, n: string)
    ensures n in RequiredNativeNames(version) <==> n in Canonical(version) && HasNativeSuffix(n)
  {
    hide HasNativeSuffix, Inventory, RequiredNative, Others, WithSidecars;
    if n in RequiredNativeNames(version) {
      var p :| p in RequiredNative() && n == Name(version, p);
      InventorySplit(p);
      RequiredAreNative(p);
      RowFollows(p);
      NativeSuffix(version, p);
      assert Extension(Itself) == "" && n + "" == n;
      assert n in WithSidecars(n, p.metadata);
    }
    if n in Canonical(version) && HasNativeSuffix(n) {
      var p :| p in Inventory() && n in WithSidecars(Name(version, p), p.metadata);
      var k: Sidecar :| n == Name(version, p) + Extension(k);
      SidecarNotNative(Name(version, p), k);
      assert Name(version, p) + "" == Name(version, p) && Extension(Itself) == "";
      RowFollows(p);
      NativeSuffix(version, p);
      InventorySplit(p);
      if p in Others() {
        OthersAreNot(p);
      }
    }
  }

  lemma RowFollows(p: Payload)
    requires p in Inventory()
    ensures |p.suffix| >= 4
  {
    var i :| 0 <= i < |Inventory()| && Inventory()[i] == p;
    InventoryPrints(i);
    hide Inventory;
  }

  // ---- The sets by name ------------------------------------------------------------------------

  /** Which files the sets are, by the name under which they are asked for. */
  lemma TransferSets(version: string)
    ensures SetNamed("minisign-transfer").Some? && SetNamed("cosign-transfer").Some?
    ensures forall n :: n in Members(version, SetNamed("minisign-transfer").value) <==>
              || n == "NEOTH_INTERNAL_MINISIGN_SIGNATURES.SHA256"
              || exists m :: (m in Canonical(version) || m == "SHA256SUMS") && n == m + ".minisig"
    ensures forall n :: n in Members(version, SetNamed("cosign-transfer").value) <==>
              || n == "NEOTH_INTERNAL_COSIGN_BUNDLES.SHA256"
              || exists m :: (m in Canonical(version) || m == "SHA256SUMS" || m == "NEOTH_RELEASE_MINISIGN_PUBKEY.txt") &&
                             n == m + ".cosign.bundle"
  {
    NamesOfSets();
    hide Canonical, SetNamed;
    assert forall m :: m in Signable(version) <==> m in Canonical(version) || m == "SHA256SUMS";
    assert forall m :: m in SigningInputs(version) <==> m in Signable(version) || m == "NEOTH_RELEASE_MINISIGN_PUBKEY.txt";
    hide Signable, SigningInputs;
  }

  lemma InputSets(version: string)
    ensures SetNamed("canonical").Some? && SetNamed("canonical-policy").Some?
    ensures SetNamed("signing").Some? && SetNamed("signing-transfer").Some?
    ensures Members(version, SetNamed("canonical").value) == Canonical(version)
    ensures Members(version, SetNamed("canonical-policy").value) == Canonical(version) + {"NEOTH_INTERNAL_RELEASE_ASSET_POLICY"}
    ensures Members(version, SetNamed("signing").value) ==
            Canonical(version) + {"SHA256SUMS", "NEOTH_RELEASE_MINISIGN_PUBKEY.txt", "NEOTH_INTERNAL_RELEASE_ASSET_POLICY"}
    ensures Members(version, SetNamed("signing-transfer").value) ==
            Canonical(version) + {"SHA256SUMS", "NEOTH_RELEASE_MINISIGN_PUBKEY.txt", "NEOTH_INTERNAL_RELEASE_ASSET_POLICY",
                                  "NEOTH_INTERNAL_SIGNING_INPUTS.SHA256"}
  {
    NamesOfSets();
    hide Canonical, SetNamed;
  }

  lemma NamesOfSets()
    ensures SetNamed("canonical") == Some(CanonicalSet) && SetNamed("canonical-policy") == Some(CanonicalPolicy)
    ensures SetNamed("signing") == Some(Signing) && SetNamed("signing-transfer") == Some(SigningTransfer)
    ensures SetNamed("minisign-transfer") == Some(MinisignTransfer) && SetNamed("cosign-transfer") == Some(CosignTransfer)
    ensures SetNamed("publication") == Some(PublicationSet) && SetNamed("release-transfer") == Some(ReleaseTransfer)
  {
    assert |"canonical"| == 9 && |"canonical-policy"| == 16 && |"signing"| == 7 && |"signing-transfer"| == 16;
    assert |"minisign-transfer"| == 17 && |"cosign-transfer"| == 15 && |"publication"| == 11 && |"release-transfer"| == 16;
    assert "canonical-policy"[0] == 'c' && "signing-transfer"[0] == 's' && "release-transfer"[0] == 'r';
  }

  lemma ArchiveName(version: string, target: string, metadata: bool)
    ensures Name(version, Archive(target, metadata)) == "neoth-v" + version + "-" + target + ".tar.gz"
  {
  }

  lemma ZipName(version: string, target: string)
    ensures Name(version, Zip(target)) == "neoth-v" + version + "-" + target + ".zip"
  {
  }

  lemma SetupName(version: string, architecture: string)
    ensures Name(version, Setup(architecture)) == "NEOTH-" + version + "-" + architecture + "-Setup.exe"
  {
  }

  lemma PackageName(version: string, target: string, extension: string)
    ensures Name(version, Package(target, extension)) == "NEOTH-" + version + "-" + target + "." + extension
  {
  }

  lemma BundleName(version: string, prefix: string, suffix: string)
    ensures Name(version, Payload(prefix, suffix, false)) == prefix + version + suffix
  {
  }

  /** The archives of a release. */
  lemma ArchiveNames(version: string)
    ensures |Inventory()| == 19
    ensures Name(version, Inventory()[0]) == "neoth-v" + version + "-" + "x86_64-unknown-linux-gnu" + ".tar.gz"
    ensures Name(version, Inventory()[1]) == "neoth-v" + version + "-" + "x86_64-unknown-linux-musl" + ".tar.gz"
    ensures Name(version, Inventory()[2]) == "neoth-v" + version + "-" + "aarch64-unknown-linux-gnu" + ".tar.gz"
    ensures Name(version, Inventory()[3]) == "neoth-v" + version + "-" + "x86_64-pc-windows-msvc" + ".zip"
    ensures Name(version, Inventory()[5]) == "neoth-v" + version + "-" + "aarch64-pc-windows-msvc" + ".zip"
    ensures Name(version, Inventory()[11]) == "neoth-v" + version + "-" + "x86_64-apple-darwin" + ".tar.gz"
    ensures Name(version, Inventory()[14]) == "neoth-v" + version + "-" + "aarch64-apple-darwin" + ".tar.gz"
  {
    hide Name, Archive, Zip, Setup, Package;
    ArchiveName(version, "x86_64-unknown-linux-gnu", false);
    ArchiveName(version, "x86_64-unknown-linux-musl", false);
    ArchiveName(version, "aarch64-unknown-linux-gnu", false);
    ZipName(version, "x86_64-pc-windows-msvc");
    ZipName(version, "aarch64-pc-windows-msvc");
    ArchiveName(version, "x86_64-apple-darwin", true);
    ArchiveName(version, "aarch64-apple-darwin", true);
  }

  /** Its Windows installers and Linux packages. */
  lemma LinuxAndWindowsNames(version: string)
    ensures |Inventory()| == 19
    ensures Name(version, Inventory()[4]) == "NEOTH-" + version + "-" + "x64" + "-Setup.exe"
    ensures Name(version, Inventory()[6]) == "NEOTH-" + version + "-" + "arm64" + "-Setup.exe"
    ensures Name(version, Inventory()[7]) == "NEOTH-" + version + "-" + "x86_64-unknown-linux-gnu" + "." + "deb"
    ensures Name(version, Inventory()[8]) == "NEOTH-" + version + "-" + "x86_64-unknown-linux-gnu" + "." + "rpm"
    ensures Name(version, Inventory()[9]) == "NEOTH-" + version + "-" + "aarch64-unknown-linux-gnu" + "." + "deb"
    ensures Name(version, Inventory()[10]) == "NEOTH-" + version + "-" + "aarch64-unknown-linux-gnu" + "." + "rpm"
  {
    hide Name, Archive, Zip, Setup, Package;
    SetupName(version, "x64");
    SetupName(version, "arm64");
    PackageName(version, "x86_64-unknown-linux-gnu", "deb");
    PackageName(version, "x86_64-unknown-linux-gnu", "rpm");
    PackageName(version, "aarch64-unknown-linux-gnu", "deb");
    PackageName(version, "aarch64-unknown-linux-gnu", "rpm");
  }

  /** Its Apple packages and the two bundles. */
  lemma AppleAndBundleNames(version: string)
    ensures |Inventory()| == 19
    ensures Name(version, Inventory()[12]) == "NEOTH-" + version + "-" + "x86_64-apple-darwin" + "." + "pkg"
    ensures Name(version, Inventory()[13]) == "NEOTH-" + version + "-" + "x86_64-apple-darwin" + "." + "dmg"
    ensures Name(version, Inventory()[15]) == "NEOTH-" + version + "-" + "aarch64-apple-darwin" + "." + "pkg"
    ensures Name(version, Inventory()[16]) == "NEOTH-" + version + "-" + "aarch64-apple-darwin" + "." + "dmg"
    ensures Name(version, Inventory()[17]) == "neoth-whatsapp-baileys-v" + version + ".tar.gz"
    ensures Name(version, Inventory()[18]) == "neoth-package-manifests-v" + version + ".zip"
  {
    hide Name, Archive, Zip, Setup, Package;
    PackageName(version, "x86_64-apple-darwin", "pkg");
    PackageName(version, "x86_64-apple-darwin", "dmg");
    PackageName(version, "aarch64-apple-darwin", "pkg");
    PackageName(version, "aarch64-apple-darwin", "dmg");
    BundleName(version, "neoth-whatsapp-baileys-v", ".tar.gz");
    BundleName(version, "neoth-package-manifests-v", ".zip");
  }

  /** Linux archives and the bundles have no metadata file, everything else has one. */
  lemma MetadataFiles(i: nat)
    requires i < |Inventory()|
    ensures Inventory()[i].metadata <==> 3 <= i < 17
  {
  }
}
