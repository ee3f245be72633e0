/** Release version strings: the bounded grammar of packaging/release_asset_contract.py:27-53 and
    the SemVer grammar of packaging/generate_release_manifests.py:21-26, 45-55. */
module ReleaseVersion {
  import opened Outcomes
  import opened TextSearch

  datatype Channel = Alpha | Beta | Rc

  datatype Prerelease = Prerelease(channel: Channel, number: nat)

  datatype Release = Release(major: nat, minor: nat, patch: nat, pre: Option<Prerelease>)

  /** The bounds the policy promises: components in 0..99, prerelease numbers in 0..31. */
  predicate Bounded(r: Release) {
    r.major < 100 && r.minor < 100 && r.patch < 100 && (r.pre.Some? ==> r.pre.value.number < 32)
  }

  datatype VersionError = Malformed | ZeroMajorMinor | LeadingZero

  // ---- Printing ------------------------------------------------------------------------------

  function Digit(n: nat): (c: char)
    requires n < 10
    ensures IsDigit(c) && c as int == '0' as int + n
  {
    '0' + n as char
  }

  /** Decimal notation without a leading zero. */
  function Decimal(n: nat): (s: string)
    requires n < 100
    ensures 1 <= |s| <= 2
  {
    if n < 10 then [Digit(n)] else [Digit(n / 10), Digit(n % 10)]
  }

  function ChannelName(c: Channel): string {
    match c case Alpha => "alpha" case Beta => "beta" case Rc => "rc"
  }

  function ShowPre(pre: Option<Prerelease>): string
    requires pre.Some? ==> pre.value.number < 32
  {
    if pre.None? then "" else "-" + (ChannelName(pre.value.channel) + ("." + Decimal(pre.value.number)))
  }

  /** The canonical text of a release. */
  function Show(r: Release): string
    requires Bounded(r)
  {
    Decimal(r.major) + ("." + (Decimal(r.minor) + ("." + (Decimal(r.patch) + ShowPre(r.pre)))))
  }

  // ---- Reading -------------------------------------------------------------------------------

  predicate StartsWithDigit(s: string) {
    s != "" && IsDigit(s[0])
  }

  /** `0|[1-9]|[1-9][0-9]`, taking two digits where there are two. */
  function TakeNumber(s: string): (r: Option<(nat, string)>)
    ensures r.Some? ==> r.value.0 < 100 && s == Decimal(r.value.0) + r.value.1
  {
    if !StartsWithDigit(s) then None
    else if s[0] == '0' || |s| < 2 || !IsDigit(s[1]) then Some((s[0] as int - '0' as int, s[1..]))
    else Some((10 * (s[0] as int - '0' as int) + (s[1] as int - '0' as int), s[2..]))
  }

  lemma TakeDecimal(n: nat, rest: string)
    requires n < 100 && !StartsWithDigit(rest)
    ensures TakeNumber(Decimal(n) + rest) == Some((n, rest))
  {
    var s := Decimal(n) + rest;
    assert s[|Decimal(n)|..] == rest;
    if 1 < |s| && |Decimal(n)| == 1 {
      assert s[1] == rest[0];
    }
  }

  function TakeDot(s: string): (r: Option<string>)
    ensures r.Some? <==> s != "" && s[0] == '.'
    ensures r.Some? ==> s == "." + r.value
  {
    if s != "" && s[0] == '.' then Some(s[1..]) else None
  }

  function TakeChannel(s: string): (r: Option<(Channel, string)>)
    ensures r.Some? ==> s == ChannelName(r.value.0) + r.value.1
  {
    if "alpha" <= s then Some((Alpha, s[5..]))
    else if "beta" <= s then Some((Beta, s[4..]))
    else if "rc" <= s then Some((Rc, s[2..]))
    else None
  }

  lemma TakeChannelName(c: Channel, rest: string)
    ensures TakeChannel(ChannelName(c) + rest) == Some((c, rest))
  {
    var s := ChannelName(c) + rest;
    assert s[|ChannelName(c)|..] == rest;
    match c {
      case Alpha =>
      case Beta => assert s[0] == 'b';
      case Rc => assert s[0] == 'r';
    }
  }

  /** The optional prerelease, which must end the text. */
  function ReadPre(s: string): (r: Option<Option<Prerelease>>)
    ensures r.Some? && r.value.Some? ==> r.value.value.number < 32
    ensures r.Some? ==> s == ShowPre(r.value)
  {
    if s == "" then Some(None)
    else if s[0] != '-' then None
    else
      var channel := TakeChannel(s[1..]);
      if channel.None? then None else
      var dot := TakeDot(channel.value.1);
      if dot.None? then None else
      var number := TakeNumber(dot.value);
      if number.None? || number.value.1 != "" || number.value.0 > 31 then None
      else
        assert dot.value == Decimal(number.value.0);
        assert s == "-" + s[1..];
        Some(Some(Prerelease(channel.value.0, number.value.0)))
  }

  lemma ReadShowPre(pre: Option<Prerelease>)
    requires pre.Some? ==> pre.value.number < 32
    ensures ReadPre(ShowPre(pre)) == Some(pre) && !StartsWithDigit(ShowPre(pre))
  {
    if pre.Some? {
      var digits := Decimal(pre.value.number);
      assert ShowPre(pre)[1..] == ChannelName(pre.value.channel) + ("." + digits);
      TakeChannelName(pre.value.channel, "." + digits);
      assert ("." + digits)[1..] == digits;
      TakeDecimal(pre.value.number, "");
      assert digits + "" == digits;
    }
  }

  function TakeNumberDot(s: string): (r: Option<(nat, string)>)
    ensures r.Some? ==> r.value.0 < 100 && s == Decimal(r.value.0) + ("." + r.value.1)
  {
    var number := TakeNumber(s);
    if number.None? then None else
    var dot := TakeDot(number.value.1);
    if dot.None? then None else Some((number.value.0, dot.value))
  }

  lemma TakeDecimalDot(n: nat, rest: string)
    requires n < 100
    ensures TakeNumberDot(Decimal(n) + ("." + rest)) == Some((n, rest))
  {
    assert ("." + rest)[0] == '.';
    TakeDecimal(n, "." + rest);
    assert ("." + rest)[1..] == rest;
  }

  /** `VERSION_RE.fullmatch`: whatever is read is bounded and prints back to the text. */
  function ReadVersion(s: string): (r: Option<Release>)
    ensures r.Some? ==> Bounded(r.value) && Show(r.value) == s
  {
    var major := TakeNumberDot(s);
    if major.None? then None else
    var minor := TakeNumberDot(major.value.1);
    if minor.None? then None else
    var patch := TakeNumber(minor.value.1);
    if patch.None? then None else
    var pre := ReadPre(patch.value.1);
    if pre.None? then None else Some(Release(major.value.0, minor.value.0, patch.value.0, pre.value))
  }

  /** The texts accepted are exactly the canonical texts of the bounded releases, and each text
      names one release. */
  lemma ReadShow(r: Release)
    requires Bounded(r)
    ensures ReadVersion(Show(r)) == Some(r)
  {
    ReadShowPre(r.pre);
    var patch := Decimal(r.patch) + ShowPre(r.pre);
    TakeDecimalDot(r.major, Decimal(r.minor) + ("." + patch));
    TakeDecimalDot(r.minor, patch);
    TakeDecimal(r.patch, ShowPre(r.pre));
  }

  /** `validate_version`. */
  function ValidateVersion(s: string): (r: Result<string, VersionError>)
    ensures r.Success? ==> r.value == s
    ensures r.Success? <==>
            exists v: Release :: Bounded(v) && Show(v) == s && !(v.major == 0 && v.minor == 0)
  {
    var v := ReadVersion(s);
    assert forall w: Release | Bounded(w) && Show(w) == s :: v == Some(w) by {
      forall w: Release | Bounded(w) && Show(w) == s ensures v == Some(w) {
        ReadShow(w);
      }
    }
    if v.None? then Failure(Malformed)
    else if v.value.major == 0 && v.value.minor == 0 then Failure(ZeroMajorMinor)
    else Success(s)
  }

  // ---- Where a version ends inside a longer name --------------------------------------------

  /** Text that may follow a version in an asset name: an extension, or a hyphen and a target that
      starts like no prerelease channel. */
  predicate Follows(s: string) {
    && |s| >= 4
    && (s[0] == '.' || (s[0] == '-' && (s[1] == 'x' || (s[1] == 'a' && (s[2] == 'a' || s[2] == 'r')))))
  }

  lemma DecimalsEnd(a: nat, b: nat, x: string, y: string)
    requires a < 100 && b < 100 && !StartsWithDigit(x) && !StartsWithDigit(y)
    requires Decimal(a) + x == Decimal(b) + y
    ensures a == b && x == y
  {
    TakeDecimal(a, x);
    TakeDecimal(b, y);
  }

  lemma DotDecimalsEnd(a: nat, b: nat, x: string, y: string)
    requires a < 100 && b < 100 && Decimal(a) + ("." + x) == Decimal(b) + ("." + y)
    ensures a == b && x == y
  {
    TakeDecimalDot(a, x);
    TakeDecimalDot(b, y);
  }

  lemma PreOpens(pre: Option<Prerelease>, x: string)
    requires pre.Some? ==> pre.value.number < 32
    requires Follows(x)
    ensures !StartsWithDigit(ShowPre(pre) + x)
    ensures pre.None? ==> ShowPre(pre) + x == x
    ensures pre.Some? ==> !Follows(ShowPre(pre) + x)
  {
    if pre.Some? {
      var s := ShowPre(pre) + x;
      assert s[0] == '-' && s[1] == ChannelName(pre.value.channel)[0];
      assert s[2] == ChannelName(pre.value.channel)[1];
    } else {
      assert ShowPre(pre) + x == x;
    }
  }

  lemma PreTail(p: Prerelease, x: string)
    requires p.number < 32
    ensures (ShowPre(Some(p)) + x)[1..] == ChannelName(p.channel) + ("." + (Decimal(p.number) + x))
  {
    var name, digits := ChannelName(p.channel), Decimal(p.number);
    assert ("." + digits) + x == "." + (digits + x);
    assert (name + ("." + digits)) + x == name + (("." + digits) + x);
    assert ("-" + (name + ("." + digits)) + x)[1..] == (name + ("." + digits)) + x;
  }

  lemma PresEnd(a: Option<Prerelease>, b: Option<Prerelease>, x: string, y: string)
    requires a.Some? ==> a.value.number < 32
    requires b.Some? ==> b.value.number < 32
    requires Follows(x) && Follows(y) && ShowPre(a) + x == ShowPre(b) + y
    ensures a == b && x == y
  {
    PreOpens(a, x);
    PreOpens(b, y);
    if a.Some? {
      var m, n := Decimal(a.value.number) + x, Decimal(b.value.number) + y;
      PreTail(a.value, x);
      PreTail(b.value, y);
      TakeChannelName(a.value.channel, "." + m);
      TakeChannelName(b.value.channel, "." + n);
      assert ("." + m)[1..] == m && ("." + n)[1..] == n;
      DecimalsEnd(a.value.number, b.value.number, x, y);
    }
  }

  lemma DotTail(a: string, b: string, x: string)
    ensures (a + ("." + b)) + x == a + ("." + (b + x))
  {
    assert ("." + b) + x == "." + (b + x);
  }

  lemma ShowTail(a: Release, x: string)
    requires Bounded(a)
    ensures Show(a) + x
         == Decimal(a.major) + ("." + (Decimal(a.minor) + ("." + (Decimal(a.patch) + (ShowPre(a.pre) + x)))))
  {
    hide ShowPre, Decimal;
    var patch := Decimal(a.patch) + ShowPre(a.pre);
    assert patch + x == Decimal(a.patch) + (ShowPre(a.pre) + x);
    DotTail(Decimal(a.minor), patch, x);
    DotTail(Decimal(a.major), Decimal(a.minor) + ("." + patch), x);
  }

  /** The version inside an asset name is unambiguous, although one version can be a prefix of
      another ("1.2.3" of "1.2.3-rc.1" and of "1.2.30"). */
  lemma VersionsEnd(a: Release, b: Release, x: string, y: string)
    requires Bounded(a) && Bounded(b) && Follows(x) && Follows(y)
    requires Show(a) + x == Show(b) + y
    ensures a == b && x == y
  {
    var p, q := ShowPre(a.pre) + x, ShowPre(b.pre) + y;
    PreOpens(a.pre, x);
    PreOpens(b.pre, y);
    var c, d := Decimal(a.patch) + p, Decimal(b.patch) + q;
    ShowTail(a, x);
    ShowTail(b, y);
    hide Show, ShowPre, Follows, StartsWithDigit;
    DotDecimalsEnd(a.major, b.major, Decimal(a.minor) + ("." + c), Decimal(b.minor) + ("." + d));
    DotDecimalsEnd(a.minor, b.minor, c, d);
    DecimalsEnd(a.patch, b.patch, p, q);
    PresEnd(a.pre, b.pre, x, y);
  }

  // ---- The other grammar ---------------------------------------------------------------------

  /** `0|[1-9][0-9]*`, taking every digit; the rest of the text. */
  function TakeNumeral(s: string): Option<string> {
    var k := DigitRun(s);
    if k == 0 || (s[0] == '0' && k > 1) then None else Some(s[k..])
  }

  lemma TakeNumeralDecimal(n: nat, rest: string)
    requires n < 100 && !StartsWithDigit(rest)
    ensures TakeNumeral(Decimal(n) + rest) == Some(rest)
  {
    var s := Decimal(n) + rest;
    assert s[|Decimal(n)|..] == rest;
    assert rest != "" ==> s[|Decimal(n)|] == rest[0];
    assert DigitRun(s) == |Decimal(n)|;
  }

  predicate IsIdentifierChar(c: char) {
    IsDigit(c) || 'a' <= c <= 'z' || 'A' <= c <= 'Z' || c == '-'
  }

  predicate Identifier(part: string) {
    part != "" && forall i :: 0 <= i < |part| ==> IsIdentifierChar(part[i])
  }

  predicate ZeroPadded(part: string) {
    |part| > 1 && part[0] == '0' && forall i :: 0 <= i < |part| ==> IsDigit(part[i])
  }

  /** The prerelease group and the check on its numeric identifiers. */
  function StrictPre(rest: string): Outcome<VersionError> {
    if rest == "" then Pass
    else if rest[0] != '-' then Fail(Malformed)
    else
      var parts := Split(rest[1..], '.');
      if exists i :: 0 <= i < |parts| && !Identifier(parts[i]) then Fail(Malformed)
      else if exists i :: 0 <= i < |parts| && ZeroPadded(parts[i]) then Fail(LeadingZero)
      else Pass
  }

  function TakeNumeralDot(s: string): Option<string> {
    var a := TakeNumeral(s);
    if a.None? then None else TakeDot(a.value)
  }

  /** `strict_version`. */
  function StrictVersion(s: string): (r: Result<string, VersionError>) {
    var a := TakeNumeralDot(s);
    if a.None? then Failure(Malformed) else
    var b := TakeNumeralDot(a.value);
    if b.None? then Failure(Malformed) else
    var c := TakeNumeral(b.value);
    if c.None? then Failure(Malformed) else
    match StrictPre(c.value)
    case Pass => Success(s)
    case Fail(e) => Failure(e)
  }

  lemma TakeNumeralDecimalDot(n: nat, rest: string)
    requires n < 100
    ensures TakeNumeralDot(Decimal(n) + ("." + rest)) == Some(rest)
  {
    TakeNumeralDecimal(n, "." + rest);
    assert ("." + rest)[1..] == rest;
  }

  lemma DecimalPlain(n: nat)
    requires n < 100
    ensures '.' !in Decimal(n) && Identifier(Decimal(n)) && !ZeroPadded(Decimal(n))
  {
  }

  lemma ChannelPlain(c: Channel)
    ensures '.' !in ChannelName(c) && Identifier(ChannelName(c)) && !ZeroPadded(ChannelName(c))
  {
  }

  lemma BoundedPreIsStrict(p: Prerelease)
    requires p.number < 32
    ensures StrictPre(ShowPre(Some(p))) == Pass
  {
    var name, number := ChannelName(p.channel), Decimal(p.number);
    assert ShowPre(Some(p))[1..] == name + ("." + number);
    DecimalPlain(p.number);
    ChannelPlain(p.channel);
    SplitFirst(name, number, '.');
    SplitPlain(number, '.');
    assert Split(ShowPre(Some(p))[1..], '.') == [name, number];
  }

  /** Every version the asset policy accepts is accepted by the manifest generator. */
  lemma ValidIsStrict(s: string)
    requires ValidateVersion(s).Success?
    ensures StrictVersion(s) == Success(s)
  {
    var r := ReadVersion(s).value;
    var pre := ShowPre(r.pre);
    ReadShowPre(r.pre);
    var patch := Decimal(r.patch) + pre;
    TakeNumeralDecimalDot(r.major, Decimal(r.minor) + ("." + patch));
    TakeNumeralDecimalDot(r.minor, patch);
    TakeNumeralDecimal(r.patch, pre);
    if r.pre.Some? {
      BoundedPreIsStrict(r.pre.value);
    }
  }

  // ---- The two grammars, spelled out -----------------------------------------------------------

  /** Canonical texts look as expected. */
  lemma ShownVersions()
    ensures Show(Release(1, 20, 3, None)) == "1.20.3"
    ensures Show(Release(0, 1, 99, Some(Prerelease(Rc, 4)))) == "0.1.99-rc.4"
  {
  }

  lemma ShownPrereleases()
    ensures ShowPre(Some(Prerelease(Alpha, 31))) == "-alpha.31" && ShowPre(Some(Prerelease(Beta, 0))) == "-beta.0"
  {
  }

  /** Digits without a leading zero. */
  predicate Numeral(s: string) {
    s != "" && (forall i :: 0 <= i < |s| ==> IsDigit(s[i])) && (s[0] == '0' ==> |s| == 1)
  }

  lemma {:induction false} DigitsRun(digits: string, rest: string)
    requires (forall i :: 0 <= i < |digits| ==> IsDigit(digits[i])) && !StartsWithDigit(rest)
    ensures DigitRun(digits + rest) == |digits|
  {
    var s := digits + rest;
    if digits == "" {
      assert s == rest;
    } else {
      DigitsRun(digits[1..], rest);
      assert s[1..] == digits[1..] + rest && s[0] == digits[0];
    }
  }

  lemma NumeralTaken(a: string, rest: string)
    requires Numeral(a) && !StartsWithDigit(rest)
    ensures TakeNumeral(a + rest) == Some(rest)
  {
    DigitsRun(a, rest);
    assert (a + rest)[|a|..] == rest && (a + rest)[0] == a[0];
    hide DigitRun;
  }

  lemma TakenNumeral(s: string) returns (a: string)
    requires TakeNumeral(s).Some?
    ensures Numeral(a) && !StartsWithDigit(TakeNumeral(s).value) && s == a + TakeNumeral(s).value
  {
    a := s[..DigitRun(s)];
    assert s == a + s[DigitRun(s)..];
  }

  /** Three numerals, then nothing or a hyphen and identifiers of letters, digits and hyphens between
      dots, none of them a number with a leading zero. */
  ghost predicate StrictForm(s: string) {
    exists a, b, c, rest :: Numeral(a) && Numeral(b) && Numeral(c) && StrictTail(rest) &&
                            s == a + ("." + (b + ("." + (c + rest))))
  }

  ghost predicate StrictTail(rest: string) {
    || rest == ""
    || (rest[0] == '-' && forall i :: 0 <= i < |Split(rest[1..], '.')| ==>
          Identifier(Split(rest[1..], '.')[i]) && !ZeroPadded(Split(rest[1..], '.')[i]))
  }

  lemma StrictTailDecides(rest: string)
    ensures StrictPre(rest) == Pass <==> StrictTail(rest)
    ensures StrictTail(rest) ==> !StartsWithDigit(rest)
  {
    hide Identifier, ZeroPadded, Split;
  }

  /** `strict_version` accepts exactly these texts and returns them unchanged. */
  lemma StrictExactly(s: string)
    ensures StrictVersion(s).Success? <==> StrictForm(s)
    ensures StrictVersion(s).Success? ==> StrictVersion(s) == Success(s)
  {
    hide TakeNumeral, Numeral, StrictPre, StrictTail, StartsWithDigit;
    if StrictVersion(s).Success? {
      var a := TakenNumeral(s);
      var s' := TakeNumeralDot(s).value;
      var b := TakenNumeral(s');
      var s'' := TakeNumeralDot(s').value;
      var c := TakenNumeral(s'');
      var rest := TakeNumeral(s'').value;
      StrictTailDecides(rest);
      assert s == a + ("." + (b + ("." + (c + rest))));
    }
    if StrictForm(s) {
      var a, b, c, rest :| Numeral(a) && Numeral(b) && Numeral(c) && StrictTail(rest) &&
                           s == a + ("." + (b + ("." + (c + rest))));
      StrictTailDecides(rest);
      DottedNumeral(a, b + ("." + (c + rest)));
      DottedNumeral(b, c + rest);
      NumeralTaken(c, rest);
    }
  }

  lemma DottedNumeral(a: string, rest: string)
    requires Numeral(a)
    ensures TakeNumeralDot(a + ("." + rest)) == Some(rest)
  {
    hide Numeral, TakeNumeral;
    assert !StartsWithDigit("." + rest);
    NumeralTaken(a, "." + rest);
    assert ("." + rest)[1..] == rest;
  }

  /** Identifiers of a prerelease: letters, digits and hyphens; a number must not be padded. */
  lemma IdentifierMeans(part: string)
    ensures Identifier(part) <==>
            part != "" && forall c :: c in part ==> '0' <= c <= '9' || 'A' <= c <= 'Z' || 'a' <= c <= 'z' || c == '-'
    ensures ZeroPadded(part) <==> |part| > 1 && part[0] == '0' && forall c :: c in part ==> '0' <= c <= '9'
  {
    assert forall i :: 0 <= i < |part| ==> part[i] in part;
  }
}
