/** Reconstruction of the original sources from a pin-only revision: a chain of guarded inverse
    substitutions that is exactly reversible (packaging/candle_pin_revision.py:61-89, 133-162). */
module PinRevision {
  import opened Outcomes
  import opened TextSearch

  /** A pin substitution `before` -> `after`; reconstruction runs it backwards. */
  datatype Edit = Edit(before: string, after: string)

  /** Python's `s.replace(from, to, 1)`. */
  function ReplaceFirst(s: string, from: string, to: string): string {
    var k := Find(s, from);
    if k == -1 then s else s[..k] + to + s[k + |from|..]
  }

  /** A border of `s`: a proper prefix of length `b` that is also a suffix. */
  ghost predicate Border(s: string, b: int) {
    0 < b < |s| && forall i :: 0 <= i < b ==> s[i] == s[|s| - b + i]
  }

  ghost predicate SameBorder(x: string, y: string, b: int)
    requires 0 < b < |x| == |y|
  {
    forall i :: 0 <= i < b || |x| - b <= i < |x| ==> x[i] == y[i]
  }

  /** Same length, and wherever two copies of `before` could overlap, `after` agrees with it. */
  ghost predicate Exchangeable(e: Edit) {
    && |e.before| == |e.after| > 0
    && forall b :: Border(e.before, b) ==> SameBorder(e.before, e.after, b)
  }

  /** The guard: exactly one countable `after` and no `before`. */
  predicate Unambiguous(s: string, e: Edit)
    requires e.after != "" && e.before != ""
  {
    Count(s, e.after) == 1 && Count(s, e.before) == 0
  }

  /** Undo one substitution. */
  function UndoStep(s: string, e: Edit): Option<string>
    requires e.after != "" && e.before != ""
  {
    if Unambiguous(s, e) then Some(ReplaceFirst(s, e.after, e.before)) else None
  }

  function RedoStep(s: string, e: Edit): string {
    ReplaceFirst(s, e.before, e.after)
  }

  /** `t` is `s` with the window at `k` holding `before` instead of `after`. */
  ghost predicate Undone(s: string, t: string, e: Edit, k: int) {
    && |e.before| == |e.after| && 0 <= k && k + |e.before| <= |s| == |t|
    && (forall i :: 0 <= i < |s| && !(k <= i < k + |e.before|) ==> t[i] == s[i])
    && (forall i :: k <= i < k + |e.before| ==> t[i] == e.before[i - k] && s[i] == e.after[i - k])
  }

  lemma UndoneBySplice(s: string, e: Edit, k: int)
    requires |e.before| == |e.after| && OccursAt(s, e.after, k)
    ensures Undone(s, s[..k] + e.before + s[k + |e.after|..], e, k)
  {
    assert forall i :: k <= i < k + |e.after| ==> s[i] == s[k..k + |e.after|][i - k];
  }

  /** Where a copy of `before` overlaps the window, the window still reads as in `s`. */
  lemma OverlapUnchanged(s: string, t: string, e: Edit, k: int, j: int, i: int)
    requires Exchangeable(e) && Undone(s, t, e, k) && j != k && 0 <= j && j + |e.before| <= |t|
    requires forall x :: j <= x < j + |e.before| ==> t[x] == e.before[x - j]
    requires j <= i < j + |e.before|
    ensures s[i] == t[i]
  {
    var n := |e.before|;
    if k <= i < k + n {
      var b := if j < k then j + n - k else k + n - j;
      assert Border(e.before, b) by {
        forall x | 0 <= x < b ensures e.before[x] == e.before[n - b + x] {
          var at := if j < k then k + x else j + x;
          assert t[at] == e.before[at - k] && t[at] == e.before[at - j];
        }
      }
      assert SameBorder(e.before, e.after, b);
    }
  }

  /** Undoing creates exactly one occurrence of `before`, in the window it replaced. */
  lemma UndoneOccurrence(s: string, t: string, e: Edit, k: int, j: int)
    requires Exchangeable(e) && Undone(s, t, e, k) && forall i :: !OccursAt(s, e.before, i)
    requires OccursAt(t, e.before, j)
    ensures j == k
  {
    assert forall x :: j <= x < j + |e.before| ==> t[x] == t[j..j + |e.before|][x - j];
    if j != k {
      forall i | j <= i < j + |e.before| ensures s[i] == t[i] {
        OverlapUnchanged(s, t, e, k, j, i);
      }
      SameStretch(t, s, e.before, j);
    }
  }

  lemma GuardFacts(s: string, e: Edit)
    requires e.before != "" && e.after != "" && Unambiguous(s, e)
    ensures OccursAt(s, e.after, Find(s, e.after)) && forall i :: !OccursAt(s, e.before, i)
  {
    CountZero(s, e.after);
    CountZero(s, e.before);
  }

  lemma RedoWindow(s: string, t: string, e: Edit, k: int)
    requires Undone(s, t, e, k) && Find(t, e.before) == k
    ensures RedoStep(t, e) == s
  {
    hide Find, OccursAt;
    assert t[..k] == s[..k] && t[k + |e.before|..] == s[k + |e.after|..];
    assert s[k..k + |e.after|] == e.after;
    assert s == s[..k] + s[k..k + |e.after|] + s[k + |e.after|..];
  }

  lemma EqualLengths(e: Edit)
    requires Exchangeable(e)
    ensures |e.before| == |e.after| > 0
  {
  }

  lemma WindowHoldsBefore(s: string, t: string, e: Edit, k: int)
    requires Undone(s, t, e, k)
    ensures OccursAt(t, e.before, k) && Find(t, e.before) != -1
  {
    hide Find;
    assert t[k..k + |e.before|] == e.before;
  }

  /** One undone substitution: the window, the length, and the way back. */
  lemma UndoRedo(s: string, e: Edit)
    requires Exchangeable(e) && UndoStep(s, e).Some?
    ensures var t, k := UndoStep(s, e).value, Find(s, e.after);
            && Undone(s, t, e, k) && Find(t, e.before) == k
            && RedoStep(t, e) == s
  {
    GuardFacts(s, e);
    EqualLengths(e);
    hide Exchangeable, Unambiguous, Find, RedoStep, OccursAt, Undone;
    var t, k := UndoStep(s, e).value, Find(s, e.after);
    UndoneBySplice(s, e, k);
    WindowHoldsBefore(s, t, e, k);
    UndoneOccurrence(s, t, e, k, Find(t, e.before));
    RedoWindow(s, t, e, k);
  }

  // ---- Chains --------------------------------------------------------------------------------

  ghost predicate Chain(edits: seq<Edit>) {
    forall e :: e in edits ==> Exchangeable(e)
  }

  predicate Spelled(edits: seq<Edit>) {
    forall e :: e in edits ==> e.before != "" && e.after != ""
  }

  /** The inverse substitutions, first edit first; any ambiguous one stops the chain. */
  function Undo(s: string, edits: seq<Edit>): Option<string>
    requires Spelled(edits)
    decreases |edits|
  {
    if edits == [] then Some(s)
    else
      var step := UndoStep(s, edits[0]);
      if step.None? then None else Undo(step.value, edits[1..])
  }

  /** The forward edits in reverse order. */
  function Redo(s: string, edits: seq<Edit>): string {
    if edits == [] then s else RedoStep(Redo(s, edits[1..]), edits[0])
  }

  /** Position `i` lies outside every window replaced along the chain. */
  ghost predicate Outside(s: string, edits: seq<Edit>, i: int)
    requires Spelled(edits)
    decreases |edits|
  {
    if edits == [] || UndoStep(s, edits[0]).None? then true
    else
      var k := Find(s, edits[0].after);
      !(k <= i < k + |edits[0].after|) && Outside(UndoStep(s, edits[0]).value, edits[1..], i)
  }

  /** Every chain that passes its guards keeps the length, changes nothing outside its windows,
      and is undone exactly by the forward edits in reverse order. */
  lemma {:induction false} ChainReversible(s: string, edits: seq<Edit>)
    requires Spelled(edits) && Chain(edits) && Undo(s, edits).Some?
    ensures var t := Undo(s, edits).value;
            && |t| == |s| && Redo(t, edits) == s
            && forall i :: 0 <= i < |s| && Outside(s, edits, i) ==> t[i] == s[i]
    decreases |edits|
  {
    hide UndoStep, RedoStep, Exchangeable;
    if edits != [] {
      UndoRedo(s, edits[0]);
      ChainReversible(UndoStep(s, edits[0]).value, edits[1..]);
    }
  }

  /** Pin literals: quoted, with `=` directly after the opening quote and nowhere else. */
  predicate PinLiteral(p: string) {
    && |p| >= 3 && p[0] == '"' && p[1] == '=' && p[|p| - 1] == '"'
    && forall i :: 0 <= i < |p| && i != 1 ==> p[i] != '='
  }

  lemma NoLongBorder(p: string, b: int)
    requires PinLiteral(p) && 1 < b < |p|
    ensures !Border(p, b)
  {
    assert p[1] != p[|p| - b + 1];
  }

  /** Two pin literals of the same length may always be exchanged. */
  lemma PinLiteralsExchangeable(e: Edit)
    requires PinLiteral(e.before) && PinLiteral(e.after) && |e.before| == |e.after|
    ensures Exchangeable(e)
  {
    forall b | Border(e.before, b) ensures SameBorder(e.before, e.after, b) {
      if b > 1 {
        NoLongBorder(e.before, b);
      }
    }
  }

  /** The edits the source permits for each path. */
  function AllowedEdits(path: string): Option<seq<Edit>> {
    if path == "SRC/neothd/Cargo.toml" then
      Some([Edit("\"=9.0.0\"", "\"=9.0.5\""), Edit("\"=0.63.2\"", "\"=0.64.1\"")])
    else if path == "SRC/vendor/candle-core/Cargo.toml" || path == "SRC/vendor/candle-core/Cargo.toml.orig" then
      Some([Edit("\"=9.0.0\"", "\"=9.0.5\"")])
    else None
  }

  const SSH_EDIT := Edit("\"=0.64.1\"", "\"=0.65.0\"")

  lemma SourceEditsExchangeable(path: string)
    ensures Exchangeable(SSH_EDIT) && SSH_EDIT.before != "" && SSH_EDIT.after != ""
    ensures AllowedEdits(path).Some? ==> Chain(AllowedEdits(path).value) && Spelled(AllowedEdits(path).value)
  {
    PinLiteralsExchangeable(SSH_EDIT);
    PinLiteralsExchangeable(Edit("\"=9.0.0\"", "\"=9.0.5\""));
    PinLiteralsExchangeable(Edit("\"=0.63.2\"", "\"=0.64.1\""));
  }

  // ---- The reconstruction --------------------------------------------------------------------

  datatype PinError =
    | SshSchema | SshReceiptDiffers | SshPath | SshEditDiffers | SshPredecessorDiffers | SshDigest | SshAmbiguous | SshReconstructed
    | PathEscape | EditsDiffer | EffectiveDigest | Ambiguous | ReconstructedDigest | InvalidSha

  datatype SshReceipt = SshReceipt(schema: string, predecessorRevision: string, path: string, before: string, after: string, edit: Edit)

  datatype Change = Change(path: string, before: string, after: string, edits: seq<Edit>)

  /** The SSH pin undone. */
  function UndoSsh(current: string): Option<string> {
    assert SSH_EDIT.before != "" && SSH_EDIT.after != "";
    UndoStep(current, SSH_EDIT)
  }

  /** The receipt binds the predecessor receipt, the one permitted edit and both digests. */
  predicate SshSuccessor(rec: SshReceipt, revision: string, current: string, expected: string, hash: string -> string) {
    && rec.schema == "neoth.ssh-pin-successor.v1" && rec.path == "SRC/neothd/Cargo.toml" && rec.edit == SSH_EDIT
    && Hex(rec.predecessorRevision, 64) && hash(revision) == rec.predecessorRevision
    && Hex(rec.before, 64) && rec.before == expected && Hex(rec.after, 64) && hash(current) == rec.after
    && UndoSsh(current).Some? && hash(UndoSsh(current).value) == rec.before
  }

  /** `_ssh_predecessor`. A missing receipt leaves the bytes as they are. */
  method SshPredecessor(receipt: Option<SshReceipt>, revision: string, current: string, expected: string,
                        hash: string -> string) returns (r: Result<string, PinError>)
    ensures receipt.None? ==> r == Success(current)
    ensures receipt.Some? ==> (r.Success? <==> SshSuccessor(receipt.value, revision, current, expected, hash))
    ensures receipt.Some? && r.Success? ==> UndoSsh(current) == Some(r.value)
  {
    if receipt.None? {
      return Success(current);
    }
    var rec := receipt.value;
    if rec.schema != "neoth.ssh-pin-successor.v1" {
      return Failure(SshSchema);
    }
    if !Hex(rec.predecessorRevision, 64) || hash(revision) != rec.predecessorRevision {
      return Failure(SshReceiptDiffers);
    }
    if rec.path != "SRC/neothd/Cargo.toml" {
      return Failure(SshPath);
    }
    if rec.edit != SSH_EDIT {
      return Failure(SshEditDiffers);
    }
    if !Hex(rec.before, 64) || rec.before != expected {
      return Failure(SshPredecessorDiffers);
    }
    if !Hex(rec.after, 64) || hash(current) != rec.after {
      return Failure(SshDigest);
    }
    var step := UndoSsh(current);
    if step.None? {
      return Failure(SshAmbiguous);
    }
    if hash(step.value) != rec.before {
      return Failure(SshReconstructed);
    }
    return Success(step.value);
  }

  /** The substitution loop of `revision_sources`. */
  method UndoLoop(current: string, edits: seq<Edit>) returns (previous: Option<string>)
    requires Spelled(edits)
    ensures previous == Undo(current, edits)
  {
    hide UndoStep;
    var text := current;
    for i := 0 to |edits|
      invariant Undo(text, edits[i..]) == Undo(current, edits)
    {
      var step := UndoStep(text, edits[i]);
      assert edits[i..][1..] == edits[i + 1..];
      if step.None? {
        return None;
      }
      text := step.value;
    }
    return Some(text);
  }

  /** All substitutions undone for one path, the SSH successor first. */
  function FullChain(path: string, ssh: bool): seq<Edit>
    requires AllowedEdits(path).Some?
  {
    (if ssh then [SSH_EDIT] else []) + AllowedEdits(path).value
  }

  /** The recorded change is exact: permitted edits, matching digests before and after, and a
      chain of unambiguous substitutions between them. */
  predicate RevisionHolds(change: Change, baseline: string, onDisk: string, ssh: Option<SshReceipt>, revision: string,
                          hash: string -> string) {
    var applies := ssh.Some? && change.path == "SRC/neothd/Cargo.toml";
    && AllowedEdits(change.path) == Some(change.edits) && Spelled(change.edits)
    && Hex(change.before, 64) && change.before == baseline && Hex(change.after, 64)
    && (applies ==> SshSuccessor(ssh.value, revision, onDisk, change.after, hash))
    && var effective := if applies then UndoSsh(onDisk).value else onDisk;
    && hash(effective) == change.after
    && Undo(effective, change.edits).Some? && hash(Undo(effective, change.edits).value) == change.before
  }

  /** The body of the change loop of `revision_sources` for one path: the reconstructed and the
      effective bytes. Success means the recorded digests hold, the reconstruction is the
      complete inverse chain, and re-applying the forward edits restores the file on disk. */
  method Reconstruct(change: Change, baseline: string, onDisk: string, ssh: Option<SshReceipt>, revision: string,
                     hash: string -> string) returns (r: Result<(string, string), PinError>)
    ensures r.Success? <==> RevisionHolds(change, baseline, onDisk, ssh, revision, hash)
    ensures r.Success? ==> AllowedEdits(change.path) == Some(change.edits)
    ensures r.Success? ==> var applies := ssh.Some? && change.path == "SRC/neothd/Cargo.toml";
              var chain := FullChain(change.path, applies);
              && Spelled(chain) && Undo(onDisk, chain) == Some(r.value.0)
              && Redo(r.value.0, chain) == onDisk && |r.value.0| == |onDisk|
              && (forall i :: 0 <= i < |onDisk| && Outside(onDisk, chain, i) ==> r.value.0[i] == onDisk[i])
    ensures r.Success? ==> hash(r.value.0) == change.before == baseline && hash(r.value.1) == change.after
  {
    if AllowedEdits(change.path).None? {
      return Failure(PathEscape);
    }
    if change.edits != AllowedEdits(change.path).value {
      return Failure(EditsDiffer);
    }
    if !Hex(change.before, 64) || change.before != baseline {
      return Failure(InvalidSha);
    }
    SourceEditsExchangeable(change.path);
    hide AllowedEdits, UndoStep, Exchangeable, SshSuccessor, Hex;
    var current := onDisk;
    var applies := ssh.Some? && change.path == "SRC/neothd/Cargo.toml";
    if change.path == "SRC/neothd/Cargo.toml" {
      var predecessor := SshPredecessor(ssh, revision, current, change.after, hash);
      if predecessor.Failure? {
        return Failure(predecessor.error);
      }
      current := predecessor.value;
    }
    if !Hex(change.after, 64) || hash(current) != change.after {
      return Failure(EffectiveDigest);
    }
    var previous := UndoLoop(current, change.edits);
    if previous.None? {
      return Failure(Ambiguous);
    }
    if hash(previous.value) != change.before {
      return Failure(ReconstructedDigest);
    }
    ghost var chain := FullChain(change.path, applies);
    if applies {
      assert chain[0] == SSH_EDIT && chain[1..] == change.edits;
    } else {
      assert chain == change.edits;
    }
    ChainReversible(onDisk, chain);
    return Success((previous.value, current));
  }

  // ---- What the count guard guarantees -------------------------------------------------------

  lemma FindUnfolds(s: string, pattern: string)
    requires pattern != "" && Find(s, pattern) != -1
    ensures 0 <= Find(s, pattern) && Find(s, pattern) + |pattern| <= |s|
    ensures Find(s, pattern) == 0 <==> s[..|pattern|] == pattern
    ensures Find(s, pattern) > 0 ==> s != "" && Find(s[1..], pattern) == Find(s, pattern) - 1
  {
    hide OccursAt;
    assert OccursAt(s, pattern, Find(s, pattern)) ==> 0 <= Find(s, pattern) && Find(s, pattern) + |pattern| <= |s| by {
      OccursInside(s, pattern, Find(s, pattern));
    }
  }

  lemma OccursInside(s: string, pattern: string, k: int)
    ensures OccursAt(s, pattern, k) ==> 0 <= k && k + |pattern| <= |s|
  {
  }

  lemma CountUnfolds(s: string, pattern: string)
    requires 0 < |pattern| <= |s|
    ensures Count(s, pattern) ==
            if s[..|pattern|] == pattern then 1 + Count(s[|pattern|..], pattern) else Count(s[1..], pattern)
  {
  }

  /** Counting continues right after the first occurrence. */
  lemma {:induction false} CountAfterFind(s: string, pattern: string)
    requires pattern != "" && Find(s, pattern) != -1
    ensures 0 <= Find(s, pattern) && Find(s, pattern) + |pattern| <= |s|
    ensures Count(s, pattern) == 1 + Count(s[Find(s, pattern) + |pattern|..], pattern)
  {
    hide Find, OccursAt, Count;
    FindUnfolds(s, pattern);
    CountUnfolds(s, pattern);
    var k := Find(s, pattern);
    if k > 0 {
      CountAfterFind(s[1..], pattern);
      assert s[1..][k - 1 + |pattern|..] == s[k + |pattern|..];
    }
  }

  /** Two copies of a pin literal share at most the quote between them. */
  lemma PinsShareOneQuote(s: string, p: string, q: string, k: int, j: int)
    requires PinLiteral(p) && PinLiteral(q) && |p| == |q|
    requires OccursAt(s, p, k) && OccursAt(s, q, j) && k < j < k + |p|
    ensures j == k + |p| - 1
  {
    assert forall i :: k <= i < k + |p| ==> s[i] == s[k..k + |p|][i - k];
    assert s[j + 1] == s[j..j + |q|][1] == '=';
  }

  lemma NoneAfter(s: string, pattern: string, from: nat, j: int)
    requires pattern != "" && from <= j && from <= |s| && Count(s[from..], pattern) == 0
    ensures !OccursAt(s, pattern, j)
  {
    CountZero(s[from..], pattern);
    hide Count;
    assert !OccursAt(s[from..], pattern, j - from);
    if j + |pattern| <= |s| {
      assert s[from..][j - from..j - from + |pattern|] == s[j..j + |pattern|];
    }
  }

  lemma FoundFirst(s: string, pattern: string, j: int)
    requires OccursAt(s, pattern, j)
    ensures 0 <= Find(s, pattern) <= j && Find(s, pattern) + |pattern| <= |s|
    ensures OccursAt(s, pattern, Find(s, pattern))
  {
  }

  /** Where the new pin stands in a text that passes the guard: at the window, and possibly once
      more at the window's closing quote. */
  lemma GuardedPins(s: string, e: Edit, j: int)
    requires PinLiteral(e.after) && e.after != "" && e.before != "" && Unambiguous(s, e) && OccursAt(s, e.after, j)
    ensures j == Find(s, e.after) || j == Find(s, e.after) + |e.after| - 1
  {
    hide Count, Find, OccursAt, PinLiteral;
    FoundFirst(s, e.after, j);
    var k := Find(s, e.after);
    CountAfterFind(s, e.after);
    if j >= k + |e.after| {
      NoneAfter(s, e.after, k + |e.after|, j);
    } else if j != k {
      PinsShareOneQuote(s, e.after, e.after, k, j);
    }
  }

  lemma LongPin(p: string)
    requires PinLiteral(p)
    ensures |p| >= 3
  {
  }

  /** The guard ensures a single pin exactly when no copy starts at the closing quote of the one
      that is found. */
  lemma GuardMeansSinglePin(s: string, e: Edit)
    requires PinLiteral(e.after) && e.before != "" && Unambiguous(s, e)
    ensures (forall j :: OccursAt(s, e.after, j) ==> j == Find(s, e.after)) <==>
            !OccursAt(s, e.after, Find(s, e.after) + |e.after| - 1)
  {
    hide OccursAt, Find, PinLiteral, Count, Unambiguous;
    LongPin(e.after);
    var k := Find(s, e.after);
    AllGuardedPins(s, e, k);
    OneOfTwo(s, e.after, k, k + |e.after| - 1);
  }

  lemma AllGuardedPins(s: string, e: Edit, k: int)
    requires PinLiteral(e.after) && e.before != "" && e.after != "" && Unambiguous(s, e) && k == Find(s, e.after)
    ensures |e.after| >= 3 && forall j :: OccursAt(s, e.after, j) ==> j == k || j == k + |e.after| - 1
  {
    LongPin(e.after);
    hide OccursAt, Find, PinLiteral, Count, Unambiguous;
    forall j | OccursAt(s, e.after, j) ensures j == k || j == k + |e.after| - 1 {
      GuardedPins(s, e, j);
    }
  }

  lemma OneOfTwo(s: string, p: string, k: int, last: int)
    requires k != last && forall j :: OccursAt(s, p, j) ==> j == k || j == last
    ensures (forall j :: OccursAt(s, p, j) ==> j == k) <==> !OccursAt(s, p, last)
  {
    hide OccursAt;
  }

  /** Outside the window, the two texts agree on every copy of a pin. */
  lemma PinStays(s: string, t: string, e: Edit, k: int, j: int)
    requires PinLiteral(e.before) && PinLiteral(e.after) && Undone(s, t, e, k) && e.before != e.after
    requires OccursAt(t, e.after, j)
    ensures j != k && OccursAt(s, e.after, j)
  {
    assert OccursAt(t, e.before, k) by {
      assert t[k..k + |e.before|] == e.before;
    }
    if k < j < k + |e.before| {
      PinsShareOneQuote(t, e.before, e.after, k, j);
    } else if j < k < j + |e.before| {
      PinsShareOneQuote(t, e.after, e.before, j, k);
    }
    SameStretch(t, s, e.after, j);
  }

  /** The reconstructed text is free of the new pin under exactly the same condition. */
  lemma ReconstructedHoldsPin(s: string, e: Edit)
    requires PinLiteral(e.before) && PinLiteral(e.after) && |e.before| == |e.after| && UndoStep(s, e).Some?
    ensures (exists j :: OccursAt(UndoStep(s, e).value, e.after, j)) <==>
            OccursAt(s, e.after, Find(s, e.after) + |e.after| - 1)
  {
    hide Exchangeable, Count, Find, OccursAt, PinLiteral, Undone;
    PinLiteralsExchangeable(e);
    UndoRedo(s, e);
    GuardFacts(s, e);
    var t, k, last := UndoStep(s, e).value, Find(s, e.after), Find(s, e.after) + |e.after| - 1;
    hide UndoStep;
    forall j | OccursAt(t, e.after, j) ensures j == last && OccursAt(s, e.after, j) {
      PinStays(s, t, e, k, j);
      GuardedPins(s, e, j);
    }
    if OccursAt(s, e.after, last) {
      NextPinStays(s, t, e, k);
    }
  }

  lemma NextPinStays(s: string, t: string, e: Edit, k: int)
    requires PinLiteral(e.before) && PinLiteral(e.after) && Undone(s, t, e, k)
    requires OccursAt(s, e.after, k + |e.after| - 1)
    ensures OccursAt(t, e.after, k + |e.after| - 1)
  {
    SameStretch(s, t, e.after, k + |e.after| - 1);
  }

  lemma NoOldPin(k: int)
    ensures !OccursAt("\"=9.0.5\"=9.0.5\"", "\"=9.0.0\"", k)
  {
    var s := "\"=9.0.5\"=9.0.5\"";
    if 0 <= k <= 7 {
      var window := s[k..k + 8];
      assert window[6] == s[k + 6] && window[0] == s[k];
      assert s[k + 6] != '0' || s[k] != '\"';
    }
  }

  /** The guard looks for further copies only after the first one. */
  lemma ShortTailTolerated(e: Edit, tail: string)
    requires |tail| < |e.after| && e.before != "" && forall k :: !OccursAt(e.after + tail, e.before, k)
    ensures UndoStep(e.after + tail, e) == Some(e.before + tail)
  {
    var s := e.after + tail;
    assert s[..|e.after|] == e.after && s[|e.after|..] == tail;
    CountZero(s, e.before);
    assert Count(tail, e.after) == 0 && Count(s, e.after) == 1 + Count(tail, e.after);
    assert OccursAt(s, e.after, 0);
    assert Find(s, e.after) == 0;
    assert s[..0] + e.before == e.before;
  }

  /** The count guard tolerates a second, overlapping pin: the chain is still reversible, but the
      reconstructed text still holds a copy of the new pin. */
  lemma OverlappingPinPassesGuard()
    ensures var e := Edit("\"=9.0.0\"", "\"=9.0.5\""); var s := "\"=9.0.5\"=9.0.5\"";
            && UndoStep(s, e) == Some("\"=9.0.0\"=9.0.5\"") && OccursAt("\"=9.0.0\"=9.0.5\"", e.after, 7)
  {
    var e, tail := Edit("\"=9.0.0\"", "\"=9.0.5\""), "=9.0.5\"";
    assert e.after + tail == "\"=9.0.5\"=9.0.5\"" && e.before + tail == "\"=9.0.0\"=9.0.5\"";
    forall k ensures !OccursAt(e.after + tail, e.before, k) {
      NoOldPin(k);
    }
    hide UndoStep;
    ShortTailTolerated(e, tail);
    assert "\"=9.0.0\"=9.0.5\""[7..15] == e.after;
  }

  // ---- The pins themselves ---------------------------------------------------------------------

  /** Undoing leaves the old pin where the new one was, once, and nothing else of it. */
  lemma UndoneHolds(s: string, e: Edit)
    requires Exchangeable(e) && UndoStep(s, e).Some?
    ensures OccursAt(UndoStep(s, e).value, e.before, Find(s, e.after)) && OccursAt(s, e.after, Find(s, e.after))
    ensures forall j :: OccursAt(UndoStep(s, e).value, e.before, j) ==> j == Find(s, e.after)
  {
    UndoRedo(s, e);
    GuardFacts(s, e);
    var t, k := UndoStep(s, e).value, Find(s, e.after);
    hide Exchangeable, UndoStep, Find;
    WindowHoldsBefore(s, t, e, k);
    forall j | OccursAt(t, e.before, j) ensures j == k {
      UndoneOccurrence(s, t, e, k, j);
    }
  }

  /** Which versions a reconstruction takes back: the archive pin everywhere, and in the manifest of
      the daemon first the SSH pin, if its receipt exists, and then the older one. */
  lemma PinsTakenBack(change: Change, baseline: string, onDisk: string, ssh: Option<SshReceipt>, revision: string,
                      hash: string -> string)
    requires RevisionHolds(change, baseline, onDisk, ssh, revision, hash)
    ensures change.path == "SRC/neothd/Cargo.toml" || change.path == "SRC/vendor/candle-core/Cargo.toml" ||
            change.path == "SRC/vendor/candle-core/Cargo.toml.orig"
    ensures change.path == "SRC/neothd/Cargo.toml" && ssh.Some? ==>
              Count(onDisk, "\"=0.65.0\"") == 1 && Count(onDisk, "\"=0.64.1\"") == 0
    ensures change.path != "SRC/neothd/Cargo.toml" || ssh.None? ==>
              Count(onDisk, "\"=9.0.5\"") == 1 && Count(onDisk, "\"=9.0.0\"") == 0
    ensures change.path != "SRC/neothd/Cargo.toml" ==> change.edits == [Edit("\"=9.0.0\"", "\"=9.0.5\"")]
    ensures change.path == "SRC/neothd/Cargo.toml" ==>
              change.edits == [Edit("\"=9.0.0\"", "\"=9.0.5\""), Edit("\"=0.63.2\"", "\"=0.64.1\"")]
  {
    hide Hex, Count, Find, ReplaceFirst;
  }

  /** What an SSH receipt has to say. */
  lemma SshReceiptMeans(change: Change, baseline: string, onDisk: string, rec: SshReceipt, revision: string, hash: string -> string)
    requires RevisionHolds(change, baseline, onDisk, Some(rec), revision, hash) && change.path == "SRC/neothd/Cargo.toml"
    ensures rec.schema == "neoth.ssh-pin-successor.v1" && rec.path == "SRC/neothd/Cargo.toml"
    ensures rec.edit == Edit("\"=0.64.1\"", "\"=0.65.0\"")
    ensures hash(revision) == rec.predecessorRevision && hash(onDisk) == rec.after && rec.before == change.after
    ensures |rec.predecessorRevision| == |rec.before| == |rec.after| == 64
  {
    hide Count, Find, ReplaceFirst, Undo;
  }
}
