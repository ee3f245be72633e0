/** What the checks of the advisory gate demand, spelled out: the reviewed packages
    (packaging/advisory_exception_gate.py:29-52, 250-269), the structure of the metadata (160-243), and
    the exception lists with their expiry (24-28, 130-157). */
module AdvisoryReview {
  import opened Outcomes
  import opened AdvisoryGraph
  import opened AdvisoryGate

  /** A package of this name has this version and comes from the crates.io registry. */
  predicate Pinned(p: Package, name: string, version: string) {
    p.name == name ==> p.version == version && p.source == Some("registry+https://github.com/rust-lang/crates.io-index")
  }

  predicate CollectionsPinned(p: Package) {
    && Pinned(p, "bitmaps", "3.2.1") && Pinned(p, "imbl", "6.1.0")
    && Pinned(p, "imbl-sized-chunks", "0.1.3") && Pinned(p, "eyeball-im", "0.8.0")
  }

  predicate MatrixPinned(p: Package) {
    && Pinned(p, "matrix-sdk", "0.18.0") && Pinned(p, "matrix-sdk-base", "0.18.0") && Pinned(p, "matrix-sdk-common", "0.18.0")
    && Pinned(p, "matrix-sdk-crypto", "0.18.0") && Pinned(p, "matrix-sdk-indexeddb", "0.18.0")
    && Pinned(p, "matrix-sdk-sqlite", "0.18.0")
  }

  lemma CollectionsRoles()
    ensures RoleOf("bitmaps") == Bitmaps && RoleOf("imbl") == Imbl
    ensures RoleOf("imbl-sized-chunks") == SizedChunks && RoleOf("eyeball-im") == EyeballIm
  {
    assert |"bitmaps"| == 7 && |"imbl"| == 4 && |"imbl-sized-chunks"| == 17 && |"eyeball-im"| == 10;
  }

  lemma MatrixRole(name: string)
    requires name in ["matrix-sdk", "matrix-sdk-base", "matrix-sdk-common", "matrix-sdk-crypto",
                      "matrix-sdk-indexeddb", "matrix-sdk-sqlite"]
    ensures RoleOf(name) == Matrix
  {
    assert name[0] == 'm' && "bitmaps"[0] == 'b' && "imbl"[0] == 'i' && "imbl-sized-chunks"[0] == 'i' && "eyeball-im"[0] == 'e';
  }

  lemma CanonicalIsPinned(p: Package)
    requires RoleOf(p.name) != Unreviewed ==> CanonicalPackage(p)
    ensures CollectionsPinned(p) && MatrixPinned(p)
  {
    CollectionsRoles();
    if RoleOf(p.name) == Matrix {
      hide RoleOf;
    } else {
      if p.name in ["matrix-sdk", "matrix-sdk-base", "matrix-sdk-common", "matrix-sdk-crypto",
                    "matrix-sdk-indexeddb", "matrix-sdk-sqlite"] {
        MatrixRole(p.name);
      }
      hide RoleOf;
    }
  }

  lemma PinnedIsCanonical(p: Package)
    requires CollectionsPinned(p) && MatrixPinned(p)
    ensures RoleOf(p.name) != Unreviewed ==> CanonicalPackage(p)
  {
    CollectionsRoles();
    ReviewedNamesAreTheRoles(p.name);
    if p.name in ["matrix-sdk", "matrix-sdk-base", "matrix-sdk-common", "matrix-sdk-crypto",
                  "matrix-sdk-indexeddb", "matrix-sdk-sqlite"] {
      MatrixRole(p.name);
    }
    hide RoleOf;
  }

  /** The ten reviewed names. */
  predicate ReviewedName(name: string) {
    || name == "bitmaps" || name == "imbl" || name == "imbl-sized-chunks" || name == "eyeball-im"
    || name == "matrix-sdk" || name == "matrix-sdk-base" || name == "matrix-sdk-common" || name == "matrix-sdk-crypto"
    || name == "matrix-sdk-indexeddb" || name == "matrix-sdk-sqlite"
  }

  lemma ReviewedNameHasRole(name: string)
    ensures RoleOf(name) != Unreviewed <==> ReviewedName(name)
  {
    ReviewedNamesAreTheRoles(name);
    hide RoleOf;
  }

  /** The pre-check in full: the version and source of each reviewed name, none of them twice. */
  lemma ReviewedOnlyMeans(m: Metadata)
    ensures ReviewedOnly(m) <==>
            && (forall p :: p in m.packages ==> CollectionsPinned(p) && MatrixPinned(p))
            && (forall i, j :: 0 <= i < j < |m.packages| && ReviewedName(m.packages[i].name) ==>
                  m.packages[j].name != m.packages[i].name)
  {
    forall name ensures RoleOf(name) != Unreviewed <==> ReviewedName(name) {
      ReviewedNameHasRole(name);
    }
    hide RoleOf, CanonicalPackage, CollectionsPinned, MatrixPinned, ReviewedName;
    if ReviewedOnly(m) {
      forall p | p in m.packages ensures CollectionsPinned(p) && MatrixPinned(p) {
        if RoleOf(p.name) != Unreviewed {
          assert AllCanonical(m.packages, p.name);
        }
        CanonicalIsPinned(p);
      }
      forall i, j | 0 <= i < j < |m.packages| && ReviewedName(m.packages[i].name)
        ensures m.packages[j].name != m.packages[i].name {
        assert AtMostOne(m.packages, m.packages[i].name);
      }
    }
    forall p | p in m.packages && CollectionsPinned(p) && MatrixPinned(p)
      ensures RoleOf(p.name) != Unreviewed ==> CanonicalPackage(p) {
      PinnedIsCanonical(p);
    }
  }

  /** Whatever the gate accepts: every package with a reviewed name, workspace member or not, has the
      reviewed version and the registry source. */
  lemma ReviewedAreCanonical(m: Metadata, target: Package, p: Package)
    requires ChainAccepted(m, target) && p in m.packages
    ensures CollectionsPinned(p) && MatrixPinned(p)
  {
    hide ReviewedOnly, CollectionsPinned, MatrixPinned, Accepts, WellFormed;
    ReviewedOnlyMeans(m);
  }

  /** An unreviewed source is refused, whatever else the metadata says. */
  lemma GitSourceRefused(m: Metadata, target: Package, p: Package)
    requires p in m.packages && p.name == "imbl" && p.source == Some("git+https://example.org/imbl")
    ensures !ChainAccepted(m, target)
  {
    if ChainAccepted(m, target) {
      ReviewedAreCanonical(m, target, p);
    }
  }

  /** The structural checks leave no empty field, no unknown member and no unknown dependency. */
  lemma WellFormedMeans(m: Metadata)
    requires WellFormed(m)
    ensures forall p :: p in m.packages ==> p.id != "" && p.name != "" && p.version != ""
    ensures forall i, j :: 0 <= i < j < |m.packages| ==> m.packages[i].id != m.packages[j].id
    ensures forall w :: w in m.workspaceMembers ==> exists p :: p in m.packages && p.id == w
    ensures forall n, d :: n in m.nodes && d in n.dependencies ==> exists p :: p in m.packages && p.id == d
    ensures forall p :: p in m.packages ==> exists n :: n in m.nodes && n.id == p.id
  {
    var ids := PackageIds(m.packages);
    forall x | x in Elements(ids) ensures exists p :: p in m.packages && p.id == x {
      var i :| 0 <= i < |ids| && ids[i] == x;
      assert m.packages[i] in m.packages;
    }
    forall i, j | 0 <= i < j < |m.packages| ensures m.packages[i].id != m.packages[j].id {
      assert ids[i] != ids[j];
    }
    forall p | p in m.packages ensures exists n :: n in m.nodes && n.id == p.id {
      var i :| 0 <= i < |m.packages| && m.packages[i] == p;
      assert ids[i] in Elements(NodeIds(m.nodes));
      var j :| 0 <= j < |m.nodes| && NodeIds(m.nodes)[j] == p.id;
      assert m.nodes[j] in m.nodes;
    }
    forall n, d | n in m.nodes && d in n.dependencies ensures exists p :: p in m.packages && p.id == d {
      assert NodeWellFormed(n, Elements(ids)) && d in Elements(n.dependencies);
    }
    forall w | w in m.workspaceMembers ensures exists p :: p in m.packages && p.id == w {
      assert w in Elements(m.workspaceMembers);
    }
  }

  // ---- The exception lists -------------------------------------------------------------------

  /** What the two list states mean for the two advisories. */
  lemma ListedMeans(ids: seq<string>)
    ensures NoneListed(ids) <==> "RUSTSEC-2026-0247" !in ids && "RUSTSEC-2025-0167" !in ids
    ensures EachListedOnce(ids) <==> multiset(ids)["RUSTSEC-2026-0247"] == 1 && multiset(ids)["RUSTSEC-2025-0167"] == 1
  {
    var first, second := "RUSTSEC-2026-0247", "RUSTSEC-2025-0167";
    assert TEMPORARY_ADVISORIES == [first, second];
    assert first in TEMPORARY_ADVISORIES && second in TEMPORARY_ADVISORIES;
    assert forall id :: id in TEMPORARY_ADVISORIES ==> id == first || id == second;
    assert first in ids <==> Occurrences(ids, first) > 0;
    assert second in ids <==> Occurrences(ids, second) > 0;
  }

  /** Days of the proleptic Gregorian calendar before 1 January of a year. */
  function DaysBefore(year: nat): int {
    365 * (year - 1) + (year - 1) / 4 - (year - 1) / 100 + (year - 1) / 400
  }

  /** The exception ends on 13 November 2026. */
  lemma ExpiryDate()
    ensures EXPIRY == DaysBefore(2026) + (31 + 28 + 31 + 30 + 31 + 30 + 31 + 31 + 30 + 31) + 13
  {
  }
}
