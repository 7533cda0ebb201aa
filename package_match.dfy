/** `getPackage`: the configured package that owns a normalized name. */
module PackageMatch {
  import opened Wrappers
  import opened JsString
  import opened Dicts
  import opened Configuration

  /** `p` is a prefix of `normalized` that ends on a `/` boundary (or is all of it). */
  predicate Owns(p: string, normalized: string)
  {
    Substr(normalized, 0, |p|) == p && (|normalized| == |p| || CharAt(normalized, |p|) == Some('/'))
  }

  lemma OwnsMeans(p: string, normalized: string)
    ensures Owns(p, normalized)
            <==> StartsWith(normalized, p) && (|normalized| == |p| || normalized[|p|] == '/')
  {
    PrefixTest(normalized, p);
  }

  /** The running best of `getPackage` after the first `|pkgs|` keys: a key
      replaces the best so far only with strictly more segments. */
  function OwningPackage(pkgs: Dict<Package>, normalized: string): Option<string>
  {
    if pkgs == [] then None
    else
      var best := OwningPackage(pkgs[..|pkgs| - 1], normalized);
      var p := pkgs[|pkgs| - 1].key;
      if Owns(p, normalized) && SegmentCount(p) > (if best.Some? then SegmentCount(best.value) else 0)
      then Some(p) else best
  }

  /** `getPackage`: a `for-in` scan keeping the most specific owner. */
  method GetPackage(packages: Dict<Package>, normalized: string) returns (r: Option<string>)
    ensures r == OwningPackage(packages, normalized)
  {
    var curPkgLen := 0;
    r := None;
    var i := 0;
    while i < |packages|
      invariant 0 <= i <= |packages|
      invariant r == OwningPackage(packages[..i], normalized)
      invariant curPkgLen == if r.Some? then SegmentCount(r.value) else 0
    {
      var p := packages[i].key;
      if Owns(p, normalized) {
        var pkgLen := SegmentCount(p);
        if pkgLen > curPkgLen {
          r := Some(p);
          curPkgLen := pkgLen;
        }
      }
      assert packages[..i + 1][..i] == packages[..i];
      i := i + 1;
    }
    assert packages[..i] == packages;
  }

  /** There is no owning package exactly when no configured key owns the name. */
  lemma {:induction false} NoOwnerIffNoOwningKey(pkgs: Dict<Package>, normalized: string)
    ensures OwningPackage(pkgs, normalized).None?
            <==> forall j :: 0 <= j < |pkgs| ==> !Owns(pkgs[j].key, normalized)
  {
    if pkgs != [] {
      var front := pkgs[..|pkgs| - 1];
      NoOwnerIffNoOwningKey(front, normalized);
      assert forall j :: 0 <= j < |front| ==> front[j] == pkgs[j];
    }
  }

  /** No owning key has more segments than the chosen package. */
  lemma {:induction false} OwnerHasMostSegments(pkgs: Dict<Package>, normalized: string)
    requires OwningPackage(pkgs, normalized).Some?
    ensures forall j :: 0 <= j < |pkgs| && Owns(pkgs[j].key, normalized)
              ==> SegmentCount(pkgs[j].key) <= SegmentCount(OwningPackage(pkgs, normalized).value)
  {
    var front := pkgs[..|pkgs| - 1];
    assert forall j :: 0 <= j < |front| ==> front[j] == pkgs[j];
    if OwningPackage(front, normalized).Some? {
      OwnerHasMostSegments(front, normalized);
    } else {
      NoOwnerIffNoOwningKey(front, normalized);
    }
  }

  /** The chosen package is an owning key, and every owning key before it has
      strictly fewer segments: of equally specific keys the first one wins. */
  lemma {:induction false} OwnerIsFirstMostSpecific(pkgs: Dict<Package>, normalized: string)
    requires OwningPackage(pkgs, normalized).Some?
    ensures exists i :: 0 <= i < |pkgs| && pkgs[i].key == OwningPackage(pkgs, normalized).value
              && Owns(pkgs[i].key, normalized)
              && forall j :: 0 <= j < i && Owns(pkgs[j].key, normalized)
                   ==> SegmentCount(pkgs[j].key) < SegmentCount(pkgs[i].key)
  {
    var front := pkgs[..|pkgs| - 1];
    var last := |pkgs| - 1;
    assert forall j :: 0 <= j < |front| ==> front[j] == pkgs[j];
    var best := OwningPackage(front, normalized);
    if OwningPackage(pkgs, normalized) == best {
      OwnerIsFirstMostSpecific(front, normalized);
      var i :| 0 <= i < |front| && front[i].key == best.value && Owns(front[i].key, normalized)
        && forall j :: 0 <= j < i && Owns(front[j].key, normalized)
             ==> SegmentCount(front[j].key) < SegmentCount(front[i].key);
      assert pkgs[i].key == best.value;
    } else {
      if best.Some? {
        OwnerHasMostSegments(front, normalized);
      } else {
        NoOwnerIffNoOwningKey(front, normalized);
      }
      assert pkgs[last].key == OwningPackage(pkgs, normalized).value;
    }
  }

  /** Two owners of one name are nested, and the longer has more segments. */
  lemma NestedOwners(p: string, q: string, normalized: string)
    requires Owns(p, normalized) && Owns(q, normalized) && |p| < |q|
    ensures StartsWith(q, p)
    ensures SegmentCount(p) < SegmentCount(q)
  {
    OwnsMeans(p, normalized);
    OwnsMeans(q, normalized);
    assert q == normalized[..|q|];
    assert q[..|p|] == p;
    assert q == p + q[|p|..];
    assert q[|p|] == '/';
    assert multiset(q) == multiset(p) + multiset(q[|p|..]);
  }

  /** Counting segments therefore picks the longest owning key: the owner is
      the longest configured package name that is a `/`-aligned prefix. */
  lemma OwnerIsLongestPrefix(pkgs: Dict<Package>, normalized: string, j: int)
    requires 0 <= j < |pkgs| && Owns(pkgs[j].key, normalized)
    ensures OwningPackage(pkgs, normalized).Some?
    ensures |pkgs[j].key| <= |OwningPackage(pkgs, normalized).value|
  {
    NoOwnerIffNoOwningKey(pkgs, normalized);
    OwnerIsFirstMostSpecific(pkgs, normalized);
    OwnerHasMostSegments(pkgs, normalized);
    var r := OwningPackage(pkgs, normalized).value;
    var i :| 0 <= i < |pkgs| && pkgs[i].key == r && Owns(pkgs[i].key, normalized);
    if |pkgs[j].key| > |r| {
      NestedOwners(r, pkgs[j].key, normalized);
      assert false;
    }
  }
}
