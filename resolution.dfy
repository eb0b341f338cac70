/**
 * Resolving a reference: its role ("mod", "meth", "obj", ...) names one or
 * more object kinds, and the first kind that has a region of the target's
 * name wins.
 */
module Resolution {
  import opened Wrappers
  import opened Doctree
  import opened Regions
  import opened Roles

  type Key = (string, string)

  function KeyOf(r: Region): Key {
    (r.kind, r.name)
  }

  /** `{(r.kind, r.name): r for r in regions}`: a later region with the same
      key replaces an earlier one. */
  function RegionMap(regions: seq<Region>): map<Key, Region> {
    if regions == [] then map[]
    else RegionMap(regions[..|regions| - 1])[KeyOf(regions[|regions| - 1]) := regions[|regions| - 1]]
  }

  /** A key is mapped iff some region has it. */
  lemma {:induction false} RegionMapKeys(regions: seq<Region>, key: Key)
    ensures key in RegionMap(regions) <==> exists i :: 0 <= i < |regions| && KeyOf(regions[i]) == key
  {
    if regions != [] {
      var front := regions[..|regions| - 1];
      RegionMapKeys(front, key);
      if exists i :: 0 <= i < |front| && KeyOf(front[i]) == key {
        var i :| 0 <= i < |front| && KeyOf(front[i]) == key;
        assert regions[i] == front[i];
      }
      if exists i :: 0 <= i < |regions| && KeyOf(regions[i]) == key {
        var i :| 0 <= i < |regions| && KeyOf(regions[i]) == key;
        if i < |front| {
          assert front[i] == regions[i];
        }
      }
    }
  }

  /** A region whose key no later region repeats is the one its key maps to:
      the last region with a given key wins. */
  lemma {:induction false} RegionMapLastWins(regions: seq<Region>, i: nat)
    requires i < |regions|
    requires forall j :: i < j < |regions| ==> KeyOf(regions[j]) != KeyOf(regions[i])
    ensures KeyOf(regions[i]) in RegionMap(regions) && RegionMap(regions)[KeyOf(regions[i])] == regions[i]
  {
    if i < |regions| - 1 {
      var front := regions[..|regions| - 1];
      assert front[i] == regions[i];
      forall j | i < j < |front| ensures KeyOf(front[j]) != KeyOf(front[i]) {
        assert front[j] == regions[j];
      }
      RegionMapLastWins(front, i);
    }
  }

  /** `Resolver`: the region map of one document. */
  datatype Resolver = Resolver(regionMap: map<Key, Region>) {

    /** The first of `kinds` with a region named `target`. */
    function FirstHit(kinds: seq<string>, target: string): (r: Option<Region>)
      ensures r.None? <==> forall i :: 0 <= i < |kinds| ==> (kinds[i], target) !in regionMap
      ensures r.Some? ==>
                exists i :: 0 <= i < |kinds| && (kinds[i], target) in regionMap
                            && r.value == regionMap[(kinds[i], target)]
                            && forall j :: 0 <= j < i ==> (kinds[j], target) !in regionMap
    {
      if kinds == [] then None
      else if (kinds[0], target) in regionMap then Some(regionMap[(kinds[0], target)])
      else
        var r := FirstHit(kinds[1..], target);
        assert forall i :: 1 <= i < |kinds| ==> kinds[i] == kinds[1..][i - 1];
        if r.Some? then
          var i :| 0 <= i < |kinds[1..]| && (kinds[1..][i], target) in regionMap
                   && r.value == regionMap[(kinds[1..][i], target)]
                   && forall j :: 0 <= j < i ==> (kinds[1..][j], target) !in regionMap;
          assert kinds[i + 1] == kinds[1..][i];
          r
        else r
    }

    /** `find_region`: try the role's kinds in table order and return the
        first hit; an unknown role or no hit gives nothing. */
    function FindRegion(reftype: string, target: string): Option<Region> {
      FirstHit(CandidateKinds(reftype), target)
    }
  }

  /** `Resolver(doctree)`. */
  function NewResolver(doctree: Node): Resolver
    requires WellFormed(doctree)
  {
    Resolver(RegionMap(DocumentRegions(doctree)))
  }
}
