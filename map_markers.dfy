/**
 * LUTEMapManager's marker registry: the markers spawned for locations,
 * keyed by the InfoID of each marker's location, and the list of location
 * variables found at runtime. Spawning is de-duplicated by InfoID; hide,
 * show and remove act on every marker whose location has the InfoID.
 */
module MapMarkers {
  import opened Wrappers
  import ListenerLists

  type InfoId = string

  /** A LocationVariable argument: null, one whose value is null, or one whose value has an InfoID. */
  datatype LocationRef = NullLocation | NullValue | Located(infoId: InfoId)

  /** An entry of the flow engine's variable list, as ProcessLocationsEditor sees it. */
  datatype Variable = LocationVariable(value: Option<InfoId>) | OtherVariable

  /**
   * A spawned marker. `info` is the InfoID of its location variable's
   * value (None when that value is null). The location variable itself
   * is taken to be set: SetInfo stores it only when the flow engine is
   * present, and a spawned marker without an engine is not modelled.
   */
  class LocationMarker {
    const info: Option<InfoId>
    var hidden: bool

    constructor (info: Option<InfoId>)
      ensures this.info == info && !hidden
    {
      this.info := info;
      hidden := false;
    }
  }

  /** The FindAll predicate: a live marker whose location value has the InfoID. */
  predicate Related(m: LocationMarker?, id: InfoId)
  {
    m != null && m.info == Some(id)
  }

  /** FindAll: the related markers, in list order. */
  function RelatedMarkers(s: seq<LocationMarker?>, id: InfoId): (r: seq<LocationMarker>)
    ensures |r| <= |s|
    ensures forall k :: 0 <= k < |r| ==> r[k] in s && r[k].info == Some(id)
    ensures forall k :: 0 <= k < |s| && Related(s[k], id) ==> s[k] in r
  {
    if |s| == 0 then []
    else (if Related(s[0], id) then [s[0]] else []) + RelatedMarkers(s[1..], id)
  }

  /** The list with every related marker taken out, the others kept in order. */
  function Unrelated(s: seq<LocationMarker?>, id: InfoId): (r: seq<LocationMarker?>)
    ensures |r| <= |s|
    ensures forall k :: 0 <= k < |r| ==> r[k] in s && !Related(r[k], id)
    ensures forall k :: 0 <= k < |s| && !Related(s[k], id) ==> s[k] in r
  {
    if |s| == 0 then []
    else (if Related(s[0], id) then [] else [s[0]]) + Unrelated(s[1..], id)
  }

  /** The Find in SpawnMarker: some marker already stands for the InfoID. */
  predicate HasMarkerFor(s: seq<LocationMarker?>, id: InfoId)
  {
    exists k :: 0 <= k < |s| && Related(s[k], id)
  }

  /** Some live marker has a location value. */
  predicate HasLocated(s: seq<LocationMarker?>)
  {
    exists k :: 0 <= k < |s| && s[k] != null && s[k].info.Some?
  }

  /** The list with the markers of `gone` taken out, the others kept in order. */
  ghost function Without(s: seq<LocationMarker?>, gone: set<LocationMarker>): seq<LocationMarker?>
  {
    if |s| == 0 then []
    else (if s[0] != null && s[0] in gone then [] else [s[0]]) + Without(s[1..], gone)
  }

  /** Each live marker object occurs once. */
  ghost predicate Distinct(s: seq<LocationMarker?>)
  {
    forall i, j :: 0 <= i < j < |s| && s[i] != null ==> s[i] != s[j]
  }

  /** At most one live marker per InfoID. */
  ghost predicate OnePerId(s: seq<LocationMarker?>)
  {
    forall i, j :: 0 <= i < j < |s| && s[i] != null && s[j] != null && s[i].info.Some? ==> s[i].info != s[j].info
  }

  /** Spawning only where no marker stands for the InfoID keeps one marker per InfoID. */
  lemma SpawnKeepsOnePerId(s: seq<LocationMarker?>, m: LocationMarker, id: InfoId)
    requires OnePerId(s) && Distinct(s) && !HasMarkerFor(s, id) && m.info == Some(id) && m !in s
    ensures OnePerId(s + [m]) && Distinct(s + [m]) && HasMarkerFor(s + [m], id)
    ensures RelatedMarkers(s + [m], id) == [m]
  {
    var t := s + [m];
    assert t[|s|] == m;
    forall i, j | 0 <= i < j < |t| && t[i] != null && t[j] != null && t[i].info.Some?
      ensures t[i].info != t[j].info
    {
      if j == |s| {
        assert !Related(s[i], id);
      } else {
        assert t[i] == s[i] && t[j] == s[j];
      }
    }
    RelatedAppend(s, m, id);
  }

  lemma {:induction false} RelatedAppend(s: seq<LocationMarker?>, m: LocationMarker, id: InfoId)
    requires !HasMarkerFor(s, id) && m.info == Some(id)
    ensures RelatedMarkers(s + [m], id) == [m]
  {
    if |s| == 0 {
      assert RelatedMarkers([m], id) == [m] + RelatedMarkers([m][1..], id);
    } else {
      assert (s + [m])[1..] == s[1..] + [m];
      assert !HasMarkerFor(s[1..], id) by {
        forall k | 0 <= k < |s[1..]| ensures !Related(s[1..][k], id) {
          assert s[1..][k] == s[k + 1];
        }
      }
      assert !Related(s[0], id);
      RelatedAppend(s[1..], m, id);
    }
  }

  /** The related markers are exactly what removal takes out. */
  lemma {:induction false} UnrelatedIsWithout(s: seq<LocationMarker?>, id: InfoId, gone: set<LocationMarker>)
    requires forall m: LocationMarker :: m in gone <==> m in s && m.info == Some(id)
    ensures Without(s, gone) == Unrelated(s, id)
  {
    if |s| > 0 {
      assert forall m: LocationMarker :: m in s[1..] ==> m in s;
      UnrelatedIsWithoutTail(s[1..], id, gone);
    }
  }

  lemma {:induction false} UnrelatedIsWithoutTail(s: seq<LocationMarker?>, id: InfoId, gone: set<LocationMarker>)
    requires forall m: LocationMarker :: m in s && m in gone ==> m.info == Some(id)
    requires forall m: LocationMarker :: m in s && m.info == Some(id) ==> m in gone
    ensures Without(s, gone) == Unrelated(s, id)
  {
    if |s| > 0 {
      assert forall m: LocationMarker :: m in s[1..] ==> m in s;
      UnrelatedIsWithoutTail(s[1..], id, gone);
    }
  }

  lemma {:induction false} WithoutAbsent(s: seq<LocationMarker?>, gone: set<LocationMarker>, x: LocationMarker)
    requires x !in s
    ensures Without(s, gone + {x}) == Without(s, gone)
  {
    if |s| > 0 {
      WithoutAbsent(s[1..], gone, x);
    }
  }

  /** One List.Remove of a marker that occurs once and is not yet taken out. */
  lemma {:induction false} RemoveStep(s: seq<LocationMarker?>, gone: set<LocationMarker>, x: LocationMarker)
    requires Distinct(s) && x in s && x !in gone
    ensures ListenerLists.RemoveFirst(Without(s, gone), x) == Without(s, gone + {x})
  {
    var t := s[1..];
    assert Distinct(t) by {
      forall i, j | 0 <= i < j < |t| && t[i] != null ensures t[i] != t[j] {
        assert t[i] == s[i + 1] && t[j] == s[j + 1];
      }
    }
    if s[0] == x {
      assert x !in t by {
        forall k | 0 <= k < |t| ensures t[k] != x {
          assert t[k] == s[k + 1];
        }
      }
      WithoutAbsent(t, gone, x);
    } else {
      RemoveStep(t, gone, x);
      var w := Without(t, gone);
      if !(s[0] != null && s[0] in gone) {
        assert Without(s, gone) == [s[0]] + w;
        assert ([s[0]] + w)[0] == s[0] && ([s[0]] + w)[1..] == w;
        assert Without(s, gone + {x}) == [s[0]] + Without(t, gone + {x});
      } else {
        assert Without(s, gone) == w;
        assert Without(s, gone + {x}) == Without(t, gone + {x});
      }
    }
  }

  lemma WithoutNone(s: seq<LocationMarker?>)
    ensures Without(s, {}) == s
  {
  }

  /**
   * A marker spawned for one of `locations`: its InfoID is that of a located
   * entry for which `before` had no marker.
   */
  predicate NewFor(m: LocationMarker?, locations: seq<LocationRef>, before: seq<LocationMarker?>)
  {
    m != null && m.info.Some? && Located(m.info.value) in locations && !HasMarkerFor(before, m.info.value)
  }

  /** A marker for the InfoID in a prefix is a marker for it in the whole list. */
  lemma PrefixHasMarker(p: seq<LocationMarker?>, s: seq<LocationMarker?>, id: InfoId)
    requires |p| <= |s| && s[..|p|] == p
    ensures HasMarkerFor(p, id) ==> HasMarkerFor(s, id)
  {
    if HasMarkerFor(p, id) {
      var j :| 0 <= j < |p| && Related(p[j], id);
      assert s[j] == p[j];
    }
  }

  /** One SpawnMarker call in the SpawnMarkers loop keeps every added marker one spawned for a location without a marker. */
  lemma NewForStep(start: seq<LocationMarker?>, before: seq<LocationMarker?>, after: seq<LocationMarker?>, locations: seq<LocationRef>, i: nat)
    requires i < |locations| && |start| <= |before| && before[..|start|] == start
    requires after == before || (|after| == |before| + 1 && after[..|before|] == before)
    requires forall k :: |start| <= k < |before| ==> NewFor(before[k], locations, start)
    requires |after| == |before| + 1 ==>
      locations[i].Located? && !HasMarkerFor(before, locations[i].infoId) && after[|before|] != null && after[|before|].info == Some(locations[i].infoId)
    ensures forall k :: |start| <= k < |after| ==> NewFor(after[k], locations, start)
  {
    if |after| == |before| + 1 {
      PrefixHasMarker(start, before, locations[i].infoId);
      forall k | |start| <= k < |after| ensures NewFor(after[k], locations, start) {
        if k < |before| {
          assert after[k] == before[k];
        }
      }
    }
  }

  /** One iteration of the SpawnMarkers loop keeps the old prefix, the cover of the locations seen, and the new markers' origin. */
  lemma SpawnStep(start: seq<LocationMarker?>, before: seq<LocationMarker?>, after: seq<LocationMarker?>, locations: seq<LocationRef>, i: nat)
    requires i < |locations| && |start| <= |before| && before[..|start|] == start
    requires after == before || (|after| == |before| + 1 && after[..|before|] == before)
    requires forall k :: 0 <= k < i && locations[k].Located? ==> HasMarkerFor(before, locations[k].infoId)
    requires locations[i].Located? ==> HasMarkerFor(after, locations[i].infoId)
    requires forall k :: |start| <= k < |before| ==> NewFor(before[k], locations, start)
    requires |after| == |before| + 1 ==>
      locations[i].Located? && !HasMarkerFor(before, locations[i].infoId) && after[|before|] != null && after[|before|].info == Some(locations[i].infoId)
    ensures |start| <= |after| && after[..|start|] == start
    ensures forall k :: 0 <= k < i + 1 && locations[k].Located? ==> HasMarkerFor(after, locations[k].infoId)
    ensures forall k :: |start| <= k < |after| ==> NewFor(after[k], locations, start)
  {
    assert after[..|start|] == before[..|start|];
    forall k | 0 <= k < i && locations[k].Located?
      ensures HasMarkerFor(after, locations[k].infoId)
    {
      PrefixHasMarker(before, after, locations[k].infoId);
    }
    NewForStep(start, before, after, locations, i);
  }

  class LUTEMapManager {
    var spawnedLocationMarkers: seq<LocationMarker?>
    var allLocationsAtRuntime: seq<LocationRef>

    /** The live marker objects. */
    ghost function Markers(): set<LocationMarker>
      reads this
    {
      set k | 0 <= k < |spawnedLocationMarkers| && spawnedLocationMarkers[k] != null :: spawnedLocationMarkers[k]
    }

    ghost predicate Valid()
      reads this
    {
      Distinct(spawnedLocationMarkers) && OnePerId(spawnedLocationMarkers)
    }

    constructor ()
      ensures Valid() && spawnedLocationMarkers == [] && allLocationsAtRuntime == []
    {
      spawnedLocationMarkers := [];
      allLocationsAtRuntime := [];
    }

    /**
     * SpawnMarker: nothing for a null location or value, nothing when a
     * marker already stands for the InfoID; otherwise one fresh marker for
     * the location is appended.
     */
    method SpawnMarker(location: LocationRef)
      requires Valid()
      modifies this
      ensures Valid() && allLocationsAtRuntime == old(allLocationsAtRuntime)
      ensures !location.Located? || HasMarkerFor(old(spawnedLocationMarkers), location.infoId) ==>
        spawnedLocationMarkers == old(spawnedLocationMarkers)
      ensures location.Located? && !HasMarkerFor(old(spawnedLocationMarkers), location.infoId) ==>
        exists m: LocationMarker :: fresh(m) && m.info == Some(location.infoId) && !m.hidden
          && spawnedLocationMarkers == old(spawnedLocationMarkers) + [m]
      ensures location.Located? ==>
        RelatedMarkers(spawnedLocationMarkers, location.infoId) != [] && HasMarkerFor(spawnedLocationMarkers, location.infoId)
      ensures spawnedLocationMarkers == old(spawnedLocationMarkers) || |spawnedLocationMarkers| == |old(spawnedLocationMarkers)| + 1
      ensures spawnedLocationMarkers[..|old(spawnedLocationMarkers)|] == old(spawnedLocationMarkers)
      ensures |spawnedLocationMarkers| == |old(spawnedLocationMarkers)| + 1 ==>
        var m := spawnedLocationMarkers[|old(spawnedLocationMarkers)|];
        location.Located? && !HasMarkerFor(old(spawnedLocationMarkers), location.infoId)
        && m != null && fresh(m) && m.info == Some(location.infoId) && !m.hidden
    {
      if !location.Located? {
        return;
      }
      var id := location.infoId;
      var k := 0;
      while k < |spawnedLocationMarkers|
        invariant 0 <= k <= |spawnedLocationMarkers|
        invariant forall j :: 0 <= j < k ==> !Related(spawnedLocationMarkers[j], id)
      {
        var existing := spawnedLocationMarkers[k];
        if existing != null && existing.info.Some? && existing.info.value == id {
          assert spawnedLocationMarkers[k] in RelatedMarkers(spawnedLocationMarkers, id);
          return;
        }
        k := k + 1;
      }
      var marker := new LocationMarker(Some(id));
      SpawnKeepsOnePerId(spawnedLocationMarkers, marker, id);
      spawnedLocationMarkers := spawnedLocationMarkers + [marker];
    }

    /** SpawnMarkers: a marker for every runtime location that has a value; markers only get added. */
    method SpawnMarkers()
      requires Valid()
      modifies this
      ensures Valid() && allLocationsAtRuntime == old(allLocationsAtRuntime)
      ensures |old(spawnedLocationMarkers)| <= |spawnedLocationMarkers|
      ensures spawnedLocationMarkers[..|old(spawnedLocationMarkers)|] == old(spawnedLocationMarkers)
      ensures forall k :: 0 <= k < |allLocationsAtRuntime| && allLocationsAtRuntime[k].Located? ==>
        HasMarkerFor(spawnedLocationMarkers, allLocationsAtRuntime[k].infoId)
      ensures forall k :: |old(spawnedLocationMarkers)| <= k < |spawnedLocationMarkers| ==>
        spawnedLocationMarkers[k] != null && fresh(spawnedLocationMarkers[k]) && !spawnedLocationMarkers[k].hidden
      ensures forall k :: |old(spawnedLocationMarkers)| <= k < |spawnedLocationMarkers| ==>
        NewFor(spawnedLocationMarkers[k], allLocationsAtRuntime, old(spawnedLocationMarkers))
    {
      var locations := allLocationsAtRuntime;
      for i := 0 to |locations|
        invariant Valid() && allLocationsAtRuntime == locations
        invariant |old(spawnedLocationMarkers)| <= |spawnedLocationMarkers|
        invariant spawnedLocationMarkers[..|old(spawnedLocationMarkers)|] == old(spawnedLocationMarkers)
        invariant forall k :: 0 <= k < i && locations[k].Located? ==> HasMarkerFor(spawnedLocationMarkers, locations[k].infoId)
        invariant forall k :: |old(spawnedLocationMarkers)| <= k < |spawnedLocationMarkers| ==>
          spawnedLocationMarkers[k] != null && fresh(spawnedLocationMarkers[k]) && !spawnedLocationMarkers[k].hidden
        invariant forall k :: |old(spawnedLocationMarkers)| <= k < |spawnedLocationMarkers| ==>
          NewFor(spawnedLocationMarkers[k], locations, old(spawnedLocationMarkers))
      {
        var location := locations[i];
        if location.NullLocation? || location.NullValue? {
          continue;
        }
        ghost var before := spawnedLocationMarkers;
        SpawnMarker(location);
        SpawnStep(old(spawnedLocationMarkers), before, spawnedLocationMarkers, locations, i);
      }
    }

    /** Set the hidden flag of every related marker to `hidden`; the list and every other flag stay. */
    method SetHidden(related: seq<LocationMarker>, ghost id: InfoId, hidden: bool)
      requires related == RelatedMarkers(spawnedLocationMarkers, id)
      modifies Markers()
      ensures forall m :: m in Markers() ==> m.hidden == if m.info == Some(id) then hidden else old(m.hidden)
    {
      ghost var done: set<LocationMarker> := {};
      for i := 0 to |related|
        invariant forall k :: 0 <= k < i ==> related[k] in done
        invariant forall m :: m in done ==> m.info == Some(id)
        invariant forall m :: m in Markers() ==> m.hidden == if m in done then hidden else old(m.hidden)
      {
        var k :| 0 <= k < |spawnedLocationMarkers| && spawnedLocationMarkers[k] == related[i];
        related[i].hidden := hidden;
        done := done + {related[i]};
      }
      forall m | m in Markers() && m.info == Some(id) ensures m in done {
        var k :| 0 <= k < |spawnedLocationMarkers| && spawnedLocationMarkers[k] == m;
        assert Related(spawnedLocationMarkers[k], id);
        var j :| 0 <= j < |related| && related[j] == m;
      }
    }

    /** HideLocationMarker: hide every related marker; nothing for a null location or value or an empty list. */
    method HideLocationMarker(location: LocationRef)
      modifies Markers()
      ensures location.Located? && |spawnedLocationMarkers| > 0 ==>
        forall m :: m in Markers() ==> m.hidden == if m.info == Some(location.infoId) then true else old(m.hidden)
      ensures !location.Located? || |spawnedLocationMarkers| == 0 ==>
        forall m :: m in Markers() ==> m.hidden == old(m.hidden)
    {
      if !location.Located? || |spawnedLocationMarkers| <= 0 {
        return;
      }
      var related := RelatedMarkers(spawnedLocationMarkers, location.infoId);
      SetHidden(related, location.infoId, true);
    }

    /**
     * ShowLocationMarker: with a related marker, every related marker's
     * hidden status is reset; with none, a marker is spawned. A null
     * location or value, or an empty list, changes nothing: on an empty
     * list nothing is spawned.
     */
    method ShowLocationMarker(location: LocationRef)
      requires Valid()
      modifies this, Markers()
      ensures Valid() && allLocationsAtRuntime == old(allLocationsAtRuntime)
      ensures !location.Located? || |old(spawnedLocationMarkers)| == 0 ==>
        spawnedLocationMarkers == old(spawnedLocationMarkers) && forall m :: m in Markers() ==> m.hidden == old(m.hidden)
      ensures location.Located? && HasMarkerFor(old(spawnedLocationMarkers), location.infoId) ==>
        && spawnedLocationMarkers == old(spawnedLocationMarkers)
        && forall m :: m in Markers() ==> m.hidden == if m.info == Some(location.infoId) then false else old(m.hidden)
      ensures location.Located? && |old(spawnedLocationMarkers)| > 0 && !HasMarkerFor(old(spawnedLocationMarkers), location.infoId) ==>
        && (exists m: LocationMarker :: fresh(m) && m.info == Some(location.infoId) && !m.hidden
              && spawnedLocationMarkers == old(spawnedLocationMarkers) + [m])
        && forall m :: m in old(Markers()) ==> m.hidden == old(m.hidden)
    {
      if !location.Located? || |spawnedLocationMarkers| <= 0 {
        return;
      }
      var related := RelatedMarkers(spawnedLocationMarkers, location.infoId);
      if |related| <= 0 {
        assert !HasMarkerFor(spawnedLocationMarkers, location.infoId);
        SpawnMarker(location);
      } else {
        assert related[0] in spawnedLocationMarkers;
        SetHidden(related, location.infoId, false);
      }
    }

    /** The null-value check of RemoveLocationMarker: does some live marker have a location value to compare against? */
    method AnyLocated() returns (found: bool)
      ensures found <==> HasLocated(spawnedLocationMarkers)
    {
      var k := 0;
      while k < |spawnedLocationMarkers|
        invariant 0 <= k <= |spawnedLocationMarkers|
        invariant !HasLocated(spawnedLocationMarkers[..k])
      {
        if spawnedLocationMarkers[k] != null && spawnedLocationMarkers[k].info.Some? {
          return true;
        }
        k := k + 1;
      }
      assert spawnedLocationMarkers[..k] == spawnedLocationMarkers;
      return false;
    }

    /** The removal loop of RemoveLocationMarker: each related marker is taken off the list in turn. */
    method RemoveRelated(id: InfoId)
      requires Valid()
      modifies this
      ensures Valid() && allLocationsAtRuntime == old(allLocationsAtRuntime)
      ensures spawnedLocationMarkers == Unrelated(old(spawnedLocationMarkers), id)
    {
      ghost var s := spawnedLocationMarkers;
      var related := RelatedMarkers(spawnedLocationMarkers, id);
      RelatedDistinct(s, id);
      WithoutNone(s);
      ghost var gone: set<LocationMarker> := {};
      for i := 0 to |related|
        invariant spawnedLocationMarkers == Without(s, gone)
        invariant forall m :: m in gone <==> m in related[..i]
        invariant allLocationsAtRuntime == old(allLocationsAtRuntime)
      {
        assert related[i] !in gone;
        RemoveStep(s, gone, related[i]);
        spawnedLocationMarkers := ListenerLists.RemoveFirst(spawnedLocationMarkers, related[i]);
        gone := gone + {related[i]};
        assert related[..i + 1] == related[..i] + [related[i]];
      }
      assert related[..|related|] == related;
      forall m: LocationMarker ensures m in gone <==> m in s && m.info == Some(id) {
        if m in s && m.info == Some(id) {
          var j :| 0 <= j < |s| && s[j] == m;
          assert Related(s[j], id);
        }
      }
      UnrelatedIsWithout(s, id, gone);
      UnrelatedKeepsValid(s, id);
    }

    /**
     * RemoveLocationMarker: every related marker is taken off the list, the
     * others stay in order. A null location or an empty list changes
     * nothing; a location whose value is null throws (a
     * NullReferenceException) as soon as the list has a live marker with a
     * location value to compare against.
     */
    method RemoveLocationMarker(location: LocationRef) returns (r: Outcome<string>)
      requires Valid()
      modifies this
      ensures Valid() && allLocationsAtRuntime == old(allLocationsAtRuntime)
      ensures r.Fail? <==> location.NullValue? && HasLocated(old(spawnedLocationMarkers))
      ensures location.Located? ==> spawnedLocationMarkers == Unrelated(old(spawnedLocationMarkers), location.infoId)
      ensures !location.Located? ==> spawnedLocationMarkers == old(spawnedLocationMarkers)
    {
      if location.NullLocation? || |spawnedLocationMarkers| <= 0 {
        return Pass;
      }
      if location.NullValue? {
        var found := AnyLocated();
        return if found then Fail("NullReferenceException") else Pass;
      }
      RemoveRelated(location.infoId);
      r := Pass;
    }

    /** ClearAllMarkers: both lists are emptied. */
    method ClearAllMarkers()
      modifies this
      ensures Valid() && spawnedLocationMarkers == [] && allLocationsAtRuntime == []
    {
      spawnedLocationMarkers := [];
      allLocationsAtRuntime := [];
    }

    /** GetMarkerTransforms: None (null) for a null location or value, otherwise the related markers in list order. */
    method GetMarkerTransforms(location: LocationRef) returns (r: Option<seq<LocationMarker>>)
      ensures r.None? <==> !location.Located?
      ensures r.Some? ==> r.value == RelatedMarkers(spawnedLocationMarkers, location.infoId)
    {
      if !location.Located? {
        return None;
      }
      r := Some(RelatedMarkers(spawnedLocationMarkers, location.infoId));
    }

    /** ProcessLocationsEditor: append every location variable of the engine, in order. */
    method ProcessLocationsEditor(variables: seq<Variable>)
      modifies this
      ensures spawnedLocationMarkers == old(spawnedLocationMarkers)
      ensures allLocationsAtRuntime == old(allLocationsAtRuntime) + LocationsOf(variables)
    {
      var found := LocationsOf(variables);
      for i := 0 to |found|
        invariant spawnedLocationMarkers == old(spawnedLocationMarkers)
        invariant allLocationsAtRuntime == old(allLocationsAtRuntime) + found[..i]
      {
        allLocationsAtRuntime := allLocationsAtRuntime + [found[i]];
        assert found[..i + 1] == found[..i] + [found[i]];
      }
      assert found[..|found|] == found;
    }
  }

  /** The location variable as the runtime list holds it. */
  function AsRef(value: Option<InfoId>): LocationRef
  {
    match value
    case None => NullValue
    case Some(id) => Located(id)
  }

  /** FindAll(x => x is LocationVariable): the location variables in order, never null. */
  function LocationsOf(variables: seq<Variable>): (r: seq<LocationRef>)
    ensures |r| <= |variables|
    ensures forall k :: 0 <= k < |r| ==> !r[k].NullLocation?
  {
    if |variables| == 0 then []
    else (if variables[0].LocationVariable? then [AsRef(variables[0].value)] else []) + LocationsOf(variables[1..])
  }

  /** Every location variable's value shows up in the list, and nothing else does. */
  lemma {:induction false} LocationsOfComplete(variables: seq<Variable>)
    ensures forall k :: 0 <= k < |variables| && variables[k].LocationVariable? ==> AsRef(variables[k].value) in LocationsOf(variables)
    ensures forall x :: x in LocationsOf(variables) ==>
      exists k :: 0 <= k < |variables| && variables[k].LocationVariable? && AsRef(variables[k].value) == x
  {
    if |variables| > 0 {
      var t := variables[1..];
      LocationsOfComplete(t);
      forall k | 1 <= k < |variables| ensures variables[k] == t[k - 1] {
      }
      forall x | x in LocationsOf(variables)
        ensures exists k :: 0 <= k < |variables| && variables[k].LocationVariable? && AsRef(variables[k].value) == x
      {
        if x in LocationsOf(t) {
          var k :| 0 <= k < |t| && t[k].LocationVariable? && AsRef(t[k].value) == x;
          assert variables[k + 1] == t[k];
        }
      }
    }
  }

  lemma {:induction false} RelatedDistinct(s: seq<LocationMarker?>, id: InfoId)
    requires Distinct(s)
    ensures ListenerLists.NoDuplicates(RelatedMarkers(s, id))
    ensures forall k :: 0 <= k < |RelatedMarkers(s, id)| ==> RelatedMarkers(s, id)[k] !in RelatedMarkers(s, id)[..k]
  {
    if |s| > 0 {
      var t := s[1..];
      assert Distinct(t) by {
        forall i, j | 0 <= i < j < |t| && t[i] != null ensures t[i] != t[j] {
          assert t[i] == s[i + 1] && t[j] == s[j + 1];
        }
      }
      RelatedDistinct(t, id);
      if Related(s[0], id) {
        assert s[0] !in t by {
          forall k | 0 <= k < |t| ensures t[k] != s[0] {
            assert t[k] == s[k + 1];
          }
        }
        var r := RelatedMarkers(s, id);
        assert r == [s[0]] + RelatedMarkers(t, id);
        assert s[0] !in RelatedMarkers(t, id);
      }
    }
  }

  /** Putting a marker in front keeps the list valid when it clashes with nothing behind it. */
  lemma ConsKeepsValid(x: LocationMarker?, u: seq<LocationMarker?>)
    requires Distinct(u) && OnePerId(u)
    requires x != null ==> forall j :: 0 <= j < |u| ==> u[j] != x
    requires x != null && x.info.Some? ==> forall j :: 0 <= j < |u| && u[j] != null ==> u[j].info != x.info
    ensures Distinct([x] + u) && OnePerId([x] + u)
  {
    var r := [x] + u;
    assert forall j :: 1 <= j < |r| ==> r[j] == u[j - 1];
  }

  /** Removal keeps each marker once and one marker per InfoID, and leaves none for the removed InfoID. */
  lemma {:induction false} UnrelatedKeepsValid(s: seq<LocationMarker?>, id: InfoId)
    requires Distinct(s) && OnePerId(s)
    ensures Distinct(Unrelated(s, id)) && OnePerId(Unrelated(s, id))
    ensures !HasMarkerFor(Unrelated(s, id), id)
  {
    if |s| > 0 {
      var t := s[1..];
      assert forall k :: 0 <= k < |t| ==> t[k] == s[k + 1];
      assert Distinct(t) && OnePerId(t);
      UnrelatedKeepsValid(t, id);
      var u := Unrelated(t, id);
      if !Related(s[0], id) {
        assert Unrelated(s, id) == [s[0]] + u;
        forall j | 0 <= j < |u| && s[0] != null
          ensures u[j] != s[0] && (s[0].info.Some? && u[j] != null ==> u[j].info != s[0].info)
        {
          var k :| 0 <= k < |t| && t[k] == u[j];
          assert s[k + 1] == u[j];
        }
        ConsKeepsValid(s[0], u);
      }
    }
  }
}
