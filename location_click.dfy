/**
 * LocationClickEventHandler: a node's event handler that fires either when
 * the player reaches its location (auto-trigger, checked every frame) or
 * when that location's marker is pressed. Whether the location is met is
 * decided elsewhere (a radius check) and is an input here.
 */
module LocationClick {
  import opened Wrappers

  type InfoId = string
  type DisplayList = nat

  /** The three inspector flags. */
  datatype Flags = Flags(requiresPress: bool, autoTrigger: bool, requiresLocation: bool)

  /** The handler's location value (LUTELocationInfo): its InfoID and whether it is disabled. */
  datatype LocationInfo = LocationInfo(infoId: InfoId, locationDisabled: bool)

  /** The three assignments at the top of Update, in their order. */
  function Normalise(f: Flags): (r: Flags)
    ensures r.autoTrigger == !f.requiresPress
    ensures r.requiresPress == f.requiresPress
    ensures r.autoTrigger ==> r.requiresLocation
    ensures !r.autoTrigger ==> r.requiresLocation == f.requiresLocation
  {
    var autoTrigger := if f.requiresPress then false else true;
    var requiresPress := if autoTrigger then false else f.requiresPress;
    var requiresLocation := if autoTrigger then true else f.requiresLocation;
    Flags(requiresPress, autoTrigger, requiresLocation)
  }

  /** Normalised flags are a fixed point: exactly one of press and auto-trigger is set. */
  lemma NormaliseIdempotent(f: Flags)
    ensures Normalise(Normalise(f)) == Normalise(f)
    ensures Normalise(f).autoTrigger != Normalise(f).requiresPress
  {
  }

  /** CheckLocationStatus: a disabled location never fires. */
  predicate CheckLocationStatus(info: LocationInfo)
  {
    !info.locationDisabled
  }

  class LocationClickEventHandler {
    var requiresPress: bool
    var autoTrigger: bool
    var requiresLocation: bool
    /** location.Value; None stands for null. */
    var location: Option<LocationInfo>
    /** Whether the location is a variable reference (locationRef set) rather than a constant. */
    var locationIsRef: bool

    function GetFlags(): Flags
      reads this
    {
      Flags(requiresPress, autoTrigger, requiresLocation)
    }

    /** The serialized defaults: auto-trigger on, press and location off. */
    constructor (location: Option<LocationInfo>, locationIsRef: bool)
      ensures GetFlags() == Flags(false, true, false)
      ensures this.location == location && this.locationIsRef == locationIsRef
    {
      requiresPress := false;
      autoTrigger := true;
      requiresLocation := false;
      this.location := location;
      this.locationIsRef := locationIsRef;
    }

    /**
     * Update: normalise the flags, then, in play mode, pick the display
     * list for the location (the override if there is one and the location
     * has a value, else the map manager's default) and, when auto-trigger
     * is on and the location is met and enabled, execute the node. A
     * location without a value throws (a NullReferenceException) when the
     * default list is assigned to it. The radius check is made through the
     * location's variable reference, so with auto-trigger on a constant
     * location (a value but no reference) throws on every frame, after its
     * display list has been assigned.
     */
    method Update(isPlaying: bool, overrideList: Option<DisplayList>, defaultList: Option<DisplayList>, locationMet: bool)
      returns (r: Outcome<string>, chosenList: Option<DisplayList>, executed: bool)
      modifies this
      ensures GetFlags() == Normalise(old(GetFlags())) && location == old(location) && locationIsRef == old(locationIsRef)
      ensures r.Fail? <==>
        isPlaying && ((location.None? && defaultList.Some?) || (autoTrigger && location.Some? && !locationIsRef))
      ensures chosenList.Some? ==>
        isPlaying && location.Some? && chosenList == if overrideList.Some? then overrideList else defaultList
      ensures isPlaying && location.Some? && (overrideList.Some? || defaultList.Some?) ==> chosenList.Some?
      ensures executed <==>
        isPlaying && autoTrigger && location.Some? && locationIsRef && locationMet && CheckLocationStatus(location.value)
      ensures r.Fail? ==> !executed
    {
      autoTrigger := if requiresPress then false else true;
      requiresPress := if autoTrigger then false else requiresPress;
      requiresLocation := if autoTrigger then true else requiresLocation;
      chosenList := None;
      executed := false;
      r := Pass;
      if !isPlaying {
        return;
      }
      if overrideList.Some? && location.Some? {
        chosenList := overrideList;
      } else if defaultList.Some? {
        if location.None? {
          return Fail("NullReferenceException"), None, false;
        }
        chosenList := defaultList;
      }
      if !autoTrigger {
        return;
      }
      if location.Some? {
        if !locationIsRef {
          return Fail("NullReferenceException"), chosenList, false;
        }
        if locationMet && CheckLocationStatus(location.value) {
          executed := true;
        }
      }
    }

    /**
     * OnLocationClicked: a press fires the node only when presses are
     * wanted, the pressed location has a value with this handler's InfoID,
     * the location is met (or need not be: then it is not evaluated) and it
     * is enabled. Comparing against a handler whose own location has no
     * value throws.
     */
    method OnLocationClicked(clicked: Option<InfoId>, clickedMet: bool) returns (r: Outcome<string>, executed: bool)
      ensures r.Fail? <==> requiresPress && clicked.Some? && location.None?
      ensures executed <==>
        && requiresPress && clicked.Some? && location.Some?
        && clicked.value == location.value.infoId
        && (!requiresLocation || clickedMet)
        && CheckLocationStatus(location.value)
      ensures r.Fail? ==> !executed
    {
      executed := false;
      r := Pass;
      if !requiresPress || clicked.None? {
        return;
      }
      if location.None? {
        return Fail("NullReferenceException"), false;
      }
      if clicked.value != location.value.infoId {
        return;
      }
      var locationMet := false;
      if !requiresLocation {
        locationMet := true;
      } else {
        locationMet := clickedMet;
      }
      if locationMet && CheckLocationStatus(location.value) {
        executed := true;
      }
    }
  }
}
