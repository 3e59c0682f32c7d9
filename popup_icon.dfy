/**
 * PopupIcon: a menu icon whose child buttons are handed out, one option
 * at a time, to orders that add an action; buttons can be found again by
 * name, rebound, and removed (reset to the default name, listeners
 * cleared, hidden).
 *
 * Each cached button is its game object's state: name, active flag,
 * click listeners and image sprite. The static ActivePopupIcon, to whose
 * buttons SetIcon and SetAction write, is taken to be this icon.
 */
module PopupIcons {
  import opened Wrappers

  /** A click action, by identity. */
  type Action = nat
  /** An image sprite, by identity. */
  type Sprite = nat

  datatype ButtonState = ButtonState(name: string, active: bool, listeners: seq<Action>, sprite: Option<Sprite>)

  const ButtonName: string := "PopupIconButton"

  /** The first button with the given game object name. */
  function FirstNamed(bs: seq<ButtonState>, name: string): (r: Option<nat>)
    ensures r.Some? ==>
      && r.value < |bs| && bs[r.value].name == name
      && forall k :: 0 <= k < r.value ==> bs[k].name != name
    ensures r.None? ==> forall k :: 0 <= k < |bs| ==> bs[k].name != name
  {
    if |bs| == 0 then None
    else if bs[0].name == name then Some(0)
    else match FirstNamed(bs[1..], name)
      case None => None
      case Some(k) => Some(k + 1)
  }

  /** The first inactive button. */
  function FirstInactive(bs: seq<ButtonState>): (r: Option<nat>)
    ensures r.Some? ==>
      && r.value < |bs| && !bs[r.value].active
      && forall k :: 0 <= k < r.value ==> bs[k].active
    ensures r.None? ==> forall k :: 0 <= k < |bs| ==> bs[k].active
  {
    if |bs| == 0 then None
    else if !bs[0].active then Some(0)
    else match FirstInactive(bs[1..])
      case None => None
      case Some(k) => Some(k + 1)
  }

  /** The name SetAction uses: the default for an empty one. */
  function EffectiveName(buttonName: string): (r: string)
    ensures |r| > 0
    ensures buttonName != "" ==> r == buttonName
  {
    if buttonName == "" then ButtonName else buttonName
  }

  /**
   * SetAction on the button states, given a free option (next <
   * |bs|): a non-default name that a button already has rebinds that
   * button; otherwise the button at `next` takes the name and gains the
   * listener.
   */
  function SetActionSpec(bs: seq<ButtonState>, next: nat, onClick: Action, buttonName: string): (r: seq<ButtonState>)
    requires next < |bs|
    ensures |r| == |bs|
  {
    var name := EffectiveName(buttonName);
    var found := if name != ButtonName then FirstNamed(bs, name) else None;
    match found
    case Some(k) => bs[k := bs[k].(listeners := [onClick], active := true)]
    case None => bs[next := bs[next].(name := name, listeners := bs[next].listeners + [onClick], active := true)]
  }

  /** RemoveButton on the button states and the option index. */
  function RemoveSpec(bs: seq<ButtonState>, next: int, buttonName: string): (r: (seq<ButtonState>, int))
    ensures |r.0| == |bs|
  {
    if buttonName == "" then (bs, next)
    else match FirstNamed(bs, buttonName)
      case None => (bs, next)
      case Some(k) =>
        var bs' := bs[k := bs[k].(name := ButtonName, listeners := [], active := false)];
        match FirstInactive(bs')
        case Some(i) => (bs', i)
        case None => (bs', next)
  }

  /** A named SetAction rebinds the first button already carrying the name, and nothing else. */
  lemma SetActionRebinds(bs: seq<ButtonState>, next: nat, onClick: Action, buttonName: string)
    requires next < |bs|
    requires EffectiveName(buttonName) != ButtonName && FirstNamed(bs, buttonName).Some?
    ensures var r := SetActionSpec(bs, next, onClick, buttonName);
      var k := FirstNamed(bs, buttonName).value;
      && r[k] == bs[k].(listeners := [onClick], active := true)
      && (forall j :: 0 <= j < |bs| && j != k ==> r[j] == bs[j])
      && FirstNamed(r, buttonName) == Some(k)
  {
    var k := FirstNamed(bs, buttonName).value;
    FirstNamedUpdate(bs, buttonName, k, bs[k].(listeners := [onClick], active := true));
  }

  /**
   * Otherwise the free option takes the name and gains the listener; its
   * earlier listeners stay (AddListener accumulates), and nothing else
   * changes. A non-default name is then found at that option.
   */
  lemma SetActionTakesOption(bs: seq<ButtonState>, next: nat, onClick: Action, buttonName: string)
    requires next < |bs|
    requires EffectiveName(buttonName) == ButtonName || FirstNamed(bs, EffectiveName(buttonName)).None?
    ensures var r := SetActionSpec(bs, next, onClick, buttonName);
      var name := EffectiveName(buttonName);
      && r[next] == ButtonState(name, true, bs[next].listeners + [onClick], bs[next].sprite)
      && (forall j :: 0 <= j < |bs| && j != next ==> r[j] == bs[j])
      && (name != ButtonName ==> FirstNamed(r, name) == Some(next))
  {
    var name := EffectiveName(buttonName);
    var b := bs[next].(name := name, listeners := bs[next].listeners + [onClick], active := true);
    var r := bs[next := b];
    assert SetActionSpec(bs, next, onClick, buttonName) == r;
    if name != ButtonName {
      FirstNamedIs(r, name, next);
    }
  }

  lemma FirstNamedUpdate(bs: seq<ButtonState>, name: string, k: nat, b: ButtonState)
    requires FirstNamed(bs, name) == Some(k) && b.name == name
    ensures FirstNamed(bs[k := b], name) == Some(k)
  {
    FirstNamedIs(bs[k := b], name, k);
  }

  /** Any name after the first is excluded: FirstNamed is the first index carrying the name. */
  lemma FirstNamedIs(bs: seq<ButtonState>, name: string, k: nat)
    requires k < |bs| && bs[k].name == name
    requires forall j :: 0 <= j < k ==> bs[j].name != name
    ensures FirstNamed(bs, name) == Some(k)
  {
  }

  /**
   * Removing a named button resets that one button and points the next
   * option at the lowest inactive button, which is at or before it; an
   * empty or unknown name changes nothing.
   */
  lemma RemoveEffect(bs: seq<ButtonState>, next: int, buttonName: string)
    ensures var (r, n) := RemoveSpec(bs, next, buttonName);
      && (buttonName == "" || FirstNamed(bs, buttonName).None? ==> r == bs && n == next)
      && (buttonName != "" && FirstNamed(bs, buttonName).Some? ==>
            var k := FirstNamed(bs, buttonName).value;
            && r[k] == ButtonState(ButtonName, false, [], bs[k].sprite)
            && (forall j :: 0 <= j < |bs| && j != k ==> r[j] == bs[j])
            && 0 <= n <= k && !r[n].active
            && forall j :: 0 <= j < n ==> r[j].active)
  {
    if buttonName != "" && FirstNamed(bs, buttonName).Some? {
      var k := FirstNamed(bs, buttonName).value;
      var bs' := bs[k := bs[k].(name := ButtonName, listeners := [], active := false)];
      assert !bs'[k].active;
    }
  }

  /**
   * Giving an option a non-default name and then removing that name hides
   * the very button that took the action, clears its listeners, and makes
   * an option at or before it the next one handed out.
   */
  lemma SetThenRemove(bs: seq<ButtonState>, next: nat, onClick: Action, buttonName: string)
    requires next < |bs| && buttonName != "" && buttonName != ButtonName
    ensures var after := SetActionSpec(bs, next, onClick, buttonName);
      && FirstNamed(after, buttonName).Some?
      && var k := FirstNamed(after, buttonName).value;
        var (r, n) := RemoveSpec(after, next, buttonName);
        && after[k].active && onClick in after[k].listeners
        && r[k] == ButtonState(ButtonName, false, [], after[k].sprite)
        && 0 <= n <= k
  {
    var after := SetActionSpec(bs, next, onClick, buttonName);
    if FirstNamed(bs, buttonName).Some? {
      SetActionRebinds(bs, next, onClick, buttonName);
    } else {
      SetActionTakesOption(bs, next, onClick, buttonName);
    }
    RemoveEffect(after, next, buttonName);
  }

  class PopupIcon {
    var cachedButtons: array<ButtonState>
    var nextOptionIndex: int

    ghost predicate Valid()
      reads this
    {
      nextOptionIndex >= 0
    }

    /** Awake: cache the child buttons and hide each of them. */
    constructor Awake(children: seq<ButtonState>)
      ensures Valid() && fresh(cachedButtons) && nextOptionIndex == 0
      ensures cachedButtons.Length == |children|
      ensures forall k :: 0 <= k < |children| ==> cachedButtons[k] == children[k].(active := false)
    {
      var a := new ButtonState[|children|](i requires 0 <= i < |children| => children[i]);
      for i := 0 to a.Length
        invariant forall k :: 0 <= k < i ==> a[k] == children[k].(active := false)
        invariant forall k :: i <= k < a.Length ==> a[k] == children[k]
      {
        a[i] := a[i].(active := false);
      }
      cachedButtons := a;
      nextOptionIndex := 0;
    }

    /** SetIcon: false, and no change, when no option is free; otherwise the next option's image. */
    method SetIcon(icon: Option<Sprite>) returns (r: bool)
      requires Valid()
      modifies cachedButtons
      ensures r <==> nextOptionIndex < cachedButtons.Length
      ensures !r ==> cachedButtons[..] == old(cachedButtons[..])
      ensures r ==> cachedButtons[..] == old(cachedButtons[..])[nextOptionIndex := old(cachedButtons[nextOptionIndex]).(sprite := icon)]
    {
      if nextOptionIndex >= cachedButtons.Length {
        return false;
      }
      cachedButtons[nextOptionIndex] := cachedButtons[nextOptionIndex].(sprite := icon);
      return true;
    }

    /** SetAction: false, and no change, when no option is free. It never moves the option index. */
    method SetAction(onClick: Action, buttonName: string) returns (r: bool)
      requires Valid()
      modifies cachedButtons
      ensures r <==> nextOptionIndex < cachedButtons.Length
      ensures !r ==> cachedButtons[..] == old(cachedButtons[..])
      ensures r ==> cachedButtons[..] == SetActionSpec(old(cachedButtons[..]), nextOptionIndex, onClick, buttonName)
    {
      if nextOptionIndex >= cachedButtons.Length {
        return false;
      }
      var name := if buttonName == "" then ButtonName else buttonName;
      if name != ButtonName {
        var k := 0;
        while k < cachedButtons.Length
          invariant 0 <= k <= cachedButtons.Length
          invariant forall j :: 0 <= j < k ==> cachedButtons[j].name != name
          invariant cachedButtons[..] == old(cachedButtons[..])
        {
          if cachedButtons[k].name == name {
            assert FirstNamed(cachedButtons[..], name) == Some(k);
            cachedButtons[k] := cachedButtons[k].(listeners := [onClick], active := true);
            return true;
          }
          k := k + 1;
        }
        assert FirstNamed(cachedButtons[..], name).None?;
      }
      var b := cachedButtons[nextOptionIndex];
      cachedButtons[nextOptionIndex] := b.(name := name, listeners := b.listeners + [onClick], active := true);
      return true;
    }

    method MoveToNextOption()
      requires Valid()
      modifies this
      ensures Valid() && cachedButtons == old(cachedButtons)
      ensures nextOptionIndex == old(nextOptionIndex) + 1
    {
      nextOptionIndex := nextOptionIndex + 1;
    }

    /** RemoveButton: reset the first button with the name; the next option is the first inactive button. */
    method RemoveButton(buttonName: string)
      requires Valid()
      modifies this, cachedButtons
      ensures Valid() && cachedButtons == old(cachedButtons)
      ensures (cachedButtons[..], nextOptionIndex) == RemoveSpec(old(cachedButtons[..]), old(nextOptionIndex), buttonName)
    {
      if buttonName == "" {
        return;
      }
      var k := 0;
      while k < cachedButtons.Length
        invariant 0 <= k <= cachedButtons.Length
        invariant forall j :: 0 <= j < k ==> cachedButtons[j].name != buttonName
        invariant cachedButtons[..] == old(cachedButtons[..]) && nextOptionIndex == old(nextOptionIndex)
      {
        if cachedButtons[k].name == buttonName {
          assert FirstNamed(cachedButtons[..], buttonName) == Some(k);
          cachedButtons[k] := cachedButtons[k].(name := ButtonName, listeners := [], active := false);
          FindFirstInactive();
          return;
        }
        k := k + 1;
      }
      assert FirstNamed(cachedButtons[..], buttonName).None?;
    }

    /** The loop that points the next option at the first inactive button, if any. */
    method FindFirstInactive()
      requires Valid()
      modifies this
      ensures Valid() && cachedButtons == old(cachedButtons)
      ensures nextOptionIndex == match FirstInactive(cachedButtons[..])
        case Some(i) => i
        case None => old(nextOptionIndex)
    {
      for i := 0 to cachedButtons.Length
        invariant forall j :: 0 <= j < i ==> cachedButtons[j].active
        invariant nextOptionIndex == old(nextOptionIndex) && cachedButtons == old(cachedButtons)
      {
        if !cachedButtons[i].active {
          assert FirstInactive(cachedButtons[..]) == Some(i);
          nextOptionIndex := i;
          return;
        }
      }
      assert FirstInactive(cachedButtons[..]).None?;
    }
  }
}
