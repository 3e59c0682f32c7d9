/**
 * The RemovePopupButton order: it maps its button type to the name of the
 * popup button that type stands for and removes that button from the
 * popup icon; Character and Quests have no case and remove nothing.
 */
module RemovePopupButtonOrder {
  import opened Wrappers
  import opened PopupIcons

  datatype ButtonType = Map | Inventory | Character | Quests | Options | Save | Load | Exit | Menu

  /** The enum member's own name. */
  function TypeName(t: ButtonType): string
  {
    match t
    case Map => "Map"
    case Inventory => "Inventory"
    case Character => "Character"
    case Quests => "Quests"
    case Options => "Options"
    case Save => "Save"
    case Load => "Load"
    case Exit => "Exit"
    case Menu => "Menu"
  }

  /** The switch in RemoveButtonChoice: the button named after the type, where there is a case. */
  function ChoiceName(t: ButtonType): (r: Option<string>)
    ensures r.None? <==> t == Character || t == Quests
    ensures r.Some? ==> r.value == TypeName(t) + "Button"
  {
    match t
    case Map => Some("MapButton")
    case Inventory => Some("InventoryButton")
    case Options => Some("OptionsButton")
    case Save => Some("SaveButton")
    case Load => Some("LoadButton")
    case Exit => Some("ExitButton")
    case Menu => Some("MenuButton")
    case _ => None
  }

  /** Distinct types remove distinct buttons, and none of them is the default button name. */
  lemma ChoiceNamesDistinct(t: ButtonType, u: ButtonType)
    requires ChoiceName(t).Some? && ChoiceName(u).Some?
    ensures ChoiceName(t) == ChoiceName(u) <==> t == u
    ensures ChoiceName(t).value != "" && ChoiceName(t).value != ButtonName
  {
    if t != u {
      assert TypeName(t) != TypeName(u);
      var a := TypeName(t) + "Button";
      var b := TypeName(u) + "Button";
      if |TypeName(t)| == |TypeName(u)| {
        assert a[..|TypeName(t)|] == TypeName(t);
        assert b[..|TypeName(u)|] == TypeName(u);
      } else {
        assert |a| != |b|;
      }
    }
  }

  /**
   * OnEnter: remove the chosen button from the popup icon found, then
   * continue. A missing icon throws (a NullReferenceException) for the
   * types that have a case, and is harmless for the others.
   */
  method OnEnter(buttonType: ButtonType, popupIcon: PopupIcon?) returns (r: Outcome<string>)
    requires popupIcon != null ==> popupIcon.Valid()
    modifies if popupIcon != null then {popupIcon, popupIcon.cachedButtons} else {}
    ensures r.Fail? <==> popupIcon == null && ChoiceName(buttonType).Some?
    ensures popupIcon != null ==>
      && popupIcon.Valid() && popupIcon.cachedButtons == old(popupIcon.cachedButtons)
      && (popupIcon.cachedButtons[..], popupIcon.nextOptionIndex) == match ChoiceName(buttonType)
        case None => (old(popupIcon.cachedButtons[..]), old(popupIcon.nextOptionIndex))
        case Some(name) => RemoveSpec(old(popupIcon.cachedButtons[..]), old(popupIcon.nextOptionIndex), name)
  {
    var choice := ChoiceName(buttonType);
    if choice.None? {
      return Pass;
    }
    if popupIcon == null {
      return Fail("NullReferenceException");
    }
    popupIcon.RemoveButton(choice.value);
    r := Pass;
  }
}
