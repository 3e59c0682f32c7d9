/**
 * LUTELocationDisplayOptions: a location marker's display settings. When
 * the asset is enabled it remembers its three show flags, and when it is
 * disabled it puts them back, so edits made while it is in use do not
 * outlive the session.
 */
module DisplayOptions {
  import opened Wrappers

  datatype Color = Color(r: real, g: real, b: real, a: real)

  const White: Color := Color(1.0, 1.0, 1.0, 1.0)

  /** A Sprite, by identity. */
  type Sprite = nat

  class LUTELocationDisplayOptions {
    var nameLabelColor: Color
    var markerSprite: Option<Sprite>
    var radiusColour: Color
    var showName: bool
    var showSprite: bool
    var showRadius: bool
    var defaultShowName: bool
    var defaultShowSprite: bool
    var defaultShowRadius: bool

    /** The serialized defaults: white labels and radius, no sprite, the sprite and radius shown. */
    constructor ()
      ensures nameLabelColor == White && markerSprite == None && radiusColour == White
      ensures !showName && showSprite && showRadius
      ensures !defaultShowName && !defaultShowSprite && !defaultShowRadius
    {
      nameLabelColor := White;
      markerSprite := None;
      radiusColour := White;
      showName := false;
      showSprite := true;
      showRadius := true;
      defaultShowName := false;
      defaultShowSprite := false;
      defaultShowRadius := false;
    }

    /** The three show flags. */
    function Flags(): (bool, bool, bool)
      reads this
    {
      (showName, showSprite, showRadius)
    }

    /** DefaultShowName, DefaultShowSprite, DefaultShowRadius: the snapshot. */
    function Defaults(): (bool, bool, bool)
      reads this
    {
      (defaultShowName, defaultShowSprite, defaultShowRadius)
    }

    /** OnEnable: snapshot the flags; nothing else changes. */
    method OnEnable()
      modifies this
      ensures Defaults() == old(Flags()) && Flags() == old(Flags())
      ensures nameLabelColor == old(nameLabelColor) && markerSprite == old(markerSprite) && radiusColour == old(radiusColour)
    {
      defaultShowName := showName;
      defaultShowSprite := showSprite;
      defaultShowRadius := showRadius;
    }

    /** OnDisable: restore the flags from the snapshot; nothing else changes. */
    method OnDisable()
      modifies this
      ensures Flags() == old(Defaults()) && Defaults() == old(Defaults())
      ensures nameLabelColor == old(nameLabelColor) && markerSprite == old(markerSprite) && radiusColour == old(radiusColour)
    {
      showName := defaultShowName;
      showSprite := defaultShowSprite;
      showRadius := defaultShowRadius;
    }
  }

  /**
   * Round trip: enable, edit the flags (and the colours and sprite) in
   * any way, disable: the flags are those at enable, while the other
   * edits stay.
   */
  method EditWhileEnabled(o: LUTELocationDisplayOptions, flags: (bool, bool, bool), labelColor: Color, sprite: Option<Sprite>)
    modifies o
    ensures o.Flags() == old(o.Flags())
    ensures o.nameLabelColor == labelColor && o.markerSprite == sprite
  {
    o.OnEnable();
    o.showName, o.showSprite, o.showRadius := flags.0, flags.1, flags.2;
    o.nameLabelColor, o.markerSprite := labelColor, sprite;
    o.OnDisable();
  }
}
