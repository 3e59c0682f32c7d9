/**
 * XRObjectManager: the registry of placed XR objects by name that the
 * PlaceObjectXR order writes to. Adding an existing name overwrites its
 * object (with a warning); removing or getting an absent name only logs.
 */
module XRObjects {
  import opened Wrappers

  /** A GameObject, by identity; None stands for null. */
  type GameObject = nat

  class XRObjectManager {
    var objects: map<string, Option<GameObject>>

    constructor ()
      ensures objects == map[]
    {
      objects := map[];
    }

    /** AddObject: the name now maps to obj, whether or not it was there; other names keep their objects. */
    method AddObject(name: string, obj: Option<GameObject>)
      modifies this
      ensures objects == old(objects)[name := obj]
      ensures name in objects && objects[name] == obj
      ensures forall n :: n in old(objects) && n != name ==> n in objects && objects[n] == old(objects)[n]
      ensures objects.Keys == old(objects).Keys + {name}
    {
      if name in objects {
        objects := objects[name := obj];
      } else {
        objects := objects[name := obj];
      }
    }

    /** RemoveObject: the name is gone if it was there; otherwise nothing changes. */
    method RemoveObject(name: string)
      modifies this
      ensures objects == old(objects) - {name}
      ensures name !in objects
      ensures name !in old(objects) ==> objects == old(objects)
    {
      if name in objects {
        objects := objects - {name};
      }
    }

    /** GetObject: the stored object, or null for an absent name. */
    method GetObject(name: string) returns (r: Option<GameObject>)
      ensures name in objects ==> r == objects[name]
      ensures name !in objects ==> r == None
    {
      if name in objects {
        return objects[name];
      }
      return None;
    }
  }

  /** Through the manager: a get after an add returns the object added, and a get of another name sees what it saw before. */
  method AddThenGet(x: XRObjectManager, name: string, obj: Option<GameObject>, other: string)
    returns (found: Option<GameObject>, otherFound: Option<GameObject>)
    requires other != name
    modifies x
    ensures found == obj
    ensures otherFound == if other in old(x.objects) then old(x.objects)[other] else None
  {
    x.AddObject(name, obj);
    found := x.GetObject(name);
    otherFound := x.GetObject(other);
  }

  /** The round trip through the manager's own methods. */
  method AddThenRemove(x: XRObjectManager, name: string, obj: Option<GameObject>) returns (found: Option<GameObject>)
    requires name !in x.objects
    modifies x
    ensures found == obj
    ensures x.objects == old(x.objects)
  {
    x.AddObject(name, obj);
    found := x.GetObject(name);
    x.RemoveObject(name);
  }
}
