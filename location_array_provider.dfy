/**
 * LocationArrayEditorLocationProvider: an editor-only location source
 * that walks through a fixed list of "latitude, longitude" strings, one
 * per location update, starting over after the last.
 */
module LocationArrayProvider {
  import opened Wrappers

  /** The index after one read of the LatitudeLongitude property. */
  function Step(len: nat, idx: int): (r: int)
    ensures r == 0 || r == idx + 1
    ensures len > 0 && -1 <= idx < len ==> 0 <= r < len
  {
    var next := idx + 1;
    if next >= len then 0 else next
  }

  /** The index after `n` reads from the start value -1. */
  function IndexAfter(len: nat, n: nat): int
  {
    if n == 0 then -1 else Step(len, IndexAfter(len, n - 1))
  }

  /** The n-th read (counting from 1) uses entry (n - 1) mod len: the list is visited in order, cyclically. */
  lemma {:induction false} ReadsCycle(len: nat, n: nat)
    requires len > 0 && n > 0
    ensures IndexAfter(len, n) == (n - 1) % len
  {
    if n > 1 {
      ReadsCycle(len, n - 1);
      var i := (n - 2) % len;
      assert IndexAfter(len, n) == Step(len, i);
      if i + 1 < len {
        assert (n - 1) % len == i + 1 by {
          DivStep(n - 2, len);
        }
      } else {
        assert (n - 1) % len == 0 by {
          DivStep(n - 2, len);
        }
      }
    }
  }

  lemma DivStep(m: nat, len: nat)
    requires len > 0
    ensures m % len + 1 < len ==> (m + 1) % len == m % len + 1
    ensures m % len + 1 == len ==> (m + 1) % len == 0
  {
    var q := m / len;
    if m % len + 1 == len {
      ModUnique(m + 1, q + 1, 0, len);
    } else {
      ModUnique(m + 1, q, m % len + 1, len);
    }
  }

  /** Euclidean division's remainder is the only one in range. */
  lemma ModUnique(a: int, q: int, r: int, len: int)
    requires len > 0 && 0 <= r < len && a == q * len + r
    ensures a % len == r
  {
    var q', r' := a / len, a % len;
    assert (q - q') * len == r' - r;
    if q - q' >= 1 {
      MulAtLeast(q - q', len);
    } else if q' - q >= 1 {
      MulAtLeast(q' - q, len);
    }
  }

  lemma MulAtLeast(k: int, len: int)
    requires k >= 1 && len > 0
    ensures k * len >= len
  {
    assert k * len == (k - 1) * len + len;
  }

  class LocationArrayEditorLocationProvider {
    /** _latitudeLongitude, fixed for the model. */
    const latitudeLongitude: seq<string>
    var idx: int

    ghost predicate Valid()
      reads this
    {
      -1 <= idx && (idx < |latitudeLongitude| || idx == 0)
    }

    constructor (latitudeLongitude: seq<string>)
      ensures Valid() && this.latitudeLongitude == latitudeLongitude && idx == -1
    {
      this.latitudeLongitude := latitudeLongitude;
      idx := -1;
    }

    /**
     * The LatitudeLongitude getter: advance the index, start over at the
     * end, and read that entry; an empty list throws (an
     * IndexOutOfRangeException) and reads nothing.
     */
    method LatitudeLongitude() returns (r: Option<string>)
      requires Valid()
      modifies this
      ensures Valid() && idx == Step(|latitudeLongitude|, old(idx))
      ensures r.None? <==> |latitudeLongitude| == 0
      ensures r.Some? ==> 0 <= idx < |latitudeLongitude| && r.value == latitudeLongitude[idx]
    {
      idx := idx + 1;
      if idx >= |latitudeLongitude| {
        idx := 0;
      }
      if |latitudeLongitude| == 0 {
        return None;
      }
      r := Some(latitudeLongitude[idx]);
    }

    /** SetLocation: one read of the property per location update. */
    method SetLocation() returns (current: Option<string>)
      requires Valid()
      modifies this
      ensures Valid() && idx == Step(|latitudeLongitude|, old(idx))
      ensures current.None? <==> |latitudeLongitude| == 0
      ensures current.Some? ==> current.value == latitudeLongitude[idx]
    {
      current := LatitudeLongitude();
    }
  }

  /** From the start, the index after n reads is IndexAfter(n), so update n delivers entry (n - 1) mod len. */
  method UpdatesInOrder(p: LocationArrayEditorLocationProvider, n: nat) returns (delivered: seq<string>)
    requires p.Valid() && p.idx == -1 && |p.latitudeLongitude| > 0
    modifies p
    ensures |delivered| == n
    ensures forall k :: 0 <= k < n ==> delivered[k] == p.latitudeLongitude[k % |p.latitudeLongitude|]
  {
    delivered := [];
    var len := |p.latitudeLongitude|;
    for i := 0 to n
      invariant p.Valid() && p.idx == IndexAfter(len, i)
      invariant |delivered| == i
      invariant forall k :: 0 <= k < i ==> delivered[k] == p.latitudeLongitude[k % len]
    {
      var current := p.SetLocation();
      ReadsCycle(len, i + 1);
      delivered := delivered + [current.value];
    }
  }
}
