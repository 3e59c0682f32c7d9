/**
 * The listener lists of GameEvent and InterfaceGameEvent: a List that is
 * only added to when the listener is absent, whose Remove deletes the
 * first occurrence, and whose Raise walks it from the back.
 */
module ListenerLists {
  predicate NoDuplicates<T(==)>(s: seq<T>)
  {
    forall i, j :: 0 <= i < j < |s| ==> s[i] != s[j]
  }

  /** RegisterListener: append the listener unless it is already there. */
  function Registered<T(==)>(s: seq<T>, x: T): (r: seq<T>)
    ensures x in r
    ensures forall i :: 0 <= i < |s| ==> s[i] in r
    ensures forall i :: 0 <= i < |r| ==> r[i] in s || r[i] == x
  {
    if x in s then s else s + [x]
  }

  /** List.Remove: delete the first occurrence, if any. */
  function RemoveFirst<T(==)>(s: seq<T>, x: T): (r: seq<T>)
    ensures x !in s ==> r == s
    ensures x in s ==> |r| == |s| - 1
  {
    if |s| == 0 then []
    else if s[0] == x then s[1..]
    else [s[0]] + RemoveFirst(s[1..], x)
  }

  /** The order Raise notifies in: the last element first. */
  function Reversed<T>(s: seq<T>): (r: seq<T>)
    ensures |r| == |s|
  {
    if |s| == 0 then [] else Reversed(s[1..]) + [s[0]]
  }

  function Count<T(==)>(s: seq<T>, x: T): nat
  {
    if |s| == 0 then 0 else (if s[0] == x then 1 else 0) + Count(s[1..], x)
  }

  lemma {:induction false} ReversedIndex<T>(s: seq<T>, k: nat)
    requires k < |s|
    ensures Reversed(s)[k] == s[|s| - 1 - k]
  {
    if k < |s| - 1 {
      ReversedIndex(s[1..], k);
    }
  }

  lemma {:induction false} CountAppend<T>(a: seq<T>, b: seq<T>, x: T)
    ensures Count(a + b, x) == Count(a, x) + Count(b, x)
  {
    if |a| > 0 {
      assert (a + b)[1..] == a[1..] + b;
      CountAppend(a[1..], b, x);
    } else {
      assert a + b == b;
    }
  }

  lemma {:induction false} CountReversed<T>(s: seq<T>, x: T)
    ensures Count(Reversed(s), x) == Count(s, x)
  {
    if |s| > 0 {
      CountReversed(s[1..], x);
      CountAppend(Reversed(s[1..]), [s[0]], x);
    }
  }

  lemma {:induction false} CountNoDuplicates<T>(s: seq<T>, x: T)
    requires NoDuplicates(s)
    ensures Count(s, x) == if x in s then 1 else 0
  {
    if |s| > 0 {
      assert NoDuplicates(s[1..]) by {
        forall i, j | 0 <= i < j < |s[1..]| ensures s[1..][i] != s[1..][j] {
          assert s[1..][i] == s[i + 1] && s[1..][j] == s[j + 1];
        }
      }
      CountNoDuplicates(s[1..], x);
      if s[0] == x {
        assert x !in s[1..] by {
          forall k | 0 <= k < |s[1..]| ensures s[1..][k] != x {
            assert s[1..][k] == s[k + 1];
          }
        }
      }
    }
  }

  /** Registering keeps the list free of duplicates, so it behaves as a set. */
  lemma RegisteredNoDuplicates<T>(s: seq<T>, x: T)
    requires NoDuplicates(s)
    ensures NoDuplicates(Registered(s, x))
    ensures x !in s ==> Registered(s, x) == s + [x]
  {
  }

  lemma {:induction false} RemoveFirstElements<T>(s: seq<T>, x: T)
    ensures forall y :: y != x ==> (y in RemoveFirst(s, x) <==> y in s)
    ensures forall y :: y in RemoveFirst(s, x) ==> y in s
  {
    if |s| > 0 && s[0] != x {
      RemoveFirstElements(s[1..], x);
      assert s == [s[0]] + s[1..];
    }
  }

  /** With no duplicates, removal deletes exactly the element at its position. */
  lemma {:induction false} RemoveFirstAt<T>(s: seq<T>, i: nat)
    requires NoDuplicates(s) && i < |s|
    ensures RemoveFirst(s, s[i]) == s[..i] + s[i + 1..]
  {
    if i > 0 {
      assert NoDuplicates(s[1..]) by {
        forall a, b | 0 <= a < b < |s[1..]| ensures s[1..][a] != s[1..][b] {
          assert s[1..][a] == s[a + 1] && s[1..][b] == s[b + 1];
        }
      }
      assert s[1..][i - 1] == s[i];
      RemoveFirstAt(s[1..], i - 1);
      assert s[..i] == [s[0]] + s[1..][..i - 1];
      assert s[i + 1..] == s[1..][i..];
    }
  }

  /** Unregistering removes the listener and keeps the others in their order, free of duplicates. */
  lemma UnregisterFacts<T>(s: seq<T>, x: T)
    requires NoDuplicates(s)
    ensures NoDuplicates(RemoveFirst(s, x))
    ensures x !in RemoveFirst(s, x)
    ensures forall y :: y != x ==> (y in RemoveFirst(s, x) <==> y in s)
  {
    RemoveFirstElements(s, x);
    if x in s {
      var i :| 0 <= i < |s| && s[i] == x;
      RemoveFirstAt(s, i);
      var r := s[..i] + s[i + 1..];
      forall a, b | 0 <= a < b < |r| ensures r[a] != r[b] {
        var a' := if a < i then a else a + 1;
        var b' := if b < i then b else b + 1;
        assert r[a] == s[a'] && r[b] == s[b'];
      }
      forall k | 0 <= k < |r| ensures r[k] != x {
        assert r[k] == s[if k < i then k else k + 1];
      }
    }
  }

  /** Registering then unregistering a fresh listener restores the list. */
  lemma {:induction false} RegisterUnregisterRoundTrip<T>(s: seq<T>, x: T)
    requires x !in s
    ensures RemoveFirst(Registered(s, x), x) == s
  {
    if |s| > 0 {
      assert (s + [x])[1..] == s[1..] + [x];
      RegisterUnregisterRoundTrip(s[1..], x);
      assert Registered(s[1..], x) == s[1..] + [x];
    }
  }
}
