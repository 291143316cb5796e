/** The order of a listing: ids sorted by a key that is unique per id. */
module Sorting {
  import opened Model
  import opened Sets

  /** Compared by major, then by minor. */
  datatype Key = Key(major: int, minor: int)

  predicate Before(a: Key, b: Key) {
    a.major < b.major || (a.major == b.major && a.minor < b.minor)
  }

  predicate Keyed(s: set<Id>, key: map<Id, Key>) {
    (forall id :: id in s ==> id in key) &&
    (forall a, b :: a in s && b in s && a != b ==> key[a] != key[b])
  }

  ghost predicate Ascending(ids: seq<Id>, key: map<Id, Key>) {
    (forall i :: 0 <= i < |ids| ==> ids[i] in key) &&
    (forall i, j :: 0 <= i < j < |ids| ==> Before(key[ids[i]], key[ids[j]]))
  }

  /** ids is the set s in ascending key order. */
  ghost predicate IsListing(ids: seq<Id>, s: set<Id>, key: map<Id, Key>) {
    Ascending(ids, key) && forall id :: id in ids <==> id in s
  }

  function Insert(ids: seq<Id>, x: Id, key: map<Id, Key>): seq<Id>
    requires x in key && forall i :: 0 <= i < |ids| ==> ids[i] in key
  {
    if ids == [] || Before(key[x], key[ids[0]]) then [x] + ids
    else [ids[0]] + Insert(ids[1..], x, key)
  }

  lemma {:induction false} InsertListing(ids: seq<Id>, s: set<Id>, x: Id, key: map<Id, Key>)
    requires IsListing(ids, s, key) && x !in s && Keyed(s + {x}, key)
    ensures IsListing(Insert(ids, x, key), s + {x}, key)
  {
    if ids != [] && !Before(key[x], key[ids[0]]) {
      assert ids[0] in s && ids[0] != x;
      assert Before(key[ids[0]], key[x]);
      var rest := s - {ids[0]};
      assert forall id :: id in ids[1..] <==> id in rest by {
        assert ids == [ids[0]] + ids[1..];
        assert ids[0] !in ids[1..];
      }
      InsertListing(ids[1..], rest, x, key);
      var tail := Insert(ids[1..], x, key);
      assert forall id :: id in tail <==> id in rest + {x};
      assert forall id :: id in rest + {x} ==> Before(key[ids[0]], key[id]) by {
        forall id | id in rest ensures Before(key[ids[0]], key[id]) {
          assert id in ids[1..];
        }
      }
      assert forall i :: 0 <= i < |tail| ==> tail[i] in rest + {x};
    }
  }

  /** A set has only one listing. */
  lemma {:induction false} ListingUnique(a: seq<Id>, b: seq<Id>, s: set<Id>, key: map<Id, Key>)
    requires IsListing(a, s, key) && IsListing(b, s, key)
    ensures a == b
    decreases |a|
  {
    assert a != [] ==> a[0] in b;
    assert b != [] ==> b[0] in a;
    if a != [] {
      assert a[0] == b[0];
      var rest := s - {a[0]};
      TailListing(a, s, key);
      TailListing(b, s, key);
      ListingUnique(a[1..], b[1..], rest, key);
      assert a == [a[0]] + a[1..] && b == [b[0]] + b[1..];
    }
  }

  lemma TailListing(a: seq<Id>, s: set<Id>, key: map<Id, Key>)
    requires IsListing(a, s, key) && a != []
    ensures IsListing(a[1..], s - {a[0]}, key)
  {
    assert a == [a[0]] + a[1..];
    assert a[0] !in a[1..];
  }

  /** SELECT ... ORDER BY: the listing of a set of ids. */
  ghost function Listing(s: set<Id>, key: map<Id, Key>): (ids: seq<Id>)
    requires Keyed(s, key)
    ensures IsListing(ids, s, key)
    decreases |s|
  {
    if s == {} then [] else
      var x := Member(s);
      InsertListing(Listing(s - {x}, key), s - {x}, x, key);
      assert s - {x} + {x} == s;
      Insert(Listing(s - {x}, key), x, key)
  }

  ghost function Member(s: set<Id>): (x: Id)
    requires s != {}
    ensures x in s
  {
    var x :| x in s;
    x
  }
}
