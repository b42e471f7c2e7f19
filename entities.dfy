/** The entities a game session owns (the ship, asteroids, bullets and
    explosions) and the two list operations the session applies to its
    pointer lists: `std::find` (a membership query) and `std::list::remove`
    (removal of every element equal to a pointer). */
module Entities {

  /** The identity of a heap-allocated entity: it stands for the pointer. */
  type EntityId = nat

  datatype Option<T> = None | Some(value: T)

  /** A position or direction in world units. */
  datatype Vec = Vec(x: real, y: real) {
    function Plus(d: Vec): Vec {
      Vec(x + d.x, y + d.y)
    }
  }

  /** What kind of object an entity is, with the state only that kind has:
      the ship's control input, an asteroid's size tier, a bullet's
      direction. */
  datatype Kind =
    | Ship(thrust: int, turn: int)
    | Asteroid(size: int)
    | Bullet(dir: Vec)
    | Explosion

  /** One simulated object: its identity, its position, the collision
      radius the session registers for it when it creates it, and its kind. */
  datatype Entity = Entity(id: EntityId, pos: Vec, radius: real, kind: Kind)

  /** No identity occurs twice in the list (a list never holds the same
      pointer twice). */
  predicate Unique(s: seq<Entity>) {
    forall i, j :: 0 <= i < j < |s| ==> s[i].id != s[j].id
  }

  /** No element of `s` has identity `id`. */
  predicate Absent(id: EntityId, s: seq<Entity>) {
    forall e :: e in s ==> e.id != id
  }

  /** No identity occurs in both lists. */
  predicate Apart(s: seq<Entity>, t: seq<Entity>) {
    forall e, f :: e in s && f in t ==> e.id != f.id
  }

  /** `std::find`: the first element of `s` with identity `id`, if any. */
  function Find(s: seq<Entity>, id: EntityId): (r: Option<Entity>)
    ensures r.None? <==> Absent(id, s)
    ensures r.Some? ==> exists k :: 0 <= k < |s| && s[k] == r.value && r.value.id == id &&
                                    forall j :: 0 <= j < k ==> s[j].id != id
  {
    if s == [] then None
    else if s[0].id == id then Some(s[0])
    else
      var r := Find(s[1..], id);
      assert s == [s[0]] + s[1..];
      assert r.Some? ==> exists k :: 0 <= k < |s| && s[k] == r.value && r.value.id == id &&
                                     forall j :: 0 <= j < k ==> s[j].id != id by {
        if r.Some? {
          var k :| 0 <= k < |s[1..]| && s[1..][k] == r.value && r.value.id == id &&
                   forall j :: 0 <= j < k ==> s[1..][j].id != id;
          assert s[k + 1] == r.value;
        }
      }
      r
  }

  /** `std::list::remove`: every element with identity `id` is dropped,
      every other element is kept in order. */
  function Remove(s: seq<Entity>, id: EntityId): (r: seq<Entity>)
    ensures forall e :: e in r <==> e in s && e.id != id
    ensures |r| <= |s|
    ensures !Absent(id, s) ==> |r| < |s|
  {
    if s == [] then []
    else
      var rest := Remove(s[1..], id);
      assert s == [s[0]] + s[1..];
      assert forall e :: e in s <==> e == s[0] || e in s[1..];
      if s[0].id == id then rest else [s[0]] + rest
  }

  /** Removing from a list that holds no duplicates keeps it free of them. */
  lemma {:induction false} RemoveKeepsUnique(s: seq<Entity>, id: EntityId)
    requires Unique(s)
    ensures Unique(Remove(s, id))
  {
    if s != [] {
      RemoveKeepsUnique(s[1..], id);
      var rest := Remove(s[1..], id);
      if s[0].id != id {
        forall e | e in rest ensures e.id != s[0].id {
          var k :| 0 <= k < |s[1..]| && s[1..][k] == e;
          assert s[k + 1] == e;
        }
        assert Remove(s, id) == [s[0]] + rest;
      }
    }
  }

  /** When `s` holds no duplicates, removing the identity of its `k`-th
      element removes exactly that element. */
  lemma {:induction false} RemoveAt(s: seq<Entity>, k: nat)
    requires Unique(s) && k < |s|
    ensures Remove(s, s[k].id) == s[..k] + s[k + 1..]
  {
    if k == 0 {
      assert s == [s[0]] + s[1..];
      RemoveCons(s[0], s[1..], s[0].id);
      HeadNotInTail(s);
      RemoveAbsent(s[1..], s[0].id);
    } else {
      assert s[1..][k - 1] == s[k];
      UniqueTail(s);
      RemoveAt(s[1..], k - 1);
      RemoveAtStep(s, k);
    }
  }

  lemma RemoveAtStep(s: seq<Entity>, k: nat)
    requires 0 < k < |s| && s[0].id != s[k].id
    requires Remove(s[1..], s[k].id) == s[1..][..k - 1] + s[1..][k..]
    ensures Remove(s, s[k].id) == s[..k] + s[k + 1..]
  {
    assert s == [s[0]] + s[1..];
    RemoveCons(s[0], s[1..], s[k].id);
    DropAt(s, k);
  }

  /** Dropping the `k`-th element, seen from the head and the tail. */
  lemma DropAt(s: seq<Entity>, k: nat)
    requires 0 < k < |s|
    ensures [s[0]] + (s[1..][..k - 1] + s[1..][k..]) == s[..k] + s[k + 1..]
  {
    assert [s[0]] + s[1..][..k - 1] == s[..k];
    assert s[1..][k..] == s[k + 1..];
  }

  lemma UniqueTail(s: seq<Entity>)
    requires Unique(s) && s != []
    ensures Unique(s[1..])
  {
    var t := s[1..];
    forall i, j | 0 <= i < j < |t| ensures t[i].id != t[j].id {
      assert t[i] == s[i + 1] && t[j] == s[j + 1];
    }
  }

  lemma HeadNotInTail(s: seq<Entity>)
    requires Unique(s) && s != []
    ensures Absent(s[0].id, s[1..])
  {
    forall e | e in s[1..] ensures e.id != s[0].id {
      var j :| 0 <= j < |s[1..]| && s[1..][j] == e;
      assert s[j + 1] == e;
    }
  }

  /** Removing an identity the list does not hold changes nothing. */
  lemma {:induction false} RemoveAbsent(s: seq<Entity>, id: EntityId)
    requires Absent(id, s)
    ensures Remove(s, id) == s
  {
    if s != [] {
      assert s[0] in s;
      assert Absent(id, s[1..]) by {
        forall e | e in s[1..] ensures e.id != id {
          assert e in s;
        }
      }
      RemoveAbsent(s[1..], id);
      assert s == [s[0]] + s[1..];
    }
  }

  /** Removal distributes over concatenation. */
  lemma {:induction false} RemoveAppend(s: seq<Entity>, t: seq<Entity>, id: EntityId)
    ensures Remove(s + t, id) == Remove(s, id) + Remove(t, id)
  {
    if s == [] {
      assert s + t == t;
    } else {
      RemoveAppend(s[1..], t, id);
      RemoveAppendStep(s[0], s[1..], t, id);
      assert s == [s[0]] + s[1..];
    }
  }

  lemma RemoveAppendStep(x: Entity, s: seq<Entity>, t: seq<Entity>, id: EntityId)
    requires Remove(s + t, id) == Remove(s, id) + Remove(t, id)
    ensures Remove([x] + s + t, id) == Remove([x] + s, id) + Remove(t, id)
  {
    assert [x] + s + t == [x] + (s + t);
    RemoveCons(x, s + t, id);
    RemoveCons(x, s, id);
    if x.id == id {
      calc {
        Remove([x] + s + t, id);
        Remove(s + t, id);
        Remove(s, id) + Remove(t, id);
        Remove([x] + s, id) + Remove(t, id);
      }
    } else {
      calc {
        Remove([x] + s + t, id);
        [x] + Remove(s + t, id);
        [x] + (Remove(s, id) + Remove(t, id));
        { SeqAssoc([x], Remove(s, id), Remove(t, id)); }
        [x] + Remove(s, id) + Remove(t, id);
        Remove([x] + s, id) + Remove(t, id);
      }
    }
  }

  /** Concatenation is associative; stated apart so that the step that
      needs it does not have to reason about `Remove` at the same time. */
  lemma SeqAssoc(a: seq<Entity>, b: seq<Entity>, c: seq<Entity>)
    ensures a + (b + c) == a + b + c
  {
  }

  lemma RemoveCons(x: Entity, s: seq<Entity>, id: EntityId)
    ensures Remove([x] + s, id) == if x.id == id then Remove(s, id) else [x] + Remove(s, id)
  {
    assert ([x] + s)[1..] == s;
  }

  /** Removing the identity of the `k`-th element of `s` from `s + t`, when
      `t` does not hold it, removes exactly that element. */
  lemma RemoveAtAppend(s: seq<Entity>, t: seq<Entity>, k: nat)
    requires Unique(s) && k < |s| && Absent(s[k].id, t)
    ensures Remove(s + t, s[k].id) == s[..k] + s[k + 1..] + t
  {
    RemoveAppend(s, t, s[k].id);
    RemoveAbsent(t, s[k].id);
    RemoveAt(s, k);
  }

  /** Appending an entity with a new identity keeps the list free of duplicates. */
  lemma AppendKeepsUnique(s: seq<Entity>, e: Entity)
    requires Unique(s) && Absent(e.id, s)
    ensures Unique(s + [e])
  {
    forall i | 0 <= i < |s| ensures (s + [e])[i].id != e.id {
      assert s[i] in s;
    }
  }
}
