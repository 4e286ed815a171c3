/** The engine's world as the character's spawn and destroy commands use it: a registry
    of actors in registration order, searched by class, in which actors are spawned
    and destroyed. */
module World {

  datatype Option<T> = None | Some(value: T)

  /** The classes the dispatchers search for: AActorSpawner, AActorToSpawn, and any other actor. */
  datatype ActorKind = ActorSpawner | ActorToSpawn | OtherActor

  /** An actor's location and rotation, abstracted to opaque tokens. */
  datatype Pose = Pose(location: int, rotation: int)

  datatype Actor = Actor(id: nat, kind: ActorKind, pose: Pose)

  ghost predicate UniqueIds(actors: seq<Actor>) {
    forall i, j :: 0 <= i < j < |actors| ==> actors[i].id != actors[j].id
  }

  function IdsOf(actors: seq<Actor>): set<nat> {
    set i | 0 <= i < |actors| :: actors[i].id
  }

  /** The ids of the actors, in order. */
  function IdList(actors: seq<Actor>): seq<nat>
    decreases |actors|
  {
    if actors == [] then [] else IdList(actors[..|actors| - 1]) + [actors[|actors| - 1].id]
  }

  /** Destroying the next found actor extends the destroyed prefix by one. */
  lemma DestroyNext(actors: seq<Actor>, found: seq<Actor>, i: nat)
    requires i < |found|
    ensures WithoutIds(WithoutIds(actors, IdsOf(found[..i])), {found[i].id})
         == WithoutIds(actors, IdsOf(found[..i + 1]))
    ensures forall log :: log + IdList(found[..i]) + [found[i].id] == log + IdList(found[..i + 1])
  {
    assert found[..i + 1] == found[..i] + [found[i]];
    assert found[..i + 1][..i] == found[..i];
    assert IdsOf(found[..i + 1]) == IdsOf(found[..i]) + {found[i].id};
    WithoutIdsTwice(actors, IdsOf(found[..i]), {found[i].id});
  }

  /** GetActorOfClass: the index of the first actor of the class, in registration order. */
  function FirstOfKind(actors: seq<Actor>, k: ActorKind): (r: Option<nat>)
    ensures r.None? <==> forall j :: 0 <= j < |actors| ==> actors[j].kind != k
    ensures r.Some? ==> r.value < |actors| && actors[r.value].kind == k
    ensures r.Some? ==> forall j :: 0 <= j < r.value ==> actors[j].kind != k
    decreases |actors|
  {
    if actors == [] then None
    else if actors[0].kind == k then Some(0)
    else match FirstOfKind(actors[1..], k)
      case None => None
      case Some(i) => Some(i + 1)
  }

  /** GetAllActorsOfClass: every actor of the class, in registration order. */
  function OfKind(actors: seq<Actor>, k: ActorKind): seq<Actor>
    decreases |actors|
  {
    if actors == [] then []
    else (if actors[0].kind == k then [actors[0]] else []) + OfKind(actors[1..], k)
  }

  /** The actors not of the class, in registration order. */
  function ExceptKind(actors: seq<Actor>, k: ActorKind): seq<Actor>
    decreases |actors|
  {
    if actors == [] then []
    else (if actors[0].kind != k then [actors[0]] else []) + ExceptKind(actors[1..], k)
  }

  /** GetAllActorsOfClass finds exactly the actors of the class; the rest are exactly the
      others. */
  lemma {:induction false} KindMembers(actors: seq<Actor>, k: ActorKind)
    ensures forall a :: a in OfKind(actors, k) <==> a in actors && a.kind == k
    ensures forall a :: a in ExceptKind(actors, k) <==> a in actors && a.kind != k
    decreases |actors|
  {
    if actors != [] {
      KindMembers(actors[1..], k);
      assert actors == [actors[0]] + actors[1..];
    }
  }

  /** The registry after destroying every actor whose id is in ids. */
  function WithoutIds(actors: seq<Actor>, ids: set<nat>): seq<Actor>
    decreases |actors|
  {
    if actors == [] then []
    else (if actors[0].id !in ids then [actors[0]] else []) + WithoutIds(actors[1..], ids)
  }

  /** Destroying the ids keeps exactly the actors whose id is not among them. */
  lemma {:induction false} WithoutIdsMembers(actors: seq<Actor>, ids: set<nat>)
    ensures forall a :: a in WithoutIds(actors, ids) <==> a in actors && a.id !in ids
    decreases |actors|
  {
    if actors != [] {
      WithoutIdsMembers(actors[1..], ids);
      assert actors == [actors[0]] + actors[1..];
    }
  }

  /** Destroying no ids leaves the registry as it is. */
  lemma {:induction false} WithoutNoIds(actors: seq<Actor>)
    ensures WithoutIds(actors, {}) == actors
    decreases |actors|
  {
    if actors != [] {
      WithoutNoIds(actors[1..]);
      assert actors == [actors[0]] + actors[1..];
    }
  }

  /** Destroying one batch of ids after another is destroying their union. */
  lemma {:induction false} WithoutIdsTwice(actors: seq<Actor>, ids: set<nat>, more: set<nat>)
    ensures WithoutIds(WithoutIds(actors, ids), more) == WithoutIds(actors, ids + more)
    decreases |actors|
  {
    if actors != [] {
      WithoutIdsTwice(actors[1..], ids, more);
      var x := actors[0];
      var rest := WithoutIds(actors[1..], ids);
      if x.id !in ids {
        assert WithoutIds(actors, ids) == [x] + rest;
        assert ([x] + rest)[1..] == rest;
      } else {
        assert WithoutIds(actors, ids) == rest;
      }
    }
  }

  /** Removing actors keeps the ids of the rest distinct. */
  lemma {:induction false} WithoutIdsUnique(actors: seq<Actor>, ids: set<nat>)
    requires UniqueIds(actors)
    ensures UniqueIds(WithoutIds(actors, ids))
    decreases |actors|
  {
    if actors != [] {
      var rest := actors[1..];
      assert UniqueIds(rest) by {
        forall i, j | 0 <= i < j < |rest| ensures rest[i].id != rest[j].id {
          assert rest[i] == actors[i + 1] && rest[j] == actors[j + 1];
        }
      }
      WithoutIdsUnique(rest, ids);
      WithoutIdsMembers(rest, ids);
      var r := WithoutIds(rest, ids);
      if actors[0].id !in ids {
        forall a | a in r ensures a.id != actors[0].id {
          var k :| 0 <= k < |rest| && rest[k] == a;
          assert a == actors[k + 1];
        }
        var w := [actors[0]] + r;
        forall i, j | 0 <= i < j < |w| ensures w[i].id != w[j].id {
          if i == 0 {
            assert w[j] in r;
          } else {
            assert w[i] == r[i - 1] && w[j] == r[j - 1];
          }
        }
      }
    }
  }

  /** With distinct ids, destroying the ids of every actor of a class removes exactly the
      actors of that class and keeps the others in order. */
  lemma DestroyingKindIds(actors: seq<Actor>, k: ActorKind)
    requires UniqueIds(actors)
    ensures WithoutIds(actors, IdsOf(OfKind(actors, k))) == ExceptKind(actors, k)
  {
    KindMembers(actors, k);
    var found := OfKind(actors, k);
    var ids := IdsOf(found);
    forall a | a in actors ensures a.id in ids <==> a.kind == k {
      if a.kind == k {
        var j :| 0 <= j < |found| && found[j] == a;
      }
      if a.id in ids {
        var j :| 0 <= j < |found| && found[j].id == a.id;
        var b := found[j];
        assert b in actors;
        var p :| 0 <= p < |actors| && actors[p] == a;
        var q :| 0 <= q < |actors| && actors[q] == b;
        assert p == q;
      }
    }
    SameFilter(actors, ids, k);
  }

  lemma {:induction false} SameFilter(actors: seq<Actor>, ids: set<nat>, k: ActorKind)
    requires forall a :: a in actors ==> (a.id in ids <==> a.kind == k)
    ensures WithoutIds(actors, ids) == ExceptKind(actors, k)
    decreases |actors|
  {
    if actors != [] {
      assert forall a :: a in actors[1..] ==> a in actors;
      SameFilter(actors[1..], ids, k);
    }
  }

  /** The engine world's actor registry: its actors in registration order, the next free actor id, and the
      ids passed to Destroy so far. */
  class Registry {
    var actors: seq<Actor>
    var nextId: nat
    var destroyed: seq<nat>

    ghost predicate Valid()
      reads this
    {
      UniqueIds(actors) && forall a :: a in actors ==> a.id < nextId
    }

    constructor ()
      ensures Valid() && actors == [] && destroyed == []
    {
      actors := [];
      nextId := 0;
      destroyed := [];
    }

    /** UWorld::SpawnActor: registers one new actor of the class at the pose. */
    method SpawnActor(kind: ActorKind, pose: Pose) returns (id: nat)
      requires Valid()
      modifies this
      ensures Valid()
      ensures id == old(nextId) && actors == old(actors) + [Actor(id, kind, pose)]
      ensures id !in IdsOf(old(actors))
      ensures nextId == old(nextId) + 1
      ensures destroyed == old(destroyed)
    {
      id := nextId;
      actors := actors + [Actor(id, kind, pose)];
      nextId := nextId + 1;
      assert forall a :: a in old(actors) ==> a.id < id;
    }

    /** AActor::Destroy: removes the actor with this id from the registry. */
    method Destroy(id: nat)
      requires Valid()
      modifies this
      ensures Valid()
      ensures actors == WithoutIds(old(actors), {id})
      ensures destroyed == old(destroyed) + [id] && nextId == old(nextId)
    {
      WithoutIdsUnique(actors, {id});
      WithoutIdsMembers(actors, {id});
      actors := WithoutIds(actors, {id});
      destroyed := destroyed + [id];
    }
  }
}
