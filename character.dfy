/** The player character, ASpawnDestroyCharacter: the click and attack flags it updates
    in place, the movement handlers gated on the attack flag, and the spawn and destroy
    commands it dispatches to the world. Each method is proved against the matching
    transition of AttackSpec, whose lemmas carry the properties over event sequences. */
module SpawnDestroyCharacter {
  import opened AttackSpec
  import W = World

  class Character {
    /** bIsClicking: the click button is held. */
    var isClicking: bool
    /** bIsAttacking: an attack is in flight. */
    var isAttacking: bool
    /** Controller != nullptr: a controller possesses the character. */
    var hasController: bool
    /** The animation subsystem as the character sees it through its mesh. */
    var anim: Anim
    /** The requests sent to the engine, in order. */
    var requests: seq<Request>

    /** The character as a value of the transition model. */
    function Snapshot(): State
      reads this
    {
      State(isClicking, isAttacking, hasController, anim, requests)
    }

    /** Both flags start cleared; no request has been sent yet. */
    constructor (controlled: bool, animation: Anim)
      ensures !isClicking && !isAttacking
      ensures Snapshot() == State(false, false, controlled, animation, [])
    {
      isClicking := false;
      isAttacking := false;
      hasController := controlled;
      anim := animation;
      requests := [];
    }

    method OnClickBegin(coin: bool)
      modifies this
      ensures isClicking && isAttacking
      ensures Snapshot() == ClickBegin(old(Snapshot()), coin)
    {
      isClicking := true;
      if !isAttacking {
        AttackBegin(coin);
      }
    }

    method OnClickEnd()
      modifies this
      ensures !isClicking && isAttacking == old(isAttacking) && requests == old(requests)
      ensures Snapshot() == ClickEnd(old(Snapshot()))
    {
      isClicking := false;
    }

    /** coin is the value FMath::RandBool returns on this call. */
    method AttackBegin(coin: bool)
      modifies this
      ensures isAttacking
      ensures Snapshot() == AttackSpec.AttackBegin(old(Snapshot()), coin)
    {
      isAttacking := true;
      if anim.montageSet && anim.hasInstance && !anim.montagePlaying {
        requests := requests + [Play];
        anim := anim.(montagePlaying := true);
        if coin {
          requests := requests + [JumpTo(Punch1)];
        } else {
          requests := requests + [JumpTo(Punch2)];
        }
      }
    }

    method AttackEnd(coin: bool)
      modifies this
      ensures isAttacking == isClicking == old(isClicking)
      ensures Snapshot() == AttackSpec.AttackEnd(old(Snapshot()), coin)
    {
      isAttacking := false;
      if isClicking {
        AttackBegin(coin);
      }
    }

    method MoveForward(value: real)
      modifies this
      ensures Snapshot() == Move(old(Snapshot()), Forward, value)
    {
      if hasController && value != 0.0 && !isAttacking {
        requests := requests + [AddMovementInput(Forward, value)];
      }
    }

    method MoveRight(value: real)
      modifies this
      ensures Snapshot() == Move(old(Snapshot()), Right, value)
    {
      if hasController && value != 0.0 && !isAttacking {
        requests := requests + [AddMovementInput(Right, value)];
      }
    }

    /** Asks the first actor spawner of the world, if there is one, to spawn one
        AActorToSpawn at its own pose; with no spawner the world is unchanged. */
    method SpawnActors(world: W.Registry)
      requires world.Valid()
      modifies world
      ensures world.Valid() && world.destroyed == old(world.destroyed)
      ensures W.FirstOfKind(old(world.actors), W.ActorSpawner).None? ==>
        world.actors == old(world.actors) && world.nextId == old(world.nextId)
      ensures W.FirstOfKind(old(world.actors), W.ActorSpawner).Some? ==>
        var spawner := old(world.actors)[W.FirstOfKind(old(world.actors), W.ActorSpawner).value];
        world.actors == old(world.actors) + [W.Actor(old(world.nextId), W.ActorToSpawn, spawner.pose)] &&
        world.nextId == old(world.nextId) + 1
    {
      var found := W.FirstOfKind(world.actors, W.ActorSpawner);
      if found.Some? {
        var spawner := world.actors[found.value];
        var _ := world.SpawnActor(W.ActorToSpawn, spawner.pose);
      }
    }

    /** Destroys every AActorToSpawn of the world, one Destroy call each, in registration
        order; every other actor stays, in order. */
    method DestroyActors(world: W.Registry)
      requires world.Valid()
      modifies world
      ensures world.Valid() && world.nextId == old(world.nextId)
      ensures world.actors == W.ExceptKind(old(world.actors), W.ActorToSpawn)
      ensures forall a :: a in world.actors ==> a.kind != W.ActorToSpawn
      ensures world.destroyed == old(world.destroyed) + W.IdList(W.OfKind(old(world.actors), W.ActorToSpawn))
    {
      ghost var initial := world.actors;
      var found := W.OfKind(world.actors, W.ActorToSpawn);
      var i := 0;
      assert found[..0] == [] && W.IdsOf(found[..0]) == {};
      W.WithoutNoIds(initial);
      while i < |found|
        invariant 0 <= i <= |found|
        invariant world.Valid() && world.nextId == old(world.nextId)
        invariant world.actors == W.WithoutIds(initial, W.IdsOf(found[..i]))
        invariant world.destroyed == old(world.destroyed) + W.IdList(found[..i])
      {
        world.Destroy(found[i].id);
        assert world.actors == W.WithoutIds(initial, W.IdsOf(found[..i + 1]))
            && world.destroyed == old(world.destroyed) + W.IdList(found[..i + 1]) by {
          W.DestroyNext(initial, found, i);
        }
        i := i + 1;
      }
      assert world.actors == W.ExceptKind(initial, W.ActorToSpawn) by {
        assert found[..i] == found;
        W.DestroyingKindIds(initial, W.ActorToSpawn);
      }
      W.KindMembers(initial, W.ActorToSpawn);
      assert found[..i] == found;
    }
  }
}
