# SpawnDestroy player character — a Dafny model

This project models the part of the SpawnDestroy gameplay module that has behaviour of its
own: the player character `ASpawnDestroyCharacter`. It covers four things:

- the click/attack state machine;
- the movement handlers, which are gated on that machine;
- the command that spawns one prop through the engine's world;
- the command that destroys every prop in the world.

Everything else in the module is engine wiring.

The model has three modules:

- `AttackSpec` (attack_spec.dfy) gives the character as a value `State`. The value holds
  the two flags `clicking` (`bIsClicking`) and `attacking` (`bIsAttacking`), whether a
  controller possesses the character, what the character sees of the animation subsystem
  (anim instance present, punch montage set, montage playing), and the log of requests it
  has sent to the engine (`Play`, `JumpTo(Punch1|Punch2)`, `AddMovementInput`). Each
  handler is a transition function on this value. An `Event` sequence drives the
  character: press, release, the completion callback `AttackEnd`, the engine stopping the
  montage, and axis input. Lemmas state what the machine promises over any such sequence.
- `World` (world.dfy) is the engine's actor registry: actors in registration order,
  searched by class, spawned and destroyed. It is held by the class `Registry`, because the
  engine updates it in place.
- `SpawnDestroyCharacter` (character.dfy) holds the class `Character`. Its fields are the
  two flags, the controller, the animation subsystem and the request log. Each handler is
  a method that updates these fields in place, as the C++ does. Each method's
  postcondition equates the new state with the matching `AttackSpec` transition applied
  to the old state. `DestroyActors` keeps the source's loop over the found actors.

The value of `FMath::RandBool()` is a `coin` parameter, so both sections are verified.
`Montage_Play` is modelled as the engine marking the montage as playing. `AttackEnd` does
not clear that mark, which matches the source. A separate engine event, `MontageStopped`,
clears it.

A consequence of the source that the model makes visible: suppose `AttackEnd` arrives
while the button is held and the montage is still reported as playing. Then the attack
flag is set again but no montage is started (`AttackSpec.AttackBegin`, the
`!CanPlay` case). Whether that can happen depends on how the engine schedules the
completion callback, which is not part of this model. The same holds when the montage
is unset or the mesh has no anim instance: a press marks the character attacking, no
montage starts, and axis input is discarded until something invokes `AttackEnd`
(`AttackSpec.ClickBegin` with `AttackSpec.AxisInputGated`).

## Model

| member | source | states |
|---|---|---|
| `AttackSpec.AttackBegin` | Source/SpawnDestroy/SpawnDestroyCharacter.cpp:69-86 | always sets attacking; issues requests exactly when the montage is set, the anim instance exists and the montage is not playing, and then exactly `Play` followed by `JumpTo(Punch1)` if the random bool is true, else `JumpTo(Punch2)`; in every other case the only change is the attack flag |
| `AttackSpec.ClickBegin` | Source/SpawnDestroy/SpawnDestroyCharacter.cpp:55-62 | afterwards both clicking and attacking hold; a press while attacking changes only the clicking flag (no new montage request); a press while idle issues requests exactly when the montage can play, and then exactly `Play` followed by the `JumpTo` its random bool selects, after which the montage is playing, otherwise only the two flags change; the anim instance and montage configuration are never changed |
| `AttackSpec.ClickEnd` | Source/SpawnDestroy/SpawnDestroyCharacter.cpp:64-67 | clears clicking and leaves attacking, the animation state and the request log unchanged |
| `AttackSpec.AttackEnd` | Source/SpawnDestroy/SpawnDestroyCharacter.cpp:88-95 | afterwards attacking equals clicking; with the button up nothing but the attack flag changes; with it held, requests are issued exactly when the montage can play, and they are one `Play` and the `JumpTo` its random bool selects, after which the montage is playing; otherwise nothing but the attack flag changes; the anim instance and montage configuration are never changed |
| `AttackSpec.Move` | Source/SpawnDestroy/SpawnDestroyCharacter.cpp:186-213 | the log changes exactly when a controller is present, the value is non-zero and no attack is in flight, and then by one movement input on that axis scaled by the value; flags and animation state never change |
| `AttackSpec.ClickingIsLastEdge` | Source/SpawnDestroy/SpawnDestroyCharacter.cpp:55-67 | after any event sequence, clicking equals the state given by the most recent press or release (the initial flag if there was none) |
| `AttackSpec.AttackingIsInFlight` | Source/SpawnDestroy/SpawnDestroyCharacter.cpp:55-95 | after any event sequence, attacking holds exactly when there was a press after the last completion, or the button was held at the last completion; with neither a press nor a completion, the initial flag stands |
| `AttackSpec.QuietKeepsFlags` | Source/SpawnDestroy/SpawnDestroyCharacter.cpp:186-213 | axis input and montage stops change neither the clicking nor the attacking flag |
| `AttackSpec.ReleaseDoesNotInterrupt` | Source/SpawnDestroy/SpawnDestroyCharacter.cpp:64-67 | a release during an attack, followed by any axis input or montage stops, leaves the character attacking with the button up; the completion then only clears the attack flag and issues no request |
| `AttackSpec.HoldingKeepsAttacking` | Source/SpawnDestroy/SpawnDestroyCharacter.cpp:88-95 | from a held, attacking state, no event sequence without a release brings the character back to idle |
| `AttackSpec.HeldButtonRepunches` | Source/SpawnDestroy/SpawnDestroyCharacter.cpp:88-95 | with the button held and a configured montage on an existing anim instance, each cycle of montage stop and completion issues exactly one new `Play` and `JumpTo`, with the section its random bool selects, and leaves the character attacking |
| `AttackSpec.AxisInputGated` | Source/SpawnDestroy/SpawnDestroyCharacter.cpp:186-213 | any sequence of axis input while attacking leaves the whole state unchanged; while idle it appends one movement input per non-zero value, in order, if a controller is present, and none otherwise; nothing else changes |
| `AttackSpec.StepKeepsPaired` | Source/SpawnDestroy/SpawnDestroyCharacter.cpp:74-84 | every handler keeps the request log paired: each `Play` is immediately followed by a `JumpTo`, and each `JumpTo` immediately follows a `Play` |
| `AttackSpec.RunKeepsPaired` | Source/SpawnDestroy/SpawnDestroyCharacter.cpp:74-84 | the pairing of `Play` and `JumpTo` holds after any event sequence |
| `World.FirstOfKind` | Source/SpawnDestroy/SpawnDestroyCharacter.cpp:133 | returns nothing exactly when no actor has the class; otherwise the index of an actor of the class with none before it |
| `World.KindMembers` | Source/SpawnDestroy/SpawnDestroyCharacter.cpp:145 | the actors found for a class (`OfKind`) are exactly the registry's actors of that class, and the remaining ones (`ExceptKind`) are exactly the others |
| `World.WithoutIdsMembers` | Source/SpawnDestroy/SpawnDestroyCharacter.cpp:148 | after destroying a set of ids, the registry holds exactly the actors whose id is not in the set |
| `World.WithoutIdsTwice` | Source/SpawnDestroy/SpawnDestroyCharacter.cpp:146-149 | destroying one set of ids and then another is the same as destroying their union |
| `World.WithoutIdsUnique` | Source/SpawnDestroy/SpawnDestroyCharacter.cpp:148 | destroying actors keeps the remaining ids distinct |
| `World.DestroyingKindIds` | Source/SpawnDestroy/SpawnDestroyCharacter.cpp:142-150 | when ids are distinct, destroying the ids of all actors of a class removes exactly those actors and keeps the others in order |
| `World.Registry.SpawnActor` | Source/SpawnDestroy/ActorSpawner.cpp:20-26 | appends one actor of the class at the given pose, with a fresh id, and advances the next free id by one |
| `World.Registry.Destroy` | Source/SpawnDestroy/SpawnDestroyCharacter.cpp:148 | removes the actor with that id and records one `Destroy` call |
| `SpawnDestroyCharacter.Character.OnClickBegin` | Source/SpawnDestroy/SpawnDestroyCharacter.cpp:55-62 | afterwards clicking and attacking both hold; the new state is `ClickBegin` of the old |
| `SpawnDestroyCharacter.Character.OnClickEnd` | Source/SpawnDestroy/SpawnDestroyCharacter.cpp:64-67 | clears clicking and keeps attacking and the request log; the new state is `ClickEnd` of the old |
| `SpawnDestroyCharacter.Character.AttackBegin` | Source/SpawnDestroy/SpawnDestroyCharacter.cpp:69-86 | sets attacking; the new state is `AttackBegin` of the old, for either value of the random bool |
| `SpawnDestroyCharacter.Character.AttackEnd` | Source/SpawnDestroy/SpawnDestroyCharacter.cpp:88-95 | afterwards attacking equals clicking, and clicking is unchanged; the new state is `AttackEnd` of the old |
| `SpawnDestroyCharacter.Character.MoveForward` | Source/SpawnDestroy/SpawnDestroyCharacter.cpp:186-198 | the new state is `Move` of the old on the forward axis |
| `SpawnDestroyCharacter.Character.MoveRight` | Source/SpawnDestroy/SpawnDestroyCharacter.cpp:200-213 | the new state is `Move` of the old on the right axis |
| `SpawnDestroyCharacter.Character.SpawnActors` | Source/SpawnDestroy/SpawnDestroyCharacter.cpp:131-140 | with no spawner in the world, the world is unchanged; otherwise exactly one `AActorToSpawn` is appended, at the pose of the first spawner in registration order, and the next free id advances by one; nothing is destroyed |
| `SpawnDestroyCharacter.Character.DestroyActors` | Source/SpawnDestroy/SpawnDestroyCharacter.cpp:142-150 | afterwards no `AActorToSpawn` remains and every other actor stays, in order; exactly one `Destroy` call is recorded for each found actor, in registration order |

## Left out

- The constructor (Source/SpawnDestroy/SpawnDestroyCharacter.cpp:20-53) sets floating-point tuning constants and attaches the camera components, so it is left out. The model's constructor only gives the initial state: both flags cleared.
- The direction computation in `MoveForward`/`MoveRight` is left out because it is floating-point trigonometry. This covers the control rotation, the yaw-only rotator and the unit axis. A movement input is recorded by its axis and its scale.
- Axis values are `real`, so the model does not capture IEEE-754 special values such as NaN.
- `TurnAtRate` and `LookUpAtRate` are left out because they only scale a rate by delta time.
- `SetupPlayerInputComponent`, `TouchStarted`/`TouchStopped` and `OnResetVR` are left out. They are input-binding tables and one-line calls into the engine or the VR library.
- `AActorToSpawn`, `ASpawnDestroyGameMode`, `UMainAnimInstance` and the build files are left out: they are construction-time wiring, asset lookups or declarations with no behaviour.
- `AActorSpawner::SpawnActor` (Source/SpawnDestroy/ActorSpawner.cpp:20-26) is inlined into `SpawnDestroyCharacter.Character.SpawnActors`, which reads the first spawner's pose and calls `World.Registry.SpawnActor` with it. Poses are opaque integer tokens.
- The randomness of `FMath::RandBool` is left out; its value is an input. So the model cannot state that both sections are equally likely.
- When the engine fires `AttackEnd` and when it stops the montage are left out. Both are events that may arrive in any order relative to input.
- Possession, the mesh's anim instance and the punch montage asset are fixed over an event sequence: no `Event` changes `controlled`, `anim.hasInstance` or `anim.montageSet`, whereas the source reads `Controller`, `GetAnimInstance()` and `PunchAnimMontage` afresh on every call (Source/SpawnDestroy/SpawnDestroyCharacter.cpp:73-74, 188, 202). The single-step transitions take them from the state, so they hold for any values; only the lemmas over `Run` see them constant.
- `AActor::Destroy` returns whether the actor was destroyed, and Source/SpawnDestroy/SpawnDestroyCharacter.cpp:148 ignores that result. `World.Registry.Destroy` assumes it always succeeds, and the promise of `SpawnDestroyCharacter.Character.DestroyActors` that no `AActorToSpawn` remains rests on that assumption.
- The engine's actor iteration order is modelled as registration order, so "first spawner" means the earliest registered one. Garbage collection and pending-kill states are not modelled: a destroyed actor simply leaves the registry.
