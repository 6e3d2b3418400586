# UnityUtil bookkeeping cores in Dafny

This project models three self-contained pieces of bookkeeping from the
UnityUtil helper library and proves properties about them:

- **The prefab object pool** (`ObjectPool`, ObjectPool.cs). It keeps a map
  from each prefab to its list of idle instances and a map from each live
  spawned instance to its prefab. The model covers `CreatePool`, the core
  `Spawn` overload, both `Recycle`s, both `RecycleAll`s, `IsSpawned`, the
  `Count*` queries, `DestroyPooled` and `DestroyAll`. Every GameObject is a
  natural-number id. Unity's "a destroyed object compares equal to null"
  is a `destroyed` set. `Instantiate` hands out the counter `next`.
- **The timer state machine** (`Timers`, Common/Timer.cs). One timer is an
  immutable record. `Pause`, `Resume`, `Cancel`, `GetTimeElapsed`,
  `GetTimeRemaining` and the per-frame `Update` are total functions of the
  timer and the current world time.
- **The timer manager** (`TimerManagers`, the nested `TimerManager` of
  Common/Timer.cs). It holds the running list and the list of timers
  registered since the last frame. Timers are shared references in C#, so the
  model keeps every timer in a store, and handles and lists hold store
  indices.
- **The reversible move commands** (`MoveCommands`, MoveCommand.cs). Each
  command translates the player one unit along an axis of the player's
  frame. It remembers the player so that `Undo` can translate that player
  back. The undo history of CommandManager.cs replays the commands from
  newest to oldest.

Files:

- `wrappers.dfy`: the `Option` type, which stands for nullable values.
- `seqs.dfy`: duplicate-freedom and `Filter` (`List.RemoveAll`).
- `object_pool.dfy`, `timer.dfy`, `timer_manager.dfy`, `move_command.dfy`:
  one module each.

Inputs the C# reads from the engine are passed in as parameters:

- The clocks `Time.time` and `Time.realtimeSinceStartup` become a `Clock`
  value. Each timer reads one of the two.
- Whether a timer's owner has been destroyed is part of the timer. The host
  sets it with `DestroyOwner`.
- Whether a GameObject has been destroyed is the pool's `destroyed` set.
  `Destroy` adds to it.
- Which player a command acts on is an argument, and the scene is a map from
  player to position.

Callbacks are not run. `Update` instead reports whether the completion
callback fired and which value the update callback received.

`GetTimeElapsed` tests the fire time before it tests the cancel snapshot.
So a timer cancelled before its fire time reports the snapshot only until
that fire time passes. From then on it reports the full duration. The model
keeps this behaviour, and `Timers.CancelledTimerReportsDurationAfterFireTime`
states it.

`CancelAllTimers` cancels only the running timers. Timers registered in the
same frame are dropped from the manager without being cancelled.
`TimerManagers.CancelAllSkipsPendingTimers` states this.

## Model

| member | source | states |
|---|---|---|
| ObjectPool.CountPooled | ObjectPool.cs:207-210 | a prefab without a pool has 0 idle instances; a prefab's idle count plus the idle counts of all other prefabs is the all-pools total |
| ObjectPool.CountAllPooled | ObjectPool.cs:221-224 | visiting the pools one by one, in any order, yields the sum of all idle-list lengths |
| ObjectPool.IsSpawned | ObjectPool.cs:198-201 | an object is spawned exactly when it is a spawned instance of some prefab |
| ObjectPool.CountSpawned | ObjectPool.cs:216-219 | a prefab's spawned count is 0 exactly when no spawned instance has that prefab, and never exceeds the number of spawned objects |
| ObjectPool.CreatePool | ObjectPool.cs:52-68 | a destroyed (null) prefab or one that already has a pool is left alone; otherwise the prefab gets a pool of max(n, 0) instances, all freshly created, and no other list or map changes |
| ObjectPool.CreatePoolIdempotent | ObjectPool.cs:54 | creating a pool a second time, with any size, changes nothing |
| ObjectPool.CreatePoolValid | ObjectPool.cs:52-68 | creating a pool keeps the pool invariant, and the new instances are neither destroyed nor spawned |
| ObjectPool.DropDestroyed | ObjectPool.cs:101-106 | the leading-null loop leaves a suffix of the list; everything it dropped was destroyed, and it stops on a live entry if it stops early |
| ObjectPool.DropDestroyedFindsLive | ObjectPool.cs:101-107 | the loop ends with an entry in hand exactly when the list holds a live instance somewhere |
| ObjectPool.Spawn | ObjectPool.cs:94-134 | with a pool and a live idle instance, that instance (the first live one) is reused, leaves the list and is recorded as spawned; with a pool but no live instance the list ends empty and a fresh instance is spawned; without a pool a fresh instance is returned and neither map changes; other prefabs' lists never change |
| ObjectPool.SpawnValid | ObjectPool.cs:94-134 | spawning keeps the pool invariant; the returned object is live and was not spawned before, and it is recorded as spawned exactly when the prefab has a pool |
| ObjectPool.SpawnReuseValid | ObjectPool.cs:101-116 | reusing an idle instance keeps the pool invariant |
| ObjectPool.SpawnFreshValid | ObjectPool.cs:119-125 | spawning a fresh instance for an exhausted pool keeps the pool invariant |
| ObjectPool.TakeValid | ObjectPool.cs:101-125 | shortening an idle list and recording an instance no other idle list holds keeps the pool invariant |
| ObjectPool.SpawnFromPoolCounts | ObjectPool.cs:101-116 | spawning from a pool with a live instance keeps `next`, lowers the idle count by at least one and raises the spawned count by exactly one |
| ObjectPool.SpawnFromExhaustedPool | ObjectPool.cs:119-125 | spawning from a pool with no live instance creates a spawned fresh instance and leaves the pool empty; the spawned count rises by one |
| ObjectPool.SpawnUnpooledCounts | ObjectPool.cs:128-133 | spawning an unpooled prefab changes no prefab's idle or spawned count |
| ObjectPool.CountSpawnedAdd | ObjectPool.cs:216-219 | recording one more instance of a prefab raises that prefab's spawned count by exactly one |
| ObjectPool.CountSpawnedRemove | ObjectPool.cs:216-219 | forgetting one spawned instance lowers its own prefab's spawned count by one and no other prefab's |
| ObjectPool.Destroy | ObjectPool.cs:164 | `Object.Destroy` only marks the object destroyed |
| ObjectPool.DestroyValid | ObjectPool.cs:164 | destroying an existing object keeps the pool invariant |
| ObjectPool.Recycle | ObjectPool.cs:158-174 | afterwards the object is not spawned; a spawned object moves from the spawned map to the end of its prefab's idle list; any other object is destroyed and neither map changes |
| ObjectPool.RecycleValid | ObjectPool.cs:158-174 | recycling keeps the pool invariant, including that no instance is both idle and spawned |
| ObjectPool.RecycleConserves | ObjectPool.cs:158-174 | recycling never creates or loses an instance: each prefab's idle plus spawned count is unchanged, and the all-pools total grows by one exactly when the object was spawned |
| ObjectPool.RecycleStep | ObjectPool.cs:183-193 | one recycle inside either loop removes exactly that object from the spawned map and appends it to its own prefab's list |
| ObjectPool.RecycleAll | ObjectPool.cs:180-188 | for any enumeration order: the prefab ends with no spawned instance; other prefabs' spawned instances stay spawned with the same prefab; the prefab's idle list keeps its old entries in front and gains exactly the formerly spawned instances; other lists are untouched; the invariant is kept |
| ObjectPool.RecycledPrefabButStep | ObjectPool.cs:183-185 | one iteration of the loop keeps its invariant |
| ObjectPool.RecycleEverything | ObjectPool.cs:189-196 | for any enumeration order: the spawned map ends empty, every idle list gains exactly its own prefab's formerly spawned instances behind its old entries, and the invariant is kept |
| ObjectPool.RecycledAllButStep | ObjectPool.cs:191-193 | one iteration of the loop keeps its invariant |
| ObjectPool.DestroyPooled | ObjectPool.cs:264-271 | the prefab's idle list ends empty and exactly its former entries become destroyed; the spawned map and other lists do not change; a prefab without a pool is left alone |
| ObjectPool.DestroyPooledValid | ObjectPool.cs:264-271 | destroying the idle list keeps the invariant and removes exactly that list's length from the all-pools total |
| ObjectPool.DestroyAll | ObjectPool.cs:277-281 | the prefab ends with no idle and no spawned instance; the destroyed objects grow by exactly its formerly idle and spawned instances; other prefabs' lists and spawned instances are untouched, no object becomes spawned and `next` is kept; a prefab without a pool leaves the pool unchanged |
| Timers.NewTimer | Common/Timer.cs:271-286 | a new timer has the given duration, loop flag and clock, starts and was last updated at that clock's current time, is neither done nor paused, fires one duration later, and has an owner exactly when one was given |
| Timers.Timer.IsPaused | Common/Timer.cs:21 | a timer is paused exactly when it holds a pause snapshot; `Timers.Pause` and `Timers.Resume` state how the snapshot comes and goes |
| Timers.Timer.IsCancelled | Common/Timer.cs:23 | a timer is cancelled exactly when it holds a cancel snapshot; `Timers.Cancel` states when it is taken |
| Timers.Timer.IsDone | Common/Timer.cs:25 | a timer is done when completed, cancelled or its owner is destroyed; `Timers.DoneIsFinal` states that it stays so |
| Timers.Timer.IsOwnerDestroyed | Common/Timer.cs:247 | a timer's owner counts as destroyed only when it had one and the host destroyed it |
| Timers.Timer.FireTime | Common/Timer.cs:297-300 | a cycle ends one duration after its start |
| Timers.WorldTime | Common/Timer.cs:292-295 | a timer reads the real-time clock when it uses real time and the game clock otherwise |
| Timers.DestroyOwner | Common/Timer.cs:247 | once a timer's owner is destroyed the timer is done; a timer without owner is unaffected; nothing but the owner changes |
| Timers.Elapsed | Common/Timer.cs:195-205 | the full duration once completed or at or after the fire time; otherwise the cancel snapshot if cancelled, else the pause snapshot if paused, else the time since the cycle started; always between 0 and the duration for a well-formed timer |
| Timers.Remaining | Common/Timer.cs:213-216 | 0 once completed or at or after the fire time; before that the duration minus the cancel snapshot if cancelled, else minus the pause snapshot if paused, else exactly the time left until the fire time; always between 0 and the duration for a well-formed timer |
| Timers.Pause | Common/Timer.cs:162-170 | a paused or done timer is left alone; otherwise the timer becomes paused (not done) with the current elapsed time as snapshot, and nothing else changes |
| Timers.Resume | Common/Timer.cs:175-183 | a timer that is not paused, or is done, is left alone; otherwise only the pause snapshot is dropped, so the elapsed time counts again from the start the last paused update left |
| Timers.Cancel | Common/Timer.cs:148-157 | a done timer is left alone; otherwise the timer becomes done and cancelled, not paused, not completed, with the current elapsed time as snapshot, and nothing else changes |
| Timers.Update | Common/Timer.cs:307-345 | a done timer is left alone; a paused timer changes only its start and last-update time, and its fire time moves forward by the time since the last update; a running timer keeps its start unless a looped timer fires; the completion event fires exactly when the timer is running and its fire time has come; a one-shot timer then completes and a looped one restarts now without completing |
| Timers.ResumeAt | Common/Timer.cs:159-183 | the intended resume (see Findings): a paused timer that is not done becomes unpaused with nothing else changed but its start, reads its pause snapshot as elapsed time and fires after the time left at the pause, whenever it is resumed |
| Timers.OperationsKeepWellFormed | Common/Timer.cs:148-183 | pausing, resuming, cancelling, updating and destroying the owner keep the snapshots within the duration while the clock does not run backwards |
| Timers.PauseResumeRoundTrip | Common/Timer.cs:162-183 | pausing a running timer and resuming it gives back the same timer |
| Timers.CancelIdempotent | Common/Timer.cs:148-157 | cancelling a second time, at any later time, changes nothing |
| Timers.ElapsedMonotonic | Common/Timer.cs:195-205 | the elapsed time of a running timer never decreases as the clock advances |
| Timers.RemainingAntitone | Common/Timer.cs:213-216 | the remaining time of a running timer never increases as the clock advances |
| Timers.PausedUpdatesShiftStart | Common/Timer.cs:313-318 | any run of updates while paused moves the start forward by exactly the time since the update before them, and changes nothing but the start and the last-update time |
| Timers.PauseFreezesElapsed | Common/Timer.cs:159-170 | with the intended resume, a running timer paused at any time, updated for any number of frames and resumed at any time reads the same elapsed time as when it was paused and fires after exactly the time that remained then |
| Timers.PauseDriftAsWritten | Common/Timer.cs:313-318 | as written, a timer paused, updated once and resumed reads its snapshot minus the time from its last update to the pause plus the time from the paused update to the resume, capped at the duration |
| Timers.PauseDriftExample | Common/Timer.cs:159-183 | a timer of duration 10 started at 0, last updated at 1, paused at 2 and updated at 3 reads 1 when resumed at 3 and 2 when resumed at 4 as written, and 2 at both times with the intended resume |
| Timers.CancelledTimerReportsDurationAfterFireTime | Common/Timer.cs:195-205 | a cancelled timer reports its snapshot at the cancel time but the full duration once the original fire time has passed |
| Timers.LoopedTimerNeverCompletes | Common/Timer.cs:335-343 | no update makes a looped timer done, and after firing its next fire time is one duration after now |
| Timers.DoneIsFinal | Common/Timer.cs:21-25 | a done timer is left alone by pausing, resuming, cancelling and updating, and stays done when its owner is destroyed |
| TimerManagers.Empty | Common/Timer.cs:358-361 | a fresh manager satisfies the manager invariant |
| TimerManagers.RegisterTimer | Common/Timer.cs:363-366 | the timer gets a handle no listed timer has, joins the pending list only, and the invariant is kept |
| TimerManagers.Register | Common/Timer.cs:49-69 | the registered timer has the given duration, loop flag, clock and owner, is pending, neither done nor paused, and fires one duration after registration; the running list and the earlier timers do not change |
| TimerManagers.ApplyEach | Common/Timer.cs:370-373 | a loop over a duplicate-free list applies the operation once to each listed timer and to no other timer |
| TimerManagers.UpdateEach | Common/Timer.cs:409-412 | the update loop touches only listed timers and reports only listed timers as completed |
| TimerManagers.UpdateEachUpdates | Common/Timer.cs:409-412 | over a duplicate-free list every listed timer is updated exactly once |
| TimerManagers.UpdateEachCompleted | Common/Timer.cs:409-412 | over a duplicate-free list a timer is reported completed exactly when it is listed and its update fired |
| TimerManagers.UpdateAllTimers | Common/Timer.cs:402-416 | pending timers are merged and the pending list ends empty; every running or pending timer is updated exactly once and no other timer changes; afterwards the running list holds exactly the merged timers that are not done; the completed events are exactly the merged timers whose update fired; the invariant is kept |
| TimerManagers.CancelAllTimers | Common/Timer.cs:368-377 | both lists end empty; every running timer is cancelled and done; no other timer changes |
| TimerManagers.PauseAllTimers | Common/Timer.cs:379-385 | every running timer is paused (or was done) and the lists and other timers do not change |
| TimerManagers.ResumeAllTimers | Common/Timer.cs:387-393 | every running timer is resumed and the lists and other timers do not change |
| TimerManagers.RegisteredTimerJoinsNextFrame | Common/Timer.cs:402-416 | a timer registered before a frame is updated in that frame and stays running exactly when that update did not finish it |
| TimerManagers.LoopedTimerStaysRegistered | Common/Timer.cs:402-416 | a looped timer that is not done is still running after every frame |
| TimerManagers.FiredOneShotTimerIsDropped | Common/Timer.cs:402-416 | a one-shot timer that fired in a frame is completed and leaves the running list in that frame |
| TimerManagers.CancelAllSkipsPendingTimers | Common/Timer.cs:368-377 | a timer still pending when all timers are cancelled is dropped from both lists but is not cancelled |
| MoveCommands.ExecuteOffset | MoveCommand.cs:9-54 | each command's move is one unit along a horizontal axis |
| MoveCommands.UndoOffset | MoveCommand.cs:14-59 | each undo moves by the exact opposite of its command's move |
| MoveCommands.TranslateDistance | MoveCommand.cs:9 | a translation moves a position by the vector's length, and a unit move changes exactly one coordinate |
| MoveCommands.Translate | MoveCommand.cs:9 | translating fails for a missing player and otherwise moves only that player, by the given vector |
| MoveCommands.Execute | MoveCommand.cs:6-10 | the command records the player whether or not the move succeeds; the move fails exactly when the player is missing; otherwise that player moves by one unit in one coordinate, keeps its height, and no other player moves (likewise lines 21-25, 36-40 and 51-55) |
| MoveCommands.Undo | MoveCommand.cs:12-15 | undo fails when no player was recorded or it is missing; otherwise it moves the recorded player alone by one unit in one coordinate (likewise lines 27-30, 42-45 and 57-60) |
| MoveCommands.ExecuteThenUndoRestores | MoveCommand.cs:3-61 | for all four commands, executing and then undoing restores every player's position |
| MoveCommands.UndoMovesRecordedPlayer | MoveCommand.cs:6-15 | undo acts on the player the last execute recorded, in whatever scene it is applied to |
| MoveCommands.LeftRightInverse | MoveCommand.cs:18-46 | moving left then right, or right then left, restores the scene |
| MoveCommands.ForwardBackInverse | MoveCommand.cs:3-61 | moving forward then back, or back then forward, restores the scene |
| MoveCommands.Displacement | MoveCommand.cs:9-54 | a run of commands displaces the player horizontally and by at most one unit per command |
| MoveCommands.DisplacementSnoc | MoveCommand.cs:9-54 | one more command adds its own move to the total displacement |
| MoveCommands.ExecuteAll | MoveCommand.cs:3-61 | a run of key presses, each executing one of the four commands as the input handler does (命令模式示例/InputHandler.cs, lines 24-48), records one command per press naming the player, and moves that player by the total displacement and no one else |
| MoveCommands.UndoAll | MoveCommand.cs:12-60 | undoing a history newest first, as `UndoStart` does (Assets/Commond Model/CommandManager.cs, lines 22-32), keeps the set of players, and a player that no command recorded does not move |
| MoveCommands.UndoAllRestores | MoveCommand.cs:3-61 | undoing a whole session from newest to oldest, as `UndoStart` does (Assets/Commond Model/CommandManager.cs, lines 22-32), restores the scene it started from |

## Findings

| source | as written | input that shows it | evidently intended | confidence | as-written member | corrected member |
|---|---|---|---|---|---|---|
| Common/Timer.cs:313-318 | a paused update pushes the start forward by the whole time since the last update, and `Resume` (line 182) only drops the snapshot; so the time between the last update and `Pause` is lost and the time between the last paused update and `Resume` is gained | duration 10, start 0, last update at 1, `Pause` at 2 (snapshot 2), update at 3, `Resume` at 3: elapsed reads 1 | a resumed timer continues from the point where it was paused (the doc comment at Common/Timer.cs:160), at whatever time within a frame `Pause` and `Resume` are called | not executed | Timers.PauseDriftAsWritten | Timers.ResumeAt |

## Left out

- Unity object lifecycle side effects are not modelled. This covers parenting, `SetActive`, positions and rotations written by `Spawn`, and the startup pools. Only the two maps and the destroyed flag are modelled.
- C# `null` arguments are not modelled. A null key makes the dictionaries throw. A destroyed object stands in for Unity's "equals null".
- ObjectPool.CountSpawned: compares prefab ids. Unity's `==` also treats two different destroyed objects as equal, so the C# count for a destroyed prefab also includes instances of other destroyed prefabs. That case is not modelled.
- ObjectPool.RecycleAll: selects by prefab id, for the same reason. With a destroyed prefab, the C# also recycles instances whose own prefab is a different destroyed object.
- ObjectPool.Recycle: keeps only the map updates when a spawned object has been destroyed. The C# updates both maps and then throws when it touches the destroyed object's transform. Inside `RecycleAll` that exception also leaves the static `TempList` uncleared. Exceptions are not modelled.
- ObjectPool.Destroy: destruction takes effect at once. Unity destroys the object only after the current frame's update loop, and until then it does not compare equal to null. So an idle object that `Recycle` destroyed (ObjectPool.cs:165) can still be reused by a `Spawn` later in the same frame, while the model skips it.
- ObjectPool.Spawn: a destroyed prefab with no live idle instance makes `Instantiate` throw. The model returns a fresh id instead.
- The `Add` of `Spawn` cannot hit an already-spawned key under the pool invariant. `ObjectPool.SpawnValid` proves that the returned object was not spawned before. The throwing path is not modelled.
- The `Component` overloads of every pool operation and the `ObjectPoolExtensions` wrappers only forward to the `GameObject` versions. `GetPooled` and `GetSpawned` only copy lists out.
- Timer callbacks are not run. `Update` reports the completion and the update value as data. A callback that cancels or registers timers during the manager's loop is not modelled.
- Float rounding is not modelled. Times are exact reals, so `Timers.Elapsed`, `Timers.Remaining` and `Timers.Update` hold without float error. The C# computes in single-precision floats.
- `GetRatioComplete` and `GetRatioRemaining` are float divisions by `Duration` and are not modelled.
- The static null-safe `Timer.Cancel`, `Pause` and `Resume` wrappers are not modelled. Neither are `CancelAllRegisteredTimers`, `PauseAllRegisteredTimers`, `ResumeAllRegisteredTimers` and the `AttachTimer` extension. They only forward to the modelled operations when a manager exists.
- The lazy lookup or creation of the `TimerManager` GameObject in `Register` is scene plumbing and is not modelled. So is `Singleton.cs`.
- MoveCommands.Translate: positions are integer vectors in the player's own frame. `Transform.Translate` moves along the player's rotated axes in world space. The model assumes that the rotation does not change between a command and its undo.
- MoveCommands.ExecuteAll: uses a fresh command value per key press. The C# input handler reuses one instance per key. With the single player it drives, each instance records the same player, so undo behaves the same.
- The 0.2-second waits of the undo coroutine are not modelled. Clearing the command list afterwards is not modelled either.
- MoveCommands.UndoAll: assumes no input arrives while the undo runs. During the coroutine's waits, a key press adds to the command list (InputHandler.cs, lines 26-48) and a second B press starts another `UndoStart` that reverses it (CommandManager.cs, line 24), while the first `UndoStart` is still enumerating it (CommandManager.cs, lines 25-29). The C# enumerator then throws. That interleaving is not modelled.
- Timers.ResumeAt: the corrected resume is stated beside the program's own `Resume`. The manager and `Timers.Resume` keep the behaviour as written.
- The MVC layer, `MenuTabView` and the 2D character controller are not modelled, since they are UI and engine glue. The second-order dynamics filter is floating-point numerics and is not modelled.
