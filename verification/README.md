# Helicopter and dinosaurs: the game-state core

A model of the sequential game logic of a small arcade game. A helicopter fires a
limited supply of missiles at dinosaurs. It reloads at a supply point from a depot,
and a truck process refills the depot. A spawner process adds dinosaurs. The game is
lost when five dinosaurs are alive at once, or when the helicopter touches one.

The model has three modules:

- `Entities` (`entities.dfy`) holds the constants (`MAX_DINOS`, `DEPOSIT_CAPACITY`,
  `MAX_ACTIVE_MISSILES`), missiles and dinosaurs without their sprites, the
  difficulty table, the resupply amount, and the count of living dinosaurs.
- `Collisions` (`collisions.dfy`) is the missile-against-dinosaur resolver as pure
  functions (`ScanDinos` for one missile, `Resolve` for all of them) with lemmas
  about it, plus the helicopter test.
- `Game` (`game_state.dfy`) is the class `GameState`. Its fields are the program's
  globals (`m`, `n`, `reloadTime`, `dinosaurSpawnTime`, `currentMissiles`,
  `depositMissiles`, `activeDinos`, `gameOver`) and the `missiles` and `dinos`
  lists. Each critical section of the truck and spawner threads is one method, and
  so is each game-state block of the frame loop. `Valid()` is the invariant every
  step keeps:
  - ammunition stays within its bounds;
  - at most 10 missiles are ever fired;
  - `activeDinos` equals the number of living dinosaurs and is at most 5;
  - `gameOver` is set whenever 5 are alive.

A condition-variable wait becomes the step's precondition:
- the truck waits until the depot is below capacity;
- resupply waits until the depot is non-empty, and only when the resupply branch is
  taken.

Geometry is abstracted. `Geometry.headShot(i, k)` stands for "missile i is at
exactly the height of dinosaur k's head and their boxes meet", `Geometry.bodyHit(i,
k)` for "missile i's box meets dinosaur k's body", `nearSupply` for the helicopter's
y coordinate being greater than 550 (`y > 550`, main.cpp:221), and `touches(k)` for
the helicopter's box meeting dinosaur k's.

Three behaviours of the code are worth knowing, and the model keeps them as written:

- Only a head shot ends a missile's scan (main.cpp:153). After a body hit the
  missile is spent, but the scan goes on, and it can still score a head shot on a
  later dinosaur (`BodyHitDoesNotStopScan`).
- The missile list is never pruned, and the fire test compares its full length
  (inactive missiles included) with 10. So after ten shots no further missile can
  be fired.
- The spawner step does not test `gameOver`. Its thread checks the flag only before
  sleeping.

## Model

| member | source | states |
|---|---|---|
| `Entities.LevelParams` | main.cpp:57-77 | levels 1, 2 and 3, and only they, select parameters; every selected parameter is at least 2 |
| `Entities.HarderLevelsAreHarder` | main.cpp:58-77 | a harder level needs strictly more head shots, gives strictly fewer missiles, and refills and spawns strictly faster |
| `Entities.RefillAmount` | main.cpp:224-226 | the amount moved by a resupply is positive and at most what the depot holds, never overfills the helicopter, and either fills it or empties the depot |
| `Collisions.ScanDinos` | main.cpp:137-159 | scanning the dinosaurs for one missile changes the length of neither list |
| `Collisions.Resolve` | main.cpp:134-160 | resolving all missiles changes the length of neither list |
| `Collisions.ScanMissileEffect` | main.cpp:141-158 | a scan changes no other missile; the missile stays active exactly when it was active and met no living dinosaur, head or body |
| `Collisions.ScanWithoutHeadShot` | main.cpp:154-158 | with no head shot, body hits change no dinosaur and leave the counter alone |
| `Collisions.ScanFirstHeadShot` | main.cpp:141-153 | the first living dinosaur head-shot takes exactly one more hit and dies when hits reach m; the counter drops by one exactly then; no other dinosaur changes, so the scan ends there |
| `Collisions.ScanKeepsCount` | main.cpp:144-150 | a scan changes the counter by exactly the change in the number of living dinosaurs |
| `Collisions.ResolveKeepsCount` | main.cpp:134-160 | the whole resolution keeps the counter equal to the number of living dinosaurs |
| `Collisions.ScanEvolves` | main.cpp:137-159 | in a scan, lengths are kept, the counter never grows, missiles and dinosaurs are only deactivated, hits never decrease, and dead dinosaurs are untouched |
| `Collisions.ResolveEvolves` | main.cpp:134-160 | the same holds for the whole resolution; in particular dead dinosaurs are never changed |
| `Collisions.ResolveSkipsSpent` | main.cpp:134-135 | when no missile from index i on is active, resolution changes nothing: spent missiles are skipped and never score again |
| `Collisions.ScanAddsAtMostOneHit` | main.cpp:137-159 | one missile's scan adds at most one hit over all dinosaurs |
| `Collisions.ResolveHitsBound` | main.cpp:134-160 | resolution adds at most as many hits in all as there are active missiles |
| `Collisions.TwoHeadShotsKillOnEasy` | main.cpp:141-153 | on level 1 (two hits to kill), two head shots on one living dinosaur leave it dead with 2 hits and bring the counter from 1 to 0 |
| `Collisions.BodyHitDoesNotStopScan` | main.cpp:141-158 | a missile that body-hits dinosaur 0 still head-shots dinosaur 1 in the same scan |
| `Collisions.CheckHelicopterCollision` | main.cpp:164-171 | the answer is true exactly when some living dinosaur's body meets the helicopter; nothing changes |
| `Game.GameState.constructor` | main.cpp:14-42 | the initial globals are m=3, n=5, reload 5, spawn 3, 5 missiles on board, a full depot, no dinosaurs and no game over; the invariant holds |
| `Game.GameState.SetDifficulty` | main.cpp:57-79 | a table level sets all four parameters from the table; any other level keeps them; the helicopter is then loaded to capacity n |
| `Game.GameState.RefillDepot` | main.cpp:86-90 | the step is enabled only below depot capacity; it sets the depot to exactly 5 and changes nothing else |
| `Game.GameState.SpawnDino` | main.cpp:105-126 | below 5 living dinosaurs, it appends a living dinosaur with 0 hits and increments the counter; gameOver becomes true exactly when the count reaches 5; otherwise nothing changes |
| `Game.GameState.Fire` | main.cpp:211-218 | it fires exactly when the key is down, a missile is on board and fewer than 10 are listed; one active missile is appended and the ammunition drops by exactly 1; otherwise nothing changes |
| `Game.GameState.Resupply` | main.cpp:220-230 | near supply with the helicopter not full, it moves RefillAmount missiles: the total is conserved, at least one moves, and afterwards the helicopter is full or the depot empty; otherwise nothing moves |
| `Game.GameState.CheckCollisions` | main.cpp:133-161 | the new lists and counter are Resolve of the old ones; the invariant, including counter = living dinosaurs, is kept |
| `Game.GameState.ScanFor` | main.cpp:137-159 | the inner loop's new lists and counter are ScanDinos of the old ones |
| `Game.GameState.EndOnHelicopterCollision` | main.cpp:235-239 | gameOver becomes true exactly when the helicopter meets a living dinosaur, and it is never cleared |
| `Game.GameState.Frame` | main.cpp:211-239 | one frame fires exactly when `Fire` would, and resupplies from the ammunition left after firing. The board becomes Resolve of the missile list after firing. gameOver becomes true exactly on a helicopter collision and is never cleared. Missiles on board, in the depot and in the list keep their total. The invariant is kept |

## Left out

- Rendering and input are not modelled: textures, sprites, the window, event polling, keyboard polling and drawing (main.cpp:47-54, 175-179, 191-209, 241-255). Key state enters only as the `firePressed` input.
- Threads, the mutex, the condition variable and `sleep` are not modelled (main.cpp:82-84, 99-105, 187-189, 258-259). Each critical section is one atomic step, and each wait becomes a precondition. So the model does not capture interleavings. It also misses the unlocked `currentMissiles` update in the fire block and the unsynchronised `dinos` vector shared between threads.
- The invariant `activeDinos == CountActive(dinos)` in `Valid()` holds only when each step is read as atomic. In the program, `checkCollisions` runs after `lock.unlock()` (main.cpp:231-233). Its `activeDinos--` (main.cpp:150) is outside the lock and can race with the spawner's locked `activeDinos++` (main.cpp:120). A lost update there breaks the invariant, and the model does not capture that.
- The background loops `while (!gameOver) { sleep; ... }` are not modelled as loops. Their steps can be taken in any order and any number of times.
- Float geometry is replaced by the boolean inputs described above: positions, movement by 0.2 and -10, exact float equality of heights, and box intersection.
- The random spawn position (`rand()`, main.cpp:110) and the head rectangle's placement are not modelled. Console output is not modelled either.
- The start-up call `setDifficulty(difficultyLevel)` with `difficultyLevel` fixed at 1 (main.cpp:13, 185) is not a member of its own. It is the constructor followed by `SetDifficulty(1)`.
- C `int` overflow is not modelled. All counters stay between 0 and 10, except a dinosaur's `hits`, which only grows until the dinosaur dies.
- `Game.GameState.Frame`: does not include window closing by the user, rendering, or the missile movement after resolution, which the loop does after the steps modelled here.
