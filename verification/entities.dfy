/**
 * The entities and tunable parameters of the helicopter-and-dinosaur game:
 * the game's constants, missiles and dinosaurs with their sprites abstracted
 * away, the difficulty table, the resupply transfer amount and the count of
 * living dinosaurs that the global counter must track.
 */
module Entities {

  /** Number of living dinosaurs at which the Earth is doomed (game over). */
  const MAX_DINOS := 5
  /** Number of missiles the depot holds when the truck has refilled it. */
  const DEPOSIT_CAPACITY := 5
  /** Bound on the length of the missile list; missiles are never removed from it. */
  const MAX_ACTIVE_MISSILES := 10

  datatype Option<T> = None | Some(value: T)

  /** A missile; its sprite and position are abstracted away. */
  datatype Missile = Missile(active: bool)

  /** A dinosaur: how many head shots it has taken and whether it is still alive. */
  datatype Dino = Dino(hits: int, active: bool)

  /**
   * The four parameters a difficulty level fixes: head shots needed to destroy
   * a dinosaur (m), helicopter missile capacity (n), truck reload period and
   * dinosaur spawn period, in seconds.
   */
  datatype Params = Params(hitsToKill: int, capacity: int, reloadTime: int, spawnTime: int)

  /**
   * The difficulty table: levels 1 (easy), 2 (medium) and 3 (hard) each fix all
   * four parameters; any other level selects nothing.
   */
  function LevelParams(level: int): (p: Option<Params>)
    ensures p.Some? <==> 1 <= level <= 3
    ensures p.Some? ==> p.value.hitsToKill >= 2 && p.value.capacity >= 2
    ensures p.Some? ==> p.value.reloadTime >= 2 && p.value.spawnTime >= 2
  {
    if level == 1 then Some(Params(2, 5, 5, 4))
    else if level == 2 then Some(Params(3, 3, 3, 3))
    else if level == 3 then Some(Params(4, 2, 2, 2))
    else None
  }

  /**
   * A harder level needs more head shots per dinosaur, gives the helicopter
   * fewer missiles, and refills and spawns faster.
   */
  lemma HarderLevelsAreHarder(easier: int, harder: int)
    requires 1 <= easier < harder <= 3
    ensures LevelParams(easier).Some? && LevelParams(harder).Some?
    ensures LevelParams(easier).value.hitsToKill < LevelParams(harder).value.hitsToKill
    ensures LevelParams(easier).value.capacity > LevelParams(harder).value.capacity
    ensures LevelParams(easier).value.reloadTime > LevelParams(harder).value.reloadTime
    ensures LevelParams(easier).value.spawnTime > LevelParams(harder).value.spawnTime
  {
  }

  /**
   * How many missiles one resupply moves from the depot into the helicopter:
   * the smaller of what the depot holds and what the helicopter lacks. It moves
   * at least one missile, never more than the depot holds, never fills the
   * helicopter beyond its capacity, and either fills it or empties the depot.
   */
  function RefillAmount(deposit: int, current: int, capacity: int): (k: int)
    requires deposit > 0 && current < capacity
    ensures 0 < k <= deposit && current + k <= capacity
    ensures current + k == capacity || k == deposit
  {
    if capacity - current < deposit then capacity - current else deposit
  }

  /** 1 for a living dinosaur, 0 for a destroyed one. */
  function Alive(d: Dino): nat
  {
    if d.active then 1 else 0
  }

  /** The number of living dinosaurs in a list. */
  function CountActive(dinos: seq<Dino>): (c: nat)
    ensures c <= |dinos|
    ensures c == 0 <== forall k :: 0 <= k < |dinos| ==> !dinos[k].active
  {
    if dinos == [] then 0
    else CountActive(dinos[..|dinos| - 1]) + Alive(dinos[|dinos| - 1])
  }

  /** Appending a dinosaur adds one to the count exactly when it is alive. */
  lemma CountActiveAppend(dinos: seq<Dino>, d: Dino)
    ensures CountActive(dinos + [d]) == CountActive(dinos) + Alive(d)
  {
    assert (dinos + [d])[..|dinos|] == dinos;
  }

  /** Replacing one dinosaur changes the count by the change in that one's liveness. */
  lemma {:induction false} CountActiveUpdate(dinos: seq<Dino>, k: nat, d: Dino)
    requires k < |dinos|
    ensures CountActive(dinos[k := d]) == CountActive(dinos) - Alive(dinos[k]) + Alive(d)
  {
    var last := |dinos| - 1;
    if k == last {
      assert dinos[k := d][..last] == dinos[..last];
    } else {
      assert dinos[k := d][..last] == dinos[..last][k := d];
      CountActiveUpdate(dinos[..last], k, d);
    }
  }

  /** The sum of all dinosaurs' head-shot counters. */
  function TotalHits(dinos: seq<Dino>): int
  {
    if dinos == [] then 0
    else TotalHits(dinos[..|dinos| - 1]) + dinos[|dinos| - 1].hits
  }

  /** Replacing one dinosaur changes the total by the change in that one's hits. */
  lemma {:induction false} TotalHitsUpdate(dinos: seq<Dino>, k: nat, d: Dino)
    requires k < |dinos|
    ensures TotalHits(dinos[k := d]) == TotalHits(dinos) - dinos[k].hits + d.hits
  {
    var last := |dinos| - 1;
    if k == last {
      assert dinos[k := d][..last] == dinos[..last];
    } else {
      assert dinos[k := d][..last] == dinos[..last][k := d];
      TotalHitsUpdate(dinos[..last], k, d);
    }
  }
}
