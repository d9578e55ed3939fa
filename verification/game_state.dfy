/**
 * The game's shared state and the steps that change it. Each step is one
 * critical section of a background process or one block of the frame loop,
 * taken as a single atomic step; a condition-variable wait becomes the
 * precondition under which the step can proceed.
 */
module Game {
  import opened Entities
  import opened Collisions

  class GameState {
    /** Head shots needed to destroy a dinosaur. */
    var m: int
    /** Missile capacity of the helicopter. */
    var n: int
    /** Truck reload period, in seconds. */
    var reloadTime: int
    /** Dinosaur spawn period, in seconds. */
    var dinosaurSpawnTime: int
    /** Missiles in the helicopter. */
    var currentMissiles: int
    /** Missiles in the depot. */
    var depositMissiles: int
    /** The counter of living dinosaurs. */
    var activeDinos: int
    var gameOver: bool
    /** Every missile fired so far; none is ever removed. */
    var missiles: seq<Missile>
    /** Every dinosaur spawned so far; none is ever removed. */
    var dinos: seq<Dino>

    /**
     * The state invariant: both ammunition stores within their bounds, at most
     * MAX_ACTIVE_MISSILES missiles ever fired, the counter equal to the number of
     * living dinosaurs and never above MAX_DINOS, and the game lost whenever that
     * bound is reached.
     */
    ghost predicate Valid()
      reads this
    {
      && 0 <= currentMissiles <= n
      && 0 <= depositMissiles <= DEPOSIT_CAPACITY
      && |missiles| <= MAX_ACTIVE_MISSILES
      && activeDinos == CountActive(dinos)
      && activeDinos <= MAX_DINOS
      && (activeDinos == MAX_DINOS ==> gameOver)
    }

    /** The four difficulty parameters currently in force. */
    function Parameters(): Params
      reads this
    {
      Params(m, n, reloadTime, dinosaurSpawnTime)
    }

    /** The part of the state the collision resolver reads and writes. */
    function Snapshot(): Board
      reads this
    {
      Board(missiles, dinos, activeDinos)
    }

    /** The globals as the program starts, with empty missile and dinosaur lists. */
    constructor ()
      ensures Valid()
      ensures Parameters() == Params(3, 5, 5, 3)
      ensures currentMissiles == 5 && depositMissiles == DEPOSIT_CAPACITY
      ensures activeDinos == 0 && !gameOver
      ensures missiles == [] && dinos == []
    {
      m, n, reloadTime, dinosaurSpawnTime := 3, 5, 5, 3;
      currentMissiles := 5;
      depositMissiles := DEPOSIT_CAPACITY;
      activeDinos := 0;
      gameOver := false;
      missiles, dinos := [], [];
    }

    /**
     * Selects a difficulty level: a level of the table sets all four
     * parameters, any other level keeps them; in both cases the helicopter is
     * loaded to its (new) capacity.
     */
    method SetDifficulty(level: int)
      requires Valid()
      modifies this`m, this`n, this`reloadTime, this`dinosaurSpawnTime, this`currentMissiles
      ensures Valid()
      ensures LevelParams(level).Some? ==> Parameters() == LevelParams(level).value
      ensures LevelParams(level).None? ==> Parameters() == old(Parameters())
      ensures currentMissiles == n
    {
      var selected := LevelParams(level);
      if selected.Some? {
        var p := selected.value;
        m, n, reloadTime, dinosaurSpawnTime := p.hitsToKill, p.capacity, p.reloadTime, p.spawnTime;
      }
      currentMissiles := n;
    }

    /**
     * The truck's critical section: once the depot is below capacity, it is
     * filled to capacity. Nothing else changes.
     */
    method RefillDepot()
      requires Valid()
      requires depositMissiles < DEPOSIT_CAPACITY
      modifies this`depositMissiles
      ensures Valid()
      ensures depositMissiles == DEPOSIT_CAPACITY
      ensures depositMissiles > old(depositMissiles)
    {
      depositMissiles := DEPOSIT_CAPACITY;
    }

    /**
     * The spawner's critical section: below MAX_DINOS living dinosaurs, a new
     * living dinosaur with no hits is appended and counted, and the game is lost
     * exactly when the count reaches MAX_DINOS; otherwise nothing happens.
     */
    method SpawnDino() returns (spawned: bool)
      requires Valid()
      modifies this`dinos, this`activeDinos, this`gameOver
      ensures Valid()
      ensures spawned <==> old(activeDinos) < MAX_DINOS
      ensures spawned ==> dinos == old(dinos) + [Dino(0, true)]
      ensures spawned ==> activeDinos == old(activeDinos) + 1
      ensures spawned ==> (gameOver <==> old(gameOver) || activeDinos == MAX_DINOS)
      ensures !spawned ==> dinos == old(dinos) && activeDinos == old(activeDinos)
      ensures !spawned ==> gameOver == old(gameOver)
    {
      spawned := activeDinos < MAX_DINOS;
      if spawned {
        CountActiveAppend(dinos, Dino(0, true));
        dinos := dinos + [Dino(0, true)];
        activeDinos := activeDinos + 1;
        if activeDinos >= MAX_DINOS {
          gameOver := true;
        }
      }
    }

    /**
     * The fire block of the frame loop: with the fire key down, a missile in the
     * helicopter and fewer than MAX_ACTIVE_MISSILES missiles in the list, one
     * active missile is appended and the helicopter loses one missile; otherwise
     * nothing changes.
     */
    method Fire(firePressed: bool) returns (fired: bool)
      requires Valid()
      modifies this`missiles, this`currentMissiles
      ensures Valid()
      ensures fired <==> firePressed && old(currentMissiles) > 0 && |old(missiles)| < MAX_ACTIVE_MISSILES
      ensures fired ==> missiles == old(missiles) + [Missile(true)]
      ensures fired ==> currentMissiles == old(currentMissiles) - 1
      ensures !fired ==> missiles == old(missiles) && currentMissiles == old(currentMissiles)
    {
      fired := firePressed && currentMissiles > 0 && |missiles| < MAX_ACTIVE_MISSILES;
      if fired {
        missiles := missiles + [Missile(true)];
        currentMissiles := currentMissiles - 1;
      }
    }

    /**
     * The resupply block of the frame loop: near the supply point with the
     * helicopter not full, once the depot holds a missile, RefillAmount missiles
     * move from the depot into the helicopter. The total is conserved, at least
     * one missile moves, and afterwards the helicopter is full or the depot
     * empty. Elsewhere nothing moves.
     */
    method Resupply(nearSupply: bool) returns (moved: int)
      requires Valid()
      requires nearSupply && currentMissiles < n ==> depositMissiles > 0
      modifies this`currentMissiles, this`depositMissiles
      ensures Valid()
      ensures currentMissiles + depositMissiles == old(currentMissiles + depositMissiles)
      ensures currentMissiles == old(currentMissiles) + moved
      ensures nearSupply && old(currentMissiles) < n ==>
                moved == RefillAmount(old(depositMissiles), old(currentMissiles), n)
      ensures nearSupply && old(currentMissiles) < n ==>
                moved >= 1 && (currentMissiles == n || depositMissiles == 0)
      ensures !(nearSupply && old(currentMissiles) < n) ==> moved == 0
    {
      moved := 0;
      if nearSupply && currentMissiles < n {
        moved := RefillAmount(depositMissiles, currentMissiles, n);
        depositMissiles := depositMissiles - moved;
        currentMissiles := currentMissiles + moved;
      }
    }

    /**
     * The missile-versus-dinosaur resolver, in place: for each active missile,
     * scan the living dinosaurs in order; a head shot spends the missile, adds a
     * hit, destroys the dinosaur at m hits and ends that missile's scan; a body
     * hit spends the missile and the scan goes on. The result is Resolve of the
     * old lists and counter, and the counter still counts the living dinosaurs.
     */
    method CheckCollisions(g: Geometry)
      requires Valid()
      modifies this`missiles, this`dinos, this`activeDinos
      ensures Valid()
      ensures Snapshot() == Resolve(g, m, old(Snapshot()), 0)
      ensures Evolves(old(Snapshot()), Snapshot())
    {
      ghost var start := Snapshot();
      ghost var goal := Resolve(g, m, start, 0);
      var i := 0;
      while i < |missiles|
        invariant i <= |missiles|
        invariant Resolve(g, m, Snapshot(), i) == goal
      {
        if missiles[i].active {
          ScanFor(g, i);
        }
        i := i + 1;
      }
      ResolveKeepsCount(g, m, start, 0);
      ResolveEvolves(g, m, start, 0);
    }

    /**
     * The resolver's inner loop for missile i: the living dinosaurs in order, up
     * to and including the first head shot; the result is ScanDinos of the old
     * lists and counter.
     */
    method ScanFor(g: Geometry, i: nat)
      requires i < |missiles|
      modifies this`missiles, this`dinos, this`activeDinos
      ensures Snapshot() == ScanDinos(g, m, i, old(Snapshot()), 0)
    {
      ghost var scanned := ScanDinos(g, m, i, Snapshot(), 0);
      var j := 0;
      while j < |dinos|
        invariant j <= |dinos| && i < |missiles|
        invariant ScanDinos(g, m, i, Snapshot(), j) == scanned
      {
        if dinos[j].active {
          if g.headShot(i, j) {
            ghost var before := Snapshot();
            missiles := missiles[i := missiles[i].(active := false)];
            dinos := dinos[j := dinos[j].(hits := dinos[j].hits + 1)];
            if dinos[j].hits >= m {
              dinos := dinos[j := dinos[j].(active := false)];
              activeDinos := activeDinos - 1;
            }
            assert Snapshot() == ScanDinos(g, m, i, before, j);
            return;
          } else if g.bodyHit(i, j) {
            missiles := missiles[i := missiles[i].(active := false)];
          }
        }
        j := j + 1;
      }
    }

    /**
     * The helicopter test of the frame loop: if the helicopter meets a living
     * dinosaur, the game is lost. gameOver is only ever set, never cleared.
     */
    method EndOnHelicopterCollision(touches: nat -> bool) returns (hit: bool)
      requires Valid()
      modifies this`gameOver
      ensures Valid()
      ensures hit <==> HelicopterCollides(dinos, touches)
      ensures gameOver <==> old(gameOver) || hit
    {
      hit := CheckHelicopterCollision(dinos, touches);
      if hit {
        gameOver := true;
      }
    }

    /**
     * The game-state part of one frame: fire, resupply, resolve missiles against
     * dinosaurs, then test the helicopter; closed says the window is closed
     * because the helicopter was hit. The new state is given step by step: the
     * fire decision, the missiles moved by resupply, the resolution of the list
     * after firing, and gameOver set exactly on a helicopter collision. The
     * invariant holds after every frame and the difficulty does not change.
     */
    method Frame(firePressed: bool, nearSupply: bool, g: Geometry, touches: nat -> bool)
      returns (fired: bool, moved: int, closed: bool)
      requires Valid()
      requires nearSupply
               && (currentMissiles < n
                   || (firePressed && currentMissiles > 0 && |missiles| < MAX_ACTIVE_MISSILES))
               ==> depositMissiles > 0
      modifies this`missiles, this`dinos, this`currentMissiles, this`depositMissiles
      modifies this`activeDinos, this`gameOver
      ensures Valid()
      ensures fired <==> firePressed && old(currentMissiles) > 0 && |old(missiles)| < MAX_ACTIVE_MISSILES
      ensures currentMissiles == old(currentMissiles) - (if fired then 1 else 0) + moved
      ensures depositMissiles == old(depositMissiles) - moved
      ensures currentMissiles + depositMissiles + |missiles|
              == old(currentMissiles + depositMissiles + |missiles|)
      ensures nearSupply && old(currentMissiles) - (if fired then 1 else 0) < n ==>
                moved >= 1 && (currentMissiles == n || depositMissiles == 0)
      ensures !(nearSupply && old(currentMissiles) - (if fired then 1 else 0) < n) ==> moved == 0
      ensures Snapshot() == Resolve(g, m, Board(old(missiles) + (if fired then [Missile(true)] else []),
                                                old(dinos), old(activeDinos)), 0)
      ensures closed <==> HelicopterCollides(dinos, touches)
      ensures gameOver <==> old(gameOver) || closed
    {
      fired := Fire(firePressed);
      assert missiles == old(missiles) + (if fired then [Missile(true)] else []);
      moved := Resupply(nearSupply);
      assert Snapshot() == Board(old(missiles) + (if fired then [Missile(true)] else []),
                                 old(dinos), old(activeDinos));
      CheckCollisions(g);
      closed := EndOnHelicopterCollision(touches);
    }
  }
}
