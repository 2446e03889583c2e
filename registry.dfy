/** The arena registry: which minigame runs on which arena. Each running
    minigame is a scheduler task; registering an arena submits a fresh
    task for its minigame, unregistering it cancels the task unless a
    listener cancels the "stopping" event. */
module Registry {
  import opened Wrappers
  import opened Paths

  /** An arena as the registry sees it: its unique id and the world its
      spawn point lies in. Arena objects are compared by identity in the
      source; two arena values are the same arena exactly when equal. */
  datatype Arena = Arena(uuid: int, spawnWorld: int)

  /** A minigame object, by identity. */
  type Minigame = int

  /** A scheduler task: its identity and the minigame it runs. */
  datatype Task = Task(id: nat, game: Minigame)

  /** The exception `unregister` throws when the stopping event is cancelled. */
  datatype Error = StoppingCancelled

  /** Adding a new key adds its value to the values. */
  lemma ValuesInsert(m: map<Arena, Task>, k: Arena, v: Task)
    requires k !in m
    ensures m[k := v].Values == m.Values + {v}
  {
    var m' := m[k := v];
    forall t | t in m'.Values ensures t in m.Values + {v} {
      var b :| b in m' && m'[b] == t;
      if b != k {
        assert m[b] == t;
      }
    }
    forall t | t in m.Values + {v} ensures t in m'.Values {
      if t == v {
        assert m'[k] == t;
      } else {
        var b :| b in m && m[b] == t;
        assert b != k && m'[b] == t;
      }
    }
  }

  class Ember {
    var arenas: map<Arena, Task>
    var nextTask: nat
    /** The tasks submitted to the scheduler and not yet cancelled. */
    var scheduled: set<Task>

    /** Every task was allocated before `nextTask`, no minigame runs on two
        arenas, and the live tasks are exactly the registered ones. */
    ghost predicate Valid()
      reads this
    {
      && (forall a :: a in arenas ==> arenas[a].id < nextTask)
      && (forall a, b :: a in arenas && b in arenas && a != b ==> arenas[a].game != arenas[b].game)
      && scheduled == arenas.Values
    }

    /** The table is the given one. */
    ghost predicate Unchanged(arenas0: map<Arena, Task>, scheduled0: set<Task>, nextTask0: nat)
      reads this
    {
      arenas == arenas0 && scheduled == scheduled0 && nextTask == nextTask0
    }

    /** The minigames currently running on some arena. */
    ghost function Running(): set<Minigame>
      reads this
    {
      set a | a in arenas :: arenas[a].game
    }

    /** Server initialisation: an empty table. */
    constructor ()
      ensures Valid()
      ensures arenas == map[] && scheduled == {}
    {
      arenas := map[];
      nextTask := 0;
      scheduled := {};
    }

    /** `getArena(UUID)`: some registered arena with that id, absent
        exactly when there is none. */
    method GetArenaById(id: int) returns (r: Option<Arena>)
      ensures r.Some? ==> r.value in arenas && r.value.uuid == id
      ensures r.None? <==> forall a :: a in arenas ==> a.uuid != id
    {
      var rest := arenas.Keys;
      while rest != {}
        invariant rest <= arenas.Keys
        invariant forall a :: a in arenas && a !in rest ==> a.uuid != id
        decreases rest
      {
        var a :| a in rest;
        if a.uuid == id {
          return Some(a);
        }
        rest := rest - {a};
      }
      return None;
    }

    /** `getArena(Minigame)`: the arena whose task runs `minigame`, absent
        exactly when it runs nowhere (always, for a null minigame). */
    method GetArenaOf(minigame: Option<Minigame>) returns (r: Option<Arena>)
      ensures r.Some? ==> minigame.Some? && r.value in arenas && arenas[r.value].game == minigame.value
      ensures r.None? <==> minigame.None? || forall a :: a in arenas ==> arenas[a].game != minigame.value
      ensures Valid() && r.Some? ==> forall a :: a in arenas && arenas[a].game == minigame.value ==> a == r.value
    {
      var rest := arenas.Keys;
      while rest != {}
        invariant rest <= arenas.Keys
        invariant forall a :: a in arenas && a !in rest ==> minigame.None? || arenas[a].game != minigame.value
        decreases rest
      {
        var a :| a in rest;
        if minigame.Some? && arenas[a].game == minigame.value {
          return Some(a);
        }
        rest := rest - {a};
      }
      return None;
    }

    /** `getMinigame(arena)`: the minigame running on the arena, absent
        exactly when the arena is not registered. In a valid table the
        arena is the only one running that minigame, so `getArena` of the
        result finds the arena again (`MinigameRoundTrip`). */
    function MinigameOf(arena: Arena): (r: Option<Minigame>)
      reads this
      ensures r.Some? <==> arena in arenas
      ensures r.Some? ==> r.value == arenas[arena].game
      ensures Valid() && r.Some? ==> forall b :: b in arenas && arenas[b].game == r.value ==> b == arena
    {
      if arena in arenas then Some(arenas[arena].game) else None
    }

    /** `getArena(getMinigame(arena))`: in a valid table it is the arena
        itself when the arena is registered, and absent otherwise. */
    method MinigameRoundTrip(arena: Arena) returns (r: Option<Arena>)
      requires Valid()
      ensures r == if arena in arenas then Some(arena) else None
    {
      r := GetArenaOf(MinigameOf(arena));
    }

    /** `getArenas()`: every registered arena once. */
    method GetArenas() returns (r: seq<Arena>)
      ensures Distinct(r)
      ensures forall a :: a in r <==> a in arenas
    {
      r := GetArenasWhere(false, 0);
    }

    /** `getArenas(world)`: every registered arena whose spawn lies in
        `world`, once. */
    method GetArenasIn(world: int) returns (r: seq<Arena>)
      ensures Distinct(r)
      ensures forall a :: a in r <==> a in arenas && a.spawnWorld == world
    {
      r := GetArenasWhere(true, world);
    }

    /** The loop over the key set both listings share, optionally keeping
        only the arenas in `world`. */
    method GetArenasWhere(filter: bool, world: int) returns (r: seq<Arena>)
      ensures Distinct(r)
      ensures forall a :: a in r <==> a in arenas && (filter ==> a.spawnWorld == world)
    {
      var rest := arenas.Keys;
      r := [];
      while rest != {}
        invariant rest <= arenas.Keys
        invariant Distinct(r)
        invariant forall a :: a in r ==> a !in rest
        invariant forall a :: a in r <==> a in arenas && a !in rest && (filter ==> a.spawnWorld == world)
        decreases rest
      {
        var a :| a in rest;
        if !filter || a.spawnWorld == world {
          r := r + [a];
        }
        rest := rest - {a};
      }
    }

    /** `getMinigames()`: one minigame per registered arena, in the order of
        the arenas `owners`; distinct when the table is valid. */
    method GetMinigames() returns (r: seq<Minigame>, ghost owners: seq<Arena>)
      ensures |r| == |owners| && Distinct(owners)
      ensures forall a :: a in owners <==> a in arenas
      ensures forall i :: 0 <= i < |r| ==> owners[i] in arenas && r[i] == arenas[owners[i]].game
      ensures Valid() ==> Distinct(r)
    {
      var all := GetArenas();
      r, owners := GamesOf(all);
    }

    /** `getMinigames(world)`: the minigames of the arenas in `world`, one
        per arena. */
    method GetMinigamesIn(world: int) returns (r: seq<Minigame>, ghost owners: seq<Arena>)
      ensures |r| == |owners| && Distinct(owners)
      ensures forall a :: a in owners <==> a in arenas && a.spawnWorld == world
      ensures forall i :: 0 <= i < |r| ==> owners[i] in arenas && r[i] == arenas[owners[i]].game
      ensures Valid() ==> Distinct(r)
    {
      var inWorld := GetArenasIn(world);
      r, owners := GamesOf(inWorld);
    }

    /** Collects the minigame of each listed arena that has one. */
    method GamesOf(listed: seq<Arena>) returns (r: seq<Minigame>, ghost owners: seq<Arena>)
      requires Distinct(listed)
      ensures |r| == |owners| && Distinct(owners)
      ensures forall a :: a in owners <==> a in listed && a in arenas
      ensures forall i :: 0 <= i < |r| ==> owners[i] in arenas && r[i] == arenas[owners[i]].game
      ensures Valid() ==> Distinct(r)
    {
      r, owners := [], [];
      var i := 0;
      while i < |listed|
        invariant 0 <= i <= |listed|
        invariant |r| == |owners| && Distinct(owners)
        invariant forall a :: a in owners <==> a in listed[..i] && a in arenas
        invariant forall j :: 0 <= j < |r| ==> owners[j] in arenas && r[j] == arenas[owners[j]].game
      {
        var game := MinigameOf(listed[i]);
        if game.Some? {
          assert listed[i] !in owners by {
            assert listed[i] !in listed[..i];
          }
          r, owners := r + [game.value], owners + [listed[i]];
        }
        assert listed[..i + 1] == listed[..i] + [listed[i]];
        i := i + 1;
      }
      assert listed[..i] == listed;
    }

    /** `unregister(arena)`: an arena without a task is left alone
        (`false`); otherwise a cancelled stopping event is an exception and
        changes nothing, and an uncancelled one cancels the task and removes
        the arena (`true`). */
    method Unregister(arena: Arena, cancelled: bool) returns (r: Result<bool, Error>)
      requires Valid()
      modifies this
      ensures Valid()
      ensures nextTask == old(nextTask)
      ensures arena !in old(arenas) ==> r == Ok(false) && arenas == old(arenas) && scheduled == old(scheduled)
      ensures arena in old(arenas) && cancelled ==>
                r == Err(StoppingCancelled) && arenas == old(arenas) && scheduled == old(scheduled)
      ensures arena in old(arenas) && !cancelled ==>
                && r == Ok(true)
                && arenas == old(arenas) - {arena}
                && scheduled == old(scheduled) - {old(arenas)[arena]}
    {
      if arena !in arenas {
        return Ok(false);
      }
      var task := arenas[arena];
      if cancelled {
        return Err(StoppingCancelled);
      }
      ghost var before := arenas;
      scheduled := scheduled - {task};
      arenas := arenas - {arena};
      assert scheduled == arenas.Values by {
        forall t | t in scheduled ensures t in arenas.Values {
          var b :| b in before && before[b] == t;
          assert b != arena;
          assert arenas[b] == t;
        }
      }
      return Ok(true);
    }

    /** `register(arena, minigame)`: refuses (`false`) a minigame already
        running somewhere; otherwise unregisters the arena when one with
        its id is registered, which fails when the stopping event is
        cancelled, and then, for a non-null minigame, submits a fresh task
        for it on the arena. */
    method Register(arena: Arena, minigame: Option<Minigame>, cancelled: bool) returns (r: Result<bool, Error>)
      requires Valid()
      modifies this
      ensures Valid()
      ensures minigame.Some? && minigame.value in old(Running()) ==> r == Ok(false) && Unchanged(old(arenas), old(scheduled), old(nextTask))
      ensures !(minigame.Some? && minigame.value in old(Running())) && arena in old(arenas) && cancelled ==>
                r == Err(StoppingCancelled) && Unchanged(old(arenas), old(scheduled), old(nextTask))
      ensures !(minigame.Some? && minigame.value in old(Running())) && !(arena in old(arenas) && cancelled) ==>
                && r == Ok(true)
                && var kept := old(arenas) - {arena};
                   var live := if arena in old(arenas) then old(scheduled) - {old(arenas)[arena]} else old(scheduled);
                   if minigame.Some? then
                     var task := Task(old(nextTask), minigame.value);
                     arenas == kept[arena := task] && scheduled == live + {task} && nextTask == old(nextTask) + 1
                   else
                     arenas == kept && scheduled == live && nextTask == old(nextTask)
    {
      var running := GetArenaOf(minigame);
      if running.Some? {
        return Ok(false);
      }
      assert minigame.Some? ==> minigame.value !in Running();
      var same := GetArenaById(arena.uuid);
      if same.Some? {
        var stopped := Unregister(arena, cancelled);
        if stopped.Err? {
          return Err(stopped.error);
        }
      }
      assert arena !in arenas;
      assert arenas == old(arenas) - {arena} by {
        if arena !in old(arenas) {
          assert old(arenas) - {arena} == old(arenas);
        }
      }
      Start(arena, minigame);
      return Ok(true);
    }

    /** The end of `register`: for a non-null minigame, a fresh task is
        submitted and mapped to the arena. */
    method Start(arena: Arena, minigame: Option<Minigame>)
      requires Valid() && arena !in arenas
      requires minigame.Some? ==> minigame.value !in Running()
      modifies this
      ensures Valid()
      ensures minigame.Some? ==>
                var task := Task(old(nextTask), minigame.value);
                arenas == old(arenas)[arena := task] && scheduled == old(scheduled) + {task} && nextTask == old(nextTask) + 1
      ensures minigame.None? ==> Unchanged(old(arenas), old(scheduled), old(nextTask))
    {
      if minigame.Some? {
        var task := Task(nextTask, minigame.value);
        ValuesInsert(arenas, arena, task);
        nextTask := nextTask + 1;
        scheduled := scheduled + {task};
        arenas := arenas[arena := task];
      }
    }
  }
}
