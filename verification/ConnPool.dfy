/** The shared pool of idle connections and its guards. */
module ConnPool {
  import opened Bytes

  /** A pooled connection with the time it was last handed out. */
  datatype Entry<T> = Entry(item: T, time: nat)

  function Age(now: nat, time: nat): nat {
    if now < time then 0 else now - time
  }

  predicate Expired(idle: Option<nat>, now: nat, time: nat) {
    idle.Some? && Age(now, time) >= idle.value
  }

  /** Takes from the end, throwing expired entries away; `now(k)` is the clock when entry `k` is looked at. */
  function PopFrom<T>(list: seq<Entry<T>>, idle: Option<nat>, now: nat -> nat): (Option<T>, seq<Entry<T>>) {
    if list == [] then (None, [])
    else
      var n := |list| - 1;
      if Expired(idle, now(n), list[n].time) then PopFrom(list[..n], idle, now) else (Some(list[n].item), list[..n])
  }

  /** The entry handed out is the last one that is not expired; everything behind it is gone. */
  lemma {:induction false} PoppedIsFresh<T>(list: seq<Entry<T>>, idle: Option<nat>, now: nat -> nat)
    ensures var (r, rest) := PopFrom(list, idle, now);
      && |rest| <= |list| && rest == list[..|rest|]
      && (r.None? ==> rest == [] && forall k :: 0 <= k < |list| ==> Expired(idle, now(k), list[k].time))
      && (r.Some? ==>
            && |rest| < |list| && r.value == list[|rest|].item && !Expired(idle, now(|rest|), list[|rest|].time)
            && forall k :: |rest| < k < |list| ==> Expired(idle, now(k), list[k].time))
  {
    if list != [] {
      var n := |list| - 1;
      if Expired(idle, now(n), list[n].time) {
        PoppedIsFresh(list[..n], idle, now);
        var rest := PopFrom(list[..n], idle, now).1;
        assert list[..n][..|rest|] == list[..|rest|];
      }
    }
  }

  /** In numbers: what is handed out is younger than the idle time, and what was thrown away is not. */
  lemma PoppedAge<T>(list: seq<Entry<T>>, idle: Option<nat>, now: nat -> nat)
    ensures var (r, rest) := PopFrom(list, idle, now);
      var at := |rest|;
      && at <= |list| && (r.Some? ==> at < |list|)
      && (r.Some? && idle.Some? ==> idle.value > 0 && now(at) < list[at].time + idle.value)
      && (forall k :: at < k < |list| || (at == k < |list| && r.None?) ==>
            idle.Some? && (idle.value == 0 || now(k) >= list[k].time + idle.value))
  {
    PoppedIsFresh(list, idle, now);
  }

  class ConnPool<T> {
    const idleTime: Option<nat>
    var list: seq<Entry<T>>

    constructor (idleTime: Option<nat>)
      ensures this.idleTime == idleTime && list == []
    {
      this.idleTime, list := idleTime, [];
    }

    /** Hands out a pooled connection under a guard stamped with the time `created`. */
    method Pop(now: nat -> nat, created: nat) returns (guard: ConnPoolGuard?<T>)
      modifies this`list
      ensures list == PopFrom(old(list), idleTime, now).1
      ensures guard == null <==> PopFrom(old(list), idleTime, now).0.None?
      ensures guard != null ==>
        && fresh(guard) && guard.Holding(PopFrom(old(list), idleTime, now).0.value) && guard.pool == this
        && guard.reused && guard.createTime == created
    {
      while list != []
        invariant PopFrom(list, idleTime, now) == PopFrom(old(list), idleTime, now)
        decreases |list|
      {
        var n := |list| - 1;
        var entry := list[n];
        list := list[..n];
        if !Expired(idleTime, now(n), entry.time) {
          guard := new ConnPoolGuard(this, entry.item, true, created);
          return;
        }
      }
      guard := null;
    }

    /** A pooled connection, or else the new one the caller could make. */
    method GetOr(now: nat -> nat, created: nat, connected: Option<T>) returns (guard: ConnPoolGuard?<T>)
      modifies this`list
      ensures var (r, rest) := PopFrom(old(list), idleTime, now);
        && list == rest && (guard == null <==> r.None? && connected.None?)
        && (guard != null ==>
              && fresh(guard) && guard.pool == this && guard.createTime == created && guard.reused == r.Some?
              && guard.Holding(if r.Some? then r.value else connected.value))
    {
      guard := Pop(now, created);
      if guard == null && connected.Some? {
        guard := new ConnPoolGuard(this, connected.value, false, created);
      }
    }
  }

  class ConnPoolGuard<T> {
    const pool: ConnPool<T>
    const createTime: nat
    const reused: bool
    var raw: Option<T>
    var discard: bool         // the field `drop` of the source

    ghost predicate Holding(item: T)
      reads this
    {
      raw == Some(item) && discard
    }

    constructor (pool: ConnPool<T>, item: T, reused: bool, created: nat)
      ensures this.pool == pool && Holding(item) && this.reused == reused && createTime == created
    {
      this.pool, this.reused, createTime, raw, discard := pool, reused, created, Some(item), true;
    }

    /** Gives the connection back: at the end of the list, with the time it was handed out. */
    method Reuse()
      modifies this, pool`list
      ensures raw.None?
      ensures pool.list == old(pool.list) + (if old(raw).Some? then [Entry(old(raw).value, createTime)] else [])
    {
      discard := false;
      Drop();
      raw := None;
    }

    method Drop()
      modifies this, pool`list
      ensures !old(discard) ==> raw.None?
      ensures pool.list == old(pool.list)
        + (if !old(discard) && old(raw).Some? then [Entry(old(raw).value, createTime)] else [])
    {
      assert pool.list + [] == pool.list;
      if !discard {
        if raw.Some? {
          var item := raw.value;
          raw := None;
          pool.list := pool.list + [Entry(item, createTime)];
        }
      }
    }
  }

  // ---- Ownership over all interleavings ----

  /** Connections are numbered in the order they were made; `held` maps each live guard to the connection under it. */
  datatype World = World(pool: seq<Entry<nat>>, held: map<nat, nat>, made: nat, guards: nat)
  datatype Op =
    | GetOr(now: nat -> nat, connects: bool)
    | Reuse(guard: nat)
    | Discard(guard: nat)

  /** One step of any client; `created(g)` is the time stamped on guard `g`. */
  function Apply(w: World, op: Op, created: nat -> nat, idle: Option<nat>): World {
    match op
    case GetOr(now, connects) =>
      var (r, rest) := PopFrom(w.pool, idle, now);
      if r.Some? then World(rest, w.held[w.guards := r.value], w.made, w.guards + 1)
      else if connects then World(rest, w.held[w.guards := w.made], w.made + 1, w.guards + 1)
      else w.(pool := rest)
    case Reuse(g) =>
      if g in w.held then World(w.pool + [Entry(w.held[g], created(g))], w.held - {g}, w.made, w.guards) else w
    case Discard(g) => w.(held := w.held - {g})
  }

  /** Every connection is in the pool once or under one guard, or gone. */
  ghost predicate Owned(w: World) {
    && (forall i, j :: 0 <= i < j < |w.pool| ==> w.pool[i].item != w.pool[j].item)
    && (forall g, h :: g in w.held && h in w.held && g != h ==> w.held[g] != w.held[h])
    && (forall i, g :: 0 <= i < |w.pool| && g in w.held ==> w.pool[i].item != w.held[g])
    && (forall i :: 0 <= i < |w.pool| ==> w.pool[i].item < w.made)
    && (forall g :: g in w.held ==> w.held[g] < w.made && g < w.guards)
  }

  lemma ApplyKeepsOwned(w: World, op: Op, created: nat -> nat, idle: Option<nat>)
    requires Owned(w)
    ensures Owned(Apply(w, op, created, idle))
  {
    match op
    case GetOr(now, connects) => GetOrKeepsOwned(w, now, connects, idle);
    case Reuse(g) =>
    case Discard(g) =>
  }

  lemma GetOrKeepsOwned(w: World, now: nat -> nat, connects: bool, idle: Option<nat>)
    requires Owned(w)
    ensures Owned(Apply(w, GetOr(now, connects), _ => 0, idle))
    ensures forall created ::
      Apply(w, GetOr(now, connects), created, idle) == Apply(w, GetOr(now, connects), _ => 0, idle)
  {
    hide PopFrom;
    PoppedIsFresh(w.pool, idle, now);
    var (r, rest) := PopFrom(w.pool, idle, now);
    var w1 := w.(pool := rest);
    assert Owned(w1);
    if r.Some? {
      var at := |rest|;
      assert forall i :: 0 <= i < |rest| ==> rest[i] == w.pool[i] && rest[i].item != w.pool[at].item;
      NewGuard(w1, r.value);
    } else if connects {
      NewGuard(w1.(made := w.made + 1), w.made);
    }
  }

  lemma NewGuard(w: World, item: nat)
    requires Owned(w) && item < w.made
    requires forall i :: 0 <= i < |w.pool| ==> w.pool[i].item != item
    requires forall g :: g in w.held ==> w.held[g] != item
    ensures Owned(World(w.pool, w.held[w.guards := item], w.made, w.guards + 1))
  {
  }

  function Interleave(w: World, ops: seq<Op>, created: nat -> nat, idle: Option<nat>): World {
    if ops == [] then w else Apply(Interleave(w, ops[..|ops| - 1], created, idle), ops[|ops| - 1], created, idle)
  }

  /** Over all interleavings of all clients of one pool no connection ever has two owners. */
  lemma {:induction false} SingleOwner(ops: seq<Op>, created: nat -> nat, idle: Option<nat>)
    ensures Owned(Interleave(World([], map[], 0, 0), ops, created, idle))
  {
    if ops != [] {
      SingleOwner(ops[..|ops| - 1], created, idle);
      ApplyKeepsOwned(Interleave(World([], map[], 0, 0), ops[..|ops| - 1], created, idle), ops[|ops| - 1], created,
        idle);
    }
  }
}
