/**
 The shared table of running swarms (`SwarmManager`): the double-checked
 "get or spawn" with its two separate lock sections, and the garbage collector.

 Each lock section is one atomic operation on the table.  Every operation adds to a
 log, so that the guarantees can be stated about the whole past of the table.
 */
module SwarmManager {
  import opened Wrappers

  /** Instants are nanoseconds since an arbitrary origin. */
  type Instant = nat

  const SECOND: nat := 1_000_000_000
  const IDLE_TIMEOUT: nat := 10 * 60 * SECOND

  /** The sending half kept in the table: the node it leads to, and when it was last handed out. */
  datatype Handle = Handle(node: nat, lastUsed: Instant)

  datatype LogEntry =
    | Spawned(tld: string, node: nat)
    | HandedOut(tld: string, node: nat, time: Instant)
    | Collected(gone: set<string>, time: Instant)

  datatype Table = Table(swarms: map<string, Handle>, spawned: nat, log: seq<LogEntry>)

  const EMPTY: Table := Table(map[], 0, [])

  // ---------------------------------------------------------------- the atomic operations

  /** Handing out a mapped channel refreshes its time stamp. */
  function Touch(t: Table, tld: string, now: Instant): Table
    requires tld in t.swarms
  {
    var node := t.swarms[tld].node;
    t.(swarms := t.swarms[tld := Handle(node, now)], log := t.log + [HandedOut(tld, node, now)])
  }

  function Insert(t: Table, tld: string, now: Instant): Table {
    Table(t.swarms[tld := Handle(t.spawned, now)], t.spawned + 1,
          t.log + [Spawned(tld, t.spawned), HandedOut(tld, t.spawned, now)])
  }

  /** The first lock section: hand out the channel if there is one. */
  function FirstCheck(t: Table, tld: string, now: Instant): (Table, Option<nat>) {
    if tld in t.swarms then (Touch(t, tld, now), Some(t.swarms[tld].node)) else (t, None)
  }

  /** The second lock section, after DNS resolution: check again, then spawn. */
  function SecondCheck(t: Table, tld: string, now: Instant, initOk: bool): (Table, Option<nat>) {
    if tld in t.swarms then (Touch(t, tld, now), Some(t.swarms[tld].node))
    else if initOk then (Insert(t, tld, now), Some(t.spawned))
    else (t, None)
  }

  /** `now.duration_since(last_used) > timeout`, where the duration saturates at zero. */
  predicate Idle(h: Handle, now: Instant) {
    now > h.lastUsed + IDLE_TIMEOUT
  }

  function Collect(t: Table, now: Instant): Table {
    var gone := set tld | tld in t.swarms && Idle(t.swarms[tld], now);
    t.(swarms := t.swarms - gone, log := t.log + [Collected(gone, now)])
  }

  // ---------------------------------------------------------------- the shared object

  class Manager {
    var swarms: map<string, Handle>
    var spawned: nat
    ghost var log: seq<LogEntry>

    ghost function State(): Table
      reads this
    {
      Table(swarms, spawned, log)
    }

    constructor ()
      ensures State() == EMPTY
    {
      swarms, spawned, log := map[], 0, [];
    }

    /** The first block of `get_or_spawn_swarm`. */
    method TryGet(tld: string, now: Instant) returns (channel: Option<nat>)
      modifies this
      ensures (State(), channel) == FirstCheck(old(State()), tld, now)
      ensures channel == if tld in old(swarms) then Some(old(swarms)[tld].node) else None
      ensures swarms == if tld in old(swarms) then old(swarms)[tld := Handle(old(swarms)[tld].node, now)]
                        else old(swarms)
    {
      if tld in swarms {
        var handle := swarms[tld];
        swarms := swarms[tld := handle.(lastUsed := now)];
        log := log + [HandedOut(tld, handle.node, now)];
        return Some(handle.node);
      }
      channel := None;
    }

    /** The rest of `get_or_spawn_swarm`, from taking the lock again. */
    method GetOrSpawn(tld: string, now: Instant, initOk: bool) returns (channel: Option<nat>)
      modifies this
      ensures (State(), channel) == SecondCheck(old(State()), tld, now, initOk)
      ensures tld in old(swarms) ==>
                && channel == Some(old(swarms)[tld].node)
                && swarms == old(swarms)[tld := Handle(old(swarms)[tld].node, now)]
      ensures tld !in old(swarms) && initOk ==>
                channel == Some(old(spawned)) && swarms == old(swarms)[tld := Handle(old(spawned), now)]
      ensures tld !in old(swarms) && !initOk ==> channel == None && swarms == old(swarms)
    {
      channel := TryGet(tld, now);
      if channel.Some? {
        return;
      }
      if initOk {
        var node := spawned;
        spawned := spawned + 1;
        swarms := swarms[tld := Handle(node, now)];
        log := log + [Spawned(tld, node), HandedOut(tld, node, now)];
        channel := Some(node);
      }
    }

    /** `retain` over the table: keep every handle that is not idle. */
    method CollectGarbage(now: Instant)
      modifies this
      ensures State() == Collect(old(State()), now)
      ensures forall tld :: tld in swarms <==> tld in old(swarms) && now <= old(swarms)[tld].lastUsed + 600_000_000_000
      ensures forall tld <- swarms :: swarms[tld] == old(swarms)[tld]
    {
      var todo := swarms.Keys;
      var kept: map<string, Handle> := map[];
      while todo != {}
        invariant todo <= swarms.Keys && swarms == old(swarms)
        invariant unchanged(this)
        invariant kept == map tld | tld in swarms && tld !in todo && !Idle(swarms[tld], now) :: swarms[tld]
        decreases todo
      {
        var tld :| tld in todo;
        if !Idle(swarms[tld], now) {
          kept := kept[tld := swarms[tld]];
        }
        todo := todo - {tld};
      }
      ghost var gone := set tld | tld in swarms && Idle(swarms[tld], now);
      assert kept == swarms - gone;
      swarms := kept;
      log := log + [Collected(gone, now)];
    }
  }

  // ---------------------------------------------------------------- what the log says

  function Spawns(log: seq<LogEntry>, tld: string): nat {
    if log == [] then 0
    else
      var last := log[|log| - 1];
      Spawns(log[..|log| - 1], tld) + if last.Spawned? && last.tld == tld then 1 else 0
  }

  function Evictions(log: seq<LogEntry>, tld: string): nat {
    if log == [] then 0
    else
      var last := log[|log| - 1];
      Evictions(log[..|log| - 1], tld) + if last.Collected? && tld in last.gone then 1 else 0
  }

  predicate Evicts(e: LogEntry, tld: string) {
    e.Collected? && tld in e.gone
  }

  /** Some collection after position `i` and before position `j` removed the handle of `tld`. */
  ghost predicate EvictedBetween(log: seq<LogEntry>, tld: string, i: nat, j: nat)
    requires j <= |log|
  {
    exists k :: i < k < j && Evicts(log[k], tld)
  }

  ghost predicate CountsAgree(t: Table) {
    forall tld :: Spawns(t.log, tld) == Evictions(t.log, tld) + if tld in t.swarms then 1 else 0
  }

  /** A channel handed out at some point and not evicted since is still the mapped one; an evicted one was idle. */
  ghost predicate HandoutKept(t: Table, now: Instant, i: nat)
    requires i < |t.log| && t.log[i].HandedOut?
  {
    var HandedOut(tld, node, time) := t.log[i];
    && time <= now
    && if EvictedBetween(t.log, tld, i, |t.log|) then now > time + IDLE_TIMEOUT
       else tld in t.swarms && t.swarms[tld].node == node && t.swarms[tld].lastUsed >= time
  }

  ghost predicate Handouts(t: Table, now: Instant) {
    forall i :: 0 <= i < |t.log| && t.log[i].HandedOut? ==> HandoutKept(t, now, i)
  }

  /** Two callers between whom the TLD was not evicted hold the same channel. */
  ghost predicate SharedChannels(t: Table) {
    forall i, j :: 0 <= i < j < |t.log| && t.log[i].HandedOut? && t.log[j].HandedOut?
                   && t.log[i].tld == t.log[j].tld && !EvictedBetween(t.log, t.log[i].tld, i, j)
                   ==> t.log[i].node == t.log[j].node
  }

  ghost predicate Sound(t: Table, now: Instant) {
    CountsAgree(t) && Handouts(t, now) && SharedChannels(t)
    && forall tld <- t.swarms :: t.swarms[tld].node < t.spawned && t.swarms[tld].lastUsed <= now
  }

  lemma EmptyIsSound(now: Instant)
    ensures Sound(EMPTY, now)
  {
  }

  lemma LaterIsSound(t: Table, now: Instant, later: Instant)
    requires Sound(t, now) && now <= later
    ensures Sound(t, later)
  {
  }

  /** Appending an entry that evicts nothing changes no earlier verdict. */
  lemma QuietEntry(log: seq<LogEntry>, e: LogEntry, tld: string, i: nat)
    requires i < |log| && !Evicts(e, tld)
    ensures EvictedBetween(log + [e], tld, i, |log| + 1) <==> EvictedBetween(log, tld, i, |log|)
    ensures forall j :: i < j <= |log| ==> (EvictedBetween(log + [e], tld, i, j) <==> EvictedBetween(log, tld, i, j))
  {
    var more := log + [e];
    assert forall k :: 0 <= k < |log| ==> more[k] == log[k];
    forall j | i < j <= |log|
      ensures EvictedBetween(more, tld, i, j) <==> EvictedBetween(log, tld, i, j)
    {
      if k :| i < k < j && Evicts(more[k], tld) {
        assert Evicts(log[k], tld);
      }
      if k :| i < k < j && Evicts(log[k], tld) {
        assert Evicts(more[k], tld);
      }
    }
    if k :| i < k < |log| + 1 && Evicts(more[k], tld) {
      assert Evicts(log[k], tld);
    }
    if k :| i < k < |log| && Evicts(log[k], tld) {
      assert Evicts(more[k], tld);
    }
  }

  lemma EntryCounts(log: seq<LogEntry>, e: LogEntry, tld: string)
    ensures Spawns(log + [e], tld) == Spawns(log, tld) + if e.Spawned? && e.tld == tld then 1 else 0
    ensures Evictions(log + [e], tld) == Evictions(log, tld) + if Evicts(e, tld) then 1 else 0
  {
  }

  /** Handing out a channel keeps everything. */
  lemma TouchIsSound(t: Table, tld: string, now: Instant)
    requires Sound(t, now) && tld in t.swarms
    ensures Sound(Touch(t, tld, now), now)
  {
  }

  /** The table between the two log entries of a spawn: the handle is there, and not handed out yet. */
  function Appear(t: Table, tld: string, now: Instant): Table {
    Table(t.swarms[tld := Handle(t.spawned, now)], t.spawned + 1, t.log + [Spawned(tld, t.spawned)])
  }

  lemma AppearKeepsCounts(t: Table, tld: string, now: Instant)
    requires CountsAgree(t) && tld !in t.swarms
    ensures CountsAgree(Appear(t, tld, now))
  {
    forall other
      ensures Spawns(Appear(t, tld, now).log, other)
              == Evictions(Appear(t, tld, now).log, other) + if other in Appear(t, tld, now).swarms then 1 else 0
    {
      EntryCounts(t.log, Spawned(tld, t.spawned), other);
    }
  }

  lemma AppearKeepsHandouts(t: Table, tld: string, now: Instant)
    requires Handouts(t, now) && tld !in t.swarms
    ensures Handouts(Appear(t, tld, now), now)
  {
    var u := Appear(t, tld, now);
    forall i | 0 <= i < |u.log| && u.log[i].HandedOut?
      ensures HandoutKept(u, now, i)
    {
      QuietEntry(t.log, Spawned(tld, t.spawned), t.log[i].tld, i);
      assert HandoutKept(t, now, i);
    }
  }

  lemma AppearKeepsSharing(t: Table, tld: string, now: Instant)
    requires SharedChannels(t)
    ensures SharedChannels(Appear(t, tld, now))
  {
    var u := Appear(t, tld, now);
    forall i, j | 0 <= i < j < |u.log| && u.log[i].HandedOut? && u.log[j].HandedOut?
                  && u.log[i].tld == u.log[j].tld && !EvictedBetween(u.log, u.log[i].tld, i, j)
      ensures u.log[i].node == u.log[j].node
    {
      QuietEntry(t.log, Spawned(tld, t.spawned), t.log[i].tld, i);
    }
  }

  lemma AppearIsSound(t: Table, tld: string, now: Instant)
    requires Sound(t, now) && tld !in t.swarms
    ensures Sound(Appear(t, tld, now), now)
  {
    AppearKeepsCounts(t, tld, now);
    AppearKeepsHandouts(t, tld, now);
    AppearKeepsSharing(t, tld, now);
  }

  lemma SpawnIsAppearAndTouch(t: Table, tld: string, now: Instant)
    ensures tld in Appear(t, tld, now).swarms && Insert(t, tld, now) == Touch(Appear(t, tld, now), tld, now)
  {
  }

  /** A spawn is the appearance of a handle, followed by handing it out. */
  lemma InsertIsSound(t: Table, tld: string, now: Instant)
    requires Sound(t, now) && tld !in t.swarms
    ensures Sound(Insert(t, tld, now), now)
  {
    AppearIsSound(t, tld, now);
    SpawnIsAppearAndTouch(t, tld, now);
    TouchIsSound(Appear(t, tld, now), tld, now);
  }

  /** The collector removes only handles that were idle for more than the timeout, and all of them. */
  lemma CollectIsSound(t: Table, now: Instant)
    requires Sound(t, now)
    ensures Sound(Collect(t, now), now)
    ensures forall tld <- Collect(t, now).swarms :: now <= Collect(t, now).swarms[tld].lastUsed + IDLE_TIMEOUT
  {
  }

  lemma ChecksAreSound(t: Table, tld: string, now: Instant, initOk: bool)
    requires Sound(t, now)
    ensures Sound(FirstCheck(t, tld, now).0, now)
    ensures Sound(SecondCheck(t, tld, now, initOk).0, now)
  {
    if tld in t.swarms {
      TouchIsSound(t, tld, now);
    } else {
      InsertIsSound(t, tld, now);
    }
  }
}
