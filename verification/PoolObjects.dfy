/** The objects of the pool, with the code between two awaits as methods that update them in place.
    `PoolProtocol` says what happens when such pieces of code are interleaved. */
module PoolObjects {
  import opened PoolProtocol
  import opened Wrappers

  class PoolMember {
    const id: InternalId
    var lastUsed: real
    var shuttingDown: bool
    var shutDown: bool
    var listeners: seq<PoolManager>

    constructor (id: InternalId, now: real)
      ensures this.id == id && lastUsed == now && Running() && listeners == []
    {
      this.id, lastUsed, shuttingDown, shutDown, listeners := id, now, false, false, [];
    }

    predicate Running()
      reads this`shuttingDown, this`shutDown
    {
      !shuttingDown && !shutDown
    }

    method Touch(now: real)
      modifies this`lastUsed
      ensures lastUsed == now
    {
      lastUsed := now;
    }

    method RequestShutdown()
      modifies this`shuttingDown
      ensures shuttingDown
    {
      shuttingDown := true;
    }

    /** Announces the end of this member to every pool that registered for it: afterwards none of them
        holds it, and each has kept all its other entries. */
    method SetShutdown()
      requires forall l :: l in listeners ==> l.KeyedById()
      modifies this`shutDown, this`shuttingDown, (set l | l in listeners)`pool
      ensures shutDown && shuttingDown
      ensures forall l :: l in listeners ==> this !in l.pool.Values
      ensures forall l :: l in listeners ==> l.pool == Unregister(old(l.pool), id, this)
    {
      shutDown, shuttingDown := true, true;
      var i := 0;
      while i < |listeners|
        invariant i <= |listeners| && shutDown && shuttingDown
        invariant forall l :: l in listeners ==> l.KeyedById()
        invariant forall l :: l in listeners[..i] ==> l.pool == Unregister(old(l.pool), id, this)
        invariant forall l :: l in listeners ==> l.pool == old(l.pool) || l.pool == Unregister(old(l.pool), id, this)
      {
        var _ := listeners[i].NotifyMemberShutdown(this);
        i := i + 1;
      }
      assert listeners[..i] == listeners;
    }
  }

  /** What `get` finds once it holds the lock of its id. */
  datatype Lookup = NotRunning | Found(member: PoolMember) | Replace(member: PoolMember) | Missing

  class PoolManager {
    const retention: real
    var shutDown: bool
    var shuttingDown: bool
    var pool: map<InternalId, PoolMember>

    constructor (retention: real)
      ensures this.retention == retention && Running() && pool == map[]
    {
      this.retention, shutDown, shuttingDown, pool := retention, false, false, map[];
    }

    predicate Running()
      reads this`shuttingDown, this`shutDown
    {
      !shuttingDown && !shutDown
    }

    method Start()
      modifies this`shutDown, this`shuttingDown
      ensures Running()
    {
      shutDown, shuttingDown := false, false;
    }

    method RequestShutdown()
      modifies this`shutDown, this`shuttingDown
      ensures shutDown && shuttingDown
    {
      shutDown, shuttingDown := true, true;
    }

    method NotifyMemberShutdown(member: PoolMember) returns (removed: bool)
      ensures old(KeyedById()) ==> KeyedById() && member !in pool.Values
      modifies this`pool
      ensures pool == Unregister(old(pool), member.id, member)
      ensures removed <==> pool != old(pool)
      ensures forall k :: k in old(pool) && old(pool)[k] != member ==> k in pool && pool[k] == old(pool)[k]
    {
      if member.id !in pool {
        return false;
      } else if pool[member.id] != member {
        return false;
      } else {
        pool := pool - {member.id};
        return true;
      }
    }

    /** The part of `get` up to its first await: only a member that is not going away is handed out, and
        it then counts as used now. */
    method Get(id: InternalId, now: real) returns (found: Lookup)
      modifies (if id in pool then {pool[id]} else {})`lastUsed
      ensures found.NotRunning? <==> !Running()
      ensures found.Missing? <==> Running() && id !in pool
      ensures found.Found? ==> id in pool && found.member == pool[id] && !found.member.shuttingDown
                               && found.member.lastUsed == now
      ensures found.Replace? ==> id in pool && found.member == pool[id] && found.member.shuttingDown
      ensures !found.Found? && id in pool ==> pool[id].lastUsed == old(pool[id].lastUsed)
    {
      if !Running() {
        return NotRunning;
      }
      if id in pool {
        var it := pool[id];
        if !it.shuttingDown {
          it.Touch(now);
          return Found(it);
        }
        return Replace(it);
      }
      return Missing;
    }

    /** The part of `_create_or_replace` after its last await. */
    method Store(id: InternalId, member: PoolMember) returns (ok: bool)
      requires KeyedById()
      ensures KeyedById()
      modifies this`pool, member`listeners
      ensures ok <==> member.id == id
      ensures ok ==> pool == old(pool)[id := member] && member.listeners == old(member.listeners) + [this]
      ensures !ok ==> pool == old(pool) && member.listeners == old(member.listeners)
    {
      if member.id != id {
        return false;
      }
      pool := pool[id := member];
      member.listeners := member.listeners + [this];
      return true;
    }

    /** Every entry stands under the id of its member. */
    ghost predicate KeyedById()
      reads this`pool
    {
      forall k :: k in pool ==> pool[k].id == k
    }

    ghost predicate Stale(m: PoolMember, cleanable: set<PoolMember>, start: real)
      reads m
    {
      m in cleanable && m.lastUsed < start - retention && m.Running()
    }

    /** A cleanup pass that nothing interrupts: it shuts down exactly the stale members, and the next pass
        is due when the first of the others expires, though never within half a second. */
    method CleanupInactivePoolMembers(cleanable: set<PoolMember>, start: real, end: real) returns (sleep: real)
      requires KeyedById()
      modifies (set k | k in pool :: pool[k])`shuttingDown
      ensures forall k :: k in pool ==>
                pool[k].shuttingDown == (old(pool[k].shuttingDown) || old(Stale(pool[k], cleanable, start)))
      ensures sleep >= 0.5
      ensures forall k :: k in pool && !old(Stale(pool[k], cleanable, start)) ==>
                end + sleep <= Max(end + 0.5, pool[k].lastUsed + retention)
      ensures end + sleep <= Max(end + 0.5, start + retention)
      ensures || end + sleep == Max(end + 0.5, start + retention)
              || exists k :: k in pool && !old(Stale(pool[k], cleanable, start))
                             && end + sleep == Max(end + 0.5, pool[k].lastUsed + retention)
    {
      var oldest := start - retention;
      var nextIn := retention;
      var todo := pool.Keys;
      ghost var least: Option<InternalId> := None;
      while todo != {}
        invariant todo <= pool.Keys
        invariant forall k :: k in todo ==> pool[k].shuttingDown == old(pool[k].shuttingDown)
        invariant forall k :: k in pool.Keys - todo ==>
          pool[k].shuttingDown == (old(pool[k].shuttingDown) || old(Stale(pool[k], cleanable, start)))
        invariant nextIn <= retention
        invariant forall k :: k in pool.Keys - todo && !old(Stale(pool[k], cleanable, start)) ==>
          nextIn <= pool[k].lastUsed - oldest
        invariant match least
                  case None => nextIn == retention
                  case Some(k) =>
                    && k in pool && !old(Stale(pool[k], cleanable, start))
                    && nextIn == pool[k].lastUsed - oldest
      {
        var k :| k in todo;
        var member := pool[k];
        if member in cleanable && member.lastUsed < oldest && member.Running() {
          member.RequestShutdown();
        } else if member.lastUsed - oldest < nextIn {
          nextIn := member.lastUsed - oldest;
          least := Some(k);
        }
        todo := todo - {k};
      }
      sleep := Max(0.5, nextIn - (end - start));
    }
  }
}
