/** The set of recently purged resources (handlers/remove.go). */
module ExpiringSets {

  datatype Addition = Addition(key: string, at: int)

  /** What the set stands for: some addition of the key has not run out yet. */
  ghost predicate Live(adds: seq<Addition>, ttl: int, key: string, now: int) {
    exists i :: 0 <= i < |adds| && adds[i].key == key && now < adds[i].at + ttl
  }

  /** The entries say, for every time from clock on, exactly what the additions say. */
  ghost predicate Summarises(entries: map<string, int>, adds: seq<Addition>, ttl: int, clock: int) {
    && (forall a :: a in adds ==> a.at <= clock)
    && (forall a :: a in adds && clock < a.at + ttl ==> a.key in entries && a.at + ttl <= entries[a.key])
    && (forall k :: k in entries ==> exists a :: a in adds && a.key == k && entries[k] == a.at + ttl)
  }

  /** Dropping entries that have run out loses nothing, now or later. */
  lemma DroppingExpired(before: map<string, int>, after: map<string, int>, adds: seq<Addition>, ttl: int,
                        clock: int, now: int)
    requires Summarises(before, adds, ttl, clock) && clock <= now
    requires forall k :: k in after ==> k in before && after[k] == before[k]
    requires forall k :: k in before && k !in after ==> before[k] <= now
    ensures Summarises(after, adds, ttl, now)
  {
  }

  lemma LookupIsLive(entries: map<string, int>, adds: seq<Addition>, ttl: int, clock: int, key: string, now: int)
    requires Summarises(entries, adds, ttl, clock) && clock <= now
    ensures Live(adds, ttl, key, now) <==> key in entries && now < entries[key]
  {
  }

  lemma AddingSummarises(entries: map<string, int>, adds: seq<Addition>, ttl: int, key: string, now: int)
    requires Summarises(entries, adds, ttl, now)
    ensures Summarises(entries[key := now + ttl], adds + [Addition(key, now)], ttl, now)
  {
  }

  /** With nothing run out among the entries, their keys are exactly the live ones. */
  lemma KeysAreLive(entries: map<string, int>, adds: seq<Addition>, ttl: int, now: int)
    requires Summarises(entries, adds, ttl, now) && forall k :: k in entries ==> now < entries[k]
    ensures forall k :: k in entries <==> Live(adds, ttl, k, now)
  {
  }

  /** An addition stays in force until its time is up, whatever is added meanwhile. */
  lemma LiveUntilTtl(adds: seq<Addition>, ttl: int, a: Addition, now: int)
    requires a in adds && now < a.at + ttl
    ensures Live(adds, ttl, a.key, now)
  {
  }

  lemma LiveSnoc(adds: seq<Addition>, a: Addition, ttl: int, key: string, now: int)
    ensures Live(adds + [a], ttl, key, now) <==> Live(adds, ttl, key, now) || (key == a.key && now - a.at < ttl)
  {
    var all := adds + [a];
    assert all[|adds|] == a && forall i :: 0 <= i < |adds| ==> all[i] == adds[i];
  }

  /** And not longer: one addition is in force exactly for its ttl. */
  lemma LiveExactly(a: Addition, ttl: int, now: int)
    ensures Live([a], ttl, a.key, now) <==> now - a.at < ttl
    ensures forall key :: key != a.key ==> !Live([a], ttl, key, now)
  {
    assert [a][0] == a;
  }

  class ExpiringSet {
    const ttl: int
    var entries: map<string, int>
    ghost var adds: seq<Addition>
    ghost var clock: int

    ghost predicate Valid()
      reads this
    {
      Summarises(entries, adds, ttl, clock)
    }

    constructor (ttl: int, ghost start: int)
      ensures Valid() && this.ttl == ttl && adds == [] && clock == start
    {
      this.ttl, entries, adds, clock := ttl, map[], [], start;
    }

    method Contains(key: string, now: int) returns (r: bool)
      requires Valid() && clock <= now
      modifies this`entries, this`clock
      ensures Valid() && clock == now
      ensures r <==> Live(adds, ttl, key, now)
    {
      ghost var before := entries;
      LookupIsLive(entries, adds, ttl, clock, key, now);
      if key !in entries {
        r := false;
      } else if !(now < entries[key]) {
        entries := entries - {key};
        r := false;
      } else {
        r := true;
      }
      DroppingExpired(before, entries, adds, ttl, clock, now);
      clock := now;
    }

    /** The loop of add over the entries, in any order. */
    method Prune(now: int)
      requires Valid() && clock <= now
      modifies this`entries, this`clock
      ensures Valid() && clock == now
      ensures forall k :: k in entries ==> now < entries[k]
    {
      hide Summarises;
      var unseen := entries.Keys;
      while unseen != {}
        invariant unseen <= entries.Keys
        invariant forall k :: k in entries ==> k in old(entries) && entries[k] == old(entries)[k]
        invariant forall k :: k in old(entries) && k !in entries ==> old(entries)[k] <= now
        invariant forall k :: k in entries && k !in unseen ==> now < entries[k]
        invariant clock == old(clock)
        decreases unseen
      {
        var existing :| existing in unseen;
        if !(now < entries[existing]) {
          entries := entries - {existing};
        }
        unseen := unseen - {existing};
      }
      DroppingExpired(old(entries), entries, adds, ttl, clock, now);
      clock := now;
    }

    method Add(key: string, now: int)
      requires Valid() && clock <= now
      modifies this`entries, this`adds, this`clock
      ensures Valid() && clock == now
      ensures adds == old(adds) + [Addition(key, now)]
      ensures ttl > 0 ==> forall k :: k in entries <==> Live(adds, ttl, k, now)
    {
      hide Summarises, Live;
      Prune(now);
      AddingSummarises(entries, adds, ttl, key, now);
      var kept := entries[key := now + ttl];
      ghost var all := adds + [Addition(key, now)];
      if ttl > 0 {
        KeysAreLive(kept, all, ttl, now);
      }
      entries := kept;
      adds := all;
    }
  }
}
