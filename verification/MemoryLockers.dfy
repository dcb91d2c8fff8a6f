/** The lock store of one process: locks that expire, releases that may come late, and sweeps that keep it small. */
module MemoryLockers {

  const MIN_SWEEP := 64

  datatype Lock = Lock(until: int, token: nat)

  /** A lock that was granted, for the record. */
  datatype Grant = Grant(key: string, lock: Lock)

  /** The grant has neither expired nor been released. */
  predicate Active(g: Grant, released: set<nat>, now: int) {
    now < g.lock.until && g.lock.token !in released
  }

  /** Some grant for the key is active: what a store that never forgets a grant would look for. */
  ghost predicate IsLocked(grants: seq<Grant>, released: set<nat>, key: string, now: int) {
    exists g :: g in grants && g.key == key && Active(g, released, now)
  }

  function Max(a: int, b: int): int { if a < b then b else a }

  /** held has every active grant, and nothing but unreleased ones. */
  ghost predicate Refines(held: map<string, Lock>, grants: seq<Grant>, released: set<nat>, now: int) {
    && (forall g :: g in grants && Active(g, released, now) ==> g.key in held && held[g.key] == g.lock)
    && (forall k :: k in held ==> Grant(k, held[k]) in grants && held[k].token !in released)
  }

  /** Tokens are numbered from 1 in the order of the grants. */
  ghost predicate Numbered(grants: seq<Grant>, seqNo: nat) {
    |grants| == seqNo && forall i :: 0 <= i < |grants| ==> grants[i].lock.token == i + 1
  }

  lemma LockedIsHeld(held: map<string, Lock>, grants: seq<Grant>, released: set<nat>, key: string, now: int)
    requires Refines(held, grants, released, now)
    ensures IsLocked(grants, released, key, now) <==> key in held && now < held[key].until
  {
    if key in held && now < held[key].until {
      assert Active(Grant(key, held[key]), released, now);
    }
  }

  /** As time passes grants only expire. */
  lemma RefinesLater(held: map<string, Lock>, grants: seq<Grant>, released: set<nat>, now: int, later: int)
    requires Refines(held, grants, released, now) && now <= later
    ensures Refines(held, grants, released, later)
  {
    forall g | g in grants && Active(g, released, later)
      ensures g.key in held && held[g.key] == g.lock
    {
      assert Active(g, released, now);
    }
  }

  lemma RefinesGranted(held: map<string, Lock>, grants: seq<Grant>, released: set<nat>, now: int, key: string,
                       lock: Lock)
    requires Refines(held, grants, released, now) && !IsLocked(grants, released, key, now) && lock.token !in released
    ensures Refines(held[key := lock], grants + [Grant(key, lock)], released, now)
  {
    hide Active;
    var more := grants + [Grant(key, lock)];
    assert forall g :: g in more <==> g in grants || g == Grant(key, lock);
  }

  lemma TokenOnce(grants: seq<Grant>, seqNo: nat, g: Grant, h: Grant)
    requires Numbered(grants, seqNo) && g in grants && h in grants && g.lock.token == h.lock.token
    ensures g == h
  {
    var i :| 0 <= i < |grants| && grants[i] == g;
    var j :| 0 <= j < |grants| && grants[j] == h;
  }

  lemma RefinesReleased(held: map<string, Lock>, grants: seq<Grant>, seqNo: nat, released: set<nat>, now: int,
                        key: string, token: nat)
    requires Refines(held, grants, released, now) && Numbered(grants, seqNo)
    requires exists g :: g in grants && g.key == key && g.lock.token == token
    ensures var after := if key in held && held[key].token == token then held - {key} else held;
            Refines(after, grants, released + {token}, now)
  {
    hide Numbered;
    var mine :| mine in grants && mine.key == key && mine.lock.token == token;
    var after := if key in held && held[key].token == token then held - {key} else held;
    forall g | g in grants && Active(g, released + {token}, now)
      ensures g.key in after && after[g.key] == g.lock
    {
      assert Active(g, released, now);
    }
    forall k | k in after
      ensures Grant(k, after[k]) in grants && after[k].token !in released + {token}
    {
      if after[k].token == token {
        TokenOnce(grants, seqNo, Grant(k, held[k]), mine);
      }
    }
  }

  /** held without the expired keys among those that are not in `keys`. */
  function Swept(held: map<string, Lock>, keys: set<string>, now: int): (r: map<string, Lock>)
    ensures r.Keys <= held.Keys
  {
    map k | k in held && (k in keys || now < held[k].until) :: held[k]
  }

  lemma SweptOne(held: map<string, Lock>, keys: set<string>, now: int, k: string)
    requires k in keys && k in held
    ensures var r := Swept(held, keys, now);
            k in r && r[k] == held[k] && Swept(held, keys - {k}, now) == if now < held[k].until then r else r - {k}
  {
  }

  lemma SweptNothing(held: map<string, Lock>, now: int)
    ensures Swept(held, held.Keys, now) == held
  {
  }

  lemma RefinesSwept(held: map<string, Lock>, grants: seq<Grant>, released: set<nat>, now: int)
    requires Refines(held, grants, released, now)
    ensures Refines(Swept(held, {}, now), grants, released, now)
  {
  }

  lemma SubsetFits(a: set<string>, b: set<string>)
    requires a <= b
    ensures |a| <= |b|
  {
    assert b == a + (b - a);
  }

  /** Sweeps have cost at most two steps for each grant before the last sweep, which left `left` keys; `since` grants
      came later. The store stays within the size at which the next sweep is due. */
  predicate Paid(size: int, nextSweep: int, left: int, since: int, work: int, granted: int) {
    && 0 <= left && 0 <= since && size <= left + since
    && nextSweep == Max(MIN_SWEEP, 2 * left) && size <= nextSweep
    && work + 2 * since <= 2 * granted
  }

  lemma PaidMore(size: int, nextSweep: int, left: int, since: int, work: int, granted: int, size': int)
    requires Paid(size, nextSweep, left, since, work, granted) && size < nextSweep && size' <= size + 1
    ensures Paid(size', nextSweep, left, since + 1, work, granted + 1)
  {
  }

  lemma PaidSwept(size: int, nextSweep: int, left: int, since: int, work: int, granted: int, rest: int)
    requires Paid(size, nextSweep, left, since, work, granted) && size >= nextSweep && 0 <= rest <= size
    ensures Paid(rest, Max(MIN_SWEEP, 2 * rest), rest, 0, work + size, granted) && rest < Max(MIN_SWEEP, 2 * rest)
  {
  }

  lemma PaidFewer(size: int, nextSweep: int, left: int, since: int, work: int, granted: int, size': int)
    requires Paid(size, nextSweep, left, since, work, granted) && size' <= size
    ensures Paid(size', nextSweep, left, since, work, granted)
  {
  }

  class MemoryLocker {
    var held: map<string, Lock>
    var seqNo: nat
    var nextSweep: int
    // For the record: every grant so far, the released tokens, the latest time seen, and the work of all sweeps with
    // the grants since the last one and what that one left.
    ghost var grants: seq<Grant>
    ghost var released: set<nat>
    ghost var latest: int
    ghost var work: int
    ghost var sinceSweep: int
    ghost var left: int

    constructor (now: int)
      ensures Valid() && grants == [] && released == {} && latest == now && work == 0
    {
      held, seqNo, nextSweep := map[], 0, MIN_SWEEP;
      grants, released, latest, work, sinceSweep, left := [], {}, now, 0, 0, 0;
    }

    ghost predicate Valid()
      reads this
    {
      && Refines(held, grants, released, latest) && Numbered(grants, seqNo)
      && (forall t :: t in released ==> t <= seqNo)
      && Paid(|held|, nextSweep, left, sinceSweep, work, |grants|)
    }

    /** TryLock at time now; the token stands for the release closure. */
    method TryLock(key: string, ttl: int, now: int) returns (token: nat, ok: bool)
      requires Valid() && latest <= now
      modifies this
      ensures Valid() && latest == now && released == old(released)
      ensures ok <==> !IsLocked(old(grants), released, key, now)
      ensures grants == if ok then old(grants) + [Grant(key, Lock(now + ttl, token))] else old(grants)
    {
      hide Refines, Numbered, IsLocked, Paid, Swept;
      latest := now;
      RefinesLater(held, grants, released, old(latest), now);
      LockedIsHeld(held, grants, released, key, now);
      if key in held && now < held[key].until {
        return 0, false;
      }
      if |held| >= nextSweep {
        Sweep(now);
      }
      token := Take(key, now + ttl);
      return token, true;
    }

    /** The part of TryLock that stores the new lock. */
    method Take(key: string, until: int) returns (token: nat)
      requires Valid() && |held| < nextSweep && !IsLocked(grants, released, key, latest)
      modifies `held, `seqNo, `grants, `sinceSweep
      ensures Valid() && grants == old(grants) + [Grant(key, Lock(until, token))]
    {
      hide Refines, Numbered, IsLocked, Paid;
      seqNo := seqNo + 1;
      token := seqNo;
      var lock := Lock(until, token);
      RefinesGranted(held, grants, released, latest, key, lock);
      NumberedMore(grants, token - 1, key, until);
      GrowsByOne(held, key, lock);
      PaidMore(|held|, nextSweep, left, sinceSweep, work, |grants|, |held[key := lock]|);
      held := held[key := lock];
      grants := grants + [Grant(key, lock)];
      sinceSweep := sinceSweep + 1;
    }

    /** The store never outgrows the next sweep, and all sweeps together took at most two steps per successful
        TryLock. */
    lemma StaysSmall()
      requires Valid()
      ensures work <= 2 * |grants| && |held| <= nextSweep
      // It is swept at 64 keys, or when twice what the last sweep left is reached.
      ensures nextSweep == if 2 * left > 64 then 2 * left else 64
    {
    }

    static lemma GrowsByOne(held: map<string, Lock>, key: string, lock: Lock)
      ensures |held[key := lock]| <= |held| + 1
    {
      assert held[key := lock].Keys == held.Keys + {key};
    }

    static lemma NumberedMore(grants: seq<Grant>, seqNo: nat, key: string, until: int)
      requires Numbered(grants, seqNo)
      ensures Numbered(grants + [Grant(key, Lock(until, seqNo + 1))], seqNo + 1)
    {
    }

    /** The release closure of an earlier grant: only that grant ends, however late the call. */
    method Release(key: string, token: nat)
      requires Valid() && exists g :: g in grants && g.key == key && g.lock.token == token
      modifies this
      ensures Valid() && grants == old(grants) && released == old(released) + {token} && latest == old(latest)
      ensures forall g, now :: g in grants ==>
                                 (Active(g, released, now) <==> Active(g, old(released), now) && g.lock.token != token)
      ensures work == old(work)
    {
      hide Refines, Numbered, Paid;
      RefinesReleased(held, grants, seqNo, released, latest, key, token);
      TokensUpTo(grants, seqNo, token);
      if key in held && held[key].token == token {
        assert held.Keys == (held - {key}).Keys + {key};
        PaidFewer(|held|, nextSweep, left, sinceSweep, work, |grants|, |held - {key}|);
        held := held - {key};
      }
      released := released + {token};
    }

    static lemma TokensUpTo(grants: seq<Grant>, seqNo: nat, token: nat)
      requires Numbered(grants, seqNo) && exists g :: g in grants && g.lock.token == token
      ensures token <= seqNo
    {
    }

    /** sweep: remove the expired keys, in any order. */
    method Sweep(now: int)
      requires Valid() && latest == now && |held| >= nextSweep
      modifies `held, `nextSweep, `work, `sinceSweep, `left
      ensures Valid() && |held| < nextSweep
      ensures held == Swept(old(held), {}, now)
    {
      hide Refines, Numbered, Paid, Swept;
      ghost var before, steps := held, 0;
      var keys := held.Keys;
      SweptNothing(held, now);
      while keys != {}
        invariant keys <= before.Keys && steps + |keys| == |before|
        invariant held == Swept(before, keys, now)
        decreases keys
        modifies `held
      {
        var k :| k in keys;
        SweptOne(before, keys, now, k);
        if now >= held[k].until {
          held := held - {k};
        }
        keys := keys - {k};
        steps := steps + 1;
      }
      RefinesSwept(before, grants, released, now);
      SubsetFits(held.Keys, before.Keys);
      PaidSwept(|before|, nextSweep, left, sinceSweep, work, |grants|, |held|);
      nextSweep := Max(MIN_SWEEP, 2 * |held|);
      work, sinceSweep, left := work + steps, 0, |held|;
    }
  }
}
