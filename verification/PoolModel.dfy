/** The bookkeeping of the connection pool, as steps of a state machine, and what every run keeps. */
module PoolModel {
  import opened Basics
  import NetPrint

  /** A connection: its lock, its work state (0 idle, 1 working, 2 reserved), whether it is in a
      transaction, its owner, the time it was last used, and its connection string. */
  datatype Conn = Conn(res: int, running: int, trans: bool, owner: Option<int>, touched: int, target: string)

  /** The pools by connection string, as lists of serial numbers. The record of a deleted connection stays
      in conns, but in no pool. */
  datatype State = State(max: int, conns: map<nat, Conn>, pools: map<string, seq<nat>>, stolen: string, next: nat, clock: int)

  const KEPT := 5
  /** Fifteen seconds; times are in milliseconds. */
  const GRACE := 15_000

  predicate InUse(c: Conn) {
    c.trans || c.res > 0
  }

  /** The test of the clean-up; the grace period is added to the present, not taken from it. */
  predicate IsDead(c: Conn, now: int) {
    !InUse(c) && c.touched < now + GRACE
  }

  predicate Dead(conns: map<nat, Conn>, id: nat, now: int) {
    id in conns && IsDead(conns[id], now)
  }

  /** The connections of s that the clean-up leaves. */
  function Alive(s: seq<nat>, conns: map<nat, Conn>, now: int): (r: seq<nat>)
    ensures |r| <= |s| && forall x :: x in r <==> x in s && !Dead(conns, x, now)
  {
    if s == [] then []
    else if Dead(conns, s[0], now) then Alive(s[1..], conns, now)
    else [s[0]] + Alive(s[1..], conns, now)
  }

  /** A pool after the clean-up: the first five stay whatever they are. */
  function Cleaned(s: seq<nat>, conns: map<nat, Conn>, now: int): (r: seq<nat>)
    ensures |r| <= |s| && (s != [] ==> r != [])
  {
    if |s| <= KEPT then s else s[..KEPT] + Alive(s[KEPT..], conns, now)
  }

  /** The place of the first connection that is not locked, |s| if there is none. */
  function FirstFree(s: seq<nat>, conns: map<nat, Conn>): (i: nat)
    ensures i <= |s| && (i < |s| ==> s[i] in conns && conns[s[i]].res == 0)
    ensures forall j :: 0 <= j < i && s[j] in conns ==> conns[s[j]].res != 0
  {
    if s == [] || (s[0] in conns && conns[s[0]].res == 0) then 0 else 1 + FirstFree(s[1..], conns)
  }

  /** The order of connection names, which are decimal numbers compared as strings. */
  predicate NameLess(s: string, t: string) {
    t != [] && (s == [] || s[0] < t[0] || (s[0] == t[0] && NameLess(s[1..], t[1..])))
  }

  function Name(id: nat): (s: string) {
    NetPrint.Numeral(id, 10)
  }

  /** The name of id comes after the last one stolen. */
  predicate IsLater(id: nat, stolen: string) {
    NameLess(stolen, Name(id))
  }

  /** The members whose names are later, or those whose names are not. */
  function Side(s: seq<nat>, stolen: string, later: bool): (r: seq<nat>)
    ensures forall x :: x in r ==> IsLater(x, stolen) == later
  {
    if s == [] then []
    else (if IsLater(s[0], stolen) == later then [s[0]] else []) + Side(s[1..], stolen, later)
  }

  /** The order in which connections are tried for stealing. */
  function StealOrder(s: seq<nat>, stolen: string): (r: seq<nat>) {
    Side(s, stolen, true) + Side(s, stolen, false)
  }

  predicate CanBeStolen(c: Conn) {
    !c.trans && c.running == 0
  }

  function FirstStealable(s: seq<nat>, conns: map<nat, Conn>): (i: nat)
    ensures i <= |s| && (i < |s| ==> s[i] in conns && CanBeStolen(conns[s[i]]))
    ensures forall j :: 0 <= j < i && s[j] in conns ==> !CanBeStolen(conns[s[j]])
  {
    if s == [] || (s[0] in conns && CanBeStolen(conns[s[0]])) then 0 else 1 + FirstStealable(s[1..], conns)
  }

  function LockedIn(s: seq<nat>, conns: map<nat, Conn>): (n: nat) {
    if s == [] then 0 else (if s[0] in conns && conns[s[0]].res == 1 then 1 else 0) + LockedIn(s[1..], conns)
  }

  // ---- steps

  function PoolOf(s: State, target: string): (p: seq<nat>) {
    if target in s.pools then s.pools[target] else []
  }

  function CleanUp(s: State, target: string, now: int): (r: State) {
    s.(pools := s.pools[target := Cleaned(PoolOf(s, target), s.conns, now)], clock := now)
  }

  /** A new connection, locked at once. */
  function Create(s: State, target: string, owner: Option<int>): (r: State) {
    s.(conns := s.conns[s.next := Conn(1, 0, false, owner, s.clock, target)],
       pools := s.pools[target := PoolOf(s, target) + [s.next]], next := s.next + 1)
  }

  function Update(s: State, id: nat, c: Conn): (r: State) {
    s.(conns := s.conns[id := c])
  }

  function Locked(c: Conn, owner: int, now: int): (r: Conn) {
    c.(res := 1, running := 0, touched := now, owner := Some(owner))
  }

  function Stolen(c: Conn, owner: int, now: int): (r: Conn) {
    c.(owner := Some(owner), running := 2, touched := now)
  }

  /** A connection for owner: a new one if there is none; a free one or a new one while there is room;
      else one that is stolen, or none. */
  function Acquire(s: State, owner: int, target: string, now: int): (r: (State, Option<nat>)) {
    var t := CleanUp(s, target, now);
    var pool := t.pools[target];
    if pool == [] then (Create(t, target, Some(owner)), Some(t.next))
    else if |pool| < t.max then
      var i := FirstFree(pool, t.conns);
      if i < |pool| then (Update(t, pool[i], Locked(t.conns[pool[i]], owner, now)), Some(pool[i]))
      else (Create(t, target, None), Some(t.next))
    else
      var order := StealOrder(pool, t.stolen);
      var i := FirstStealable(order, t.conns);
      if i < |order| then
        (Update(t, order[i], Stolen(t.conns[order[i]], owner, now)).(stolen := Name(order[i])), Some(order[i]))
      else (t, None)
  }

  function Released(c: Conn, now: int): (r: Conn) {
    Conn(if c.res > 0 then 0 else c.res, 0, false, None, now, c.target)
  }

  /** What clients do. Begin and End are transaction steps that the server accepts; Work and Rest start
      and stop a query. */
  datatype Op =
    | Get(owner: int, target: string)
    | Count(target: string)
    | Release(id: nat)
    | Begin(id: nat)
    | End(id: nat)
    | Work(id: nat)
    | Rest(id: nat)

  function Changed(c: Conn, op: Op, now: int): (r: Conn)
    requires !op.Get? && !op.Count?
  {
    match op
    case Release(_) => Released(c, now)
    case Begin(_) => if c.trans then c else c.(trans := true, touched := now)
    case End(_) => c.(trans := false, touched := now)
    case Work(_) => c.(running := if c.running == 0 || c.running == 2 then 1 else c.running, touched := now)
    case Rest(_) => c.(running := 0, touched := now)
  }

  function Step(s: State, op: Op, now: int): (r: State) {
    match op
    case Get(owner, target) => Acquire(s, owner, target, now).0
    case Count(target) => CleanUp(s, target, now)
    case _ => if op.id in s.conns then Update(s, op.id, Changed(s.conns[op.id], op, now)).(clock := now) else s.(clock := now)
  }

  /** The state after the steps, each at its time. */
  function Run(s: State, steps: seq<(Op, int)>): (r: State)
    decreases |steps|
  {
    if steps == [] then s else Run(Step(s, steps[0].0, steps[0].1), steps[1..])
  }

  /** The clock never goes back. */
  ghost predicate Timed(clock: int, steps: seq<(Op, int)>)
    decreases |steps|
  {
    steps == [] || (clock <= steps[0].1 && Timed(steps[0].1, steps[1..]))
  }

  // ---- the invariant

  ghost predicate Distinct(s: seq<nat>) {
    forall i, j :: 0 <= i < j < |s| ==> s[i] != s[j]
  }

  /** A pool is within its bound; its members are distinct, are known, and go to its target. */
  ghost predicate PoolOk(s: State, target: string, p: seq<nat>) {
    && |p| <= Max(1, s.max) && Distinct(p)
    && forall x :: x in p ==> x in s.conns && s.conns[x].target == target
  }

  ghost predicate InRange(c: Conn) {
    0 <= c.res <= 1 && 0 <= c.running <= 2
  }

  ghost predicate Inv(s: State) {
    && (forall t :: t in s.pools ==> PoolOk(s, t, s.pools[t]))
    && (forall x :: x in s.conns ==> x < s.next && s.conns[x].touched <= s.clock && InRange(s.conns[x]))
  }

  lemma {:induction false} AliveDistinct(s: seq<nat>, conns: map<nat, Conn>, now: int)
    requires Distinct(s)
    ensures Distinct(Alive(s, conns, now))
  {
    if s != [] {
      AliveDistinct(s[1..], conns, now);
      var r := Alive(s[1..], conns, now);
      forall i | 0 <= i < |r| ensures r[i] != s[0] {
        assert r[i] in s[1..];
      }
    }
  }

  /** The clean-up only removes members. */
  lemma CleanedOk(s: seq<nat>, conns: map<nat, Conn>, now: int)
    requires Distinct(s)
    ensures var r := Cleaned(s, conns, now); Distinct(r) && forall x :: x in r ==> x in s
  {
    if |s| > KEPT {
      var a, b := s[..KEPT], s[KEPT..];
      AliveDistinct(b, conns, now);
      var r := Alive(b, conns, now);
      forall i, j | 0 <= i < |a| && 0 <= j < |r| ensures a[i] != r[j] {
        assert r[j] in b;
      }
    }
  }

  lemma CleanUpKeeps(s: State, target: string, now: int)
    requires Inv(s) && s.clock <= now
    ensures Inv(CleanUp(s, target, now))
  {
    if target in s.pools { assert PoolOk(s, target, s.pools[target]); }
    var p := PoolOf(s, target);
    CleanedOk(p, s.conns, now);
    var r := CleanUp(s, target, now);
    forall t | t in r.pools ensures PoolOk(r, t, r.pools[t]) {
      if t != target { assert PoolOk(s, t, s.pools[t]); }
    }
  }

  lemma CreateKeeps(s: State, target: string, owner: Option<int>)
    requires Inv(s) && target in s.pools && |s.pools[target]| < Max(1, s.max)
    ensures Inv(Create(s, target, owner))
  {
    var r, p := Create(s, target, owner), s.pools[target];
    assert PoolOk(s, target, p);
    forall i | 0 <= i < |p| ensures p[i] in s.conns && p[i] < s.next {
      assert p[i] in p;
    }
    forall t | t in r.pools ensures PoolOk(r, t, r.pools[t]) {
      assert t in s.pools && PoolOk(s, t, s.pools[t]);
    }
  }

  /** Changing a connection within its pool. */
  lemma UpdateKeeps(s: State, id: nat, c: Conn, stolen: string, now: int)
    requires Inv(s) && id in s.conns && c.target == s.conns[id].target && c.touched <= now && s.clock <= now && InRange(c)
    ensures Inv(Update(s, id, c).(stolen := stolen, clock := now))
  {
    var r := Update(s, id, c).(stolen := stolen, clock := now);
    forall t | t in r.pools ensures PoolOk(r, t, r.pools[t]) {
      assert PoolOk(s, t, s.pools[t]);
    }
  }

  lemma AcquireKeeps(s: State, owner: int, target: string, now: int)
    requires Inv(s) && s.clock <= now
    ensures Inv(Acquire(s, owner, target, now).0)
  {
    var t := CleanUp(s, target, now);
    CleanUpKeeps(s, target, now);
    var pool := t.pools[target];
    if pool == [] {
      CreateKeeps(t, target, Some(owner));
    } else if |pool| < t.max {
      var i := FirstFree(pool, t.conns);
      if i < |pool| {
        UpdateKeeps(t, pool[i], Locked(t.conns[pool[i]], owner, now), t.stolen, now);
      } else {
        CreateKeeps(t, target, None);
      }
    } else {
      var order := StealOrder(pool, t.stolen);
      var i := FirstStealable(order, t.conns);
      if i < |order| { UpdateKeeps(t, order[i], Stolen(t.conns[order[i]], owner, now), Name(order[i]), now); }
    }
  }

  lemma StepKeeps(s: State, op: Op, now: int)
    requires Inv(s) && s.clock <= now
    ensures var r := Step(s, op, now); Inv(r) && r.max == s.max && r.clock == now
  {
    match op
    case Get(owner, target) => AcquireKeeps(s, owner, target, now);
    case Count(target) => CleanUpKeeps(s, target, now);
    case _ =>
      if op.id in s.conns {
        UpdateKeeps(s, op.id, Changed(s.conns[op.id], op, now), s.stolen, now);
      } else {
        var r := s.(clock := now);
        forall t | t in r.pools ensures PoolOk(r, t, r.pools[t]) {
          assert PoolOk(s, t, s.pools[t]);
        }
      }
  }

  /** In every run with a clock that never goes back, every pool stays within max(1, max). */
  lemma {:induction false} RunKeeps(s: State, steps: seq<(Op, int)>)
    requires Inv(s) && Timed(s.clock, steps)
    ensures var r := Run(s, steps);
      Inv(r) && r.max == s.max && forall t :: t in r.pools ==> |r.pools[t]| <= Max(1, s.max)
    decreases |steps|
  {
    if steps == [] {
      forall t | t in s.pools ensures |s.pools[t]| <= Max(1, s.max) { assert PoolOk(s, t, s.pools[t]); }
    } else {
      StepKeeps(s, steps[0].0, steps[0].1);
      RunKeeps(Step(s, steps[0].0, steps[0].1), steps[1..]);
    }
  }

  // ---- the clean-up

  /** The members of s that are in use, in order. */
  ghost function Busy(s: seq<nat>, conns: map<nat, Conn>): (r: seq<nat>)
    requires forall x :: x in s ==> x in conns
  {
    if s == [] then [] else (if InUse(conns[s[0]]) then [s[0]] else []) + Busy(s[1..], conns)
  }

  /** In a reachable state, what the clean-up leaves after the first five is what is in use: idle time
      plays no part. */
  lemma {:induction false} AliveIsBusy(s: seq<nat>, conns: map<nat, Conn>, now: int)
    requires forall x :: x in s ==> x in conns && conns[x].touched <= now
    ensures Alive(s, conns, now) == Busy(s, conns)
  {
    if s != [] { AliveIsBusy(s[1..], conns, now); }
  }

  lemma CleanedIsBusy(s: State, target: string, now: int)
    requires Inv(s) && s.clock <= now && target in s.pools
    ensures var p := s.pools[target];
      (forall x :: x in p ==> x in s.conns)
      && CleanUp(s, target, now).pools[target] == if |p| <= 5 then p else p[..5] + Busy(p[5..], s.conns)
  {
    var p := s.pools[target];
    assert PoolOk(s, target, p);
    if |p| > KEPT { AliveIsBusy(p[KEPT..], s.conns, now); }
  }

  /** A second clean-up finds nothing more. */
  lemma CleanedTwice(s: State, target: string, now: int, later: int)
    requires Inv(s) && s.clock <= now <= later
    ensures CleanUp(CleanUp(s, target, now), target, later) == CleanUp(s, target, now).(clock := later)
  {
    if target in s.pools { assert PoolOk(s, target, s.pools[target]); }
    var p := PoolOf(s, target);
    if |p| > KEPT {
      var r := Alive(p[KEPT..], s.conns, now);
      assert Cleaned(p, s.conns, now)[KEPT..] == r && Cleaned(p, s.conns, now)[..KEPT] == p[..KEPT];
      NoneDead(r, s.conns, now, later);
    }
  }

  lemma {:induction false} NoneDead(r: seq<nat>, conns: map<nat, Conn>, now: int, later: int)
    requires now <= later && forall x :: x in r ==> !Dead(conns, x, now) && x in conns && conns[x].touched <= now
    ensures Alive(r, conns, later) == r
  {
    if r != [] {
      assert r[0] in r;
      NoneDead(r[1..], conns, now, later);
    }
  }

  lemma InUseCleaned(p: seq<nat>, conns: map<nat, Conn>, now: int, id: nat)
    requires id in p && id in conns && InUse(conns[id])
    ensures id in Cleaned(p, conns, now)
  {
    if |p| > KEPT {
      assert p == p[..KEPT] + p[KEPT..];
      assert id in p[KEPT..] ==> id in Alive(p[KEPT..], conns, now);
    }
  }

  /** Acquiring takes no member out that the clean-up has left. */
  lemma AcquireAdds(s: State, owner: int, at: string, now: int, target: string, id: nat)
    requires var t := CleanUp(s, at, now); target in t.pools && id in t.pools[target]
    ensures var r := Acquire(s, owner, at, now).0; target in r.pools && id in r.pools[target]
  {
    var t, r := CleanUp(s, at, now), Acquire(s, owner, at, now).0;
    assert r.pools == t.pools || r.pools == t.pools[at := t.pools[at] + [t.next]];
  }

  /** A connection in use is never taken out of its pool, whatever the step. */
  lemma InUseStays(s: State, op: Op, now: int, target: string, id: nat)
    requires Inv(s) && s.clock <= now && target in s.pools && id in s.pools[target] && InUse(s.conns[id])
    ensures var r := Step(s, op, now); target in r.pools && id in r.pools[target]
  {
    assert PoolOk(s, target, s.pools[target]);
    if op.Get? || op.Count? {
      if op.target == target { InUseCleaned(s.pools[target], s.conns, now, id); }
      var t := CleanUp(s, op.target, now);
      assert target in t.pools && id in t.pools[target];
      if op.Get? { AcquireAdds(s, op.owner, op.target, now, target, id); }
    }
  }

  // ---- stealing

  /** The order of stealing is a permutation of the pool. */
  lemma {:induction false} StealPermutes(s: seq<nat>, stolen: string)
    ensures multiset(StealOrder(s, stolen)) == multiset(s)
  {
    if s != [] {
      StealPermutes(s[1..], stolen);
      var a, b := Side(s[1..], stolen, true), Side(s[1..], stolen, false);
      assert s == [s[0]] + s[1..];
      assert multiset(a + b) == multiset(a) + multiset(b);
      assert multiset(StealOrder(s, stolen)) == multiset(Side(s, stolen, true)) + multiset(Side(s, stolen, false));
    }
  }

  /** Connections with later names are tried first. */
  lemma LaterFirst(s: seq<nat>, stolen: string, i: nat, j: nat)
    requires i < j < |StealOrder(s, stolen)| && IsLater(StealOrder(s, stolen)[j], stolen)
    ensures IsLater(StealOrder(s, stolen)[i], stolen)
  {
    var a, b := Side(s, stolen, true), Side(s, stolen, false);
    forall k | 0 <= k < |b| ensures !IsLater(b[k], stolen) {
      assert b[k] in b;
    }
    assert a[i] in a;
  }

  /** Stealing succeeds exactly if some member can be stolen. */
  lemma StealFinds(p: seq<nat>, conns: map<nat, Conn>, stolen: string)
    requires forall x :: x in p ==> x in conns
    ensures var order := StealOrder(p, stolen);
      var i := FirstStealable(order, conns);
      (i < |order| ==> order[i] in p) && (i == |order| <==> forall x :: x in p ==> !CanBeStolen(conns[x]))
  {
    var order := StealOrder(p, stolen);
    var i := FirstStealable(order, conns);
    StealPermutes(p, stolen);
    SameMembers(order, p);
    if i < |order| {
      assert order[i] in order;
    } else {
      forall x | x in p ensures !CanBeStolen(conns[x]) {
        assert x in order;
      }
    }
  }

  /** No connection is found exactly when the pool, once cleaned, is at its bound and all its members are
      in a transaction or at work; a connection found is in the pool. */
  lemma AcquireOutcome(s: State, owner: int, target: string, now: int)
    requires Inv(s) && s.clock <= now
    ensures var (r, got) := Acquire(s, owner, target, now);
      var p := CleanUp(s, target, now).pools[target];
      && (got.None? <==> p != [] && |p| >= s.max && forall x :: x in p ==> x in s.conns && !CanBeStolen(s.conns[x]))
      && (got.Some? ==> got.value in r.pools[target])
  {
    var t := CleanUp(s, target, now);
    CleanUpKeeps(s, target, now);
    assert PoolOk(t, target, t.pools[target]);
    StealFinds(t.pools[target], t.conns, t.stolen);
  }

  lemma SameMembers(s: seq<nat>, t: seq<nat>)
    requires multiset(s) == multiset(t)
    ensures forall x :: x in s <==> x in t
  {
    forall x ensures x in s <==> x in t {
      assert x in s <==> x in multiset(s);
      assert x in t <==> x in multiset(t);
    }
  }
}
