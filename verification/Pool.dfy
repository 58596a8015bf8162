/** The connection pool (connection_pool::_get_connection, _get_opened_connection_count, and the lock and
    transaction steps of connection). */
module Pool {
  import opened Basics
  import opened PoolModel

  lemma AliveStep(p: seq<nat>, i: nat, n: nat, conns: map<nat, Conn>, now: int, cons: seq<nat>)
    requires i < |p| && n == i + 1 && cons == p[..n] + Alive(p[n..], conns, now)
    ensures i < |cons| && cons[i] == p[i]
    ensures Dead(conns, p[i], now) ==> cons[..i] + cons[i + 1..] == p[..i] + Alive(p[i..], conns, now)
    ensures !Dead(conns, p[i], now) ==> cons == p[..i] + Alive(p[i..], conns, now)
  {
    assert p[i..][1..] == p[n..];
    assert p[..n] == p[..i] + [p[i]];
    Regroup(p[..i], [p[i]], Alive(p[n..], conns, now));
  }

  /** Removes the dead connections after the first five, the last one first. */
  method EraseDead(p: seq<nat>, conns: map<nat, Conn>, now: int) returns (cons: seq<nat>)
    requires forall x :: x in p ==> x in conns
    ensures cons == Cleaned(p, conns, now)
  {
    cons := p;
    if |cons| > 4 {
      var i := |cons| - 1;
      ghost var n := |p|;
      while i > 4
        invariant 4 <= i < |p| && n == i + 1 && cons == p[..n] + Alive(p[n..], conns, now)
      {
        AliveStep(p, i, n, conns, now, cons);
        assert p[i] in p;
        if IsDead(conns[cons[i]], now) { cons := cons[..i] + cons[i + 1..]; }
        n := i;
        i := i - 1;
      }
    }
  }

  /** Lists the members whose names are later than the last one stolen, or those whose names are not. */
  method ListSide(p: seq<nat>, stolen: string, later: bool) returns (r: seq<nat>)
    ensures r == Side(p, stolen, later)
  {
    r := [];
    var i := 0;
    assert p[0..] == p;
    while i < |p|
      invariant 0 <= i <= |p| && r + Side(p[i..], stolen, later) == Side(p, stolen, later)
    {
      SideStep(p, i, stolen, later, r);
      if IsLater(p[i], stolen) == later { r := r + [p[i]]; }
      i := i + 1;
    }
  }

  lemma SideStep(p: seq<nat>, i: nat, stolen: string, later: bool, r: seq<nat>)
    requires i < |p|
    ensures r + Side(p[i..], stolen, later) ==
      (if IsLater(p[i], stolen) == later then r + [p[i]] else r) + Side(p[i + 1..], stolen, later)
  {
    assert p[i..][1..] == p[i + 1..];
  }

  /** Lists the members for stealing in two passes. */
  method ListForStealing(p: seq<nat>, stolen: string) returns (scons: seq<nat>)
    ensures scons == StealOrder(p, stolen)
  {
    scons := ListSide(p, stolen, true);
    var rest := ListSide(p, stolen, false);
    scons := scons + rest;
  }

  /** How many members are locked. */
  method CountLocked(cons: seq<nat>, conns: map<nat, Conn>) returns (count: nat)
    requires forall x :: x in cons ==> x in conns
    ensures count == LockedIn(cons, conns)
  {
    count := 0;
    var i := 0;
    assert cons[0..] == cons;
    while i < |cons|
      invariant 0 <= i <= |cons| && count + LockedIn(cons[i..], conns) == LockedIn(cons, conns)
    {
      assert cons[i..][1..] == cons[i + 1..] && cons[i] in cons;
      if conns[cons[i]].res == 1 { count := count + 1; }
      i := i + 1;
    }
  }

  /** The pool and its connections. */
  class ConnectionPool {
    const max: int
    var conns: map<nat, Conn>
    var pools: map<string, seq<nat>>
    var stolen: string
    var next: nat
    ghost var clock: int

    ghost function Get(): (s: State)
      reads this
    {
      State(max, conns, pools, stolen, next, clock)
    }

    constructor (limit: int)
      ensures max == limit && Inv(Get())
    {
      max, conns, pools, stolen, next, clock := limit, map[], map[], "", 1, 0;
    }

    /** Finds or makes the pool of the target and removes its dead connections. */
    method Clean(target: string, now: int) returns (cons: seq<nat>)
      requires Inv(Get()) && clock <= now
      modifies this`pools, this`clock
      ensures Get() == CleanUp(old(Get()), target, now) && Inv(Get()) && cons == pools[target]
    {
      CleanUpKeeps(Get(), target, now);
      if target in pools { assert PoolOk(Get(), target, pools[target]); }
      cons := EraseDead(if target in pools then pools[target] else [], conns, now);
      pools, clock := pools[target := cons], now;
    }

    /** How many connections of a pool are locked, after a clean-up. */
    method OpenedCount(target: string, now: int) returns (count: nat)
      requires Inv(Get()) && clock <= now
      modifies this`pools, this`clock
      ensures Get() == Step(old(Get()), Count(target), now) && Inv(Get())
      ensures count == LockedIn(pools[target], conns)
    {
      var cons := Clean(target, now);
      assert PoolOk(Get(), target, cons);
      count := CountLocked(cons, conns);
    }

    /** Creates a connection in the pool and locks it. */
    method Open(target: string, owner: Option<int>, now: int) returns (id: nat)
      requires target in pools && clock == now
      modifies this`conns, this`pools, this`next
      ensures Get() == Create(old(Get()), target, owner) && id == old(next)
    {
      id := next;
      conns := conns[id := Conn(1, 0, false, owner, now, target)];
      pools, next := pools[target := pools[target] + [id]], next + 1;
    }

    /** Locks the first connection that is free. */
    method Reuse(cons: seq<nat>, owner: int, now: int) returns (got: Option<nat>)
      requires forall x :: x in cons ==> x in conns
      modifies this`conns
      ensures var s, i := old(Get()), FirstFree(cons, old(conns));
        if i < |cons| then got == Some(cons[i]) && Get() == Update(s, cons[i], Locked(s.conns[cons[i]], owner, now))
        else got == None && Get() == s
    {
      var i := 0;
      while i < |cons|
        invariant 0 <= i <= |cons| && Get() == old(Get())
        invariant FirstFree(cons, conns) == i + FirstFree(cons[i..], conns)
      {
        assert cons[i..][1..] == cons[i + 1..] && cons[i] in cons;
        var c := conns[cons[i]];
        if c.res == 0 {
          conns := conns[cons[i] := Locked(c, owner, now)];
          return Some(cons[i]);
        }
        i := i + 1;
      }
      got := None;
    }

    /** Takes over the first connection that can be stolen. */
    method Steal(scons: seq<nat>, owner: int, now: int) returns (got: Option<nat>)
      requires forall x :: x in scons ==> x in conns
      modifies this`conns, this`stolen
      ensures var s, i := old(Get()), FirstStealable(scons, old(conns));
        if i < |scons| then
          got == Some(scons[i])
          && Get() == Update(s, scons[i], Stolen(s.conns[scons[i]], owner, now)).(stolen := Name(scons[i]))
        else got == None && Get() == s
    {
      var i := 0;
      while i < |scons|
        invariant 0 <= i <= |scons| && Get() == old(Get())
        invariant FirstStealable(scons, conns) == i + FirstStealable(scons[i..], conns)
      {
        assert scons[i..][1..] == scons[i + 1..] && scons[i] in scons;
        var c := conns[scons[i]];
        if CanBeStolen(c) {
          conns, stolen := conns[scons[i] := Stolen(c, owner, now)], Name(scons[i]);
          return Some(scons[i]);
        }
        i := i + 1;
      }
      got := None;
    }

    /** Tries to steal until the deadline, reading(k) being the time after try k. The deadline lies before the
        present, so one try is all there is. */
    method StealInTime(scons: seq<nat>, owner: int, timeout: int, now: int, reading: nat -> int)
      returns (got: Option<nat>, tries: nat)
      requires (forall k :: now <= reading(k)) && forall x :: x in scons ==> x in conns
      modifies this`conns, this`stolen
      ensures tries == 1
      ensures var s, i := old(Get()), FirstStealable(scons, old(conns));
        if i < |scons| then
          got == Some(scons[i])
          && Get() == Update(s, scons[i], Stolen(s.conns[scons[i]], owner, now)).(stolen := Name(scons[i]))
        else got == None && Get() == s
    {
      var deadline := now - (if timeout <= 0 then 0x7fff_ffff else timeout);
      var more := true;
      got, tries := None, 0;
      while more
        invariant Get() == old(Get()) && got == None
        invariant if more then tries == 0 else tries == 1 && FirstStealable(scons, conns) == |scons|
        decreases more
      {
        got := Steal(scons, owner, now);
        tries := tries + 1;
        if got.Some? { return; }
        more := deadline > reading(tries);
      }
    }

    /** A connection for owner, or none if the pool is full and nothing can be stolen. Before that is reported,
        the pool is cleaned again, at the time later. */
    method GetConnection(owner: int, target: string, timeout: int, now: int, reading: nat -> int, later: int)
      returns (got: Option<nat>)
      requires Inv(Get()) && clock <= now <= later && forall k :: now <= reading(k)
      modifies this
      ensures var (s, g) := Acquire(old(Get()), owner, target, now);
        got == g && Get() == if g.Some? then s else s.(clock := later)
      ensures Inv(Get())
    {
      AcquireKeeps(Get(), owner, target, now);
      CleanedTwice(Get(), target, now, later);
      var cons := Clean(target, now);
      assert PoolOk(Get(), target, cons);
      var size := |cons|;
      if size == 0 {
        var id := Open(target, Some(owner), now);
        return Some(id);
      }
      if size < max {
        got := Reuse(cons, owner, now);
        if got.Some? { return; }
        var id := Open(target, None, now);
        return Some(id);
      }
      var scons := ListForStealing(cons, stolen);
      StealPermutes(cons, stolen);
      SameMembers(scons, cons);
      var tries;
      got, tries := StealInTime(scons, owner, timeout, now, reading);
      if got.None? { var count := OpenedCount(target, later); }
    }

    /** A step of a client on its connection: release, begin, end, work or rest. */
    method Change(op: Op, now: int)
      requires Inv(Get()) && clock <= now && !op.Get? && !op.Count? && op.id in conns
      modifies this`conns, this`clock
      ensures Get() == Step(old(Get()), op, now) && Inv(Get())
    {
      StepKeeps(Get(), op, now);
      var c := conns[op.id];
      match op {
        case Release(_) =>
          c := c.(owner := None);
          if c.trans { c := c.(trans := false); }
          if c.res > 0 { c := c.(res := 0); }
          c := c.(running := 0, touched := now);
        case Begin(_) =>
          if !c.trans { c := c.(trans := true, touched := now); }
        case End(_) =>
          c := c.(touched := now);
          if c.trans { c := c.(trans := false); }
        case Work(_) =>
          if c.running == 0 || c.running == 2 { c := c.(running := 1); }
          c := c.(touched := now);
        case Rest(_) =>
          c := c.(running := 0, touched := now);
      }
      conns, clock := conns[op.id := c], now;
    }
  }
}
