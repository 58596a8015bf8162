/** What a client of the pool gets, told in the fields of the connections, and that nobody else gets it meanwhile. */
module PoolLaws {
  import opened Basics
  import opened PoolModel

  /** The members of a pool once it has been cleaned. */
  ghost function Members(s: State, target: string, now: int): (p: seq<nat>) {
    CleanUp(s, target, now).pools[target]
  }

  /** There is room in the pool, or nothing in it. */
  ghost predicate HasRoom(s: State, target: string, now: int) {
    Members(s, target, now) == [] || |Members(s, target, now)| < s.max
  }

  /** No connection but id, and no pool but that of the target, is changed. */
  ghost predicate OnlyChanged(s: State, r: State, target: string, id: nat) {
    && id in r.conns && r.conns.Keys == s.conns.Keys + {id} && (forall x :: x in s.conns && x != id ==> r.conns[x] == s.conns[x])
    && target in r.pools && forall t :: t in s.pools && t != target ==> t in r.pools && r.pools[t] == s.pools[t]
  }

  lemma MembersKnown(s: State, target: string, now: int)
    requires Inv(s) && s.clock <= now
    ensures forall x :: x in Members(s, target, now) ==> x in s.conns && s.conns[x].target == target
  {
    CleanUpKeeps(s, target, now);
    var t := CleanUp(s, target, now);
    assert PoolOk(t, target, t.pools[target]);
  }

  /** If every member is locked, or there is none, a new connection is opened and locked. */
  lemma Opened(s: State, owner: int, target: string, now: int)
    requires Inv(s) && s.clock <= now && HasRoom(s, target, now)
    requires forall x :: x in Members(s, target, now) ==> x in s.conns && s.conns[x].res != 0
    ensures var (r, got) := Acquire(s, owner, target, now);
      var p := Members(s, target, now);
      && got == Some(s.next) && s.next !in s.conns && OnlyChanged(s, r, target, s.next) && r.pools[target] == p + [s.next]
      && r.conns[s.next] == Conn(1, 0, false, if p == [] then Some(owner) else None, now, target)
  {
    var p := Members(s, target, now);
    assert forall k :: 0 <= k < |p| ==> p[k] in p;
  }

  /** Otherwise the first member that is not locked is handed out, locked and owned. */
  lemma Reused(s: State, owner: int, target: string, now: int, i: nat)
    requires Inv(s) && s.clock <= now && HasRoom(s, target, now)
    requires var p := Members(s, target, now);
      && i < |p| && p[i] in s.conns && s.conns[p[i]].res == 0
      && forall j :: 0 <= j < i ==> p[j] in s.conns && s.conns[p[j]].res != 0
    ensures var (r, got) := Acquire(s, owner, target, now);
      var p := Members(s, target, now);
      && got == Some(p[i]) && OnlyChanged(s, r, target, p[i]) && r.pools[target] == p
      && r.conns[p[i]].res == 1 && r.conns[p[i]].running == 0 && r.conns[p[i]].owner == Some(owner)
      && r.conns[p[i]].touched == now && r.conns[p[i]].trans == s.conns[p[i]].trans && r.conns[p[i]].target == target
  {
    MembersKnown(s, target, now);
    var p := Members(s, target, now);
    FirstFreeIs(p, s.conns, i);
    assert p[i] in p;
  }

  lemma FirstFreeIs(p: seq<nat>, conns: map<nat, Conn>, i: nat)
    requires i < |p| && p[i] in conns && conns[p[i]].res == 0
    requires forall j :: 0 <= j < i ==> p[j] in conns && conns[p[j]].res != 0
    ensures FirstFree(p, conns) == i
  {
    var k := FirstFree(p, conns);
    assert k < |p| ==> p[k] in conns && conns[p[k]].res == 0;
  }

  /** What is handed out while there is room was not locked, and is. */
  lemma HandedOut(s: State, owner: int, target: string, now: int) returns (id: nat)
    requires Inv(s) && s.clock <= now && HasRoom(s, target, now)
    ensures var (r, got) := Acquire(s, owner, target, now);
      && got == Some(id) && OnlyChanged(s, r, target, id) && (id in s.conns ==> s.conns[id].res == 0)
      && id in r.pools[target] && r.conns[id].res == 1 && r.conns[id].running == 0 && r.conns[id].target == target
  {
    MembersKnown(s, target, now);
    var p := Members(s, target, now);
    var i := FirstFree(p, s.conns);
    forall j | 0 <= j < i ensures p[j] in s.conns && s.conns[p[j]].res != 0 { assert p[j] in p; }
    if i < |p| {
      Reused(s, owner, target, now, i);
      id := p[i];
      assert id in p;
    } else {
      forall x | x in p ensures x in s.conns && s.conns[x].res != 0 {}
      Opened(s, owner, target, now);
      id := s.next;
      assert (p + [id])[|p|] == id;
    }
  }

  /** The candidate that is taken has a later name than the last one stolen, if any candidate has. */
  lemma TakenLater(p: seq<nat>, conns: map<nat, Conn>, stolen: string, i: nat, y: nat)
    requires i == FirstStealable(StealOrder(p, stolen), conns) && i < |StealOrder(p, stolen)|
    requires y in p && y in conns && CanBeStolen(conns[y]) && IsLater(y, stolen)
    ensures IsLater(StealOrder(p, stolen)[i], stolen)
  {
    var order := StealOrder(p, stolen);
    StealPermutes(p, stolen);
    SameMembers(order, p);
    var j :| 0 <= j < |order| && order[j] == y;
    if i < j { LaterFirst(p, stolen, i, j); }
  }

  /** In a full pool nothing is changed if every member works, is reserved or is in a transaction. */
  lemma NoneTaken(s: State, owner: int, target: string, now: int)
    requires Inv(s) && s.clock <= now && !HasRoom(s, target, now)
    ensures var (r, got) := Acquire(s, owner, target, now);
      var p := Members(s, target, now);
      && (got.None? <==> forall x :: x in p ==> x in s.conns && (s.conns[x].trans || s.conns[x].running != 0))
      && r.pools == s.pools[target := p] && (got.None? ==> r.conns == s.conns && r.stolen == s.stolen)
  {
    MembersKnown(s, target, now);
    StealFinds(Members(s, target, now), s.conns, s.stolen);
  }

  /** Otherwise a member that neither works nor is in a transaction is taken over, and reserved for its new owner. */
  lemma TakenOver(s: State, owner: int, target: string, now: int, id: nat)
    requires Inv(s) && s.clock <= now && !HasRoom(s, target, now) && Acquire(s, owner, target, now).1 == Some(id)
    ensures var r := Acquire(s, owner, target, now).0;
      && id in Members(s, target, now) && id in s.conns && !s.conns[id].trans && s.conns[id].running == 0
      && OnlyChanged(s, r, target, id) && r.stolen == Name(id)
      && r.conns[id] == Conn(s.conns[id].res, 2, false, Some(owner), now, target)
  {
    MembersKnown(s, target, now);
    StealFinds(Members(s, target, now), s.conns, s.stolen);
  }

  /** It is one with a later name than the last one stolen, if there is such a one. */
  lemma TakenInTurn(s: State, owner: int, target: string, now: int, y: nat)
    requires Inv(s) && s.clock <= now && !HasRoom(s, target, now) && y in Members(s, target, now) && y in s.conns
    requires !s.conns[y].trans && s.conns[y].running == 0 && NameLess(s.stolen, Name(y))
    ensures var got := Acquire(s, owner, target, now).1; got.Some? && NameLess(s.stolen, Name(got.value))
  {
    MembersKnown(s, target, now);
    var p := Members(s, target, now);
    StealFinds(p, s.conns, s.stolen);
    var i := FirstStealable(StealOrder(p, s.stolen), s.conns);
    TakenLater(p, s.conns, s.stolen, i, y);
  }

  // ---- nobody else gets a connection that is locked

  /** A locked connection stays locked through every step but its release. */
  lemma StepLocked(s: State, op: Op, now: int, id: nat)
    requires Inv(s) && s.clock <= now && id in s.conns && s.conns[id].res == 1 && op != Release(id)
    ensures var r := Step(s, op, now); id in r.conns && r.conns[id].res == 1
  {
    if op.Get? {
      if HasRoom(s, op.target, now) {
        var got := HandedOut(s, op.owner, op.target, now);
      } else {
        var got := Acquire(s, op.owner, op.target, now).1;
        NoneTaken(s, op.owner, op.target, now);
        if got.Some? { TakenOver(s, op.owner, op.target, now, got.value); }
      }
    }
  }

  lemma {:induction false} StaysLocked(s: State, steps: seq<(Op, int)>, id: nat)
    requires Inv(s) && Timed(s.clock, steps) && id in s.conns && s.conns[id].res == 1
    requires forall i :: 0 <= i < |steps| ==> steps[i].0 != Release(id)
    ensures var r := Run(s, steps); Inv(r) && id in r.conns && r.conns[id].res == 1
    decreases |steps|
  {
    if steps != [] {
      StepLocked(s, steps[0].0, steps[0].1, id);
      StepKeeps(s, steps[0].0, steps[0].1);
      StaysLocked(Step(s, steps[0].0, steps[0].1), steps[1..], id);
    }
  }

  /** A connection that was handed out while there was room is not handed out again, while there is room, before it is
      released, whatever steps lie between. */
  lemma HandedOutOnce(s: State, owner: int, target: string, now: int, steps: seq<(Op, int)>,
                      other: int, where: string, later: int)
    requires Inv(s) && s.clock <= now && HasRoom(s, target, now)
    requires var (r, got) := Acquire(s, owner, target, now);
      && Timed(r.clock, steps) && got.Some? && (forall i :: 0 <= i < |steps| ==> steps[i].0 != Release(got.value))
      && Run(r, steps).clock <= later && HasRoom(Run(r, steps), where, later)
    ensures var (r, got) := Acquire(s, owner, target, now);
      Acquire(Run(r, steps), other, where, later).1 != got
  {
    var id := HandedOut(s, owner, target, now);
    var r := Acquire(s, owner, target, now).0;
    AcquireKeeps(s, owner, target, now);
    StaysLocked(r, steps, id);
    var again := HandedOut(Run(r, steps), other, where, later);
  }

  // ---- the other steps

  /** What the steps of a client do to its connection, and that they change no other and no pool. */
  lemma StepEffect(s: State, op: Op, now: int)
    requires Inv(s) && s.clock <= now && !op.Get? && !op.Count? && op.id in s.conns
    ensures var r, c := Step(s, op, now), s.conns[op.id];
      && r.pools == s.pools && r.conns.Keys == s.conns.Keys && (forall x :: x in s.conns && x != op.id ==> r.conns[x] == s.conns[x])
      && var d := r.conns[op.id];
      && d.target == c.target
      && (op.Release? ==> d.res == 0 && d.running == 0 && !d.trans && d.owner == None && !InUse(d))
      && (!op.Release? ==> d.res == c.res && d.owner == c.owner)
      && (op.Begin? ==> d.trans && InUse(d) && d.running == c.running)
      && (op.End? ==> !d.trans && d.running == c.running)
      && (op.Work? ==> d.running == 1 && d.trans == c.trans)
      && (op.Rest? ==> d.running == 0 && d.trans == c.trans)
  {
  }

  /** A connection that works, is reserved or is in a transaction cannot be stolen; at rest it can. */
  lemma Stealable(c: Conn)
    requires InRange(c)
    ensures CanBeStolen(c) <==> c.running != 1 && c.running != 2 && !c.trans
    ensures InUse(c) <==> c.trans || c.res == 1
  {
  }

  // ---- names and counts

  /** s and t agree before k, and there s ends or has the lower character. */
  ghost predicate Differ(s: string, t: string, k: nat) {
    k <= |s| && k < |t| && s[..k] == t[..k] && (k < |s| ==> s[k] < t[k])
  }

  lemma {:induction false} LessFrom(s: string, t: string, k: nat)
    requires Differ(s, t, k)
    ensures NameLess(s, t)
    decreases k
  {
    if k > 0 {
      var u, v := s[1..], t[1..];
      assert s[0] == s[..k][0] == t[..k][0] == t[0];
      assert u[..k - 1] == s[..k][1..] && v[..k - 1] == t[..k][1..];
      LessFrom(u, v, k - 1);
    }
  }

  lemma {:induction false} LessAt(s: string, t: string) returns (k: nat)
    requires NameLess(s, t)
    ensures Differ(s, t, k)
    decreases |s|
  {
    k := 0;
    if s != [] && s[0] == t[0] {
      k := LessAt(s[1..], t[1..]);
      assert s[..k + 1] == [s[0]] + s[1..][..k] && t[..k + 1] == [t[0]] + t[1..][..k];
      k := k + 1;
    }
  }

  /** Names are in the order of a dictionary. */
  lemma NameOrder(s: string, t: string)
    ensures NameLess(s, t) <==> exists k :: 0 <= k && Differ(s, t, k)
  {
    if NameLess(s, t) {
      var k := LessAt(s, t);
    }
    forall k | 0 <= k && Differ(s, t, k) ensures NameLess(s, t) {
      LessFrom(s, t, k);
    }
  }

  ghost function LockedMembers(p: seq<nat>, conns: map<nat, Conn>): (m: set<nat>) {
    set x | x in p && x in conns && conns[x].res == 1
  }

  lemma LockedStep(p: seq<nat>, conns: map<nat, Conn>)
    requires p != [] && p[0] !in p[1..]
    ensures |LockedMembers(p, conns)| ==
      |LockedMembers(p[1..], conns)| + if p[0] in conns && conns[p[0]].res == 1 then 1 else 0
  {
    var rest := LockedMembers(p[1..], conns);
    assert p == [p[0]] + p[1..];
    assert LockedMembers(p, conns) == rest + if p[0] in conns && conns[p[0]].res == 1 then {p[0]} else {};
  }

  /** The count is the number of members that are locked. */
  lemma {:induction false} LockedCount(p: seq<nat>, conns: map<nat, Conn>)
    requires Distinct(p)
    ensures LockedIn(p, conns) == |LockedMembers(p, conns)|
  {
    if p != [] {
      LockedStep(p, conns);
      LockedCount(p[1..], conns);
    } else {
      assert LockedMembers(p, conns) == {};
    }
  }
}
