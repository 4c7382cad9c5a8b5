/** The two-level round robin of proc.c: get_group and get_ready over slot arrays with holes. */
module Scheduler {
  import opened Arithmetic
  import opened Words
  import opened Fswait

  type Priority = Byte

  const PROC_PRIORITY_HIGH: Priority := 1
  const PROC_PRIORITY_LOW: Priority := 0

  datatype Group = Group(priority: Priority, ready: Queue, pointer: nat)

  type Table = seq<Option<Group>>

  /** A cursor that goes round. */

  function After(at: nat, n: nat): nat { if at + 1 >= n then 0 else at + 1 }

  /** Steps from `from` to `to`. */
  function Gap(from: nat, to: nat, n: nat): (d: nat)
    requires from < n && to < n
    ensures d < n && (d == 0 <==> from == to)
  {
    if from <= to then to - from else to - from + n
  }

  lemma GapMod(from: nat, to: nat, n: nat)
    requires from < n && to < n
    ensures Gap(from, to, n) == (to - from) % n
  {
    if from > to {
      DivMod(to - from, n, -1, to - from + n);
    } else {
      DivMod(to - from, n, 0, to - from);
    }
  }

  lemma GapStep(from: nat, to: nat, n: nat)
    requires from < n && to < n
    ensures Gap(After(from, n), to, n) == if from == to then n - 1 else Gap(from, to, n) - 1
  {
  }

  /** The first hit among the next `steps` places from `at` on, going round. */
  function Seek(hits: seq<bool>, at: nat, steps: nat): Option<nat>
    requires at < |hits|
    decreases steps
  {
    if steps == 0 then None
    else if hits[at] then Some(at)
    else Seek(hits, After(at, |hits|), steps - 1)
  }

  /** A search finds the nearest hit. */
  lemma {:induction false} SeekNearest(hits: seq<bool>, at: nat, steps: nat, t: nat)
    requires at < |hits| && t < |hits| && hits[t] && Gap(at, t, |hits|) < steps <= |hits|
    ensures Seek(hits, at, steps).Some?
    ensures var r := Seek(hits, at, steps).value; r < |hits| && hits[r] && Gap(at, r, |hits|) <= Gap(at, t, |hits|)
    decreases steps
  {
    if !hits[at] {
      GapStep(at, t, |hits|);
      SeekNearest(hits, After(at, |hits|), steps - 1, t);
      GapStep(at, Seek(hits, at, steps).value, |hits|);
    }
  }

  lemma {:induction false} SeekNone(hits: seq<bool>, at: nat, steps: nat)
    requires at < |hits| && forall t | 0 <= t < |hits| :: !hits[t]
    ensures Seek(hits, at, steps) == None
    decreases steps
  {
    if steps > 0 {
      SeekNone(hits, After(at, |hits|), steps - 1);
    }
  }

  lemma {:induction false} SeekFound(hits: seq<bool>, at: nat, steps: nat)
    requires at < |hits| && Seek(hits, at, steps).Some?
    ensures Seek(hits, at, steps).value < |hits| && hits[Seek(hits, at, steps).value]
    decreases steps
  {
    if !hits[at] {
      SeekFound(hits, After(at, |hits|), steps - 1);
    }
  }

  predicate Matches(g: Option<Group>, prior: Priority)
  {
    g.Some? && g.value.priority == prior && g.value.ready.readyCount != 0
  }

  function Matching(groups: Table, prior: Priority): (h: seq<bool>)
    ensures |h| == |groups| && forall i | 0 <= i < |h| :: h[i] == Matches(groups[i], prior)
  {
    seq(|groups|, i requires 0 <= i < |groups| => Matches(groups[i], prior))
  }

  function Filled(queue: Slots): (h: seq<bool>)
    ensures |h| == |queue| && forall i | 0 <= i < |h| :: h[i] == queue[i].Some?
  {
    seq(|queue|, i requires 0 <= i < |queue| => queue[i].Some?)
  }

  ghost predicate GroupSound(g: Group)
  {
    && g.ready.readyCount == Occupied(g.ready.slots)
    && (if g.ready.slots == [] then g.pointer == 0 else g.pointer < |g.ready.slots|)
  }

  ghost predicate TableSound(groups: Table)
  {
    forall i {:trigger groups[i]} | 0 <= i < |groups| && groups[i].Some? :: GroupSound(groups[i].value)
  }

  lemma {:induction false} OccupiedSome(s: Slots)
    ensures Occupied(s) >= 0 && (Occupied(s) > 0 <==> exists k :: 0 <= k < |s| && s[k].Some?)
  {
    if s != [] {
      var t := s[..|s| - 1];
      assert s == t + [s[|s| - 1]];
      OccupiedSome(t);
      if k :| 0 <= k < |t| && t[k].Some? {
        assert s[k].Some?;
      }
    }
  }

  /** The group a search for priority `prior` from `at` on finds. */
  function Pick(groups: Table, at: nat, prior: Priority): Option<nat>
    requires groups != [] ==> at < |groups|
  {
    if groups == [] then None else Seek(Matching(groups, prior), at, |groups|)
  }

  lemma PickNone(groups: Table, at: nat, prior: Priority)
    requires groups != [] ==> at < |groups|
    ensures Pick(groups, at, prior) == None <==> forall i | 0 <= i < |groups| :: !Matches(groups[i], prior)
    ensures Pick(groups, at, prior).Some? ==>
      Pick(groups, at, prior).value < |groups| && Matches(groups[Pick(groups, at, prior).value], prior)
  {
    if groups != [] {
      var hits := Matching(groups, prior);
      if i :| 0 <= i < |groups| && Matches(groups[i], prior) {
        assert hits[i];
        SeekNearest(hits, at, |groups|, i);
      } else {
        assert forall i | 0 <= i < |groups| :: !hits[i];
        SeekNone(hits, at, |groups|);
      }
    }
  }

  datatype Sched = Sched(groups: Table, ptr: nat)

  ghost predicate Sound(s: Sched)
  {
    TableSound(s.groups) && (s.groups != [] ==> s.ptr < |s.groups|)
  }

  /** The group whose turn it is. */
  function Turn(s: Sched): Option<nat>
    requires s.groups != [] ==> s.ptr < |s.groups|
  {
    var high := Pick(s.groups, s.ptr, PROC_PRIORITY_HIGH);
    if high.Some? then high else Pick(s.groups, s.ptr, PROC_PRIORITY_LOW)
  }

  /** The slot whose turn it is in a group. */
  function Slot(g: Group): Option<nat>
    requires g.ready.slots != [] ==> g.pointer < |g.ready.slots|
  {
    if g.ready.slots == [] then None else Seek(Filled(g.ready.slots), g.pointer, |g.ready.slots|)
  }

  lemma SlotExists(g: Group)
    requires GroupSound(g) && g.ready.readyCount != 0
    ensures g.ready.slots != [] && g.pointer < |g.ready.slots| && Slot(g).Some? && Slot(g).value < |g.ready.slots|
    ensures g.ready.slots[Slot(g).value].Some?
  {
    OccupiedSome(g.ready.slots);
    var k :| 0 <= k < |g.ready.slots| && g.ready.slots[k].Some?;
    assert Filled(g.ready.slots)[k];
    SeekNearest(Filled(g.ready.slots), g.pointer, |g.ready.slots|, k);
  }

  lemma TurnSound(s: Sched)
    requires Sound(s) && Turn(s).Some?
    ensures Turn(s).value < |s.groups| && s.groups[Turn(s).value].Some?
    ensures var g := s.groups[Turn(s).value].value;
            && GroupSound(g) && g.ready.slots != [] && g.pointer < |g.ready.slots|
            && Slot(g).Some? && Slot(g).value < |g.ready.slots| && g.ready.slots[Slot(g).value].Some?
  {
    PickNone(s.groups, s.ptr, PROC_PRIORITY_HIGH);
    PickNone(s.groups, s.ptr, PROC_PRIORITY_LOW);
    SlotExists(s.groups[Turn(s).value].value);
  }

  /** One call of get_ready. */
  ghost function Step(s: Sched): (r: (Sched, Option<ProcId>))
    requires Sound(s)
    ensures Sound(r.0)
  {
    if Turn(s) == None then (s, None)
    else
      TurnSound(s);
      var i := Turn(s).value;
      var g := s.groups[i].value;
      var k := Slot(g).value;
      (Sched(s.groups[i := Some(g.(pointer := After(k, |g.ready.slots|)))], After(i, |s.groups|)), g.ready.slots[k])
  }

  /** The highest priority at which some group has a ready process. */
  ghost function Level(groups: Table): Priority
  {
    if exists i :: 0 <= i < |groups| && Matches(groups[i], PROC_PRIORITY_HIGH) then PROC_PRIORITY_HIGH
      else PROC_PRIORITY_LOW
  }

  /** get_ready serves a group of the highest level that has anything ready, the nearest one; it serves
      nobody only when nothing is ready at either level. */
  lemma TurnNearest(s: Sched)
    requires Sound(s)
    ensures Turn(s) == None <==>
      forall i | 0 <= i < |s.groups| && s.groups[i].Some? && s.groups[i].value.ready.readyCount != 0 ::
        s.groups[i].value.priority != 1 && s.groups[i].value.priority != 0
    ensures Turn(s).Some? ==>
      && Turn(s).value < |s.groups| && s.groups[Turn(s).value].Some?
      && var g := s.groups[Turn(s).value].value;
         && g.ready.readyCount != 0 && g.priority <= 1
         && forall i | 0 <= i < |s.groups| && s.groups[i].Some? && s.groups[i].value.ready.readyCount != 0 ::
           && (s.groups[i].value.priority == 1 ==> g.priority == 1)
           && (s.groups[i].value.priority == g.priority ==>
              (Turn(s).value - s.ptr) % |s.groups| <= (i - s.ptr) % |s.groups|)
  {
    NearestTurn(s);
    if Turn(s).Some? {
      GapMod(s.ptr, Turn(s).value, |s.groups|);
    }
    forall i | 0 <= i < |s.groups| && s.groups[i].Some? && s.groups[i].value.ready.readyCount != 0
      ensures Matches(s.groups[i], s.groups[i].value.priority) && Gap(s.ptr, i, |s.groups|) == (i - s.ptr) % |s.groups|
    {
      GapMod(s.ptr, i, |s.groups|);
    }
  }

  /** The same by the level. */
  lemma NearestTurn(s: Sched)
    requires Sound(s)
    ensures Turn(s) == None <==>
      forall i | 0 <= i < |s.groups| ::
        !Matches(s.groups[i], PROC_PRIORITY_HIGH) && !Matches(s.groups[i], PROC_PRIORITY_LOW)
    ensures Turn(s).Some? ==> Turn(s).value < |s.groups| && Matches(s.groups[Turn(s).value], Level(s.groups))
    ensures forall i | 0 <= i < |s.groups| && Matches(s.groups[i], Level(s.groups)) ::
      Turn(s).Some? && Gap(s.ptr, Turn(s).value, |s.groups|) <= Gap(s.ptr, i, |s.groups|)
  {
    PickNone(s.groups, s.ptr, PROC_PRIORITY_HIGH);
    PickNone(s.groups, s.ptr, PROC_PRIORITY_LOW);
    forall i | 0 <= i < |s.groups| && Matches(s.groups[i], Level(s.groups))
      ensures Turn(s).Some? && Gap(s.ptr, Turn(s).value, |s.groups|) <= Gap(s.ptr, i, |s.groups|)
    {
      var hits := Matching(s.groups, Level(s.groups));
      assert hits[i];
      SeekNearest(hits, s.ptr, |s.groups|, i);
    }
  }

  /** Past a nearer place, a place is nearer still. */
  lemma GapPast(from: nat, via: nat, to: nat, n: nat)
    requires from < n && via < n && to < n && via != to && Gap(from, via, n) <= Gap(from, to, n)
    ensures Gap(After(via, n), to, n) == Gap(from, to, n) - Gap(from, via, n) - 1
  {
  }

  /** How many calls, at most, come before slot `k` of group `i` is served. */
  ghost function Rank(s: Sched, i: nat, k: nat): int
    requires Sound(s) && i < |s.groups| && s.groups[i].Some? && k < |s.groups[i].value.ready.slots|
  {
    var g := s.groups[i].value;
    Gap(g.pointer, k, |g.ready.slots|) * |s.groups| + Gap(s.ptr, i, |s.groups|)
  }

  /** The groups are the same but for their cursors. */
  ghost predicate SameReady(groups: Table, groups': Table)
  {
    && |groups'| == |groups|
    && forall i {:trigger groups[i]} {:trigger groups'[i]} | 0 <= i < |groups| ::
      if groups[i].Some? then groups'[i].Some?
        && groups'[i].value == groups[i].value.(pointer := groups'[i].value.pointer)
      else groups'[i] == None
  }

  lemma StepRank(s: Sched, i: nat, k: nat)
    requires Sound(s) && i < |s.groups| && Matches(s.groups[i], Level(s.groups))
    requires k < |s.groups[i].value.ready.slots| && s.groups[i].value.ready.slots[k].Some?
    ensures SameReady(s.groups, Step(s).0.groups) && Level(Step(s).0.groups) == Level(s.groups)
    ensures Step(s).1 == s.groups[i].value.ready.slots[k] || Rank(Step(s).0, i, k) < Rank(s, i, k)
  {
    NearestTurn(s);
    TurnSound(s);
    var n, j, s' := |s.groups|, Turn(s).value, Step(s).0;
    assert forall h | 0 <= h < n ::
      Matches(s'.groups[h], PROC_PRIORITY_HIGH) == Matches(s.groups[h], PROC_PRIORITY_HIGH);
    if j != i {
      GapPast(s.ptr, j, i, n);
    } else {
      var g := s.groups[i].value;
      var h := Slot(g).value;
      assert Filled(g.ready.slots)[k];
      SeekNearest(Filled(g.ready.slots), g.pointer, |g.ready.slots|, k);
      if h != k {
        GapPast(g.pointer, h, k, |g.ready.slots|);
        RankDrops(Gap(g.pointer, k, |g.ready.slots|), Gap(s'.groups[i].value.pointer, k, |g.ready.slots|),
          Gap(s.ptr, i, n), Gap(s'.ptr, i, n), n);
      }
    }
  }

  lemma RankDrops(a: nat, a': nat, b: nat, b': nat, n: nat)
    requires a' < a && b' < n
    ensures a' * n + b' < a * n + b
  {
    assert a' * n + n == (a' + 1) * n <= a * n;
  }

  /** The process that call number `t` returns, counting from 0, when nothing becomes ready or blocks. */
  ghost function Returned(s: Sched, t: nat): Option<ProcId>
    requires Sound(s)
    decreases t
  {
    if t == 0 then Step(s).1 else Returned(Step(s).0, t - 1)
  }

  /** Group `i` of `s` is of the highest level, `p` is in its slot `k`, and at most `bound` calls come first. */
  ghost predicate Due(s: Sched, i: nat, k: nat, p: Option<ProcId>, bound: int)
  {
    && Sound(s) && i < |s.groups| && Matches(s.groups[i], Level(s.groups))
    && k < |s.groups[i].value.ready.slots| && s.groups[i].value.ready.slots[k] == p && p.Some?
    && Rank(s, i, k) <= bound
  }

  lemma StepDue(s: Sched, i: nat, k: nat, p: Option<ProcId>, bound: int)
    requires Due(s, i, k, p, bound)
    ensures bound >= 0 && (Step(s).1 == p || Due(Step(s).0, i, k, p, bound - 1))
  {
    StepRank(s, i, k);
    assert s.groups[i].Some?;
  }

  lemma {:induction false} ServedByRank(s: Sched, i: nat, k: nat, p: Option<ProcId>, bound: int) returns (t: nat)
    requires Due(s, i, k, p, bound)
    ensures t <= bound && Returned(s, t) == p
    decreases bound
  {
    StepDue(s, i, k, p, bound);
    if Step(s).1 == p {
      t := 0;
    } else {
      t := ServedByRank(Step(s).0, i, k, p, bound - 1);
      t := t + 1;
    }
  }

  /** Every ready process of the highest level is served within groups_size * queue_size calls. */
  lemma Fair(s: Sched, i: nat, k: nat) returns (t: nat)
    requires Sound(s) && i < |s.groups| && Matches(s.groups[i], Level(s.groups))
    requires k < |s.groups[i].value.ready.slots| && s.groups[i].value.ready.slots[k].Some?
    ensures t < |s.groups| * |s.groups[i].value.ready.slots| && Returned(s, t) == s.groups[i].value.ready.slots[k]
  {
    var n, m := |s.groups|, |s.groups[i].value.ready.slots|;
    RankDrops(m, Gap(s.groups[i].value.pointer, k, m), 0, Gap(s.ptr, i, n), n);
    t := ServedByRank(s, i, k, s.groups[i].value.ready.slots[k], Rank(s, i, k));
  }

  class RoundRobin {
    var groups: Table
    var groupsPtr: nat

    ghost predicate Valid()
      reads this
    {
      TableSound(groups) && (groups != [] ==> groupsPtr < |groups|)
    }

    /** get_group: a failed search has gone the whole way round, and leaves the cursor where it was. */
    method GetGroup(prior: Priority) returns (r: Option<nat>)
      requires Valid()
      modifies this`groupsPtr
      ensures Valid() && r == Pick(groups, old(groupsPtr), prior)
      ensures r.Some? ==> r.value < |groups| && Matches(groups[r.value], prior) && groupsPtr == After(r.value, |groups|)
      ensures r == None ==> groupsPtr == old(groupsPtr)
    {
      if |groups| == 0 {
        return None;
      }
      var first := groupsPtr;
      var gr: Option<Group> := None;
      r := None;
      ghost var hits := Matching(groups, prior);
      ghost var left := |groups|;
      while !Matches(gr, prior)
        invariant 0 < left <= |groups| && groupsPtr < |groups|
        invariant if left == |groups| then groupsPtr == first else Gap(groupsPtr, first, |groups|) == left
        invariant Matches(gr, prior) ==>
          && r.Some? && r.value < |groups| && gr == groups[r.value] && groupsPtr == After(r.value, |groups|)
          && Seek(hits, first, |groups|) == r
        invariant !Matches(gr, prior) ==> Seek(hits, first, |groups|) == Seek(hits, groupsPtr, left)
        decreases left
      {
        GapStep(groupsPtr, first, |groups|);
        r := Some(groupsPtr);
        gr := groups[groupsPtr];
        groupsPtr := After(groupsPtr, |groups|);
        left := left - 1;
        if first == groupsPtr {
          break;
        }
      }
      if !Matches(gr, prior) {
        r := None;
      }
    }

    /** The scan of a group's queue. */
    static method NextSlot(queue: Slots, first: nat) returns (proc: Option<ProcId>, ptr: nat)
      requires first < |queue| && exists i :: 0 <= i < |queue| && queue[i].Some?
      ensures Seek(Filled(queue), first, |queue|).Some? && Seek(Filled(queue), first, |queue|).value < |queue|
      ensures var k := Seek(Filled(queue), first, |queue|).value;
              && queue[k].Some? && proc == queue[k] && ptr == After(k, |queue|)
              && forall i | 0 <= i < |queue| && queue[i].Some? :: Gap(first, k, |queue|) <= Gap(first, i, |queue|)
    {
      ptr, proc := first, None;
      ghost var hits, left: nat, k: nat := Filled(queue), |queue|, first;
      while proc == None
        invariant 0 < left <= |queue| && ptr < |queue| && k < |queue|
        invariant if left == |queue| then ptr == first else Gap(ptr, first, |queue|) == left
        invariant proc.Some? ==> proc == queue[k] && ptr == After(k, |queue|) && Seek(hits, first, |queue|) == Some(k)
        invariant proc == None ==> Seek(hits, first, |queue|) == Seek(hits, ptr, left)
        decreases left
      {
        GapStep(ptr, first, |queue|);
        k := ptr;
        proc := queue[ptr];
        ptr := After(ptr, |queue|);
        left := left - 1;
        if ptr == first {
          break;
        }
      }
      forall i | 0 <= i < |queue| && queue[i].Some?
        ensures proc.Some? && Gap(first, k, |queue|) <= Gap(first, i, |queue|)
      {
        assert hits[i];
        SeekNearest(hits, first, |queue|, i);
      }
    }

    method GetReady() returns (proc: Option<ProcId>)
      requires Valid()
      modifies this
      ensures Valid() && (Sched(groups, groupsPtr), proc) == Step(old(Sched(groups, groupsPtr)))
    {
      ghost var s := Sched(groups, groupsPtr);
      var grp := GetGroup(PROC_PRIORITY_HIGH);
      if grp == None {
        grp := GetGroup(PROC_PRIORITY_LOW);
        if grp == None {
          return None;
        }
      }
      TurnSound(s);
      var g := groups[grp.value].value;
      assert Turn(s) == grp && GroupSound(g) && g.ready.slots[Slot(g).value].Some?;
      var ptr: nat;
      proc, ptr := NextSlot(g.ready.slots, g.pointer);
      groups := groups[grp.value := Some(g.(pointer := ptr))];
    }
  }
}
