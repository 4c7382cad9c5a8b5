/** Serialization of ACPI control methods (dsmethod.c): threads begin and end executions of methods in any
    interleaving; a thread's own executions nest. */
module AcpiMethods {
  import opened Words

  type Tid = x: int | 0 < x witness 1 // an OS thread id; 0 in a mutex means nobody
  type MethodId = nat

  const UINT8_MAX: nat := 255

  datatype Mutex = Mutex(syncLevel: nat, original: nat, threadId: nat, depth: nat, held: bool)

  /** `serialized`, `ignoreLevel` and `pending` are bits of InfoFlags; `held` above is the OS mutex. */
  datatype Method = Method(serialized: bool, ignoreLevel: bool, pending: bool, syncLevel: nat, mutex: Option<Mutex>,
                           threadCount: nat, ownerId: nat)

  /** One active execution: the thread's sync level when it was called and after its start; `top` for one
      that was not called from another method, whose thread state starts at its own sync level. */
  datatype Frame = Frame(id: MethodId, before: nat, after: nat, top: bool)

  /** The executions of the threads that are evaluating anything; only they have a thread state, and with
      it a sync level. */
  type Stacks = map<Tid, seq<Frame>>
  type Methods = map<MethodId, Method>
  type Levels = map<Tid, nat>

  datatype Status = Ok | MethodLimit | MutexOrder | Blocks

  /** The active executions of a method, as positions in the threads' stacks. */
  ghost function Active(stacks: Stacks, m: MethodId): set<(Tid, nat)>
  {
    set t, i | t in stacks && 0 <= i < |stacks[t]| && stacks[t][i].id == m :: (t, i)
  }

  /** Thread `t` executes method `id`. */
  ghost predicate Holds(stacks: Stacks, t: Tid, id: MethodId)
  {
    t in stacks && exists i :: 0 <= i < |stacks[t]| && stacks[t][i].id == id
  }

  ghost predicate MutexSound(x: Mutex, m: Method, active: set<(Tid, nat)>)
  {
    && x.syncLevel == m.syncLevel && x.depth == m.threadCount
    && (x.held <==> x.depth > 0) && (x.threadId != 0 <==> x.depth > 0)
    && (forall p | p in active :: p.0 == x.threadId)
  }

  ghost predicate MethodSound(m: Method, active: set<(Tid, nat)>)
  {
    && m.threadCount == |active| <= UINT8_MAX
    && (m.ownerId != 0 <==> m.threadCount > 0)
    && (m.pending ==> !m.serialized)
    && match m.mutex
       case Some(x) => m.serialized && MutexSound(x, m, active)
       case None => m.serialized ==> m.threadCount == 0
  }

  /** No earlier execution of the same method on the stack. */
  ghost predicate Outermost(s: seq<Frame>, i: nat)
    requires i < |s|
  {
    forall j | 0 <= j < i :: s[j].id != s[i].id
  }

  /** How the sync level moved when execution `i` started, and what its mutex remembers. */
  ghost predicate FrameSound(methods: Methods, s: seq<Frame>, i: nat)
    requires i < |s|
  {
    var f := s[i];
    && f.id in methods && (f.top <==> i == 0)
    && var m := methods[f.id];
    && f.before == (if f.top then m.syncLevel else s[i - 1].after)
    && (m.mutex.Some? && Outermost(s, i) ==> m.mutex.value.original == f.before)
    && if m.mutex.Some? && Outermost(s, i) && !m.ignoreLevel then f.before <= f.after == m.syncLevel
       else f.after == f.before
  }

  ghost predicate StackSound(methods: Methods, s: seq<Frame>, level: nat)
  {
    && (forall i: nat {:trigger FrameSound(methods, s, i)} | i < |s| :: FrameSound(methods, s, i))
    && s != [] && level == s[|s| - 1].after
  }

  ghost predicate Sound(methods: Methods, stacks: Stacks, levels: Levels)
  {
    && levels.Keys == stacks.Keys
    && (forall m {:trigger MethodSound(methods[m], Active(stacks, m))} | m in methods ::
       MethodSound(methods[m], Active(stacks, m)))
    && (forall t {:trigger StackSound(methods, stacks[t], levels[t])} | t in stacks ::
       StackSound(methods, stacks[t], levels[t]))
  }

  function WithMutex(m: Method): Method
  {
    if m.serialized && m.mutex == None then m.(mutex := Some(Mutex(m.syncLevel, 0, 0, 0, false))) else m
  }

  function StackOf(stacks: Stacks, t: Tid): seq<Frame>
  {
    if t in stacks then stacks[t] else []
  }

  function Push(stacks: Stacks, t: Tid, f: Frame): Stacks
  {
    stacks[t := StackOf(stacks, t) + [f]]
  }

  /** The thread state goes with the last execution. */
  function Pop(stacks: Stacks, t: Tid): Stacks
    requires t in stacks && stacks[t] != []
  {
    if |stacks[t]| == 1 then stacks - {t} else stacks[t := stacks[t][..|stacks[t]| - 1]]
  }

  /** The sync level a call of method `m` by thread `t` starts from: for a top-level one the level that its
      new thread state is given, the method's own. */
  function EntryLevel(m: Method, levels: Levels, t: Tid): nat
  {
    if t in levels then levels[t] else m.syncLevel
  }

  function SetLevel(levels: Levels, stacks: Stacks, t: Tid, level: nat): Levels
  {
    if t in stacks then levels[t := level] else levels - {t}
  }

  lemma ActivePush(stacks: Stacks, t: Tid, f: Frame, m: MethodId)
    ensures Active(Push(stacks, t, f), m) ==
      if f.id == m then Active(stacks, m) + {(t, |StackOf(stacks, t)|)} else Active(stacks, m)
  {
  }

  lemma ActivePop(stacks: Stacks, t: Tid, m: MethodId)
    requires t in stacks && stacks[t] != []
    ensures Active(Pop(stacks, t), m) == Active(stacks, m) - {(t, |stacks[t]| - 1)}
    ensures stacks[t][|stacks[t]| - 1].id == m <==> (t, |stacks[t]| - 1) in Active(stacks, m)
  {
  }

  /** A method object may get its mutex, or its pending bit, while everything goes on. */
  lemma MethodChanged(methods: Methods, stacks: Stacks, levels: Levels, id: MethodId, m: Method)
    requires Sound(methods, stacks, levels) && id in methods
    requires MethodSound(m, Active(stacks, id))
    requires m.threadCount > 0 ==> m == methods[id].(pending := m.pending)
    ensures Sound(methods[id := m], stacks, levels)
  {
    var methods' := methods[id := m];
    forall t | t in stacks
      ensures StackSound(methods', stacks[t], levels[t])
    {
      var s := stacks[t];
      assert StackSound(methods, s, levels[t]);
      forall i: nat | i < |s|
        ensures FrameSound(methods', s, i)
      {
        assert FrameSound(methods, s, i);
        if s[i].id == id {
          assert (t, i) in Active(stacks, id);
          assert m.threadCount > 0;
        }
      }
    }
    forall n | n in methods'
      ensures MethodSound(methods'[n], Active(stacks, n))
    {
      assert n != id ==> MethodSound(methods[n], Active(stacks, n));
    }
  }

  /** The test before the method mutex: is it to be waited for? */
  predicate Waits(x: Mutex, t: Tid, top: bool) { top || x.threadId == 0 || t != x.threadId }

  /** What becomes of a call, once the method has its mutex. */
  function Outcome(m: Method, t: Tid, level: nat, top: bool): Status
    requires m.serialized ==> m.mutex.Some?
  {
    if m.threadCount == UINT8_MAX then MethodLimit
    else if !m.serialized then Ok
    else if !top && !m.ignoreLevel && level > m.mutex.value.syncLevel then MutexOrder
    else if Waits(m.mutex.value, t, top) && m.mutex.value.held then Blocks
    else Ok
  }

  /** Some other thread than `t` executes method `id`. */
  ghost predicate HeldByOther(stacks: Stacks, t: Tid, id: MethodId)
  {
    exists u {:trigger Holds(stacks, u, id)} :: u != t && Holds(stacks, u, id)
  }

  lemma HeldByOtherActive(stacks: Stacks, t: Tid, id: MethodId)
    ensures HeldByOther(stacks, t, id) <==> exists p :: p in Active(stacks, id) && p.0 != t
  {
    if HeldByOther(stacks, t, id) {
      var u: Tid :| u != t && Holds(stacks, u, id);
      var i: nat :| i < |stacks[u]| && stacks[u][i].id == id;
      assert (u, i) in Active(stacks, id);
    }
    if p :| p in Active(stacks, id) && p.0 != t {
      assert Holds(stacks, p.0, id);
    }
  }

  /** What a call gets, by who executes the method: the limit counts its executions; a call from another method
      must not come down in sync level, unless the method ignores levels; and a serialized method is waited for
      exactly while another thread executes it, so that a thread never waits for itself. */
  lemma BeginOutcome(methods: Methods, stacks: Stacks, levels: Levels, id: MethodId, t: Tid)
    requires Sound(methods, stacks, levels) && id in methods
    ensures var m := methods[id];
            var status := Outcome(WithMutex(m), t, EntryLevel(m, levels, t), t !in stacks);
            && (status == MethodLimit <==> |Active(stacks, id)| == 255)
            && (status == MutexOrder <==> |Active(stacks, id)| != 255 && m.serialized && t in stacks && !m.ignoreLevel
                                          && levels[t] > m.syncLevel)
            && (status == Blocks <==> |Active(stacks, id)| != 255 && m.serialized && HeldByOther(stacks, t, id)
                                      && !(t in stacks && !m.ignoreLevel && levels[t] > m.syncLevel))
  {
    var m, active := methods[id], Active(stacks, id);
    assert MethodSound(m, active);
    HeldByOtherActive(stacks, t, id);
    if m.mutex.Some? && m.mutex.value.held {
      var p :| p in active;
      assert p.0 == m.mutex.value.threadId && p.0 in stacks;
    } else if m.serialized {
      assert active == {};
    }
  }

  /** A thread that executes a serialized method never waits for it. */
  lemma RecursionNeverWaits(methods: Methods, stacks: Stacks, levels: Levels, id: MethodId, t: Tid)
    requires Sound(methods, stacks, levels) && id in methods && Holds(stacks, t, id)
    requires |Active(stacks, id)| < 255 && (methods[id].ignoreLevel || levels[t] <= methods[id].syncLevel)
    ensures Outcome(WithMutex(methods[id]), t, EntryLevel(methods[id], levels, t), t !in stacks) == Ok
  {
    BeginOutcome(methods, stacks, levels, id, t);
    HeldByOtherActive(stacks, t, id);
    var i: nat :| i < |stacks[t]| && stacks[t][i].id == id;
    assert (t, i) in Active(stacks, id);
    assert MethodSound(methods[id], Active(stacks, id));
  }

  function Entered(m: Method, t: Tid, level: nat, top: bool, owner: nat): Method
    requires m.serialized ==> m.mutex.Some?
  {
    var m1 :=
      if !m.serialized then m
      else
        var x := m.mutex.value;
        var x1 := if Waits(x, t, top)
          then x.(held := true, original := if top then x.syncLevel else level, threadId := t) else x;
        m.(mutex := Some(x1.(depth := x1.depth + 1)));
    m1.(threadCount := m1.threadCount + 1, ownerId := if m1.ownerId == 0 then owner else m1.ownerId)
  }

  function LevelIn(m: Method, t: Tid, level: nat, top: bool): nat
    requires m.serialized ==> m.mutex.Some?
  {
    if top then m.syncLevel
    else if m.serialized && Waits(m.mutex.value, t, top) && !m.ignoreLevel then m.syncLevel
    else level
  }

  lemma EnteredSound(m: Method, active: set<(Tid, nat)>, t: Tid, i: nat, level: nat, top: bool, owner: nat)
    requires MethodSound(m, active) && (m.serialized ==> m.mutex.Some?) && Outcome(m, t, level, top) == Ok
    requires owner > 0 && (t, i) !in active && (top ==> forall p | p in active :: p.0 != t)
    ensures MethodSound(Entered(m, t, level, top, owner), active + {(t, i)})
  {
    if m.serialized && m.mutex.value.depth == 0 {
      assert active == {};
    }
  }

  /** The frame of a call by thread `t`. */
  function NewFrame(m: Method, id: MethodId, stacks: Stacks, levels: Levels, t: Tid): Frame
    requires m.serialized ==> m.mutex.Some?
  {
    Frame(id, EntryLevel(m, levels, t), LevelIn(m, t, EntryLevel(m, levels, t), t !in stacks), t !in stacks)
  }

  /** What a call makes of the method and of the thread's level, by the executions `n` there are already: the first
      one takes the mutex, remembers the level it came from and gets the owner id; the others only count. */
  lemma BeginEffect(methods: Methods, stacks: Stacks, levels: Levels, id: MethodId, t: Tid, owner: nat)
    requires Sound(methods, stacks, levels) && id in methods
    requires Outcome(WithMutex(methods[id]), t, EntryLevel(methods[id], levels, t), t !in stacks) == Ok
    ensures var m, n, from := methods[id], |Active(stacks, id)|, EntryLevel(methods[id], levels, t);
            && from == (if t in stacks then levels[t] else m.syncLevel)
            && Entered(WithMutex(m), t, from, t !in stacks, owner) ==
               m.(threadCount := n + 1, ownerId := if n == 0 then owner else m.ownerId,
                  mutex := if !m.serialized then None
                           else Some(Mutex(m.syncLevel, if n == 0 || m.mutex == None then from
                             else m.mutex.value.original,
                                  t, n + 1, true)))
            && LevelIn(WithMutex(m), t, from, t !in stacks) ==
               if m.serialized && !m.ignoreLevel && n == 0 then m.syncLevel else from
  {
    var m, active := methods[id], Active(stacks, id);
    assert MethodSound(m, active);
    BeginOutcome(methods, stacks, levels, id, t);
    HeldByOtherActive(stacks, t, id);
    if |active| > 0 {
      var p :| p in active;
      assert m.serialized ==> p.0 == t;
    }
  }

  lemma BeginSound(methods: Methods, stacks: Stacks, levels: Levels, id: MethodId, t: Tid, owner: nat)
    requires Sound(methods, stacks, levels) && id in methods && owner > 0 && methods[id] == WithMutex(methods[id])
    requires Outcome(methods[id], t, EntryLevel(methods[id], levels, t), t !in stacks) == Ok
    ensures var m := methods[id];
            var f := NewFrame(m, id, stacks, levels, t);
            Sound(methods[id := Entered(m, t, f.before, f.top, owner)], Push(stacks, t, f), levels[t := f.after])
  {
    var m, f := methods[id], NewFrame(methods[id], id, stacks, levels, t);
    var methods', stacks' := methods[id := Entered(m, t, f.before, f.top, owner)], Push(stacks, t, f);
    var levels' := levels[t := f.after];
    forall n | n in methods'
      ensures MethodSound(methods'[n], Active(stacks', n))
    {
      assert MethodSound(methods[n], Active(stacks, n));
      ActivePush(stacks, t, f, n);
      if n == id {
        EnteredSound(m, Active(stacks, id), t, |StackOf(stacks, t)|, f.before, f.top, owner);
      }
    }
    forall u | u in stacks'
      ensures StackSound(methods', stacks'[u], levels'[u])
    {
      assert u in stacks ==> StackSound(methods, stacks[u], levels[u]);
      forall i: nat | i < |stacks'[u]|
        ensures FrameSound(methods', stacks'[u], i)
      {
        PushedFrame(methods, stacks, levels, id, t, owner, u, i);
      }
    }
  }

  lemma OutermostPrefix(s: seq<Frame>, s': seq<Frame>, i: nat)
    requires i < |s| <= |s'| && s'[..|s|] == s
    ensures s'[i] == s[i] && (Outermost(s, i) <==> Outermost(s', i))
  {
    assert forall j | 0 <= j <= i :: s'[j] == s'[..|s|][j];
    if !Outermost(s, i) {
      var j :| 0 <= j < i && s[j].id == s[i].id;
      assert s'[j].id == s'[i].id;
    }
  }

  lemma PushedFrame(methods: Methods, stacks: Stacks, levels: Levels, id: MethodId, t: Tid, owner: nat, u: Tid, i: nat)
    requires Sound(methods, stacks, levels) && id in methods && methods[id] == WithMutex(methods[id])
    requires Outcome(methods[id], t, EntryLevel(methods[id], levels, t), t !in stacks) == Ok
    requires var f := NewFrame(methods[id], id, stacks, levels, t); i < |StackOf(Push(stacks, t, f), u)|
    ensures var m := methods[id];
            var f := NewFrame(m, id, stacks, levels, t);
            FrameSound(methods[id := Entered(m, t, f.before, f.top, owner)], StackOf(Push(stacks, t, f), u), i)
  {
    var m, s := methods[id], StackOf(stacks, u);
    var f := NewFrame(m, id, stacks, levels, t);
    var s' := StackOf(Push(stacks, t, f), u);
    assert MethodSound(m, Active(stacks, id));
    assert u in stacks ==> StackSound(methods, s, levels[u]);
    assert t in stacks ==> StackSound(methods, stacks[t], levels[t]);
    if i < |s| {
      assert FrameSound(methods, s, i);
      OutermostPrefix(s, s', i);
      if s[i].id == id {
        assert (u, i) in Active(stacks, id);
      }
    } else if !f.top && m.serialized && !Waits(m.mutex.value, t, f.top) {
      var p :| p in Active(stacks, id);
      assert p.0 == t && s'[p.1] == s[p.1] && s'[p.1].id == s'[i].id;
      assert !Outermost(s', i);
    }
  }

  /** The method once one execution has ended. */
  function Left(m: Method): Method
    requires m.threadCount > 0
  {
    var m1 :=
      match m.mutex
      case None => m
      case Some(x) =>
        var d := if x.depth == 0 then 0 else x.depth - 1;
        m.(mutex := Some(if d == 0 then x.(depth := d, held := false, threadId := 0) else x.(depth := d)));
    var n := m1.threadCount - 1;
    if n > 0 then m1.(threadCount := n)
    else if m1.pending then
      m1.(threadCount := n, ownerId := 0, pending := false, serialized := true, ignoreLevel := true, syncLevel := 0)
    else m1.(threadCount := n, ownerId := 0)
  }

  /** What a return makes of the method, by the executions `n` there are: the last one frees the mutex and the owner
      id, and makes a pending method serialized, at sync level 0, which is then ignored. */
  lemma EndEffect(m: Method, active: set<(Tid, nat)>)
    requires MethodSound(m, active) && active != {}
    ensures m.threadCount > 0
    ensures var n := |active|;
            Left(m) ==
              if n > 1 then
                m.(threadCount := n - 1,
                   mutex := if m.mutex == None then None else Some(m.mutex.value.(depth := n - 1)))
              else if m.pending then
                m.(threadCount := 0, ownerId := 0, pending := false, serialized := true, ignoreLevel :=
                  true, syncLevel := 0)
              else
                m.(threadCount := 0, ownerId := 0,
                   mutex := if m.mutex == None then None
                            else Some(m.mutex.value.(depth := 0, held := false, threadId := 0)))
  {
    if |active| == 0 {
      assert false;
    }
  }

  function LevelOut(m: Method, level: nat): nat
  {
    match m.mutex
    case None => level
    case Some(x) => if x.depth == 1 then x.original else level
  }

  lemma LeftSound(m: Method, active: set<(Tid, nat)>, p: (Tid, nat))
    requires MethodSound(m, active) && p in active
    ensures m.threadCount > 0 && MethodSound(Left(m), active - {p})
    ensures m.threadCount == 1 ==> active == {p}
  {
    assert |active - {p}| == |active| - 1;
    if |active| == 1 {
      assert active - {p} == {};
    }
  }

  /** The mutex counts one execution exactly if the thread's last one has none of the same method below it. */
  lemma LastIsOutermost(stacks: Stacks, t: Tid, m: Method)
    requires t in stacks && stacks[t] != [] && m.mutex.Some?
    requires MethodSound(m, Active(stacks, stacks[t][|stacks[t]| - 1].id))
    ensures m.mutex.value.depth == 1 <==> Outermost(stacks[t], |stacks[t]| - 1)
  {
    var s, k := stacks[t], |stacks[t]| - 1;
    var active := Active(stacks, s[k].id);
    assert (t, k) in active;
    if m.mutex.value.depth == 1 {
      LeftSound(m, active, (t, k));
      forall j | 0 <= j < k
        ensures s[j].id != s[k].id
      {
        assert s[j].id == s[k].id ==> (t, j) in active;
      }
    } else {
      assert |active - {(t, k)}| == |active| - 1;
      var p :| p in active - {(t, k)};
      assert p.0 == t && s[p.1].id == s[k].id;
    }
  }

  /** Every return puts the thread's sync level back to what it was when the execution was called; after a
      top-level one that is the level its thread state was created with. */
  lemma LevelRestored(methods: Methods, stacks: Stacks, levels: Levels, t: Tid)
    requires Sound(methods, stacks, levels) && t in stacks
    ensures stacks[t] != []
    ensures var s := stacks[t];
            var f := s[|s| - 1];
            && f.id in methods && LevelOut(methods[f.id], levels[t]) == f.before
            && f.before == if |s| == 1 then methods[f.id].syncLevel else s[|s| - 2].after
  {
    var s := stacks[t];
    assert StackSound(methods, s, levels[t]);
    var k := |s| - 1;
    assert FrameSound(methods, s, k);
    var m := methods[s[k].id];
    assert MethodSound(m, Active(stacks, s[k].id));
    if m.mutex.Some? {
      LastIsOutermost(stacks, t, m);
    }
  }

  lemma PoppedFrame(methods: Methods, stacks: Stacks, levels: Levels, t: Tid, u: Tid, i: nat)
    requires Sound(methods, stacks, levels) && t in stacks && stacks[t] != [] && u in stacks
    requires i < |stacks[u]| && (u == t ==> i < |stacks[t]| - 1)
    ensures var id := stacks[t][|stacks[t]| - 1].id;
            && id in methods && methods[id].threadCount > 0
            && FrameSound(methods[id := Left(methods[id])], if u == t then stacks[t][..|stacks[t]| - 1]
               else stacks[u], i)
  {
    var k := |stacks[t]| - 1;
    var id := stacks[t][k].id;
    assert StackSound(methods, stacks[t], levels[t]) && FrameSound(methods, stacks[t], k);
    assert StackSound(methods, stacks[u], levels[u]) && FrameSound(methods, stacks[u], i);
    assert MethodSound(methods[id], Active(stacks, id)) && (t, k) in Active(stacks, id);
    LeftSound(methods[id], Active(stacks, id), (t, k));
    if u == t {
      OutermostPrefix(stacks[t][..k], stacks[t], i);
    }
    if stacks[u][i].id == id {
      assert (u, i) in Active(stacks, id) && (u, i) != (t, k);
    }
  }

  lemma PoppedMethod(methods: Methods, stacks: Stacks, levels: Levels, t: Tid, n: MethodId)
    requires Sound(methods, stacks, levels) && t in stacks && stacks[t] != [] && n in methods
    ensures var id := stacks[t][|stacks[t]| - 1].id;
            && id in methods && methods[id].threadCount > 0
            && MethodSound(if n == id then Left(methods[id]) else methods[n], Active(Pop(stacks, t), n))
  {
    var k := |stacks[t]| - 1;
    var id := stacks[t][k].id;
    assert StackSound(methods, stacks[t], levels[t]) && FrameSound(methods, stacks[t], k);
    assert MethodSound(methods[id], Active(stacks, id)) && (t, k) in Active(stacks, id);
    LeftSound(methods[id], Active(stacks, id), (t, k));
    assert MethodSound(methods[n], Active(stacks, n));
    ActivePop(stacks, t, n);
    assert n != id ==> Active(Pop(stacks, t), n) == Active(stacks, n);
  }

  lemma PoppedStack(methods: Methods, stacks: Stacks, levels: Levels, t: Tid, u: Tid)
    requires Sound(methods, stacks, levels) && t in stacks && stacks[t] != [] && u in Pop(stacks, t)
    ensures var id := stacks[t][|stacks[t]| - 1].id;
            && id in methods && methods[id].threadCount > 0
            && StackSound(methods[id := Left(methods[id])], Pop(stacks, t)[u],
                          if u == t then LevelOut(methods[id], levels[t]) else levels[u])
  {
    assert StackSound(methods, stacks[u], levels[u]);
    var id, s := stacks[t][|stacks[t]| - 1].id, Pop(stacks, t)[u];
    LevelRestored(methods, stacks, levels, t);
    PoppedMethod(methods, stacks, levels, t, id);
    var methods' := methods[id := Left(methods[id])];
    forall i: nat | i < |s|
      ensures FrameSound(methods', s, i)
    {
      PoppedFrame(methods, stacks, levels, t, u, i);
    }
  }

  lemma EndSound(methods: Methods, stacks: Stacks, levels: Levels, t: Tid)
    requires Sound(methods, stacks, levels) && t in stacks && stacks[t] != []
    ensures var id := stacks[t][|stacks[t]| - 1].id;
            && id in methods && methods[id].threadCount > 0
            && Sound(methods[id := Left(methods[id])], Pop(stacks, t),
                     SetLevel(levels, Pop(stacks, t), t, LevelOut(methods[id], levels[t])))
  {
    var id := stacks[t][|stacks[t]| - 1].id;
    LevelRestored(methods, stacks, levels, t);
    PoppedMethod(methods, stacks, levels, t, id);
    var methods', stacks' := methods[id := Left(methods[id])], Pop(stacks, t);
    forall n | n in methods'
      ensures MethodSound(methods'[n], Active(stacks', n))
    {
      PoppedMethod(methods, stacks, levels, t, n);
    }
    forall u | u in stacks'
      ensures StackSound(methods', stacks'[u], SetLevel(levels, stacks', t, LevelOut(methods[id], levels[t]))[u])
    {
      PoppedStack(methods, stacks, levels, t, u);
    }
  }

  /** All active executions of a serialized method belong to one thread; the depth and the thread count
      both count them; the OS mutex is held exactly while there are any. */
  lemma OneOwner(methods: Methods, stacks: Stacks, levels: Levels, id: MethodId, p: (Tid, nat), q: (Tid, nat))
    requires Sound(methods, stacks, levels) && id in methods && methods[id].serialized
    ensures p in Active(stacks, id) && q in Active(stacks, id) ==> p.0 == q.0
    ensures methods[id].threadCount == |Active(stacks, id)|
    ensures methods[id].mutex.Some? ==>
      && methods[id].mutex.value.depth == |Active(stacks, id)|
      && (methods[id].mutex.value.held <==> Active(stacks, id) != {})
  {
    assert MethodSound(methods[id], Active(stacks, id));
  }

  lemma {:induction false} LevelsRise(methods: Methods, s: seq<Frame>, level: nat, i: nat, j: nat)
    requires StackSound(methods, s, level) && i <= j < |s|
    ensures s[i].after <= s[j].after
    decreases j - i
  {
    if i < j {
      assert FrameSound(methods, s, i + 1);
      LevelsRise(methods, s, level, i + 1, j);
    }
  }

  /** A thread's sync level is no lower than that of any method it executes under its mutex. */
  lemma HeldBelowLevel(methods: Methods, stacks: Stacks, levels: Levels, t: Tid, id: MethodId)
    requires Sound(methods, stacks, levels) && Holds(stacks, t, id) && id in methods
    requires methods[id].mutex.Some? && !methods[id].ignoreLevel
    ensures t in levels && methods[id].syncLevel <= levels[t]
  {
    var s := stacks[t];
    assert StackSound(methods, s, levels[t]);
    var i :| 0 <= i < |s| && s[i].id == id;
    var k := FirstOf(s, i);
    assert FrameSound(methods, s, k);
    LevelsRise(methods, s, levels[t], k, |s| - 1);
  }

  lemma {:induction false} FirstOf(s: seq<Frame>, i: nat) returns (k: nat)
    requires i < |s|
    ensures k <= i && s[k].id == s[i].id && Outermost(s, k)
  {
    k := i;
    if !Outermost(s, i) {
      var j :| 0 <= j < i && s[j].id == s[i].id;
      k := FirstOf(s, j);
    }
  }

  /** Thread `t`, inside a method, waits for the mutex of method `id`, which another thread holds. */
  ghost predicate Waiting(methods: Methods, stacks: Stacks, levels: Levels, t: Tid, id: MethodId)
  {
    && t in stacks && t in levels && id in methods && methods[id].mutex.Some? && !methods[id].ignoreLevel
    && Outcome(methods[id], t, levels[t], false) == Blocks
  }

  /** Threads in a circle, each waiting for a method that the next one executes. */
  ghost predicate Circle(methods: Methods, stacks: Stacks, levels: Levels, ts: seq<Tid>, ids: seq<MethodId>)
  {
    && |ts| == |ids| > 0
    && forall i {:trigger ids[i]} | 0 <= i < |ts| ::
      Waiting(methods, stacks, levels, ts[i], ids[i]) && Holds(stacks, ts[if i + 1 < |ts| then i + 1 else 0], ids[i])
  }

  lemma {:induction false} CircleRises(methods: Methods, stacks: Stacks, levels: Levels, ts: seq<Tid>,
          ids: seq<MethodId>, i: nat, j: nat)
    requires Sound(methods, stacks, levels) && Circle(methods, stacks, levels, ts, ids) && i <= j < |ts|
    ensures ts[i] in levels && ts[j] in levels && ids[j] in methods && levels[ts[i]] <= levels[ts[j]]
    ensures methods[ids[j]].syncLevel >= levels[ts[j]]
    ensures ts[if j + 1 < |ts| then j + 1 else 0] in levels
    ensures levels[ts[if j + 1 < |ts| then j + 1 else 0]] >= methods[ids[j]].syncLevel
    decreases j - i
  {
    var n := if j + 1 < |ts| then j + 1 else 0;
    assert Waiting(methods, stacks, levels, ts[i], ids[i]);
    assert Waiting(methods, stacks, levels, ts[j], ids[j]) && Holds(stacks, ts[n], ids[j]);
    assert MethodSound(methods[ids[j]], Active(stacks, ids[j]));
    HeldBelowLevel(methods, stacks, levels, ts[n], ids[j]);
    if i < j {
      CircleRises(methods, stacks, levels, ts, ids, i, j - 1);
    }
  }

  /** The sync level rule leaves only one kind of deadlock: all the methods of the circle have the same
      sync level. */
  lemma DeadlockNeedsEqualLevels(methods: Methods, stacks: Stacks, levels: Levels, ts: seq<Tid>, ids: seq<MethodId>,
          i: nat, j: nat)
    requires Sound(methods, stacks, levels) && Circle(methods, stacks, levels, ts, ids) && i < |ts| && j < |ts|
    ensures ids[i] in methods && ids[j] in methods && ts[i] in levels
    ensures methods[ids[i]].syncLevel == methods[ids[j]].syncLevel == levels[ts[i]]
  {
    var last := |ts| - 1;
    CircleRises(methods, stacks, levels, ts, ids, 0, i);
    CircleRises(methods, stacks, levels, ts, ids, 0, j);
    CircleRises(methods, stacks, levels, ts, ids, i, last);
    CircleRises(methods, stacks, levels, ts, ids, j, last);
    if i < last {
      CircleRises(methods, stacks, levels, ts, ids, i + 1, last);
    }
    if j < last {
      CircleRises(methods, stacks, levels, ts, ids, j + 1, last);
    }
  }

  /** The global state, changed by one thread at a time: the interpreter lock is held throughout a step. */
  class Interpreter {
    var methods: Methods
    var levels: Levels         // CurrentSyncLevel of each thread
    ghost var stacks: Stacks

    ghost predicate Valid()
      reads this
    {
      Sound(methods, stacks, levels)
    }

    /** Methods that have never run, and nobody evaluating anything. */
    constructor (ms: Methods)
      requires forall m | m in ms ::
        ms[m].mutex == None && ms[m].threadCount == 0 && ms[m].ownerId == 0 && !ms[m].pending
      ensures Valid() && methods == ms && levels == map[] && stacks == map[]
    {
      methods, levels := ms, map[];
      stacks := map[];
      new;
      forall m | m in methods
        ensures MethodSound(methods[m], Active(stacks, m))
      {
        assert Active(stacks, m) == {};
      }
    }

    /** The checks at the start of AcpiDsBeginMethodExecution; the first execution of a serialized method
        creates its mutex. `Blocks` stands for the wait at the OS mutex. */
    method Check(t: Tid, id: MethodId, top: bool) returns (status: Status)
      requires Valid() && id in methods && (top <==> t !in stacks)
      modifies this`methods
      ensures Valid() && methods == old(methods)[id := WithMutex(old(methods)[id])]
      ensures status == Outcome(methods[id], t, EntryLevel(methods[id], levels, t), top)
    {
      var m := methods[id];
      assert MethodSound(m, Active(stacks, id));
      if m.threadCount == UINT8_MAX {
        assert methods == methods[id := m];
        return MethodLimit;
      }
      if m.serialized {
        if m.mutex == None {
          m := m.(mutex := Some(Mutex(m.syncLevel, 0, 0, 0, false)));
          MethodChanged(methods, stacks, levels, id, m);
          methods := methods[id := m];
        }
        assert methods == old(methods)[id := m];
        if !top && !m.ignoreLevel && levels[t] > m.mutex.value.syncLevel {
          return MutexOrder;
        }
        if top || m.mutex.value.threadId == 0 || t != m.mutex.value.threadId {
          if m.mutex.value.held {
            return Blocks;
          }
        }
      }
      assert methods == methods[id := m];
      return Ok;
    }

    /** Its second half: the mutex is free or already the thread's own. */
    static method Enter(m0: Method, t: Tid, level0: nat, top: bool, owner: nat) returns (m: Method, level: nat)
      requires m0.serialized ==> m0.mutex.Some?
      ensures m == Entered(m0, t, level0, top, owner) && level == LevelIn(m0, t, level0, top)
    {
      m, level := m0, level0;
      if m.serialized {
        var x := m.mutex.value;
        if top || x.threadId == 0 || t != x.threadId {
          x := x.(held := true);
          if !top {
            x := x.(original := level, threadId := t);
            if !m.ignoreLevel {
              level := m.syncLevel;
            }
          } else {
            x := x.(original := x.syncLevel, threadId := t);
          }
        }
        m := m.(mutex := Some(x.(depth := x.depth + 1)));
      }
      if m.ownerId == 0 {
        m := m.(ownerId := owner);
      }
      m := m.(threadCount := m.threadCount + 1);
      if top {
        level := m.syncLevel;
      }
    }

    /** AcpiDsBeginMethodExecution by thread `t`; `top` when there is no walk state yet, and then the new
        thread state is given the method's level right away (psparse.c). Nothing but the creation of the
        mutex has happened when the call fails or blocks. `owner` is the owner id that would be allocated. */
    method Begin(t: Tid, id: MethodId, top: bool, owner: nat) returns (status: Status)
      requires Valid() && id in methods && (top <==> t !in stacks) && owner > 0
      modifies this
      ensures Valid() && methods.Keys == old(methods.Keys)
      ensures var m := WithMutex(old(methods)[id]);
              var f := NewFrame(m, id, old(stacks), old(levels), t);
              && status == Outcome(m, t, f.before, top)
              && (status != Ok ==> stacks == old(stacks) && levels == old(levels) && methods == old(methods)[id := m])
              && (status == Ok ==> stacks == Push(old(stacks), t, f) && levels == old(levels)[t := f.after])
              && (status == Ok ==> methods == old(methods)[id := Entered(m, t, f.before, top, owner)])
      ensures var m, n, s := old(methods)[id], |Active(old(stacks), id)|, old(stacks);
              var below := t in s && !m.ignoreLevel && old(levels)[t] > m.syncLevel;
              && (status == MethodLimit <==> n == 255)
              && (status == MutexOrder <==> n != 255 && m.serialized && below)
              && (status == Blocks <==> n != 255 && m.serialized && !below && HeldByOther(s, t, id))
    {
      BeginOutcome(methods, stacks, levels, id, t);
      status := Check(t, id, top);
      if status != Ok {
        return;
      }
      BeginSound(methods, stacks, levels, id, t, owner);
      ghost var f := NewFrame(methods[id], id, stacks, levels, t);
      var m, level := Enter(methods[id], t, if top then methods[id].syncLevel else levels[t], top, owner);
      stacks := Push(stacks, t, f);
      methods := methods[id := m];
      levels := levels[t := level];
    }

    static method Leave(m0: Method, level0: nat) returns (m: Method, level: nat)
      requires m0.threadCount > 0 && (m0.mutex.Some? ==> m0.mutex.value.depth > 0)
      ensures m == Left(m0) && level == LevelOut(m0, level0)
    {
      m, level := m0, level0;
      if m.mutex.Some? {
        var x := m.mutex.value;
        x := x.(depth := x.depth - 1);
        if x.depth == 0 {
          level := x.original;
          x := x.(held := false, threadId := 0);
        }
        m := m.(mutex := Some(x));
      }
      if m.threadCount != 0 {
        m := m.(threadCount := m.threadCount - 1);
      }
      if m.threadCount == 0 {
        if m.pending {
          m := m.(pending := false, serialized := true, ignoreLevel := true, syncLevel := 0);
        }
        m := m.(ownerId := 0);
      }
    }

    /** AcpiDsTerminateControlMethod for the innermost execution of thread `t`, which leaves the thread
        state at `level`; `last` if the walk is over and the thread state is deleted. */
    method Terminate(t: Tid, id: MethodId, last: bool) returns (level: nat)
      requires Valid() && t in stacks && stacks[t] != [] && id == stacks[t][|stacks[t]| - 1].id
      requires last <==> |stacks[t]| == 1
      modifies this
      ensures Valid() && stacks == Pop(old(stacks), t) && levels == SetLevel(old(levels), stacks, t, level)
      ensures id in old(methods) && old(methods)[id].threadCount > 0
      ensures methods == old(methods)[id := Left(old(methods)[id])]
      ensures level == old(stacks)[t][|old(stacks)[t]| - 1].before
    {
      EndSound(methods, stacks, levels, t);
      LevelRestored(methods, stacks, levels, t);
      assert MethodSound(methods[id], Active(stacks, id));
      var m;
      m, level := Leave(methods[id], levels[t]);
      stacks := Pop(stacks, t);
      methods := methods[id := m];
      levels := if last then levels - {t} else levels[t := level];
    }

    /** A method that is not serialized has met an object it has already created: it is to be serialized
        from its next start on. */
    method MarkPending(id: MethodId)
      requires Valid() && id in methods
      modifies this`methods
      ensures Valid()
      ensures methods ==
        if old(methods)[id].serialized then old(methods) else old(methods)[id := old(methods)[id].(pending := true)]
    {
      if !methods[id].serialized {
        assert MethodSound(methods[id], Active(stacks, id));
        MethodChanged(methods, stacks, levels, id, methods[id].(pending := true));
        methods := methods[id := methods[id].(pending := true)];
      }
    }
  }
}
