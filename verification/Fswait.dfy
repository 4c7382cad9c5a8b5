/** Ready queues and blocking on pipes: the register, notify and awake protocol that proc.c and pipe.c share. */
module Fswait {
  import opened Words
  import opened Pipe

  type ProcId = nat
  type PipeId = nat
  type GroupId = nat

  type Slots = seq<Option<ProcId>>    // an array of process pointers with null holes
  type NodeList = seq<Option<PipeId>> // None: a pointer that validate refuses

  datatype Status = Ready | Wait

  /** `nodes`: the pipes it waits on; `pwait`: its parent waits for it to end. */
  datatype Proc = Proc(group: GroupId, status: Status, queueIdx: nat, nodes: NodeList, eax: int, parent: ProcId,
    pwait: bool)

  /** A ready queue with holes, and the count kept beside it. */
  datatype Queue = Queue(slots: Slots, readyCount: int)

  type Procs = map<ProcId, Proc>
  type Queues = map<GroupId, Queue>
  type Waiters = map<PipeId, Slots>
  type Regs = map<ProcId, NodeList> // which pipes a process is registered on, in order

  datatype State = State(procs: Procs, queues: Queues, waiters: Waiters)

  /** Slot arrays with holes, as ready_insert and pipe_add_waiter fill them: the first hole, or a new slot. */

  function FirstHole(s: Slots, k: nat): (r: nat)
    requires k <= |s|
    ensures k <= r <= |s| && (r < |s| ==> s[r] == None) && forall i | k <= i < r :: s[i] != None
    decreases |s| - k
  {
    if k == |s| || s[k] == None then k else FirstHole(s, k + 1)
  }

  function Add(s: Slots, p: ProcId): (s': Slots)
    ensures multiset(s')[Some(p)] == multiset(s)[Some(p)] + 1
    ensures forall q | q != p :: multiset(s')[Some(q)] == multiset(s)[Some(q)]
    ensures Occupied(s') == Occupied(s) + 1
  {
    var k := FirstHole(s, 0);
    if k < |s| then s[k := Some(p)] else s + [Some(p)]
  }

  function Find(s: Slots, p: ProcId, k: nat): (r: nat)
    requires k <= |s|
    ensures k <= r <= |s| && (r < |s| ==> s[r] == Some(p)) && forall i | k <= i < r :: s[i] != Some(p)
    decreases |s| - k
  {
    if k == |s| || s[k] == Some(p) then k else Find(s, p, k + 1)
  }

  /** pipe_remove_waiter clears the first slot that holds `p`. */
  function Remove(s: Slots, p: ProcId): (s': Slots)
    ensures |s'| == |s|
    ensures multiset(s')[Some(p)] == if Some(p) in s then multiset(s)[Some(p)] - 1 else 0
    ensures forall q | q != p :: multiset(s')[Some(q)] == multiset(s)[Some(q)]
    ensures forall i | 0 <= i < |s| :: s'[i] == s[i] || s'[i] == None
  {
    var k := Find(s, p, 0);
    if k < |s| then s[k := None] else s
  }

  function Occupied(s: Slots): int { |s| - multiset(s)[None] }

  /** The lowest index at which `nodes` names pipe `i`. */
  function First(nodes: NodeList, i: PipeId): (r: nat)
    requires Some(i) in nodes
    ensures r < |nodes| && nodes[r] == Some(i) && forall j | 0 <= j < r :: nodes[j] != Some(i)
  {
    if nodes[0] == Some(i) then 0 else 1 + First(nodes[1..], i)
  }

  /** Slot `k` of a group's queue holds a ready process of that group that knows its slot. */
  ghost predicate SlotSound(procs: Procs, g: GroupId, s: Slots, k: nat)
    requires k < |s|
  {
    s[k].Some? ==>
      var p := s[k].value;
      p in procs && procs[p].group == g && procs[p].status == Ready && procs[p].queueIdx == k
  }

  ghost predicate QueueSound(procs: Procs, g: GroupId, q: Queue)
  {
    q.readyCount == Occupied(q.slots) && forall k: nat {:trigger SlotSound(procs, g, q.slots, k)} | k < |q.slots| ::
      SlotSound(procs, g, q.slots, k)
  }

  ghost predicate InQueue(queues: Queues, p: ProcId, a: Proc)
  {
    a.group in queues && a.queueIdx < |queues[a.group].slots| && queues[a.group].slots[a.queueIdx] == Some(p)
  }

  /** Ready processes are in their group's queue, in the slot they know; nothing else is in a queue; the
      counts are right. */
  ghost predicate Queued(procs: Procs, queues: Queues)
  {
    && (forall p | p in procs :: procs[p].group in queues)
    && (forall p {:trigger InQueue(queues, p, procs[p])} | p in procs && procs[p].status == Ready ::
       InQueue(queues, p, procs[p]))
    && (forall g {:trigger QueueSound(procs, g, queues[g])} | g in queues :: QueueSound(procs, g, queues[g]))
  }

  function Times(regs: Regs, p: ProcId, i: PipeId): nat
  {
    if p in regs then multiset(regs[p])[Some(i)] else 0
  }

  /** Pipe `i` lists each process as often as the process waits on it. */
  ghost predicate Lists(regs: Regs, i: PipeId, s: Slots)
  {
    forall p {:trigger Times(regs, p, i)} :: multiset(s)[Some(p)] == Times(regs, p, i)
  }

  ghost predicate Registered(regs: Regs, waiters: Waiters)
  {
    && (forall i {:trigger Lists(regs, i, waiters[i])} | i in waiters :: Lists(regs, i, waiters[i]))
    && (forall p, i | p in regs && Some(i) in regs[p] :: i in waiters)
  }

  function Nodes(procs: Procs): Regs
  {
    map p | p in procs :: procs[p].nodes
  }

  lemma NodesChanged(procs: Procs, p: ProcId, a: Proc)
    ensures Nodes(procs[p := a]) == Nodes(procs)[p := a.nodes]
    ensures p in procs && a.nodes == procs[p].nodes ==> Nodes(procs[p := a]) == Nodes(procs)
  {
  }

  lemma AddRegistered(regs: Regs, waiters: Waiters, p: ProcId, i: PipeId)
    requires Registered(regs, waiters) && p in regs && i in waiters
    ensures Registered(regs[p := regs[p] + [Some(i)]], waiters[i := Add(waiters[i], p)])
  {
    var regs', waiters' := regs[p := regs[p] + [Some(i)]], waiters[i := Add(waiters[i], p)];
    forall j | j in waiters'
      ensures Lists(regs', j, waiters'[j])
    {
      assert Lists(regs, j, waiters[j]);
      forall q
        ensures multiset(waiters'[j])[Some(q)] == Times(regs', q, j)
      {
        assert multiset(waiters[j])[Some(q)] == Times(regs, q, j);
      }
    }
  }

  lemma SameRegistered(regs: Regs, waiters: Waiters, p: ProcId, ns: NodeList)
    requires Registered(regs, waiters) && p in regs
    requires forall i: PipeId :: multiset(ns)[Some(i)] == multiset(regs[p])[Some(i)]
    ensures Registered(regs[p := ns], waiters)
  {
    var regs' := regs[p := ns];
    forall j | j in waiters
      ensures Lists(regs', j, waiters[j])
    {
      assert Lists(regs, j, waiters[j]);
      forall q
        ensures multiset(waiters[j])[Some(q)] == Times(regs', q, j)
      {
        assert multiset(waiters[j])[Some(q)] == Times(regs, q, j);
      }
    }
    forall q, i | q in regs' && Some(i) in regs'[q]
      ensures i in waiters
    {
      assert q == p ==> multiset(ns)[Some(i)] > 0 && Some(i) in multiset(regs[p]);
    }
  }

  lemma RemoveRegistered(regs: Regs, waiters: Waiters, p: ProcId)
    requires Registered(regs, waiters) && p in regs && regs[p] != [] && regs[p][0].Some?
    ensures var i := regs[p][0].value;
            i in waiters && Registered(regs[p := regs[p][1..]], waiters[i := Remove(waiters[i], p)])
  {
    var i := regs[p][0].value;
    assert Some(i) in regs[p];
    var regs', waiters' := regs[p := regs[p][1..]], waiters[i := Remove(waiters[i], p)];
    assert regs[p] == [Some(i)] + regs[p][1..];
    forall j | j in waiters'
      ensures Lists(regs', j, waiters'[j])
    {
      assert Lists(regs, j, waiters[j]);
      forall q
        ensures multiset(waiters'[j])[Some(q)] == Times(regs', q, j)
      {
        assert multiset(waiters[j])[Some(q)] == Times(regs, q, j);
      }
    }
    forall q, j | q in regs' && Some(j) in regs'[q]
      ensures j in waiters'
    {
      assert Some(j) in regs[q];
    }
  }

  /** A parent blocked by waitpid waits on one child, and on no pipe. */
  ghost predicate ParentsWait(procs: Procs)
  {
    && (forall c {:trigger procs[c].pwait} | c in procs && procs[c].pwait ::
       procs[c].parent in procs && procs[procs[c].parent].status == Wait && procs[procs[c].parent].nodes == [])
    && (forall c, d {:trigger procs[c].pwait, procs[d].pwait} | c in procs && d in procs && c != d && procs[c].pwait
       && procs[d].pwait :: procs[c].parent != procs[d].parent)
  }

  ghost predicate ReadyIdle(procs: Procs)
  {
    forall p | p in procs && procs[p].status == Ready :: procs[p].nodes == []
  }

  /** Only `p` and the `pwait` of `child` differ. */
  lemma ParentsKept(procs: Procs, procs': Procs, p: ProcId, child: ProcId)
    requires ParentsWait(procs) && procs'.Keys == procs.Keys && p in procs && child in procs
    requires forall c | c in procs && c != p && c != child :: procs'[c] == procs[c]
    requires procs'[p].parent == procs[p].parent && (p != child ==> procs'[p].pwait == procs[p].pwait)
    requires procs'[child].parent == procs[child].parent
    requires (p != child ==> procs'[child] == procs[child].(pwait := procs'[child].pwait))
    requires procs'[child].pwait && !procs[child].pwait ==>
      procs[child].parent == p && procs[p].status == Ready && procs'[p].status == Wait && procs'[p].nodes == []
        && p != child
    requires !(procs'[child].pwait && !procs[child].pwait) ==>
      || (procs'[p].status == Wait && procs'[p].nodes == procs[p].nodes && procs[p].status == Wait)
      || (forall c | c in procs && procs[c].pwait && procs[c].parent == p :: c == child && !procs'[child].pwait)
    ensures ParentsWait(procs')
  {
    forall c {:trigger procs'[c].pwait} | c in procs' && procs'[c].pwait
      ensures procs'[c].parent in procs' && procs'[procs'[c].parent].status == Wait
      ensures procs'[procs'[c].parent].nodes == []
    {
      if c != child || procs[c].pwait {
        assert procs[c].pwait;
      }
    }
    forall c, d {:trigger procs'[c].pwait, procs'[d].pwait} | c in procs' && d in procs' && c != d && procs'[c].pwait
      && procs'[d].pwait
      ensures procs'[c].parent != procs'[d].parent
    {
      assert procs[c].pwait || c == child;
      assert procs[d].pwait || d == child;
    }
  }

  /** A process that no child has waiting may change as it likes, but for its own place as a child. */
  lemma ParentsUnwaited(procs: Procs, p: ProcId, a: Proc)
    requires ParentsWait(procs) && p in procs && a.parent == procs[p].parent && a.pwait == procs[p].pwait
    requires forall c | c in procs && procs[c].pwait :: procs[c].parent != p
    ensures ParentsWait(procs[p := a])
  {
    var procs' := procs[p := a];
    forall c {:trigger procs'[c].pwait} | c in procs' && procs'[c].pwait
      ensures procs'[c].parent in procs' && procs'[procs'[c].parent].status == Wait
      ensures procs'[procs'[c].parent].nodes == []
    {
      assert procs[c].pwait;
    }
    forall c, d {:trigger procs'[c].pwait, procs'[d].pwait} | c in procs' && d in procs' && c != d && procs'[c].pwait
      && procs'[d].pwait
      ensures procs'[c].parent != procs'[d].parent
    {
      assert procs[c].pwait && procs[d].pwait;
    }
  }

  /** Everything the protocol keeps true. A process blocks in one call at a time: on pipes, or on the one
      child whose `pwait` is set. */
  ghost predicate Sound(s: State)
  {
    match s
    case State(procs, queues, waiters) =>
      && Queued(procs, queues) && Registered(Nodes(procs), waiters)
      && ReadyIdle(procs) && ParentsWait(procs)
  }

  function Inserted(procs: Procs, queues: Queues, p: ProcId): Procs
    requires p in procs && procs[p].group in queues
  {
    procs[p := procs[p].(status := Ready, queueIdx := FirstHole(queues[procs[p].group].slots, 0))]
  }

  function Enqueued(queues: Queues, g: GroupId, p: ProcId): Queues
    requires g in queues
  {
    queues[g := Queue(Add(queues[g].slots, p), queues[g].readyCount + 1)]
  }

  /** A process becomes ready in the first hole of its queue, in a new slot if there is none, and knows it. */
  lemma InsertedFirstHole(procs: Procs, queues: Queues, p: ProcId)
    requires p in procs && procs[p].group in queues
    ensures var g, k := procs[p].group, Inserted(procs, queues, p)[p].queueIdx;
            var slots, slots' := queues[g].slots, Enqueued(queues, g, p)[g].slots;
            && k <= |slots| && (forall j | 0 <= j < k :: slots[j] != None)
            && (k < |slots| ==> slots[k] == None && slots' == slots[k := Some(p)])
            && (k == |slots| ==> slots' == slots + [Some(p)])
  {
    var k := FirstHole(queues[procs[p].group].slots, 0);
    assert Inserted(procs, queues, p)[p].queueIdx == k;
  }

  /** Queues only get longer. */
  ghost predicate Grown(queues: Queues, queues': Queues)
  {
    queues'.Keys == queues.Keys && forall g | g in queues :: |queues'[g].slots| >= |queues[g].slots|
  }

  lemma EnqueuedGrows(queues: Queues, g: GroupId, p: ProcId)
    requires g in queues
    ensures Grown(queues, Enqueued(queues, g, p))
  {
  }

  lemma InsertQueued(procs: Procs, queues: Queues, p: ProcId)
    requires Queued(procs, queues) && p in procs && procs[p].status == Wait
    ensures Queued(Inserted(procs, queues, p), Enqueued(queues, procs[p].group, p))
  {
    var g := procs[p].group;
    var procs', queues' := Inserted(procs, queues, p), Enqueued(queues, g, p);
    var k := FirstHole(queues[g].slots, 0);
    assert queues'[g].slots[k] == Some(p);
    forall q | q in procs' && procs'[q].status == Ready
      ensures InQueue(queues', q, procs'[q])
    {
      assert q != p ==> InQueue(queues, q, procs[q]);
    }
    forall h | h in queues'
      ensures QueueSound(procs', h, queues'[h])
    {
      assert QueueSound(procs, h, queues[h]);
      forall j: nat | j < |queues'[h].slots|
        ensures SlotSound(procs', h, queues'[h].slots, j)
      {
        if !(h == g && j == k) {
          assert SlotSound(procs, h, queues[h].slots, j);
        }
      }
    }
  }

  function Dequeued(queues: Queues, g: GroupId, k: nat): Queues
    requires g in queues && k < |queues[g].slots|
  {
    queues[g := Queue(queues[g].slots[k := None], queues[g].readyCount - 1)]
  }

  lemma RemoveQueued(procs: Procs, queues: Queues, p: ProcId, a: Proc)
    requires Queued(procs, queues) && p in procs && procs[p].status == Ready
    requires a.status == Wait && a.group == procs[p].group
    ensures InQueue(queues, p, procs[p])
    ensures Queued(procs[p := a], Dequeued(queues, procs[p].group, procs[p].queueIdx))
  {
    assert InQueue(queues, p, procs[p]);
    var g, k := procs[p].group, procs[p].queueIdx;
    var procs', queues' := procs[p := a], Dequeued(queues, procs[p].group, procs[p].queueIdx);
    forall q | q in procs' && procs'[q].status == Ready
      ensures InQueue(queues', q, procs'[q])
    {
      assert InQueue(queues, q, procs[q]);
    }
    forall h | h in queues'
      ensures QueueSound(procs', h, queues'[h])
    {
      assert QueueSound(procs, h, queues[h]);
      forall j: nat | j < |queues'[h].slots|
        ensures SlotSound(procs', h, queues'[h].slots, j)
      {
        assert SlotSound(procs, h, queues[h].slots, j);
      }
    }
  }

  lemma ChangeQueued(procs: Procs, queues: Queues, p: ProcId, a: Proc)
    requires Queued(procs, queues) && p in procs
    requires a.status == procs[p].status && a.group == procs[p].group && a.queueIdx == procs[p].queueIdx
    ensures Queued(procs[p := a], queues)
  {
    var procs' := procs[p := a];
    forall q | q in procs' && procs'[q].status == Ready
      ensures InQueue(queues, q, procs'[q])
    {
      assert InQueue(queues, q, procs[q]);
    }
    forall h | h in queues
      ensures QueueSound(procs', h, queues[h])
    {
      assert QueueSound(procs, h, queues[h]);
      forall j: nat | j < |queues[h].slots|
        ensures SlotSound(procs', h, queues[h].slots, j)
      {
        assert SlotSound(procs, h, queues[h].slots, j);
      }
    }
  }

  /** `b` is `a` woken by pipe `i`: ready, waiting on nothing, with the lowest matching index in eax. */
  ghost predicate Woken(a: Proc, b: Proc, i: PipeId)
  {
    Some(i) in a.nodes && b == a.(status := Ready, nodes := [], eax := First(a.nodes, i), queueIdx := b.queueIdx)
  }

  lemma BlockSound(procs: Procs, queues: Queues, waiters: Waiters, p: ProcId, nodes: NodeList, waiters': Waiters)
    requires Sound(State(procs, queues, waiters)) && p in procs && procs[p].status == Ready
    requires Registered(Nodes(procs)[p := nodes], waiters')
    ensures InQueue(queues, p, procs[p])
    ensures Sound(State(procs[p := procs[p].(status := Wait, nodes := nodes)],
      Dequeued(queues, procs[p].group, procs[p].queueIdx), waiters'))
  {
    var procs' := procs[p := procs[p].(status := Wait, nodes := nodes)];
    assert Queued(procs', Dequeued(queues, procs[p].group, procs[p].queueIdx)) && InQueue(queues, p, procs[p]) by {
      RemoveQueued(procs, queues, p, procs'[p]);
    }
    NodesChanged(procs, p, procs'[p]);
    ParentsUnwaited(procs, p, procs'[p]);
  }

  lemma WakeSound(procs: Procs, queues: Queues, waiters: Waiters, p: ProcId, a: Proc, waiters': Waiters)
    requires Sound(State(procs, queues, waiters)) && p in procs && procs[p].status == Wait
    requires Registered(Nodes(procs)[p := []], waiters')
    requires a == procs[p].(nodes := [], eax := a.eax)
    requires forall c | c in procs && procs[c].pwait :: procs[c].parent != p
    ensures a.group in queues
    ensures Sound(State(Inserted(procs[p := a], queues, p), Enqueued(queues, a.group, p), waiters'))
  {
    var procs' := Inserted(procs[p := a], queues, p);
    assert Queued(procs', Enqueued(queues, a.group, p)) by {
      ChangeQueued(procs, queues, p, a);
      InsertQueued(procs[p := a], queues, p);
    }
    NodesChanged(procs, p, procs'[p]);
    assert procs' == procs[p := procs'[p]];
    ParentsUnwaited(procs, p, procs'[p]);
  }

  lemma WaitSound(procs: Procs, queues: Queues, waiters: Waiters, p: ProcId, child: ProcId)
    requires Sound(State(procs, queues, waiters)) && p in procs && child in procs && p != child
    requires procs[p].status == Ready && procs[child].parent == p
    ensures InQueue(queues, p, procs[p])
    ensures Sound(State(procs[p := procs[p].(status := Wait)][child := procs[child].(pwait := true)],
      Dequeued(queues, procs[p].group, procs[p].queueIdx), waiters))
  {
    var procs1 := procs[p := procs[p].(status := Wait)];
    var procs' := procs1[child := procs[child].(pwait := true)];
    assert Queued(procs', Dequeued(queues, procs[p].group, procs[p].queueIdx)) && InQueue(queues, p, procs[p]) by {
      RemoveQueued(procs, queues, p, procs1[p]);
      ChangeQueued(procs1, Dequeued(queues, procs[p].group, procs[p].queueIdx), child, procs'[child]);
    }
    assert Nodes(procs') == Nodes(procs);
    assert ParentsWait(procs') by {
      ParentsKept(procs, procs', p, child);
    }
  }

  lemma UnwaitQueued(procs: Procs, queues: Queues, p: ProcId, child: ProcId)
    requires Queued(procs, queues) && p in procs && procs[p].status == Wait && child in procs
    ensures procs[p].group in queues
    ensures var procs1 := Inserted(procs, queues, p);
            Queued(procs1[child := procs1[child].(pwait := false)], Enqueued(queues, procs[p].group, p))
  {
    var procs1 := Inserted(procs, queues, p);
    InsertQueued(procs, queues, p);
    ChangeQueued(procs1, Enqueued(queues, procs[p].group, p), child, procs1[child].(pwait := false));
  }

  lemma UnwaitParents(procs: Procs, p: ProcId, child: ProcId, k: nat)
    requires ParentsWait(procs) && child in procs && procs[child].pwait && p == procs[child].parent
    ensures var procs1 := procs[p := procs[p].(status := Ready, queueIdx := k)];
            var procs' := procs1[child := procs1[child].(pwait := false)];
            ParentsWait(procs') && Nodes(procs') == Nodes(procs)
  {
    var procs1 := procs[p := procs[p].(status := Ready, queueIdx := k)];
    var procs' := procs1[child := procs1[child].(pwait := false)];
    NodesChanged(procs, p, procs1[p]);
    NodesChanged(procs1, child, procs'[child]);
    ParentsKept(procs, procs', p, child);
  }

  lemma UnwaitSound(procs: Procs, queues: Queues, waiters: Waiters, child: ProcId)
    requires Sound(State(procs, queues, waiters)) && child in procs && procs[child].pwait
    ensures var p := procs[child].parent;
            && p in procs && procs[p].group in queues
            && var procs1 := Inserted(procs, queues, p);
            Sound(State(procs1[child := procs1[child].(pwait := false)], Enqueued(queues, procs[p].group, p), waiters))
  {
    var p := procs[child].parent;
    var procs1 := Inserted(procs, queues, p);
    var procs' := procs1[child := procs1[child].(pwait := false)];
    UnwaitQueued(procs, queues, p, child);
    UnwaitParents(procs, p, child, procs1[p].queueIdx);
  }

  lemma SpawnQueued(procs: Procs, queues: Queues, p: ProcId, a: Proc)
    requires Queued(procs, queues) && p !in procs && a.group in queues && a.status == Wait
    ensures Queued(procs[p := a], queues)
  {
    var procs' := procs[p := a];
    forall q | q in procs' && procs'[q].status == Ready
      ensures InQueue(queues, q, procs'[q])
    {
      assert InQueue(queues, q, procs[q]);
    }
    forall h | h in queues
      ensures QueueSound(procs', h, queues[h])
    {
      assert QueueSound(procs, h, queues[h]);
      forall j: nat | j < |queues[h].slots|
        ensures SlotSound(procs', h, queues[h].slots, j)
      {
        assert SlotSound(procs, h, queues[h].slots, j);
      }
    }
  }

  lemma SpawnRegistered(regs: Regs, waiters: Waiters, p: ProcId)
    requires Registered(regs, waiters) && p !in regs
    ensures Registered(regs[p := []], waiters)
  {
    forall i | i in waiters
      ensures Lists(regs[p := []], i, waiters[i])
    {
      assert Lists(regs, i, waiters[i]);
      forall q
        ensures multiset(waiters[i])[Some(q)] == Times(regs[p := []], q, i)
      {
        assert multiset(waiters[i])[Some(q)] == Times(regs, q, i);
      }
    }
  }

  lemma SpawnParents(procs: Procs, p: ProcId, a: Proc)
    requires ParentsWait(procs) && p !in procs && !a.pwait
    ensures ParentsWait(procs[p := a])
  {
    assert forall c | c in procs :: procs[p := a][c] == procs[c];
  }

  lemma SpawnSound(procs: Procs, queues: Queues, waiters: Waiters, p: ProcId, a: Proc)
    requires Sound(State(procs, queues, waiters)) && p !in procs
    requires a.group in queues && a.status == Wait && a.nodes == [] && !a.pwait
    ensures Sound(State(Inserted(procs[p := a], queues, p), Enqueued(queues, a.group, p), waiters))
  {
    var procs' := Inserted(procs[p := a], queues, p);
    assert Queued(procs', Enqueued(queues, a.group, p)) by {
      SpawnQueued(procs, queues, p, a);
      InsertQueued(procs[p := a], queues, p);
    }
    SpawnRegistered(Nodes(procs), waiters, p);
    NodesChanged(procs, p, procs'[p]);
    assert procs' == procs[p := procs'[p]];
    SpawnParents(procs, p, procs'[p]);
  }

  /** A process blocked in fswait is in no ready queue and is registered on each of its pipes, as often
      as it names it; a ready process is registered on none and is in exactly one slot. */
  lemma BlockedOrReady(s: State, p: ProcId, g: GroupId, k: nat, i: PipeId)
    requires Sound(s) && p in s.procs
    ensures g in s.queues && k < |s.queues[g].slots| ==>
      (s.queues[g].slots[k] == Some(p) <==>
       s.procs[p].status == Ready && g == s.procs[p].group && k == s.procs[p].queueIdx)
    ensures i in s.waiters ==>
      multiset(s.waiters[i])[Some(p)] == if s.procs[p].status == Ready then 0 else multiset(s.procs[p].nodes)[Some(i)]
    ensures s.procs[p].status == Ready ==> InQueue(s.queues, p, s.procs[p])
    ensures g in s.queues ==> s.queues[g].readyCount == Occupied(s.queues[g].slots)
  {
    if s.procs[p].status == Ready {
      assert InQueue(s.queues, p, s.procs[p]);
    }
    if g in s.queues {
      assert QueueSound(s.procs, g, s.queues[g]);
      if k < |s.queues[g].slots| {
        assert SlotSound(s.procs, g, s.queues[g].slots, k);
      }
    }
    if i in s.waiters {
      assert Lists(Nodes(s.procs), i, s.waiters[i]);
      assert multiset(s.waiters[i])[Some(p)] == Times(Nodes(s.procs), p, i);
    }
  }

  /** What a write to pipe `i` does to the processes. */
  ghost predicate WokenBy(procs: Procs, procs': Procs, i: PipeId)
  {
    && procs'.Keys == procs.Keys
    && forall p | p in procs :: if Some(i) in procs[p].nodes then Woken(procs[p], procs'[p], i)
       else procs'[p] == procs[p]
  }

  lemma WaiterWaits(procs: Procs, queues: Queues, waiters: Waiters, i: PipeId, p: ProcId)
    requires Sound(State(procs, queues, waiters)) && i in waiters
    ensures Some(p) in waiters[i] <==> p in procs && Some(i) in procs[p].nodes
  {
    assert Lists(Nodes(procs), i, waiters[i]);
    assert multiset(waiters[i])[Some(p)] == Times(Nodes(procs), p, i);
  }

  /** A woken process finds in eax the lowest index at which it had named the pipe, and waits on nothing. */
  lemma WokenLowest(procs: Procs, procs': Procs, i: PipeId, p: ProcId, k: nat)
    requires WokenBy(procs, procs', i) && p in procs && k < |procs[p].nodes| && procs[p].nodes[k] == Some(i)
    requires forall j | 0 <= j < k :: procs[p].nodes[j] != Some(i)
    ensures p in procs' && procs'[p].eax == k && procs'[p].status == Ready && procs'[p].nodes == []
    ensures procs'[p] == procs[p].(eax := k, status := Ready, nodes := [], queueIdx := procs'[p].queueIdx)
  {
    assert Some(i) in procs[p].nodes;
  }

  /** ... and part of the way through it. */
  ghost predicate PartlyWoken(procs: Procs, procs': Procs, i: PipeId)
  {
    procs'.Keys == procs.Keys && forall p | p in procs :: procs'[p] == procs[p] || Woken(procs[p], procs'[p], i)
  }

  lemma PartlyStep(was: Procs, procs: Procs, procs': Procs, i: PipeId, p: ProcId)
    requires PartlyWoken(was, procs, i) && p in procs && p in procs' && procs' == procs[p := procs'[p]]
    requires Woken(procs[p], procs'[p], i)
    ensures PartlyWoken(was, procs', i)
  {
    assert procs[p] == was[p];
    assert procs'.Keys == procs.Keys;
  }

  lemma AllWoken(was: Procs, procs: Procs, queues: Queues, waiters: Waiters, i: PipeId)
    requires PartlyWoken(was, procs, i) && Sound(State(procs, queues, waiters)) && i in waiters
    requires forall k | 0 <= k < |waiters[i]| :: waiters[i][k] == None
    ensures WokenBy(was, procs, i) && forall p | p in procs :: Some(i) !in procs[p].nodes
  {
    forall p | p in procs
      ensures Some(i) !in procs[p].nodes
    {
      WaiterWaits(procs, queues, waiters, i, p);
    }
  }

  /** Waiter slots have only been cleared. */
  ghost predicate Cleared(w: Waiters, w': Waiters)
  {
    && w'.Keys == w.Keys
    && (forall i | i in w :: |w'[i]| == |w[i]|)
    && (forall i, k | i in w && 0 <= k < |w[i]| :: w'[i][k] == w[i][k] || w'[i][k] == None)
  }

  lemma SetTwice(procs: Procs, p: ProcId, a: Proc, b: Proc)
    ensures procs[p := a][p := b] == procs[p := b]
  {
  }

  class Blocking {
    var procs: Procs
    var queues: Queues
    var waiters: Waiters

    ghost function Now(): State
      reads this
    {
      State(procs, queues, waiters)
    }

    ghost predicate Valid()
      reads this
    {
      Sound(Now())
    }

    /** No process yet; empty ready queues; pipes without waiters. */
    constructor (groups: set<GroupId>, pipes: set<PipeId>)
      ensures Valid() && procs == map[] && queues.Keys == groups && waiters.Keys == pipes
    {
      procs := map[];
      queues := map g | g in groups :: Queue([], 0);
      waiters := map i | i in pipes :: [];
      new;
      forall i | i in waiters
        ensures Lists(Nodes(procs), i, waiters[i])
      {
      }
    }

    method ReadyInsert(p: ProcId)
      requires p in procs && procs[p].group in queues
      modifies this`procs, this`queues
      ensures procs == Inserted(old(procs), old(queues), p) && queues == Enqueued(old(queues), old(procs)[p].group, p)
    {
      var g := procs[p].group;
      procs := procs[p := procs[p].(status := Ready)];
      var queue := queues[g].slots;
      var count := queues[g].readyCount + 1;
      for i := 0 to |queue|
        invariant FirstHole(queue, 0) == FirstHole(queue, i)
      {
        if queue[i] == None {
          procs := procs[p := procs[p].(queueIdx := i)];
          queues := queues[g := Queue(queue[i := Some(p)], count)];
          return;
        }
      }
      queues := queues[g := Queue(queue + [Some(p)], count)];
      procs := procs[p := procs[p].(queueIdx := |queue|)];
    }

    method ReadyRemove(p: ProcId)
      requires p in procs && InQueue(queues, p, procs[p])
      modifies this`queues
      ensures queues == Dequeued(old(queues), procs[p].group, procs[p].queueIdx)
    {
      var g := procs[p].group;
      queues := queues[g := queues[g].(readyCount := queues[g].readyCount - 1)];
      queues := queues[g := queues[g].(slots := queues[g].slots[procs[p].queueIdx := None])];
    }

    method AddWaiter(i: PipeId, p: ProcId)
      requires i in waiters
      modifies this`waiters
      ensures waiters == old(waiters)[i := Add(old(waiters)[i], p)]
    {
      var s := waiters[i];
      for k := 0 to |s|
        invariant FirstHole(s, 0) == FirstHole(s, k)
      {
        if s[k] == None {
          waiters := waiters[i := s[k := Some(p)]];
          return;
        }
      }
      waiters := waiters[i := s + [Some(p)]];
    }

    method RemoveWaiter(i: PipeId, p: ProcId)
      requires i in waiters
      modifies this`waiters
      ensures waiters == old(waiters)[i := Remove(old(waiters)[i], p)]
    {
      var s := waiters[i];
      for k := 0 to |s|
        invariant Find(s, p, 0) == Find(s, p, k)
      {
        if s[k] == Some(p) {
          waiters := waiters[i := s[k := None]];
          return;
        }
      }
      assert waiters == waiters[i := s];
    }

    /** Register on every node, in order. */
    method Register(p: ProcId, nodes: NodeList, ghost regs: Regs)
      requires Registered(regs, waiters) && p in regs && regs[p] == []
      requires forall i | Some(i) in nodes :: i in waiters
      modifies this`waiters
      ensures Registered(regs[p := nodes], waiters) && waiters.Keys == old(waiters.Keys)
    {
      assert regs[p := nodes[..0]] == regs;
      for k := 0 to |nodes|
        invariant Registered(regs[p := nodes[..k]], waiters) && waiters.Keys == old(waiters.Keys)
      {
        ghost var now := regs[p := nodes[..k]];
        assert nodes[..k + 1] == nodes[..k] + [nodes[k]];
        assert now[p := nodes[..k + 1]] == regs[p := nodes[..k + 1]];
        if nodes[k].Some? {
          assert Some(nodes[k].value) in nodes;
          AddRegistered(now, waiters, p, nodes[k].value);
          AddWaiter(nodes[k].value, p);
        } else {
          SameRegistered(now, waiters, p, nodes[..k + 1]);
        }
      }
      assert nodes[..|nodes|] == nodes;
    }

    /** pipe_remove_waiter for every node, in order. */
    method Unregister(p: ProcId, ghost regs: Regs)
      requires Registered(regs, waiters) && p in regs && p in procs && regs[p] == procs[p].nodes
      modifies this`waiters
      ensures Registered(regs[p := []], waiters) && Cleared(old(waiters), waiters)
    {
      var nodes := procs[p].nodes;
      assert regs[p := nodes[0..]] == regs;
      for k := 0 to |nodes|
        invariant Registered(regs[p := nodes[k..]], waiters) && Cleared(old(waiters), waiters)
      {
        ghost var now := regs[p := nodes[k..]];
        assert now[p := nodes[k + 1..]] == regs[p := nodes[k + 1..]];
        assert nodes[k..] == [nodes[k]] + nodes[k + 1..];
        if nodes[k].Some? {
          RemoveRegistered(now, waiters, p);
          RemoveWaiter(nodes[k].value, p);
        } else {
          SameRegistered(now, waiters, p, nodes[k + 1..]);
        }
      }
    }

    /** Block on the pipes `nodes`, unless already blocked. */
    method Fswait(p: ProcId, nodes: NodeList)
      requires Valid() && p in procs && forall i | Some(i) in nodes :: i in waiters
      modifies this
      ensures Valid()
      ensures procs == if old(procs)[p].status == Ready
        then old(procs)[p := old(procs)[p].(status := Wait, nodes := nodes)] else old(procs)
      ensures old(procs)[p].status == Wait ==> queues == old(queues) && waiters == old(waiters)
    {
      if procs[p].status != Wait && procs[p].nodes == [] {
        Block(p, nodes);
      }
    }

    method StopReady(p: ProcId)
      requires p in procs && InQueue(queues, p, procs[p])
      modifies this`procs, this`queues
      ensures procs == old(procs)[p := old(procs)[p].(status := Wait)]
      ensures queues == if old(procs)[p].status == Ready
        then Dequeued(old(queues), old(procs)[p].group, old(procs)[p].queueIdx) else old(queues)
    {
      if procs[p].status == Ready {
        ReadyRemove(p);
      }
      procs := procs[p := procs[p].(status := Wait)];
    }

    method Block(p: ProcId, nodes: NodeList)
      requires Valid() && p in procs && procs[p].status == Ready && forall i | Some(i) in nodes :: i in waiters
      modifies this
      ensures Valid() && procs == old(procs)[p := old(procs)[p].(status := Wait, nodes := nodes)]
    {
      ghost var s, a := Now(), procs[p];
      assert InQueue(queues, p, a);
      procs := procs[p := procs[p].(nodes := nodes)];
      Register(p, nodes, Nodes(s.procs));
      StopReady(p);
      SetTwice(s.procs, p, a.(nodes := nodes), a.(status := Wait, nodes := nodes));
      BlockSound(s.procs, s.queues, s.waiters, p, nodes, waiters);
      assert Now() == State(s.procs[p := a.(status := Wait, nodes := nodes)], Dequeued(s.queues, a.group, a.queueIdx),
        waiters);
    }

    /** process_fswait_awake, once eax is set. */
    method Awake(p: ProcId, ghost was: Procs)
      requires Sound(State(was, queues, waiters)) && p in was && was[p].status == Wait && was[p].nodes != []
      requires p in procs && procs == was[p := was[p].(eax := procs[p].eax)]
      modifies this
      ensures Valid() && p in procs
      ensures var a := was[p].(status := Ready, nodes := [], eax := old(procs)[p].eax, queueIdx := procs[p].queueIdx);
              procs == was[p := a]
      ensures Cleared(old(waiters), waiters) && Grown(old(queues), queues)
    {
      ghost var waited, queued := waiters, queues;
      ghost var a := was[p].(nodes := [], eax := procs[p].eax);
      SetTwice(was, p, procs[p], a);
      Unregister(p, Nodes(was));
      procs := procs[p := procs[p].(nodes := [])];
      WakeSound(was, queued, waited, p, a, waiters);
      ReadyInsert(p);
      EnqueuedGrows(queued, a.group, p);
      assert Now() == State(Inserted(was[p := a], queued, p), Enqueued(queued, a.group, p), waiters);
      SetTwice(was, p, a, procs[p]);
    }

    /** Wake `p` if it waits on pipe `i`. */
    method Notify(p: ProcId, i: PipeId)
      requires Valid() && p in procs
      modifies this
      ensures Valid() && p in procs && procs == old(procs)[p := procs[p]]
      ensures if Some(i) in old(procs)[p].nodes then Woken(old(procs)[p], procs[p], i) else procs[p] == old(procs)[p]
      ensures Cleared(old(waiters), waiters) && Grown(old(queues), queues)
    {
      ghost var was := procs;
      var nodes := procs[p].nodes;
      for k := 0 to |nodes|
        invariant procs == old(procs) && waiters == old(waiters) && queues == old(queues)
        invariant forall j | 0 <= j < k :: nodes[j] != Some(i)
      {
        if nodes[k] == Some(i) {
          assert Some(i) in nodes && First(nodes, i) == k;
          procs := procs[p := procs[p].(eax := k)];
          Awake(p, was);
          return;
        }
      }
    }

    /** Slot `k` of pipe `i`'s waiters is notified; it is empty afterwards. */
    method NotifySlot(i: PipeId, k: nat, ghost was: Procs)
      requires Valid() && i in waiters && k < |waiters[i]| && PartlyWoken(was, procs, i)
      modifies this
      ensures Valid() && PartlyWoken(was, procs, i) && Cleared(old(waiters), waiters) && Grown(old(queues), queues)
      ensures waiters[i][k] == None
    {
      if waiters[i][k].Some? {
        var p := waiters[i][k].value;
        assert Some(p) in waiters[i];
        WaiterWaits(procs, queues, waiters, i, p);
        ghost var before := procs;
        Notify(p, i);
        PartlyStep(was, before, procs, i, p);
        WaiterWaits(procs, queues, waiters, i, p);
        assert waiters[i][k] in waiters[i];
      }
    }

    /** pipe_notify_waiters: every process that waits on pipe `i` wakes, once, with its lowest matching index,
        and waits on nothing afterwards; nobody else is touched. */
    method NotifyWaiters(i: PipeId)
      requires Valid() && i in waiters
      modifies this
      ensures Valid() && WokenBy(old(procs), procs, i)
      ensures Cleared(old(waiters), waiters) && Grown(old(queues), queues)
      ensures forall p | p in procs :: Some(i) !in procs[p].nodes
    {
      for k := 0 to |waiters[i]|
        invariant Valid() && Cleared(old(waiters), waiters) && PartlyWoken(old(procs), procs, i)
        invariant Grown(old(queues), queues)
        invariant forall j | 0 <= j < k :: waiters[i][j] == None
      {
        NotifySlot(i, k, old(procs));
      }
      AllWoken(old(procs), procs, queues, waiters, i);
    }

    /** pipe_write: the ring takes what fits; if that is anything at all, the waiters are notified. */
    method PipeWrite(i: PipeId, ring: Ring, n: nat, data: array<Byte>) returns (written: nat)
      requires Valid() && i in waiters && ring.Valid() && n <= data.Length && data != ring.buffer
      modifies this, ring`writePtr, ring.buffer
      ensures Valid() && ring.Valid() && written == Min(n, ring.size - 1 - |old(ring.Contents())|)
      ensures ring.Contents() == old(ring.Contents()) + data[..written]
      ensures written > 0 ==> WokenBy(old(procs), procs, i) && forall p | p in procs :: Some(i) !in procs[p].nodes
      ensures written == 0 ==> procs == old(procs) && queues == old(queues) && waiters == old(waiters)
      ensures Grown(old(queues), queues)
    {
      written := ring.Write(n, data);
      if written != 0 {
        NotifyWaiters(i);
      }
    }

    /** A new process enters the ready queue of its group. */
    method Spawn(p: ProcId, group: GroupId, parent: ProcId)
      requires Valid() && p !in procs && group in queues
      modifies this
      ensures Valid() && waiters == old(waiters)
      ensures p in procs && procs == old(procs)[p := Proc(group, Ready, procs[p].queueIdx, [], 0, parent, false)]
    {
      ghost var was, target := procs, Inserted(procs[p := Proc(group, Wait, 0, [], 0, parent, false)], queues, p);
      assert target == was[p := Proc(group, Ready, target[p].queueIdx, [], 0, parent, false)];
      SpawnSound(procs, queues, waiters, p, Proc(group, Wait, 0, [], 0, parent, false));
      procs := procs[p := Proc(group, Wait, 0, [], 0, parent, false)];
      ReadyInsert(p);
      assert procs == target;
    }

    /** process_waitpid, called by the running process, which is not its own parent. */
    method WaitPid(p: ProcId, child: ProcId)
      requires Valid() && p in procs && procs[p].status == Ready && procs[p].parent != p
      modifies this
      ensures Valid() && waiters == old(waiters)
      ensures procs ==
        if child in old(procs) && old(procs)[child].parent == p
        then old(procs)[p := old(procs)[p].(status := Wait)][child := old(procs)[child].(pwait := true)] else old(procs)
    {
      if child in procs && procs[child].parent == p {
        ghost var was := procs;
        procs := procs[child := procs[child].(pwait := true)];
        ghost var target := was[p := was[p].(status := Wait)][child := was[child].(pwait := true)];
        assert procs[p := procs[p].(status := Wait)] == target;
        WaitSound(was, queues, waiters, p, child);
        ReadyRemove(p);
        procs := procs[p := procs[p].(status := Wait)];
        assert Now() == State(target, Dequeued(old(queues), was[p].group, was[p].queueIdx), waiters);
      }
    }

    /** The first lines of clean_process: the parent of a process that has ended wakes if it waited for it. */
    method WakeParent(child: ProcId)
      requires Valid() && child in procs
      modifies this
      ensures Valid() && waiters == old(waiters) && child in procs && procs.Keys == old(procs.Keys)
      ensures old(procs)[child].pwait ==> var p := old(procs)[child].parent;
        p in procs && procs ==
          old(procs)[p := old(procs)[p].(status := Ready, queueIdx := procs[p].queueIdx)][child := procs[child]]
          && !procs[child].pwait
      ensures !old(procs)[child].pwait ==> procs == old(procs) && queues == old(queues)
    {
      if procs[child].pwait {
        var parent := procs[child].parent;
        if parent in procs && procs[parent].status == Wait {
          UnwaitSound(procs, queues, waiters, child);
          ReadyInsert(parent);
          procs := procs[child := procs[child].(pwait := false)];
        }
      }
    }
  }
}
