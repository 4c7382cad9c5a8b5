/** From a write to a pipe to the scheduler: the processes it wakes are returned by get_ready. */
module Wakeups {
  import opened Words
  import opened Fswait
  import S = Scheduler

  /** A place of the scheduler's table: whose queue it is, its priority and its cursor. */
  datatype Entry = Entry(group: GroupId, priority: S.Priority, pointer: nat)

  type Entries = seq<Option<Entry>>

  /** Every place names a queue, and its cursor is in it; an empty queue's cursor is at its start. */
  ghost predicate Cursors(entries: Entries, queues: Queues)
  {
    forall i {:trigger entries[i]} | 0 <= i < |entries| && entries[i].Some? ::
      var e := entries[i].value;
      && e.group in queues
      && if queues[e.group].slots == [] then e.pointer == 0 else e.pointer < |queues[e.group].slots|
  }

  function GroupOf(e: Option<Entry>, queues: Queues): Option<S.Group>
    requires e.Some? ==> e.value.group in queues
  {
    match e
    case None => None
    case Some(Entry(g, priority, pointer)) => Some(S.Group(priority, queues[g], pointer))
  }

  /** What get_group and get_ready see of the queues. */
  ghost function TableOf(entries: Entries, queues: Queues): (groups: S.Table)
    requires Cursors(entries, queues)
    ensures |groups| == |entries| && forall i | 0 <= i < |entries| :: groups[i] == GroupOf(entries[i], queues)
  {
    seq(|entries|, i requires 0 <= i < |entries| => GroupOf(entries[i], queues))
  }

  /** The protocol's invariant is what the scheduler needs of its table. */
  lemma SoundTable(s: State, entries: Entries, ptr: nat)
    requires Sound(s) && Cursors(entries, s.queues) && (entries != [] ==> ptr < |entries|)
    ensures S.Sound(S.Sched(TableOf(entries, s.queues), ptr))
  {
    var groups := TableOf(entries, s.queues);
    forall i | 0 <= i < |groups| && groups[i].Some?
      ensures S.GroupSound(groups[i].value)
    {
      assert groups[i] == GroupOf(entries[i], s.queues);
      assert QueueSound(s.procs, entries[i].value.group, s.queues[entries[i].value.group]);
    }
  }

  /** Waking keeps the cursors where they may be. */
  lemma CursorsKept(entries: Entries, queues: Queues, queues': Queues)
    requires Cursors(entries, queues) && Grown(queues, queues')
    ensures Cursors(entries, queues')
  {
  }

  /** A ready process of the highest level is returned within groups_size * queue_size calls. */
  lemma ReadyServed(s: State, entries: Entries, ptr: nat, h: nat, p: ProcId) returns (t: nat)
    requires Sound(s) && Cursors(entries, s.queues) && ptr < |entries| && p in s.procs && s.procs[p].status == Ready
    requires h < |entries| && entries[h].Some? && entries[h].value.group == s.procs[p].group
    requires entries[h].value.priority == S.Level(TableOf(entries, s.queues))
    ensures S.Sound(S.Sched(TableOf(entries, s.queues), ptr)) && s.procs[p].group in s.queues
    ensures t < |entries| * |s.queues[s.procs[p].group].slots|
    ensures S.Returned(S.Sched(TableOf(entries, s.queues), ptr), t) == Some(p)
  {
    var sched, k := S.Sched(TableOf(entries, s.queues), ptr), s.procs[p].queueIdx;
    SoundTable(s, entries, ptr);
    assert InQueue(s.queues, p, s.procs[p]);
    assert sched.groups[h] == GroupOf(entries[h], s.queues);
    assert S.GroupSound(sched.groups[h].value);
    S.OccupiedSome(s.queues[s.procs[p].group].slots);
    t := S.Fair(sched, h, k);
  }

  /** A write to pipe `i` that wakes anybody makes get_ready return every process that waited on it, within
      that many calls, if nothing of a higher priority is ready. */
  lemma WokenServed(s: State, s': State, i: PipeId, entries: Entries, ptr: nat, h: nat, p: ProcId) returns (t: nat)
    requires Sound(s') && WokenBy(s.procs, s'.procs, i) && Grown(s.queues, s'.queues)
    requires Cursors(entries, s.queues) && ptr < |entries| && p in s.procs && Some(i) in s.procs[p].nodes
    requires h < |entries| && entries[h].Some? && entries[h].value.group == s.procs[p].group
    requires Cursors(entries, s'.queues) ==> entries[h].value.priority == S.Level(TableOf(entries, s'.queues))
    ensures Cursors(entries, s'.queues) && S.Sound(S.Sched(TableOf(entries, s'.queues), ptr))
    ensures s.procs[p].group in s'.queues && t < |entries| * |s'.queues[s.procs[p].group].slots|
    ensures S.Returned(S.Sched(TableOf(entries, s'.queues), ptr), t) == Some(p)
  {
    CursorsKept(entries, s.queues, s'.queues);
    t := ReadyServed(s', entries, ptr, h, p);
  }
}
