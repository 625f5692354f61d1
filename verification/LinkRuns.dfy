/**
 The gather links over whole runs of link_tasks and samples of one event loop
 (echion/coremodule.cc:493-507, echion/threads.h:242-285).
 */
module LinkRuns {
  import opened Seqs
  import opened Target
  import opened TaskBuild
  import opened TaskStitch
  import opened Wrappers

  datatype Event =
    | Link(parent: Addr, child: Addr)
    | Sample(snapshot: set<Addr>)
    | FailedSample

  /** What TaskUnwinder keeps between events. */
  datatype State = State(links: map<Addr, Addr>, previous: set<Addr>)

  /** What an event does to the links; Perform ties it to the object. */
  function Step(st: State, e: Event): State {
    match e
    case Link(parent, child) => st.(links := st.links[child := parent])
    case Sample(snapshot) => State(CleanLinks(st.links, st.previous, snapshot), snapshot)
    case FailedSample => st
  }

  /** What is called on the object. */
  datatype Op =
    | CallLinkTasks(parent: Addr, child: Addr)
    | CallUnwindTasks(thread: Thread, allTasks: Option<seq<TaskInfo>>, onlyRunning: bool)

  function EventOf(op: Op): Event {
    match op
    case CallLinkTasks(parent, child) => Link(parent, child)
    case CallUnwindTasks(_, allTasks, _) =>
      if allTasks.Some? then Sample(OriginsOf(allTasks.value)) else FailedSample
  }

  function StateOf(unwinder: TaskUnwinder): State
    reads unwinder
  {
    State(unwinder.taskLinkMap, unwinder.previousTaskObjects)
  }

  /** Every call is the step of a run that it stands for. */
  method Perform(unwinder: TaskUnwinder, op: Op)
    requires op.CallUnwindTasks? && op.allTasks.Some? ==>
               LeafChainsEnd(unwinder.Cleaned(op.allTasks.value), op.onlyRunning)
    modifies unwinder
    ensures StateOf(unwinder) == Step(old(StateOf(unwinder)), EventOf(op))
  {
    match op {
      case CallLinkTasks(parent, child) => unwinder.LinkTasks(parent, child);
      case CallUnwindTasks(thread, allTasks, onlyRunning) =>
        var ok := unwinder.UnwindTasks(thread, allTasks, onlyRunning);
    }
  }

  function Run(events: seq<Event>, n: nat): State
    requires n <= |events|
  {
    if n == 0 then State(map[], {}) else Step(Run(events, n - 1), events[n - 1])
  }

  /** The snapshot of the last sample among the first `n` events. */
  function LastSnapshot(events: seq<Event>, n: nat): set<Addr>
    requires n <= |events|
  {
    if n == 0 then {}
    else if events[n - 1].Sample? then events[n - 1].snapshot
    else LastSnapshot(events, n - 1)
  }

  /** Event `j` is a sample that finds `child` gone since the sample before. */
  predicate FindsGone(events: seq<Event>, j: nat, child: Addr)
    requires j < |events|
  {
    events[j].Sample? && child !in events[j].snapshot && child in LastSnapshot(events, j)
  }

  /** Event `i` links `child`, and neither a later link nor a sample undoes it before event `n`. */
  ghost predicate LinkedSince(events: seq<Event>, i: nat, n: nat, child: Addr)
    requires i < n <= |events|
  {
    && events[i].Link? && events[i].child == child
    && forall j :: i < j < n ==> !(events[j].Link? && events[j].child == child) && !FindsGone(events, j, child)
  }

  lemma {:induction false} PreviousIsLastSnapshot(events: seq<Event>, n: nat)
    requires n <= |events|
    ensures Run(events, n).previous == LastSnapshot(events, n)
  {
    if n == 0 {
    } else {
      PreviousIsLastSnapshot(events, n - 1);
    }
  }

  /**
   A sample never drops a link whose child is in its snapshot or was absent from the snapshot before,
   and drops every other one; what it keeps, it keeps unchanged.
   */
  lemma SampleDropsExactly(events: seq<Event>, n: nat, child: Addr)
    requires n < |events| && events[n].Sample?
    ensures var before, after := Run(events, n).links, Run(events, n + 1).links;
            && (child in after <==> child in before && !FindsGone(events, n, child))
            && (child in after ==> after[child] == before[child])
  {
    PreviousIsLastSnapshot(events, n);
  }

  /** Over a whole run, a child is linked to a parent exactly when some event linked it and nothing undid it. */
  lemma {:induction false} LinkedExactlySince(events: seq<Event>, n: nat, child: Addr)
    requires n <= |events|
    ensures child in Run(events, n).links <==> exists i :: 0 <= i < n && LinkedSince(events, i, n, child)
    ensures forall i :: 0 <= i < n && LinkedSince(events, i, n, child) ==>
              child in Run(events, n).links && Run(events, n).links[child] == events[i].parent
  {
    if n == 0 {
    } else {
      LinkedExactlySince(events, n - 1, child);
      PreviousIsLastSnapshot(events, n - 1);
      var e := events[n - 1];
      if e.Link? && e.child == child {
        assert LinkedSince(events, n - 1, n, child);
      } else if !FindsGone(events, n - 1, child) {
        if child in Run(events, n - 1).links {
          var i :| 0 <= i < n - 1 && LinkedSince(events, i, n - 1, child);
          assert LinkedSince(events, i, n, child);
        }
        forall i | 0 <= i < n && LinkedSince(events, i, n, child)
          ensures i < n - 1 && LinkedSince(events, i, n - 1, child)
        {
        }
      }
    }
  }

  lemma {:induction false} RunOfPrefix(a: seq<Event>, b: seq<Event>, n: nat)
    requires n <= |a| && n <= |b| && forall i :: 0 <= i < n ==> a[i] == b[i]
    ensures Run(a, n) == Run(b, n)
  {
    if n == 0 {
    } else {
      RunOfPrefix(a, b, n - 1);
    }
  }

  /** The two link maps agree but for one child. */
  ghost predicate AgreeButFor(a: map<Addr, Addr>, b: map<Addr, Addr>, child: Addr) {
    forall c :: c != child ==> (c in a <==> c in b) && (c in a ==> a[c] == b[c])
  }

  /** A link is about its own child only, for the rest of the run: without it, all others are linked as they are. */
  lemma {:induction false} LinkTouchesOnlyItsChild(events: seq<Event>, i: nat, n: nat)
    requires i < n <= |events| && events[i].Link?
    ensures Run(events, n).previous == Run(RemoveAt(events, i), n - 1).previous
    ensures AgreeButFor(Run(events, n).links, Run(RemoveAt(events, i), n - 1).links, events[i].child)
  {
    var others := RemoveAt(events, i);
    if n == i + 1 {
      RunOfPrefix(events, others, i);
    } else {
      LinkTouchesOnlyItsChild(events, i, n - 1);
      assert others[n - 2] == events[n - 1];
    }
  }
}
