/**
 Accounting of allocated bytes per stack (echion/memory.h).  The memory table and the
 stack stats have a lock each, so an allocation and a deallocation take two steps, and
 the steps of different threads interleave.
 */
module MemoryAccounting {
  import opened Seqs
  import opened Target

  type ThreadId = nat

  datatype Tracked = Tracked(stack: Key, size: nat)
  datatype Stat = Stat(count: nat, size: int)
  datatype Emission = Emission(stack: Key, size: int)

  // ---------------------------------------------------------------------
  // The atomic operations

  /** An address that is tracked already keeps its entry. */
  function Linked(table: map<Addr, Tracked>, address: Addr, entry: Tracked): map<Addr, Tracked> {
    if address in table then table else table[address := entry]
  }

  function Updated(stats: map<Key, Stat>, stack: Key, size: nat): map<Key, Stat> {
    if stack in stats then stats[stack := Stat(stats[stack].count + 1, stats[stack].size + size)]
    else stats[stack := Stat(1, size)]
  }

  /** A deallocation of a stack without stats is not accounted for. */
  function Released(stats: map<Key, Stat>, entry: Tracked): map<Key, Stat> {
    if entry.stack in stats
    then stats[entry.stack := Stat(stats[entry.stack].count, stats[entry.stack].size - entry.size)]
    else stats
  }

  /** What a flush that meets the stacks in this order emits. */
  function Emissions(stats: map<Key, Stat>, order: seq<Key>): seq<Emission> {
    if order == [] then []
    else
      (if order[0] in stats && stats[order[0]].size != 0 then [Emission(order[0], stats[order[0]].size)] else [])
        + Emissions(stats, order[1..])
  }

  function Reset(stats: map<Key, Stat>): map<Key, Stat> {
    map k | k in stats :: Stat(0, 0)
  }

  ghost predicate Enumerates(order: seq<Key>, keys: set<Key>) {
    NoRepeats(order) && forall k :: k in order <==> k in keys
  }

  class Profiler {
    var table: map<Addr, Tracked>
    var stats: map<Key, Stat>
    var emitted: seq<Emission>

    constructor ()
      ensures table == map[] && stats == map[] && emitted == []
    {
      table, stats, emitted := map[], map[], [];
    }

    method Link(address: Addr, stack: Key, size: nat)
      modifies this`table
      ensures table == Linked(old(table), address, Tracked(stack, size))
      ensures forall k :: Live(table, k)
                == Live(old(table), k) + if address in old(table) then 0 else BytesOf(Tracked(stack, size), k)
    {
      if address !in table {
        forall k { LiveGains(table, address, Tracked(stack, size), k); }
        table := table[address := Tracked(stack, size)];
      }
    }

    method Unlink(address: Addr) returns (found: bool, entry: Tracked)
      modifies this`table
      ensures found <==> address in old(table)
      ensures found ==> entry == old(table)[address]
      ensures table == old(table) - {address}
      ensures forall k :: Live(table, k) == Live(old(table), k) - if found then BytesOf(entry, k) else 0
    {
      entry := Tracked(0, 0);
      found := address in table;
      if found {
        forall k { LiveLoses(table, address, k); }
        entry := table[address];
        table := table - {address};
      } else {
        assert table == table - {address};
      }
    }

    method Update(stack: Key, size: nat)
      modifies this`stats
      ensures stats == Updated(old(stats), stack, size)
      ensures forall k :: PendingBytes(stats, k) == PendingBytes(old(stats), k) + BytesOf(Tracked(stack, size), k)
    {
      if stack !in stats {
        stats := stats[stack := Stat(1, size)];
      } else {
        stats := stats[stack := stats[stack].(count := stats[stack].count + 1)];
        stats := stats[stack := stats[stack].(size := stats[stack].size + size)];
      }
    }

    method Release(entry: Tracked)
      modifies this`stats
      ensures stats == Released(old(stats), entry)
      ensures forall k :: PendingBytes(stats, k)
                == PendingBytes(old(stats), k) - if entry.stack in old(stats) then BytesOf(entry, k) else 0
    {
      if entry.stack in stats {
        stats := stats[entry.stack := stats[entry.stack].(size := stats[entry.stack].size - entry.size)];
      }
    }

    method Flush() returns (ghost order: seq<Key>)
      modifies this`stats, this`emitted
      ensures Enumerates(order, old(stats).Keys)
      ensures emitted == old(emitted) + Emissions(old(stats), order)
      ensures stats == Reset(old(stats))
    {
      hide Enumerates, Emissions;
      order := [];
      var todo := stats.Keys;
      FlushStarts(stats);
      while todo != {}
        invariant todo <= old(stats).Keys && Enumerates(order, old(stats).Keys - todo)
        invariant emitted == old(emitted) + Emissions(old(stats), order)
        invariant stats == map k | k in old(stats) :: if k in todo then old(stats)[k] else Stat(0, 0)
      {
        var stack :| stack in todo;
        assert todo == todo - {stack} + {stack};
        todo := todo - {stack};
        if stats[stack].size != 0 {
          emitted := emitted + [Emission(stack, stats[stack].size)];
        }
        stats := stats[stack := Stat(0, 0)];
        EmissionsAppend(old(stats), order, stack);
        EnumeratesMore(order, old(stats).Keys, todo, stack);
        order := order + [stack];
      }
      assert old(stats).Keys - {} == old(stats).Keys;
    }

    /** general_alloc when no other thread is in between. */
    method GeneralAlloc(address: Addr, stack: Key, size: nat)
      modifies this`table, this`stats
      ensures table == Linked(old(table), address, Tracked(stack, size))
      ensures stats == Updated(old(stats), stack, size)
    {
      Link(address, stack, size);
      Update(stack, size);
    }

    /** general_free when no other thread is in between. */
    method GeneralFree(address: Addr)
      modifies this`table, this`stats
      ensures table == old(table) - {address}
      ensures stats == if address in old(table) then Released(old(stats), old(table)[address]) else old(stats)
    {
      var found, entry := Unlink(address);
      if found {
        Release(entry);
      }
    }

    /**
     echion_realloc: a deallocation, then an allocation if the block was moved or resized.  When the
     reallocation fails (`address` is 0) the old block is no longer tracked, although it is still there.
     */
    method Reallocate(p: Addr, address: Addr, stack: Key, size: nat)
      modifies this`table, this`stats
      ensures var table' := if p != 0 then old(table) - {p} else old(table);
              var stats' := if p != 0 && p in old(table) then Released(old(stats), old(table)[p]) else old(stats);
              && table == (if address != 0 then Linked(table', address, Tracked(stack, size)) else table')
              && stats == (if address != 0 then Updated(stats', stack, size) else stats')
    {
      if p != 0 {
        GeneralFree(p);
      }
      if address != 0 {
        GeneralAlloc(address, stack, size);
      }
    }

    /** The flush that ends a run; it leaves nothing behind. */
    method Teardown() returns (ghost order: seq<Key>)
      modifies this
      ensures Enumerates(order, old(stats).Keys)
      ensures emitted == old(emitted) + Emissions(old(stats), order)
      ensures stats == map[] && table == map[]
    {
      order := Flush();
      stats := map[];
      table := map[];
    }
  }

  lemma FlushStarts(stats: map<Key, Stat>)
    ensures Enumerates([], stats.Keys - stats.Keys) && Emissions(stats, []) == []
  {
  }

  lemma EnumeratesMore(order: seq<Key>, keys: set<Key>, todo: set<Key>, k: Key)
    requires k in keys && k !in todo && Enumerates(order, keys - (todo + {k}))
    ensures Enumerates(order + [k], keys - todo)
  {
  }

  lemma {:induction false} EmissionsAppend(stats: map<Key, Stat>, order: seq<Key>, k: Key)
    ensures Emissions(stats, order + [k])
      == Emissions(stats, order) + if k in stats && stats[k].size != 0 then [Emission(k, stats[k].size)] else []
  {
    if order == [] {
      assert order + [k] == [k];
    } else {
      assert (order + [k])[1..] == order[1..] + [k];
      EmissionsAppend(stats, order[1..], k);
    }
  }

  // ---------------------------------------------------------------------
  // Interleaved runs

  /** A thread between the two steps of an allocation or of a deallocation. */
  datatype Pending = Allocating(address: Addr, entry: Tracked) | Freeing(entry: Tracked)

  datatype State = State(table: map<Addr, Tracked>, stats: map<Key, Stat>, emitted: seq<Emission>,
                         pending: map<ThreadId, Pending>)

  datatype Event =
    | Link(thread: ThreadId, address: Addr, stack: Key, size: nat)
    | Update(thread: ThreadId)
    | Unlink(thread: ThreadId, address: Addr)
    | Release(thread: ThreadId)
    | Flush(order: seq<Key>)

  const Fresh: State := State(map[], map[], [], map[])

  /** The program order of each thread, and the order of the stacks in a flush. */
  ghost predicate Possible(s: State, e: Event) {
    match e
    case Link(t, _, _, _) => t !in s.pending
    case Update(t) => t in s.pending && s.pending[t].Allocating?
    case Unlink(t, _) => t !in s.pending
    case Release(t) => t in s.pending && s.pending[t].Freeing?
    case Flush(order) => Enumerates(order, s.stats.Keys)
  }

  /** A new block is not tracked yet, and a block is freed only when its allocation is through. */
  predicate Orderly(s: State, e: Event) {
    match e
    case Link(_, a, _, _) => a !in s.table
    case Unlink(_, a) => forall t :: t in s.pending && s.pending[t].Allocating? ==> s.pending[t].address != a
    case _ => true
  }

  function Step(s: State, e: Event): State
    requires e.Update? || e.Release? ==> e.thread in s.pending
  {
    match e
    case Link(t, a, stack, size) =>
      s.(table := Linked(s.table, a, Tracked(stack, size)),
         pending := s.pending[t := Allocating(a, Tracked(stack, size))])
    case Update(t) =>
      var entry := s.pending[t].entry;
      s.(stats := Updated(s.stats, entry.stack, entry.size), pending := s.pending - {t})
    case Unlink(t, a) =>
      if a in s.table then s.(table := s.table - {a}, pending := s.pending[t := Freeing(s.table[a])]) else s
    case Release(t) =>
      s.(stats := Released(s.stats, s.pending[t].entry), pending := s.pending - {t})
    case Flush(order) =>
      s.(emitted := s.emitted + Emissions(s.stats, order), stats := Reset(s.stats))
  }

  /** `s` is reached by the events, every one possible and orderly where it happens. */
  ghost predicate Reaches(events: seq<Event>, s: State) {
    if events == [] then s == Fresh
    else
      var last := events[|events| - 1];
      exists before ::
        && Reaches(events[..|events| - 1], before) && Possible(before, last) && Orderly(before, last)
        && s == Step(before, last)
  }

  // ---------------------------------------------------------------------
  // Totals

  ghost function Sum<K>(m: map<K, int>): int {
    if m == map[] then 0 else var k :| k in m; m[k] + Sum(m - {k})
  }

  lemma {:induction false} SumTakesOut<K>(m: map<K, int>, k: K)
    requires k in m
    ensures Sum(m) == m[k] + Sum(m - {k})
  {
    var j :| j in m && Sum(m) == m[j] + Sum(m - {j});
    if j == k {
    } else {
      SumTakesOut(m - {j}, k);
      SumTakesOut(m - {k}, j);
      assert m - {j} - {k} == m - {k} - {j};
    }
  }

  lemma SumPutsIn<K>(m: map<K, int>, k: K, v: int)
    requires k !in m
    ensures Sum(m[k := v]) == Sum(m) + v
  {
    SumTakesOut(m[k := v], k);
    assert m[k := v] - {k} == m;
  }

  lemma {:induction false} SumIsNotNegative<K>(m: map<K, int>)
    requires forall k :: k in m ==> m[k] >= 0
    ensures Sum(m) >= 0
  {
    if m == map[] {
    } else {
      var j :| j in m && Sum(m) == m[j] + Sum(m - {j});
      SumIsNotNegative(m - {j});
    }
  }

  ghost function BytesOf(entry: Tracked, k: Key): int {
    if entry.stack == k then entry.size else 0
  }

  /** The bytes of stack `k` that the memory table says are live. */
  ghost function Live(table: map<Addr, Tracked>, k: Key): int {
    Sum(LiveBytes(table, k))
  }

  ghost function LiveBytes(table: map<Addr, Tracked>, k: Key): map<Addr, int> {
    map a | a in table :: BytesOf(table[a], k)
  }

  /** A pending allocation counts for its bytes, a pending deallocation against them. */
  ghost function Signed(p: Pending, k: Key): int {
    if p.Allocating? then BytesOf(p.entry, k) else -BytesOf(p.entry, k)
  }

  /** In-flight allocations less in-flight deallocations. */
  ghost function InFlight(pending: map<ThreadId, Pending>, k: Key): int {
    Sum(InFlightBytes(pending, k))
  }

  ghost function InFlightBytes(pending: map<ThreadId, Pending>, k: Key): map<ThreadId, int> {
    map t | t in pending :: Signed(pending[t], k)
  }

  function PendingBytes(stats: map<Key, Stat>, k: Key): int {
    if k in stats then stats[k].size else 0
  }

  function Total(emitted: seq<Emission>, k: Key): int {
    if emitted == [] then 0 else (if emitted[0].stack == k then emitted[0].size else 0) + Total(emitted[1..], k)
  }

  /** Bytes emitted, plus those about to be, plus those in flight. */
  ghost function Accounted(s: State, k: Key): int {
    Total(s.emitted, k) + PendingBytes(s.stats, k) + InFlight(s.pending, k)
  }

  /** They are what is live. */
  ghost predicate Balanced(s: State, k: Key) {
    Accounted(s, k) == Live(s.table, k)
  }

  /** Whatever will be released has stats to be released from. */
  ghost predicate HasStats(s: State) {
    && (forall t :: t in s.pending && s.pending[t].Freeing? ==> s.pending[t].entry.stack in s.stats)
    && (forall a :: a in s.table ==>
          s.table[a].stack in s.stats || exists t :: t in s.pending && s.pending[t] == Allocating(a, s.table[a]))
  }

  // ---------------------------------------------------------------------
  // How the totals move

  lemma LiveGains(table: map<Addr, Tracked>, a: Addr, entry: Tracked, k: Key)
    requires a !in table
    ensures Live(table[a := entry], k) == Live(table, k) + BytesOf(entry, k)
  {
    SumPutsIn(LiveBytes(table, k), a, BytesOf(entry, k));
    assert LiveBytes(table[a := entry], k) == LiveBytes(table, k)[a := BytesOf(entry, k)];
  }

  lemma LiveLoses(table: map<Addr, Tracked>, a: Addr, k: Key)
    requires a in table
    ensures Live(table - {a}, k) == Live(table, k) - BytesOf(table[a], k)
  {
    LiveGains(table - {a}, a, table[a], k);
    assert (table - {a})[a := table[a]] == table;
  }

  lemma LiveIsNotNegative(table: map<Addr, Tracked>, k: Key)
    ensures Live(table, k) >= 0
  {
    SumIsNotNegative(LiveBytes(table, k));
  }

  lemma InFlightGains(pending: map<ThreadId, Pending>, t: ThreadId, p: Pending, k: Key)
    requires t !in pending
    ensures InFlight(pending[t := p], k) == InFlight(pending, k) + Signed(p, k)
  {
    SumPutsIn(InFlightBytes(pending, k), t, Signed(p, k));
    assert InFlightBytes(pending[t := p], k) == InFlightBytes(pending, k)[t := Signed(p, k)];
  }

  lemma InFlightLoses(pending: map<ThreadId, Pending>, t: ThreadId, k: Key)
    requires t in pending
    ensures InFlight(pending - {t}, k) == InFlight(pending, k) - Signed(pending[t], k)
  {
    InFlightGains(pending - {t}, t, pending[t], k);
    assert (pending - {t})[t := pending[t]] == pending;
  }

  lemma {:induction false} TotalConcat(a: seq<Emission>, b: seq<Emission>, k: Key)
    ensures Total(a + b, k) == Total(a, k) + Total(b, k)
  {
    if a == [] {
      assert a + b == b;
    } else {
      assert (a + b)[1..] == a[1..] + b;
      TotalConcat(a[1..], b, k);
    }
  }

  /** A flush emits, for each stack it meets, exactly what was pending for it. */
  lemma {:induction false} EmissionsTotal(stats: map<Key, Stat>, order: seq<Key>, k: Key)
    requires NoRepeats(order)
    ensures Total(Emissions(stats, order), k) == if k in order then PendingBytes(stats, k) else 0
  {
    if order == [] {
    } else {
      var emits := order[0] in stats && stats[order[0]].size != 0;
      var first := if emits then [Emission(order[0], stats[order[0]].size)] else [];
      EmissionsTotal(stats, order[1..], k);
      TotalConcat(first, Emissions(stats, order[1..]), k);
    }
  }

  // ---------------------------------------------------------------------
  // Conservation

  lemma StepKeepsStats(s: State, e: Event)
    requires HasStats(s) && Possible(s, e) && Orderly(s, e)
    ensures HasStats(Step(s, e))
  {
    var s' := Step(s, e);
    forall a | a in s'.table
      ensures || s'.table[a].stack in s'.stats
              || exists t :: t in s'.pending && s'.pending[t] == Allocating(a, s'.table[a])
    {
      if e.Link? && a == e.address {
        assert s'.pending[e.thread] == Allocating(a, s'.table[a]);
      } else if s'.table[a].stack !in s'.stats {
        var t :| t in s.pending && s.pending[t] == Allocating(a, s.table[a]);
        assert t in s'.pending && s'.pending[t] == Allocating(a, s'.table[a]);
      }
    }
  }

  /** What a step adds to the bytes accounted for beyond the live ones. */
  ghost function Leak(s: State, e: Event, k: Key): int
    requires Possible(s, e)
  {
    match e
    case Link(_, a, stack, size) => if a in s.table then BytesOf(Tracked(stack, size), k) else 0
    case Release(t) => if s.pending[t].entry.stack in s.stats then 0 else BytesOf(s.pending[t].entry, k)
    case _ => 0
  }

  /** Every possible step moves accounted and live bytes together, but for its leak. */
  lemma StepLeaks(s: State, e: Event, k: Key)
    requires Possible(s, e)
    ensures Accounted(Step(s, e), k) - Live(Step(s, e).table, k) == Accounted(s, k) - Live(s.table, k) + Leak(s, e, k)
  {
    match e
    case Link(t, a, stack, size) =>
      if a !in s.table { LiveGains(s.table, a, Tracked(stack, size), k); }
      InFlightGains(s.pending, t, Allocating(a, Tracked(stack, size)), k);
    case Update(t) =>
      InFlightLoses(s.pending, t, k);
    case Unlink(t, a) =>
      if a in s.table {
        LiveLoses(s.table, a, k);
        InFlightGains(s.pending, t, Freeing(s.table[a]), k);
      }
    case Release(t) =>
      InFlightLoses(s.pending, t, k);
    case Flush(order) =>
      EmissionsTotal(s.stats, order, k);
      TotalConcat(s.emitted, Emissions(s.stats, order), k);
  }

  /** Bytes are conserved, stack by stack, over every interleaving of orderly threads and flushes. */
  lemma {:induction false} BytesAreConserved(events: seq<Event>, s: State, k: Key)
    requires Reaches(events, s)
    ensures Balanced(s, k) && HasStats(s)
  {
    if events == [] {
    } else {
      var last := events[|events| - 1];
      var before :|
        && Reaches(events[..|events| - 1], before) && Possible(before, last) && Orderly(before, last)
        && s == Step(before, last);
      BytesAreConserved(events[..|events| - 1], before, k);
      StepKeepsStats(before, last);
      StepLeaks(before, last, k);
    }
  }

  /** After the last flush, with no thread in between, the total emitted for a stack is its live bytes. */
  lemma TotalsAfterTeardown(events: seq<Event>, s: State, order: seq<Key>, k: Key)
    requires Reaches(events, s) && s.pending == map[] && Enumerates(order, s.stats.Keys)
    ensures Total(s.emitted + Emissions(s.stats, order), k) == Live(s.table, k) >= 0
  {
    BytesAreConserved(events, s, k);
    EmissionsTotal(s.stats, order, k);
    TotalConcat(s.emitted, Emissions(s.stats, order), k);
    LiveIsNotNegative(s.table, k);
  }

  // ---------------------------------------------------------------------
  // Exactly when

  /** What a step must not do: link a tracked address, or release what has no stats; empty blocks do not matter. */
  ghost predicate Conserving(s: State, e: Event)
    requires Possible(s, e)
  {
    && (e.Link? ==> e.address !in s.table || e.size == 0)
    && (e.Release? ==> s.pending[e.thread].entry.stack in s.stats || s.pending[e.thread].entry.size == 0)
  }

  /** A step keeps all stacks balanced iff it is conserving. */
  lemma StepConservesIff(s: State, e: Event)
    requires Possible(s, e) && forall k :: Balanced(s, k)
    ensures (forall k :: Balanced(Step(s, e), k)) <==> Conserving(s, e)
  {
    forall k
      ensures Balanced(Step(s, e), k) <==> Leak(s, e, k) == 0
    {
      assert Balanced(s, k);
      StepLeaks(s, e, k);
    }
    if !Conserving(s, e) {
      assert Leak(s, e, LeakingStack(s, e)) != 0;
    }
  }

  function LeakingStack(s: State, e: Event): Key {
    match e
    case Link(_, _, stack, _) => stack
    case Release(t) => if t in s.pending then s.pending[t].entry.stack else 0
    case _ => 0
  }

  /** Any run of steps that are possible where they happen, orderly or not. */
  ghost predicate IsRun(states: seq<State>, events: seq<Event>) {
    && |states| == |events| + 1 && states[0] == Fresh
    && forall i :: 0 <= i < |events| ==> Follows(states[i], events[i], states[i + 1])
  }

  ghost predicate Follows(s: State, e: Event, s': State) {
    Possible(s, e) && s' == Step(s, e)
  }

  ghost predicate ConservingAt(states: seq<State>, events: seq<Event>, i: nat)
    requires IsRun(states, events) && i < |events|
  {
    assert Follows(states[i], events[i], states[i + 1]);
    Conserving(states[i], events[i])
  }

  /** What the first `n` steps leaked. */
  ghost function Leaked(states: seq<State>, events: seq<Event>, n: nat, k: Key): int
    requires IsRun(states, events) && n <= |events|
  {
    if n == 0 then 0
    else
      assert Follows(states[n - 1], events[n - 1], states[n - 1 + 1]);
      Leaked(states, events, n - 1, k) + Leak(states[n - 1], events[n - 1], k)
  }

  /** Over every run, what is accounted for is what is live and what was leaked. */
  lemma {:induction false} AccountedIsLiveAndLeaked(states: seq<State>, events: seq<Event>, n: nat, k: Key)
    requires IsRun(states, events) && n <= |events|
    ensures Accounted(states[n], k) == Live(states[n].table, k) + Leaked(states, events, n, k)
  {
    if n == 0 {
    } else {
      AccountedIsLiveAndLeaked(states, events, n - 1, k);
      assert Follows(states[n - 1], events[n - 1], states[n - 1 + 1]);
      StepLeaks(states[n - 1], events[n - 1], k);
    }
  }

  lemma LeakedStep(states: seq<State>, events: seq<Event>, n: nat, k: Key)
    requires IsRun(states, events) && n < |events|
    ensures Possible(states[n], events[n]) && Leak(states[n], events[n], k) >= 0
    ensures Leaked(states, events, n + 1, k) == Leaked(states, events, n, k) + Leak(states[n], events[n], k)
  {
    assert Follows(states[n], events[n], states[n + 1]);
  }

  /** Nothing leaked is ever made up for. */
  lemma {:induction false} LeakedGrows(states: seq<State>, events: seq<Event>, m: nat, n: nat, k: Key)
    requires IsRun(states, events) && m <= n <= |events|
    ensures 0 <= Leaked(states, events, m, k) <= Leaked(states, events, n, k)
    decreases n
  {
    hide IsRun, Leak;
    if n == 0 {
    } else if m < n {
      LeakedGrows(states, events, m, n - 1, k);
      LeakedStep(states, events, n - 1, k);
    } else {
      LeakedGrows(states, events, n - 1, n - 1, k);
      LeakedStep(states, events, n - 1, k);
    }
  }

  lemma LeaksUnlessConserving(states: seq<State>, events: seq<Event>, i: nat, k: Key)
    requires IsRun(states, events) && i < |events|
    ensures ConservingAt(states, events, i) ==> Leaked(states, events, i + 1, k) == Leaked(states, events, i, k)
    ensures !ConservingAt(states, events, i) && k == LeakingStack(states[i], events[i]) ==>
              Leaked(states, events, i + 1, k) > Leaked(states, events, i, k)
  {
    LeakedStep(states, events, i, k);
  }

  /** A run conserves the bytes of every stack iff each of its steps is conserving. */
  lemma RunConservesIff(states: seq<State>, events: seq<Event>)
    requires IsRun(states, events)
    ensures (forall k :: Balanced(states[|events|], k))
      <==> forall i :: 0 <= i < |events| ==> ConservingAt(states, events, i)
  {
    if i :| 0 <= i < |events| && !ConservingAt(states, events, i) {
      var k := LeakingStack(states[i], events[i]);
      LeaksUnlessConserving(states, events, i, k);
      LeakedGrows(states, events, i, i, k);
      LeakedGrows(states, events, i + 1, |events|, k);
      AccountedIsLiveAndLeaked(states, events, |events|, k);
      assert !Balanced(states[|events|], k);
    } else {
      forall k
        ensures Balanced(states[|events|], k)
      {
        NothingLeaked(states, events, |events|, k);
        AccountedIsLiveAndLeaked(states, events, |events|, k);
      }
    }
  }

  lemma {:induction false} NothingLeaked(states: seq<State>, events: seq<Event>, n: nat, k: Key)
    requires IsRun(states, events) && n <= |events|
    requires forall i :: 0 <= i < |events| ==> ConservingAt(states, events, i)
    ensures Leaked(states, events, n, k) == 0
  {
    if n == 0 {
    } else {
      NothingLeaked(states, events, n - 1, k);
      LeaksUnlessConserving(states, events, n - 1, k);
    }
  }

  /** Whatever leaked, what is emitted for a stack in the end is at least its live bytes, so never negative. */
  lemma TotalsAfterAnyRun(states: seq<State>, events: seq<Event>, order: seq<Key>, k: Key)
    requires IsRun(states, events)
    requires var s := states[|events|]; s.pending == map[] && Enumerates(order, s.stats.Keys)
    ensures var s := states[|events|];
            Total(s.emitted + Emissions(s.stats, order), k)
              == Live(s.table, k) + Leaked(states, events, |events|, k) >= Live(s.table, k) >= 0
  {
    var s := states[|events|];
    AccountedIsLiveAndLeaked(states, events, |events|, k);
    LeakedGrows(states, events, |events|, |events|, k);
    EmissionsTotal(s.stats, order, k);
    TotalConcat(s.emitted, Emissions(s.stats, order), k);
    LiveIsNotNegative(s.table, k);
  }

  /** How many allocations from stack `k` were accounted for by the first `n` steps since the last flush among them. */
  ghost function UpdatesSinceFlush(states: seq<State>, events: seq<Event>, n: nat, k: Key): nat
    requires IsRun(states, events) && n <= |events|
  {
    if n == 0 || events[n - 1].Flush? then 0
    else
      assert Follows(states[n - 1], events[n - 1], states[n - 1 + 1]);
      var isUpdate := events[n - 1].Update? && states[n - 1].pending[events[n - 1].thread].entry.stack == k;
      UpdatesSinceFlush(states, events, n - 1, k) + if isUpdate then 1 else 0
  }

  /** Over every run, orderly or not, the count of a stack is that. */
  lemma {:induction false} CountsAreUpdates(states: seq<State>, events: seq<Event>, n: nat, k: Key)
    requires IsRun(states, events) && n <= |events|
    ensures (if k in states[n].stats then states[n].stats[k].count else 0) == UpdatesSinceFlush(states, events, n, k)
  {
    if n == 0 {
    } else {
      CountsAreUpdates(states, events, n - 1, k);
      assert Follows(states[n - 1], events[n - 1], states[n - 1 + 1]);
    }
  }

  /**
   An allocation that passes through two of the hooked domains is linked twice and freed twice, but its bytes are
   taken off once: they are accounted for after the block is gone.
   */
  lemma NestedDomainsLeak(a: Addr, stack: Key, size: nat) returns (states: seq<State>)
    requires size > 0
    ensures IsRun(states, NestedAllocation(a, stack, size))
    ensures var s := states[|NestedAllocation(a, stack, size)|];
            s.table == map[] && s.pending == map[] && PendingBytes(s.stats, stack) == size
  {
    var events := NestedAllocation(a, stack, size);
    var s1 := Step(Fresh, events[0]);
    var s2 := Step(s1, events[1]);
    var s3 := Step(s2, events[2]);
    var s4 := Step(s3, events[3]);
    var s5 := Step(s4, events[4]);
    var s6 := Step(s5, events[5]);
    states := [Fresh, s1, s2, s3, s4, s5, s6, Step(s6, events[6])];
    assert Follows(states[0], events[0], states[1]) && Follows(states[1], events[1], states[2]);
    assert Follows(states[2], events[2], states[3]) && Follows(states[3], events[3], states[4]);
    assert Follows(states[4], events[4], states[5]) && Follows(states[5], events[5], states[6]);
  }

  function NestedAllocation(a: Addr, stack: Key, size: nat): seq<Event> {
    [Link(1, a, stack, size), Update(1), Link(1, a, stack, size), Update(1), Unlink(1, a), Release(1), Unlink(1, a)]
  }
}
