/**
 The frame cache under Frame::get (echion/frame.cc:392-422): what any sequence of
 gets leaves in it, and how long a reference stays good.
 */
module FrameCache {
  import opened Seqs
  import opened Target
  import opened Wrappers
  import opened LruCache
  import F = Frames

  /** A get: the key, and what creating the value would give on a miss. */
  datatype Access<K, V> = Access(key: K, made: Option<V>)

  datatype Outcome<K, V> = Hit(key: K, value: V) | Made(key: K, value: V) | Failed(key: K)

  type History<K, V> = seq<Outcome<K, V>>

  function OutcomeOf<K(==), V>(es: seq<Entry<K, V>>, a: Access<K, V>): Outcome<K, V> {
    var i := Position(es, a.key);
    if i < |es| then Hit(a.key, es[i].value)
    else if a.made.Some? then Made(a.key, a.made.value)
    else Failed(a.key)
  }

  function Get<K(==), V>(es: seq<Entry<K, V>>, capacity: nat, a: Access<K, V>): seq<Entry<K, V>>
    requires 1 <= capacity
  {
    match OutcomeOf(es, a)
    case Hit(k, _) => Touched(es, k)
    case Made(k, v) => Stored(es, capacity, Entry(k, v))
    case Failed(_) => es
  }

  /** The cache after the first `n` gets. */
  function Run<K(==), V>(es: seq<Entry<K, V>>, capacity: nat, gets: seq<Access<K, V>>, n: nat): seq<Entry<K, V>>
    requires 1 <= capacity && n <= |gets|
  {
    if n == 0 then es else Get(Run(es, capacity, gets, n - 1), capacity, gets[n - 1])
  }

  /** The outcome of each get. */
  function Outcomes<K(==), V>(es: seq<Entry<K, V>>, capacity: nat, gets: seq<Access<K, V>>): (os: History<K, V>)
    requires 1 <= capacity
    ensures |os| == |gets|
    ensures forall n {:trigger os[n]} :: 0 <= n < |gets| ==> os[n] == OutcomeOf(Run(es, capacity, gets, n), gets[n])
  {
    seq(|gets|, n requires 0 <= n < |gets| => OutcomeOf(Run(es, capacity, gets, n), gets[n]))
  }

  /** More gets to come change nothing. */
  lemma {:induction false} RunOfPrefix<K, V>(es: seq<Entry<K, V>>, capacity: nat,
                                             a: seq<Access<K, V>>, b: seq<Access<K, V>>, n: nat)
    requires 1 <= capacity && n <= |a|
    ensures Run(es, capacity, a + b, n) == Run(es, capacity, a, n)
  {
    hide Get;
    if n == 0 {
    } else {
      RunOfPrefix(es, capacity, a, b, n - 1);
    }
  }

  // ---------------------------------------------------------------------
  // The most recently used distinct keys

  function Without<K(==), V>(es: seq<Entry<K, V>>, k: K): seq<Entry<K, V>> {
    var i := Position(es, k);
    if i < |es| then RemoveAt(es, i) else es
  }

  /** A recency list after one more use: its key comes first, with the value it has now. */
  function Recorded<K(==), V>(r: seq<Entry<K, V>>, o: Outcome<K, V>): seq<Entry<K, V>> {
    if o.Failed? then r else [Entry(o.key, o.value)] + Without(r, o.key)
  }

  /**
   The distinct keys of the first `n` uses, the one used last first, each with the value it then had; behind
   them what there was before.
   */
  function Recent<K(==), V>(es: seq<Entry<K, V>>, os: History<K, V>, n: nat): seq<Entry<K, V>>
    requires n <= |os|
  {
    if n == 0 then es else Recorded(Recent(es, os, n - 1), os[n - 1])
  }

  /** One more than the position of the last successful use of `k` among the first `n`; 0 if there is none. */
  function LastUse<K(==), V>(os: History<K, V>, n: nat, k: K): (m: nat)
    requires n <= |os|
    ensures m <= n
    ensures m > 0 ==> !os[m - 1].Failed? && os[m - 1].key == k
    ensures forall j :: m <= j < n ==> os[j].Failed? || os[j].key != k
  {
    if n == 0 then 0
    else if !os[n - 1].Failed? && os[n - 1].key == k then n
    else LastUse(os, n - 1, k)
  }

  lemma WithoutKeeps<K, V>(es: seq<Entry<K, V>>, k: K, other: K)
    requires other != k
    ensures Holds(Without(es, k), other) <==> Holds(es, other)
  {
    var i := Position(es, k);
    var r := Without(es, k);
    if i < |es| && Holds(es, other) {
      var j :| 0 <= j < |es| && es[j].key == other;
      assert r[if j < i then j else j - 1].key == other;
    }
    if i < |es| && Holds(r, other) {
      var j :| 0 <= j < |r| && r[j].key == other;
      assert es[if j < i then j else j + 1].key == other;
    }
  }

  lemma WithoutSkips<K, V>(es: seq<Entry<K, V>>, k: K, i: nat)
    requires i < |Without(es, k)|
    ensures var j := if i < Position(es, k) then i else i + 1;
            j < |es| && Without(es, k)[i] == es[j]
  {
  }

  lemma WithoutShape<K, V>(es: seq<Entry<K, V>>, k: K)
    requires DistinctKeys(es)
    ensures DistinctKeys(Without(es, k))
    ensures forall i :: 0 <= i < |Without(es, k)| ==>
              Without(es, k)[i].key != k && Without(es, k)[i] == es[if i < Position(es, k) then i else i + 1]
  {
    var w := Without(es, k);
    forall i | 0 <= i < |w|
      ensures w[i].key != k
    {
      WithoutSkips(es, k, i);
    }
    forall i, j | 0 <= i < j < |w|
      ensures w[i].key != w[j].key
    {
      WithoutSkips(es, k, i);
      WithoutSkips(es, k, j);
    }
  }

  lemma RecordedHasDistinctKeys<K, V>(r: seq<Entry<K, V>>, o: Outcome<K, V>)
    requires DistinctKeys(r)
    ensures DistinctKeys(Recorded(r, o))
    ensures !o.Failed? ==> |Recorded(r, o)| == if Position(r, o.key) < |r| then |r| else |r| + 1
  {
    WithoutShape(r, o.key);
  }

  lemma RecordedHolds<K, V>(r: seq<Entry<K, V>>, o: Outcome<K, V>, k: K)
    ensures Holds(Recorded(r, o), k) <==> Holds(r, k) || (!o.Failed? && o.key == k)
  {
    if !o.Failed? {
      var w := Without(r, o.key);
      assert Recorded(r, o)[0].key == o.key;
      assert forall i :: 0 <= i < |w| ==> Recorded(r, o)[i + 1] == w[i];
      if k != o.key { WithoutKeeps(r, o.key, k); }
      if Holds(w, k) {
        var i :| 0 <= i < |w| && w[i].key == k;
        assert Recorded(r, o)[i + 1].key == k;
      }
    }
  }

  /** Where the entry at `i` was before the last use; it is not the one of that use. */
  function PlaceBefore<K(==), V>(r: seq<Entry<K, V>>, o: Outcome<K, V>, i: nat): nat
    requires i > 0
  {
    if i - 1 < Position(r, o.key) then i - 1 else i
  }

  lemma RecordedStep<K, V>(r: seq<Entry<K, V>>, o: Outcome<K, V>, i: nat)
    requires DistinctKeys(r) && !o.Failed? && 0 < i < |Recorded(r, o)|
    ensures var j := PlaceBefore(r, o, i);
            j < |r| && Recorded(r, o)[i] == r[j] && r[j].key != o.key
  {
    WithoutShape(r, o.key);
    assert Recorded(r, o)[i] == Without(r, o.key)[i - 1];
  }

  lemma RecordedFirst<K, V>(r: seq<Entry<K, V>>, o: Outcome<K, V>)
    requires !o.Failed?
    ensures Recorded(r, o) != [] && Recorded(r, o)[0] == Entry(o.key, o.value)
  {
  }

  lemma FailedRecordsNothing<K, V>(r: seq<Entry<K, V>>, o: Outcome<K, V>)
    requires o.Failed?
    ensures Recorded(r, o) == r
  {
  }

  lemma {:induction false} RecentHasDistinctKeys<K, V>(es: seq<Entry<K, V>>, os: History<K, V>, n: nat)
    requires DistinctKeys(es) && n <= |os|
    ensures DistinctKeys(Recent(es, os, n))
  {
    if n == 0 {
    } else {
      RecentHasDistinctKeys(es, os, n - 1);
      RecordedHasDistinctKeys(Recent(es, os, n - 1), os[n - 1]);
    }
  }

  /** The recency list holds the keys that were used successfully, and those there were before. */
  lemma {:induction false} RecentHoldsTheUsed<K, V>(es: seq<Entry<K, V>>, os: History<K, V>, n: nat, k: K)
    requires n <= |os|
    ensures Holds(Recent(es, os, n), k) <==> LastUse(os, n, k) > 0 || Holds(es, k)
  {
    if n == 0 {
    } else {
      RecentHoldsTheUsed(es, os, n - 1, k);
      RecordedHolds(Recent(es, os, n - 1), os[n - 1], k);
    }
  }

  /** Every entry has the value of the last use of its key or, if there was none, is one there was before. */
  lemma {:induction false} RecentHasLastValues<K, V>(es: seq<Entry<K, V>>, os: History<K, V>, n: nat, i: nat)
    requires DistinctKeys(es) && n <= |os| && i < |Recent(es, os, n)|
    ensures var e := Recent(es, os, n)[i];
            if LastUse(os, n, e.key) > 0 then os[LastUse(os, n, e.key) - 1].value == e.value else e in es
  {
    hide Recorded, PlaceBefore;
    if n == 0 {
    } else if os[n - 1].Failed? {
      FailedRecordsNothing(Recent(es, os, n - 1), os[n - 1]);
      RecentHasLastValues(es, os, n - 1, i);
    } else if i == 0 {
      RecordedFirst(Recent(es, os, n - 1), os[n - 1]);
    } else {
      RecentHasDistinctKeys(es, os, n - 1);
      RecordedStep(Recent(es, os, n - 1), os[n - 1], i);
      RecentHasLastValues(es, os, n - 1, PlaceBefore(Recent(es, os, n - 1), os[n - 1], i));
    }
  }

  /** The entries are in the order of the last use of their keys, the latest first. */
  lemma {:induction false} RecentIsByLastUse<K, V>(es: seq<Entry<K, V>>, os: History<K, V>, n: nat, i: nat, j: nat)
    requires DistinctKeys(es) && n <= |os| && i < j < |Recent(es, os, n)|
    ensures var r := Recent(es, os, n);
            && LastUse(os, n, r[i].key) >= LastUse(os, n, r[j].key)
            && (LastUse(os, n, r[j].key) > 0 ==> LastUse(os, n, r[i].key) > LastUse(os, n, r[j].key))
  {
    hide Recorded;
    if n == 0 {
    } else if os[n - 1].Failed? {
      FailedRecordsNothing(Recent(es, os, n - 1), os[n - 1]);
      RecentIsByLastUse(es, os, n - 1, i, j);
    } else {
      var before, o := Recent(es, os, n - 1), os[n - 1];
      RecordedFirst(before, o);
      RecentHasDistinctKeys(es, os, n - 1);
      RecordedStep(before, o, j);
      if i > 0 {
        RecordedStep(before, o, i);
        RecentIsByLastUse(es, os, n - 1, PlaceBefore(before, o, i), PlaceBefore(before, o, j));
      }
    }
  }

  lemma SpliceKeepsDistinctKeys<K, V>(es: seq<Entry<K, V>>, i: nat)
    requires DistinctKeys(es) && i < |es|
    ensures DistinctKeys(Splice(es, i)) && |Splice(es, i)| == |es|
  {
    var r := Splice(es, i);
    forall j, l | 0 <= j < l < |r|
      ensures r[j].key != r[l].key
    {
      assert r[j] == es[if j == 0 then i else if j <= i then j - 1 else j];
      assert r[l] == es[if l <= i then l - 1 else l];
    }
  }

  lemma StoreKeepsWellFormed<K, V>(es: seq<Entry<K, V>>, capacity: nat, e: Entry<K, V>)
    requires WellFormed(es, capacity) && !Holds(es, e.key)
    ensures WellFormed(Stored(es, capacity, e), capacity)
  {
    var r := Stored(es, capacity, e);
    forall j, l | 0 <= j < l < |r|
      ensures r[j].key != r[l].key
    {
      assert r[l] == es[l - 1];
      if j > 0 { assert r[j] == es[j - 1]; }
    }
  }

  lemma GetKeepsWellFormed<K, V>(es: seq<Entry<K, V>>, capacity: nat, a: Access<K, V>)
    requires WellFormed(es, capacity)
    ensures WellFormed(Get(es, capacity, a), capacity)
  {
    HoldsMeansPosition(es, a.key);
    match OutcomeOf(es, a)
    case Hit(_, _) => SpliceKeepsDistinctKeys(es, Position(es, a.key));
    case Made(k, v) => StoreKeepsWellFormed(es, capacity, Entry(k, v));
    case Failed(_) =>
  }

  lemma HoldsMeansPosition<K, V>(es: seq<Entry<K, V>>, k: K)
    ensures Holds(es, k) <==> Position(es, k) < |es|
  {
  }

  lemma {:induction false} RunIsWellFormed<K, V>(es: seq<Entry<K, V>>, capacity: nat, gets: seq<Access<K, V>>, n: nat)
    requires WellFormed(es, capacity) && n <= |gets|
    ensures WellFormed(Run(es, capacity, gets, n), capacity)
  {
    if n == 0 {
    } else {
      RunIsWellFormed(es, capacity, gets, n - 1);
      GetKeepsWellFormed(Run(es, capacity, gets, n - 1), capacity, gets[n - 1]);
    }
  }

  /** A get on the first `capacity` entries of a recency list leaves the first `capacity` of the new one. */
  lemma GetTracksRecent<K, V>(r: seq<Entry<K, V>>, capacity: nat, a: Access<K, V>)
    requires 1 <= capacity && DistinctKeys(r)
    ensures var es := Take(r, capacity);
            var o := OutcomeOf(es, a);
            Get(es, capacity, a) == Take(Recorded(r, o), capacity)
  {
    var es := Take(r, capacity);
    var i := Position(es, a.key);
    if i < |es| {
      PositionIs(r, a.key, i);
      TakeSpliced(r, capacity, i);
    } else if a.made.Some? {
      TakeStored(r, capacity, Entry(a.key, a.made.value));
    }
  }

  lemma TakeSpliced<K, V>(r: seq<Entry<K, V>>, capacity: nat, i: nat)
    requires i < |r| && i < capacity
    ensures Splice(Take(r, capacity), i) == Take([r[i]] + RemoveAt(r, i), capacity)
  {
    var a, b := Splice(Take(r, capacity), i), Take([r[i]] + RemoveAt(r, i), capacity);
    assert |a| == |b|;
    forall j | 0 <= j < |a|
      ensures a[j] == b[j]
    {
      SplicedAt(r, capacity, i, j);
    }
  }

  lemma SplicedAt<K, V>(r: seq<Entry<K, V>>, capacity: nat, i: nat, j: nat)
    requires i < |r| && i < capacity && j < |Take(r, capacity)|
    ensures Splice(Take(r, capacity), i)[j] == ([r[i]] + RemoveAt(r, i))[j]
  {
    if j > 0 { assert ([r[i]] + RemoveAt(r, i))[j] == RemoveAt(r, i)[j - 1]; }
  }

  lemma TakeStored<K, V>(r: seq<Entry<K, V>>, capacity: nat, e: Entry<K, V>)
    requires 1 <= capacity && Position(Take(r, capacity), e.key) == |Take(r, capacity)|
    ensures Stored(Take(r, capacity), capacity, e) == Take([e] + Without(r, e.key), capacity)
  {
    var es := Take(r, capacity);
    assert forall i :: 0 <= i < |es| ==> r[i] == es[i] && es[i].key != e.key;
  }

  /** The cache is the first `capacity` entries of the recency list. */
  ghost predicate Tracks<K, V>(cache: seq<Entry<K, V>>, r: seq<Entry<K, V>>, capacity: nat) {
    DistinctKeys(r) && cache == Take(r, capacity)
  }

  lemma StartIsTracked<K, V>(es: seq<Entry<K, V>>, capacity: nat)
    requires WellFormed(es, capacity)
    ensures Tracks(es, es, capacity)
  {
  }

  lemma GetKeepsTrack<K, V>(cache: seq<Entry<K, V>>, r: seq<Entry<K, V>>, capacity: nat, a: Access<K, V>)
    requires 1 <= capacity && Tracks(cache, r, capacity)
    ensures Tracks(Get(cache, capacity, a), Recorded(r, OutcomeOf(cache, a)), capacity)
  {
    GetTracksRecent(r, capacity, a);
    RecordedHasDistinctKeys(r, OutcomeOf(cache, a));
  }

  lemma {:induction false} RunTracksRecent<K, V>(es: seq<Entry<K, V>>, capacity: nat, gets: seq<Access<K, V>>, n: nat)
    requires WellFormed(es, capacity) && n <= |gets|
    ensures Tracks(Run(es, capacity, gets, n), Recent(es, Outcomes(es, capacity, gets), n), capacity)
  {
    hide Get, Recorded, OutcomeOf, Tracks, Outcomes;
    if n == 0 {
      StartIsTracked(es, capacity);
    } else {
      var cache, r := Run(es, capacity, gets, n - 1), Recent(es, Outcomes(es, capacity, gets), n - 1);
      RunTracksRecent(es, capacity, gets, n - 1);
      GetKeepsTrack(cache, r, capacity, gets[n - 1]);
    }
  }

  /** The cache is the first `capacity` distinct keys in order of last successful use. */
  lemma CacheIsRecent<K, V>(es: seq<Entry<K, V>>, capacity: nat, gets: seq<Access<K, V>>, n: nat)
    requires WellFormed(es, capacity) && n <= |gets|
    ensures Run(es, capacity, gets, n) == Take(Recent(es, Outcomes(es, capacity, gets), n), capacity)
  {
    RunTracksRecent(es, capacity, gets, n);
  }

  /** `v` is what was last made for `k` in the first `n` gets. */
  ghost predicate LastMade<K(!new), V(!new)>(os: History<K, V>, n: nat, k: K, v: V)
    requires n <= |os|
  {
    exists m :: 0 <= m < n && os[m] == Made(k, v) && NotMadeSince(os, m, n, k)
  }

  ghost predicate NotMadeSince<K, V>(os: History<K, V>, m: nat, n: nat, k: K)
    requires n <= |os|
  {
    forall j :: m < j < n ==> !(os[j].Made? && os[j].key == k)
  }

  lemma LastMadeStays<K(!new), V(!new)>(os: History<K, V>, n: nat, k: K, v: V)
    requires n < |os| && LastMade(os, n, k, v) && !(os[n].Made? && os[n].key == k)
    ensures LastMade(os, n + 1, k, v)
  {
    var m :| 0 <= m < n && os[m] == Made(k, v) && NotMadeSince(os, m, n, k);
    assert NotMadeSince(os, m, n + 1, k);
  }

  /** Every entry has the value last made for its key. */
  ghost predicate AllLastMade<K(!new), V(!new)>(es: seq<Entry<K, V>>, os: History<K, V>, n: nat)
    requires n <= |os|
  {
    forall i :: 0 <= i < |es| ==> LastMade(os, n, es[i].key, es[i].value)
  }

  lemma HitKeepsLastMade<K(!new), V(!new)>(es: seq<Entry<K, V>>, os: History<K, V>, n: nat, p: nat)
    requires n < |os| && os[n].Hit? && AllLastMade(es, os, n) && p < |es|
    ensures AllLastMade(Splice(es, p), os, n + 1)
  {
    var r := Splice(es, p);
    forall i | 0 <= i < |r|
      ensures LastMade(os, n + 1, r[i].key, r[i].value)
    {
      LastMadeStays(os, n, r[i].key, r[i].value);
    }
  }

  lemma StoreKeepsLastMade<K(!new), V(!new)>(es: seq<Entry<K, V>>, capacity: nat, os: History<K, V>, n: nat,
                                             e: Entry<K, V>)
    requires 1 <= capacity && n < |os| && os[n] == Made(e.key, e.value)
    requires AllLastMade(es, os, n) && !Holds(es, e.key)
    ensures AllLastMade(Stored(es, capacity, e), os, n + 1)
  {
    var r := Stored(es, capacity, e);
    assert NotMadeSince(os, n, n + 1, e.key);
    forall i | 0 < i < |r|
      ensures LastMade(os, n + 1, r[i].key, r[i].value)
    {
      assert r[i] == es[i - 1];
      LastMadeStays(os, n, r[i].key, r[i].value);
    }
  }

  lemma GetKeepsLastMade<K(!new), V(!new)>(es: seq<Entry<K, V>>, capacity: nat, a: Access<K, V>,
                                           os: History<K, V>, n: nat)
    requires 1 <= capacity && n < |os| && os[n] == OutcomeOf(es, a) && AllLastMade(es, os, n)
    ensures AllLastMade(Get(es, capacity, a), os, n + 1)
  {
    HoldsMeansPosition(es, a.key);
    match OutcomeOf(es, a)
    case Hit(_, _) => HitKeepsLastMade(es, os, n, Position(es, a.key));
    case Made(k, v) => StoreKeepsLastMade(es, capacity, os, n, Entry(k, v));
    case Failed(_) =>
      forall i | 0 <= i < |es|
        ensures LastMade(os, n + 1, es[i].key, es[i].value)
      {
        LastMadeStays(os, n, es[i].key, es[i].value);
      }
  }

  lemma {:induction false} EntriesWereMade<K(!new), V(!new)>(capacity: nat, gets: seq<Access<K, V>>, n: nat)
    requires 1 <= capacity && n <= |gets|
    ensures AllLastMade(Run([], capacity, gets, n), Outcomes([], capacity, gets), n)
  {
    hide Get, OutcomeOf, LastMade, Outcomes;
    if n == 0 {
    } else {
      EntriesWereMade(capacity, gets, n - 1);
      GetKeepsLastMade(Run([], capacity, gets, n - 1), capacity, gets[n - 1], Outcomes([], capacity, gets), n - 1);
    }
  }

  /** A hit returns what was last stored for its key. */
  lemma HitReturnsLastStored<K(!new), V(!new)>(capacity: nat, gets: seq<Access<K, V>>, n: nat)
    requires 1 <= capacity && n < |gets|
    requires OutcomeOf(Run([], capacity, gets, n), gets[n]).Hit?
    ensures var o := OutcomeOf(Run([], capacity, gets, n), gets[n]);
            LastMade(Outcomes([], capacity, gets), n, o.key, o.value)
  {
    EntriesWereMade(capacity, gets, n);
  }

  // ---------------------------------------------------------------------
  // References

  /** Entry `e` is within the first `depth` entries. */
  predicate HeldWithin<K(==), V(==)>(es: seq<Entry<K, V>>, e: Entry<K, V>, depth: nat) {
    var p := Position(es, e.key);
    p < |es| && p < depth && es[p] == e
  }

  lemma GetSinksByOne<K, V>(es: seq<Entry<K, V>>, capacity: nat, a: Access<K, V>, e: Entry<K, V>, depth: nat)
    requires WellFormed(es, capacity) && HeldWithin(es, e, depth) && depth < capacity
    ensures HeldWithin(Get(es, capacity, a), e, depth + 1)
    ensures a.key == e.key ==> OutcomeOf(es, a) == Hit(e.key, e.value)
  {
    var es' := Get(es, capacity, a);
    var p := Position(es, e.key);
    var i := Position(es, a.key);
    GetKeepsWellFormed(es, capacity, a);
    if i < |es| {
      PositionIs(es', e.key, if p == i then 0 else if p < i then p + 1 else p);
    } else if a.made.Some? {
      PositionIs(es', e.key, p + 1);
    }
  }

  lemma GetPutsFirst<K, V>(es: seq<Entry<K, V>>, capacity: nat, a: Access<K, V>)
    requires WellFormed(es, capacity) && !OutcomeOf(es, a).Failed?
    ensures var o := OutcomeOf(es, a); HeldWithin(Get(es, capacity, a), Entry(o.key, o.value), 1)
  {
  }

  /** Whatever the cache held before, what a get returned is still held after `capacity - 1` more gets. */
  lemma {:induction false} ReferenceIsHeld<K, V>(es: seq<Entry<K, V>>, capacity: nat, gets: seq<Access<K, V>>,
                                                 m: nat, n: nat)
    requires WellFormed(es, capacity) && m < n <= |gets| && n - m <= capacity
    requires !OutcomeOf(Run(es, capacity, gets, m), gets[m]).Failed?
    ensures var o := OutcomeOf(Run(es, capacity, gets, m), gets[m]);
            HeldWithin(Run(es, capacity, gets, n), Entry(o.key, o.value), n - m)
  {
    var o := OutcomeOf(Run(es, capacity, gets, m), gets[m]);
    RunIsWellFormed(es, capacity, gets, n - 1);
    if n == m + 1 {
      GetPutsFirst(Run(es, capacity, gets, m), capacity, gets[m]);
    } else {
      ReferenceIsHeld(es, capacity, gets, m, n - 1);
      GetSinksByOne(Run(es, capacity, gets, n - 1), capacity, gets[n - 1], Entry(o.key, o.value), n - 1 - m);
    }
  }

  /** Meanwhile its key is never made anew, so the reference is to the same node. */
  lemma ReferenceIsNotRemade<K, V>(es: seq<Entry<K, V>>, capacity: nat, gets: seq<Access<K, V>>, m: nat, j: nat)
    requires WellFormed(es, capacity) && m < j < |gets| && j - m < capacity
    requires !OutcomeOf(Run(es, capacity, gets, m), gets[m]).Failed? && gets[j].key == gets[m].key
    ensures var o := OutcomeOf(Run(es, capacity, gets, m), gets[m]);
            OutcomeOf(Run(es, capacity, gets, j), gets[j]) == Hit(o.key, o.value)
  {
    ReferenceIsHeld(es, capacity, gets, m, j);
  }

  // ---------------------------------------------------------------------
  // Exactly how long

  /** The distinct keys used successfully by the gets from `m` up to `n`. */
  function Used<K(==), V>(os: History<K, V>, m: nat, n: nat): set<K>
    requires n <= |os|
  {
    if n <= m then {} else Used(os, m, n - 1) + if os[n - 1].Failed? then {} else {os[n - 1].key}
  }

  /** The distinct keys used successfully since the last use of `k`. */
  function UsedSince<K(==), V>(os: History<K, V>, n: nat, k: K): set<K>
    requires n <= |os|
  {
    Used(os, LastUse(os, n, k), n)
  }

  /** A key was used after the first `m` gets iff its last use is later. */
  lemma {:induction false} UsedLater<K, V>(os: History<K, V>, m: nat, n: nat, k: K)
    requires n <= |os|
    ensures k in Used(os, m, n) <==> LastUse(os, n, k) > m
  {
    if n <= m {
    } else {
      UsedLater(os, m, n - 1, k);
    }
  }

  /** A use moves another key back by one, unless the key used was behind it or is new. */
  lemma PlaceAfter<K, V>(r: seq<Entry<K, V>>, o: Outcome<K, V>, k: K)
    requires DistinctKeys(r) && Position(r, k) < |r| && !o.Failed? && k != o.key
    ensures Position(Recorded(r, o), k)
      == if Position(r, o.key) < Position(r, k) then Position(r, k) else Position(r, k) + 1
  {
    hide Recorded, Position;
    var p := if Position(r, o.key) < Position(r, k) then Position(r, k) else Position(r, k) + 1;
    RecordedHasDistinctKeys(r, o);
    assert PlaceBefore(r, o, p) == Position(r, k);
    RecordedStep(r, o, p);
    PositionIs(Recorded(r, o), k, p);
  }

  lemma UsedIsFirst<K, V>(r: seq<Entry<K, V>>, o: Outcome<K, V>)
    requires !o.Failed?
    ensures Position(Recorded(r, o), o.key) == 0
  {
  }

  /** Of two keys, the one used last is further to the front. */
  lemma FurtherFrontIsUsedLater<K, V>(es: seq<Entry<K, V>>, os: History<K, V>, n: nat, k: K, other: K)
    requires DistinctKeys(es) && n <= |os| && LastUse(os, n, k) > 0
    ensures var r := Recent(es, os, n);
            && Position(r, k) < |r|
            && (Position(r, other) < Position(r, k) <==> other in UsedSince(os, n, k))
  {
    var r := Recent(es, os, n);
    RecentHoldsTheUsed(es, os, n, k);
    RecentHoldsTheUsed(es, os, n, other);
    HoldsMeansPosition(r, k);
    HoldsMeansPosition(r, other);
    UsedLater(os, LastUse(os, n, k), n, other);
    if Position(r, other) < Position(r, k) {
      RecentIsByLastUse(es, os, n, Position(r, other), Position(r, k));
    } else if Position(r, k) < Position(r, other) < |r| {
      RecentIsByLastUse(es, os, n, Position(r, k), Position(r, other));
    }
  }

  lemma PlaceMoves<K, V>(r: seq<Entry<K, V>>, o: Outcome<K, V>, k: K, used: set<K>)
    requires DistinctKeys(r) && Position(r, k) < |r| && Position(r, k) == |used|
    requires o.Failed? || k != o.key
    requires Position(r, o.key) < Position(r, k) <==> o.key in used
    ensures Position(Recorded(r, o), k) == |used + if o.Failed? then {} else {o.key}|
  {
    hide Position, Without;
    if o.Failed? {
      assert used + {} == used;
    } else {
      PlaceAfter(r, o, k);
      OneMoreElement(used, o.key);
    }
  }

  lemma OneMoreElement<T>(s: set<T>, x: T)
    ensures |s + {x}| == if x in s then |s| else |s| + 1
  {
    if x in s { assert s + {x} == s; }
  }

  lemma OneMoreUse<K, V>(os: History<K, V>, n: nat, k: K)
    requires 0 < n <= |os| && LastUse(os, n, k) < n
    ensures os[n - 1].Failed? || k != os[n - 1].key
    ensures LastUse(os, n - 1, k) == LastUse(os, n, k)
    ensures UsedSince(os, n, k) == UsedSince(os, n - 1, k) + if os[n - 1].Failed? then {} else {os[n - 1].key}
  {
  }

  /** A key's place in the recency list is the number of distinct keys used since its last use. */
  lemma {:induction false} PlaceIsKeysUsedSince<K, V>(es: seq<Entry<K, V>>, os: History<K, V>, n: nat, k: K)
    requires DistinctKeys(es) && n <= |os| && LastUse(os, n, k) > 0
    ensures Position(Recent(es, os, n), k) == |UsedSince(os, n, k)|
  {
    hide Recorded, Position, UsedSince;
    var before, last := Recent(es, os, n - 1), os[n - 1];
    if LastUse(os, n, k) == n {
      UsedIsFirst(before, last);
      NoneUsedSince(os, n, k);
    } else {
      OneMoreUse(os, n, k);
      PlaceIsKeysUsedSince(es, os, n - 1, k);
      RecentHasDistinctKeys(es, os, n - 1);
      FurtherFrontIsUsedLater(es, os, n - 1, k, last.key);
      PlaceMoves(before, last, k, UsedSince(os, n - 1, k));
    }
  }

  lemma NoneUsedSince<K, V>(os: History<K, V>, n: nat, k: K)
    requires n <= |os| && LastUse(os, n, k) == n
    ensures UsedSince(os, n, k) == {}
  {
  }

  lemma HeldInTaken<K, V>(r: seq<Entry<K, V>>, capacity: nat, e: Entry<K, V>)
    requires DistinctKeys(r) && Position(r, e.key) < |r| && r[Position(r, e.key)] == e
    ensures HeldWithin(Take(r, capacity), e, capacity) <==> Position(r, e.key) < capacity
  {
    var p := Position(r, e.key);
    var es := Take(r, capacity);
    if p < capacity {
      PositionIs(es, e.key, p);
    } else {
      assert forall i :: 0 <= i < |es| ==> es[i] == r[i];
    }
  }

  /**
   Whatever the cache held before, what the last use of a key returned is still held iff fewer distinct
   keys than the cache has room for were used successfully since.
   */
  lemma HeldIff<K, V>(es: seq<Entry<K, V>>, capacity: nat, gets: seq<Access<K, V>>, n: nat, k: K)
    requires WellFormed(es, capacity) && n <= |gets|
    ensures var os := Outcomes(es, capacity, gets);
            LastUse(os, n, k) > 0 ==>
              var e := Entry(k, os[LastUse(os, n, k) - 1].value);
              HeldWithin(Run(es, capacity, gets, n), e, capacity) <==> |UsedSince(os, n, k)| < capacity
  {
    hide Run, Outcomes, Recent, UsedSince, Take, Position, LastUse, HeldWithin, DistinctKeys;
    var os := Outcomes(es, capacity, gets);
    if LastUse(os, n, k) > 0 {
      var r := Recent(es, os, n);
      CacheIsRecent(es, capacity, gets, n);
      PlaceIsKeysUsedSince(es, os, n, k);
      RecentHasDistinctKeys(es, os, n);
      FurtherFrontIsUsedLater(es, os, n, k, k);
      RecentHasLastValues(es, os, n, Position(r, k));
      HeldInTaken(r, capacity, Entry(k, os[LastUse(os, n, k) - 1].value));
    }
  }

  // ---------------------------------------------------------------------
  // Any number of gets

  lemma {:induction false} UsedWithin<K, V>(os: History<K, V>, m: nat, l: nat, n: nat)
    requires m <= l <= n <= |os|
    ensures Used(os, m, l) <= Used(os, m, n) && Used(os, l, n) <= Used(os, m, n)
  {
    if n == l {
    } else {
      UsedWithin(os, m, l, n - 1);
    }
  }

  /** Fewer keys were used since the last use of a key than since an earlier use of it. */
  lemma FewerSinceLastUse<K, V>(os: History<K, V>, m: nat, n: nat, k: K)
    requires n <= |os| && k in Used(os, m, n)
    ensures LastUse(os, n, k) > m && |UsedSince(os, n, k)| < |Used(os, m, n)|
  {
    var l := LastUse(os, n, k);
    UsedLater(os, m, n, k);
    UsedLater(os, l, n, k);
    UsedWithin(os, m, l, n);
    FewerElements(UsedSince(os, n, k), Used(os, m, n), k);
  }

  lemma FewerElements<T>(a: set<T>, b: set<T>, x: T)
    requires a <= b && x in b && x !in a
    ensures |a| < |b|
  {
    SubsetIsSmaller(a + {x}, b);
    OneMoreElement(a, x);
  }

  lemma {:induction false} SubsetIsSmaller<T>(a: set<T>, b: set<T>)
    requires a <= b
    ensures |a| <= |b|
  {
    if a == {} {
    } else {
      var x :| x in a;
      SubsetIsSmaller(a - {x}, b - {x});
    }
  }

  lemma UseIsUsed<K, V>(os: History<K, V>, m: nat, j: nat, n: nat)
    requires m <= j < n <= |os| && !os[j].Failed?
    ensures os[j].key in Used(os, m, n)
  {
    UsedLater(os, m, n, os[j].key);
  }

  /** What a get returned is held while the gets from it on used no more distinct keys than there is room for. */
  lemma {:induction false} FewKeysAreHeld<K, V>(es: seq<Entry<K, V>>, capacity: nat, gets: seq<Access<K, V>>,
                                                m: nat, n: nat)
    requires WellFormed(es, capacity) && m < n <= |gets|
    requires var os := Outcomes(es, capacity, gets); !os[m].Failed? && |Used(os, m, n)| <= capacity
    ensures var o := Outcomes(es, capacity, gets)[m];
            HeldWithin(Run(es, capacity, gets, n), Entry(o.key, o.value), capacity)
    decreases n
  {
    hide Run, Outcomes, Used, UsedSince;
    var os := Outcomes(es, capacity, gets);
    var k := os[m].key;
    UseIsUsed(os, m, m, n);
    FewerSinceLastUse(os, m, n, k);
    HeldIff(es, capacity, gets, n, k);
    var l := LastUse(os, n, k) - 1;
    if m < l {
      UsedWithin(os, m, l, n);
      SubsetIsSmaller(Used(os, m, l), Used(os, m, n));
      FewKeysAreHeld(es, capacity, gets, m, l);
      HeldIsHit(Run(es, capacity, gets, l), capacity, gets[l], Entry(k, os[m].value));
      assert os[l] == OutcomeOf(Run(es, capacity, gets, l), gets[l]);
    }
  }

  lemma HeldIsHit<K, V>(es: seq<Entry<K, V>>, capacity: nat, a: Access<K, V>, e: Entry<K, V>)
    requires HeldWithin(es, e, capacity)
    ensures OutcomeOf(es, a).key == a.key
    ensures a.key == e.key ==> OutcomeOf(es, a) == Hit(e.key, e.value)
  {
  }

  /** Everything that the gets from `m` up to `n` returned is held. */
  ghost predicate AllHeld<K, V>(es: seq<Entry<K, V>>, os: History<K, V>, m: nat, n: nat, capacity: nat)
    requires n <= |os|
  {
    forall j :: m <= j < n && !os[j].Failed? ==> HeldWithin(es, Entry(os[j].key, os[j].value), capacity)
  }

  function KeysOf<K(==), V>(es: seq<Entry<K, V>>): (keys: set<K>)
    ensures |keys| <= |es|
    ensures forall i :: 0 <= i < |es| ==> es[i].key in keys
  {
    if es == [] then {}
    else
      OneMoreElement(KeysOf(es[1..]), es[0].key);
      KeysOf(es[1..]) + {es[0].key}
  }

  /** In any run, everything gets returned is held at the end iff the cache has room for the keys they used. */
  lemma AllHeldIff<K, V>(es: seq<Entry<K, V>>, capacity: nat, gets: seq<Access<K, V>>, m: nat, n: nat)
    requires WellFormed(es, capacity) && m <= n <= |gets|
    ensures var os := Outcomes(es, capacity, gets);
            AllHeld(Run(es, capacity, gets, n), os, m, n, capacity) <==> |Used(os, m, n)| <= capacity
  {
    hide Run, Outcomes, Used, HeldWithin;
    var os := Outcomes(es, capacity, gets);
    var held := Run(es, capacity, gets, n);
    if |Used(os, m, n)| <= capacity {
      forall j | m <= j < n && !os[j].Failed?
        ensures HeldWithin(held, Entry(os[j].key, os[j].value), capacity)
      {
        UsedWithin(os, m, j, n);
        SubsetIsSmaller(Used(os, j, n), Used(os, m, n));
        FewKeysAreHeld(es, capacity, gets, j, n);
      }
    }
    if AllHeld(held, os, m, n, capacity) {
      HeldKeysAreUsed(held, os, m, n, capacity);
      SubsetIsSmaller(Used(os, m, n), KeysOf(held));
      RunIsWellFormed(es, capacity, gets, n);
      WellFormedFits(held, capacity);
    }
  }

  lemma WellFormedFits<K, V>(es: seq<Entry<K, V>>, capacity: nat)
    requires WellFormed(es, capacity)
    ensures |es| <= capacity
  {
  }

  lemma HeldKeysAreUsed<K, V>(es: seq<Entry<K, V>>, os: History<K, V>, m: nat, n: nat, capacity: nat)
    requires n <= |os| && AllHeld(es, os, m, n, capacity)
    ensures Used(os, m, n) <= KeysOf(es)
  {
    hide Used;
    forall k | k in Used(os, m, n)
      ensures k in KeysOf(es)
    {
      UsedLater(os, m, n, k);
      var o := os[LastUse(os, n, k) - 1];
      assert HeldWithin(es, Entry(o.key, o.value), capacity);
    }
  }

  // ---------------------------------------------------------------------
  // The nodes themselves

  /** Every node there is among the first `depth` of the list. */
  ghost predicate AmongFirst<K, V>(nodes: seq<Option<Node<K, V>>>, items: seq<Node<K, V>>, depth: nat) {
    forall j :: 0 <= j < |nodes| && nodes[j].Some? ==> nodes[j].value in Take(items, depth)
  }

  /** No node that there is room for moves back by more than one place. */
  ghost predicate Sinks<K, V>(before: seq<Node<K, V>>, after: seq<Node<K, V>>, capacity: nat) {
    forall p :: 0 <= p < |before| && p + 1 < capacity ==> before[p] in Take(after, p + 2)
  }

  lemma SpliceSinks<K, V>(items: seq<Node<K, V>>, i: nat, capacity: nat)
    requires i < |items|
    ensures Sinks(items, Splice(items, i), capacity)
  {
    var items' := Splice(items, i);
    forall p | 0 <= p < |items|
      ensures items[p] in Take(items', p + 2)
    {
      assert Take(items', p + 2)[if p == i then 0 else if p < i then p + 1 else p] == items[p];
    }
  }

  lemma StoreSinks<K, V>(items: seq<Node<K, V>>, node: Node<K, V>, capacity: nat)
    requires 1 <= capacity
    ensures Sinks(items, [node] + if |items| >= capacity then items[..|items| - 1] else items, capacity)
  {
    var items' := [node] + if |items| >= capacity then items[..|items| - 1] else items;
    forall p | 0 <= p < |items| && p + 1 < capacity
      ensures items[p] in Take(items', p + 2)
    {
      assert Take(items', p + 2)[p + 1] == items[p];
    }
  }

  lemma MissSinks<K, V>(items: seq<Node<K, V>>, capacity: nat)
    ensures Sinks(items, items, capacity)
  {
    forall p | 0 <= p < |items|
      ensures items[p] in Take(items, p + 2)
    {
      assert Take(items, p + 2)[p] == items[p];
    }
  }

  lemma AmongFirstSinks<K, V>(nodes: seq<Option<Node<K, V>>>, node: Option<Node<K, V>>, before: seq<Node<K, V>>,
                              after: seq<Node<K, V>>, capacity: nat, depth: nat)
    requires AmongFirst(nodes, before, depth) && Sinks(before, after, capacity) && depth < capacity
    requires node.Some? ==> after != [] && after[0] == node.value
    ensures AmongFirst(nodes + [node], after, depth + 1)
  {
    forall j | 0 <= j < |nodes| && nodes[j].Some?
      ensures nodes[j].value in Take(after, depth + 1)
    {
      var p :| 0 <= p < |Take(before, depth)| && Take(before, depth)[p] == nodes[j].value;
      var q :| 0 <= q < |Take(after, p + 2)| && Take(after, p + 2)[q] == before[p];
      assert Take(after, depth + 1)[q] == nodes[j].value;
    }
    if node.Some? { assert Take(after, depth + 1)[0] == node.value; }
  }

  /** A get returned the node of what it found or made, or none when it failed. */
  ghost predicate IsAnswer<K, V>(node: Option<Node<K, V>>, o: Outcome<K, V>) {
    if node.None? then o.Failed?
    else !o.Failed? && node.value.key == o.key && node.value.value == o.value
  }

  lemma HitGets<K, V>(es: seq<Entry<K, V>>, capacity: nat, a: Access<K, V>, p: nat)
    requires WellFormed(es, capacity) && p < |es| && es[p].key == a.key
    ensures Get(es, capacity, a) == Touched(es, a.key) && OutcomeOf(es, a) == Hit(a.key, es[p].value)
  {
    PositionIs(es, a.key, p);
  }

  lemma HitGetsNode<K, V>(items: seq<Node<K, V>>, index: map<K, Node<K, V>>, capacity: nat, a: Access<K, V>, p: nat)
    requires 1 <= capacity && |items| <= capacity && Indexed(items, index) && p < |items| && items[p].key == a.key
    ensures Get(EntriesOf(items), capacity, a) == Touched(EntriesOf(items), a.key)
    ensures IsAnswer(Some(items[p]), OutcomeOf(EntriesOf(items), a))
  {
    EntriesAreWellFormed(items, index);
    HitGets(EntriesOf(items), capacity, a, p);
  }

  lemma FailedAnswers<K, V>(k: K)
    ensures IsAnswer<K, V>(None, Failed(k))
  {
  }

  lemma MadeAnswers<K, V>(node: Node<K, V>)
    ensures IsAnswer(Some(node), Made(node.key, node.value))
  {
  }

  lemma MissGets<K, V>(es: seq<Entry<K, V>>, capacity: nat, a: Access<K, V>)
    requires 1 <= capacity && !Holds(es, a.key)
    ensures a.made.Some? ==>
              && Get(es, capacity, a) == Stored(es, capacity, Entry(a.key, a.made.value))
              && OutcomeOf(es, a) == Made(a.key, a.made.value)
    ensures a.made.None? ==> Get(es, capacity, a) == es == Touched(es, a.key) && OutcomeOf(es, a) == Failed(a.key)
  {
    HoldsMeansPosition(es, a.key);
  }

  /** One get on the cache itself; `None` is the invalid frame. */
  method GetNode<K(==), V>(cache: LRUCache<K, V>, a: Access<K, V>) returns (node: Option<Node<K, V>>)
    requires cache.Valid()
    modifies cache
    ensures cache.Valid() && cache.Entries() == Get(old(cache.Entries()), cache.capacity, a)
    ensures IsAnswer(node, OutcomeOf(old(cache.Entries()), a))
    ensures Sinks(old(cache.items), cache.items, cache.capacity)
    ensures node.Some? ==> cache.items != [] && cache.items[0] == node.value
  {
    hide Get, OutcomeOf, Touched, Stored, Sinks, Holds, EntriesOf, IsAnswer, Indexed, Splice;
    ghost var es, before, index := cache.Entries(), cache.items, cache.index;
    EntriesAreWellFormed(cache.items, cache.index);
    ghost var i;
    node, i := cache.Lookup(a.key);
    if node.Some? {
      HitGetsNode(before, index, cache.capacity, a, i);
      SpliceSinks(before, i, cache.capacity);
    } else if a.made.Some? {
      MissGets(es, cache.capacity, a);
      var made := cache.Store(a.key, a.made.value);
      StoreSinks(before, made, cache.capacity);
      MadeAnswers(made);
      node := Some(made);
    } else {
      MissGets(es, cache.capacity, a);
      FailedAnswers<K, V>(a.key);
      MissSinks(before, cache.capacity);
    }
  }

  /** The nodes that gets returned, against their outcomes. */
  ghost predicate Answers<K, V>(nodes: seq<Option<Node<K, V>>>, os: History<K, V>) {
    |nodes| <= |os| && forall j :: 0 <= j < |nodes| ==> IsAnswer(nodes[j], os[j])
  }

  lemma AnswersAppend<K, V>(nodes: seq<Option<Node<K, V>>>, os: History<K, V>, node: Option<Node<K, V>>)
    requires |nodes| < |os| && Answers(nodes, os) && IsAnswer(node, os[|nodes|])
    ensures Answers(nodes + [node], os)
  {
  }

  lemma NothingGotYet<K, V>(items: seq<Node<K, V>>, os: History<K, V>)
    ensures AmongFirst([], items, 0) && Answers([], os)
  {
  }

  /** As many gets as the cache has room for: every node they returned is still in the list. */
  method GetAll<K(==), V>(cache: LRUCache<K, V>, gets: seq<Access<K, V>>) returns (nodes: seq<Option<Node<K, V>>>)
    requires cache.Valid() && |gets| <= cache.capacity
    modifies cache
    ensures cache.Valid() && cache.Entries() == Run(old(cache.Entries()), cache.capacity, gets, |gets|)
    ensures |nodes| == |gets| && Answers(nodes, Outcomes(old(cache.Entries()), cache.capacity, gets))
    ensures AmongFirst(nodes, cache.items, |gets|)
  {
    hide Get, OutcomeOf, Outcomes, IsAnswer, Answers, AmongFirst, Sinks;
    nodes := [];
    ghost var es, os := cache.Entries(), Outcomes(cache.Entries(), cache.capacity, gets);
    NothingGotYet(cache.items, os);
    for n := 0 to |gets|
      invariant cache.Valid() && cache.Entries() == Run(es, cache.capacity, gets, n)
      invariant |nodes| == n && Answers(nodes, os) && AmongFirst(nodes, cache.items, n)
    {
      ghost var before := cache.items;
      var node := GetNode(cache, gets[n]);
      AnswersAppend(nodes, os, node);
      AmongFirstSinks(nodes, node, before, cache.items, cache.capacity, n);
      nodes := nodes + [node];
    }
  }

  /** The gets of one walk over the Python frames: one per frame pushed; the invalid frame is never cached. */
  function GetsOf(frames: seq<F.Frame>): (gets: seq<Access<Key, F.Frame>>)
    ensures |gets| == |frames|
  {
    if frames == [] then []
    else
      var made := if frames[0].name == F.INVALID then None else Some(frames[0]);
      [Access(frames[0].cacheKey, made)] + GetsOf(frames[1..])
  }

  /** References outlive the unwind: whatever a walk got from the cache is there when the walk is over. */
  lemma ReferencesOutliveUnwind(es: seq<Entry<Key, F.Frame>>, capacity: nat,
                                h: F.Heap, maxFrames: nat, top: Addr, m: nat)
    requires WellFormed(es, capacity) && maxFrames <= capacity
    requires m < |F.Appended(h, maxFrames, top, 0)|
    ensures var gets := GetsOf(F.Appended(h, maxFrames, top, 0));
            var o := OutcomeOf(Run(es, capacity, gets, m), gets[m]);
            !o.Failed? ==>
              && HeldWithin(Run(es, capacity, gets, |gets|), Entry(o.key, o.value), capacity)
              && forall j :: m < j < |gets| && gets[j].key == o.key ==>
                   OutcomeOf(Run(es, capacity, gets, j), gets[j]) == Hit(o.key, o.value)
  {
    var gets := GetsOf(F.Appended(h, maxFrames, top, 0));
    var o := OutcomeOf(Run(es, capacity, gets, m), gets[m]);
    if !o.Failed? {
      ReferenceIsHeld(es, capacity, gets, m, |gets|);
      forall j | m < j < |gets| && gets[j].key == gets[m].key
        ensures OutcomeOf(Run(es, capacity, gets, j), gets[j]) == Hit(o.key, o.value)
      {
        ReferenceIsNotRemade(es, capacity, gets, m, j);
      }
    }
  }

  /** The bound is tight: one distinct new key more than there is room for costs the first its place. */
  lemma OneTooManyEvicts<K, V>(capacity: nat, gets: seq<Access<K, V>>)
    requires 1 <= capacity && |gets| == capacity + 1
    requires forall i, j :: 0 <= i < j < |gets| ==> gets[i].key != gets[j].key
    requires forall i :: 0 <= i < |gets| ==> gets[i].made.Some?
    ensures !Holds(Run([], capacity, gets, capacity + 1), gets[0].key)
  {
    NewKeysStack(capacity, gets, capacity);
    var es := Run([], capacity, gets, capacity);
    assert es[capacity - 1].key == gets[0].key;
  }

  lemma NewKeyIsStored<K, V>(es: seq<Entry<K, V>>, capacity: nat, a: Access<K, V>)
    requires |es| < capacity && a.made.Some? && forall i :: 0 <= i < |es| ==> es[i].key != a.key
    ensures Get(es, capacity, a) == [Entry(a.key, a.made.value)] + es
  {
  }

  lemma {:induction false} NewKeysStack<K, V>(capacity: nat, gets: seq<Access<K, V>>, n: nat)
    requires n <= capacity && 1 <= capacity && n <= |gets|
    requires forall i, j :: 0 <= i < j < |gets| ==> gets[i].key != gets[j].key
    requires forall i :: 0 <= i < |gets| ==> gets[i].made.Some?
    ensures var es := Run([], capacity, gets, n);
            |es| == n && forall i :: 0 <= i < n ==> es[i].key == gets[n - 1 - i].key
  {
    hide Get;
    if n == 0 {
    } else {
      NewKeysStack(capacity, gets, n - 1);
      NewKeyIsStored(Run([], capacity, gets, n - 1), capacity, gets[n - 1]);
    }
  }
}
