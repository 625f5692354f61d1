/**
 Where frames and strings come from during a run, and what is written when they are
 first met (echion/frame.cc:81-108, 392-499, echion/strings.h:88-230,
 echion/coremodule.cc:143-163, echion/render.cc:41-44).
 */
module FrameSource {
  import opened Bytes
  import opened FrameCache
  import opened Frames
  import opened LruCache
  import opened Mojo
  import opened Seqs
  import opened Target
  import opened Wrappers

  datatype Place = Place(line: int, lineEnd: int, column: int, columnEnd: int)

  /** What creating a frame on a miss reads: two strings, each of which may be unreadable, and a location. */
  datatype Recipe = Recipe(filename: Key, filenameText: Option<Text>, name: Key, nameText: Option<Text>,
                           place: Option<Place>)

  const INVALID_FRAME: Frame := Frame(0, 0, INVALID, false)
  const UNKNOWN_FRAME: Frame := Frame(0, 0, UNKNOWN, false)

  /** The string table, the frame cache, the events written and the frames that were handed out. */
  datatype State = State(strings: map<Key, Text>, cache: seq<Entry<Key, Frame>>, events: seq<Event>, held: set<Frame>)

  datatype Op =
    | Intern(str: Key, text: Option<Text>)
    | GetFrame(key: Key, recipe: Option<Recipe>, fallback: Frame)
    | GetNamed(name: Key)
    | Render(frame: Frame)
    | Write(event: Event)

  // ---------------------------------------------------------------------
  // Specification

  /** What happens before sampling starts; the string table has its first three strings by then. */
  function Preamble(mode: Text, interval: Text, echion: Text, pid: int, mainThread: Text): seq<Event> {
    [Metadata(MODE, mode), Metadata(INTERVAL, interval), Metadata(SAMPLER, echion), Stack(pid, 0, mainThread),
     StringDef(0, []), StringDef(1, INVALID_TEXT), StringDef(2, UNKNOWN_TEXT), MetricTime(0)]
  }

  const MODE: Text := [109, 111, 100, 101]
  const INTERVAL: Text := [105, 110, 116, 101, 114, 118, 97, 108]
  const SAMPLER: Text := [115, 97, 109, 112, 108, 101, 114]
  const INVALID_TEXT: Text := [60, 105, 110, 118, 97, 108, 105, 100, 62]
  const UNKNOWN_TEXT: Text := [60, 117, 110, 107, 110, 111, 119, 110, 62]

  const FIRST_STRINGS: map<Key, Text> := map[0 := [], 1 := INVALID_TEXT, 2 := UNKNOWN_TEXT]

  function Started(preamble: seq<Event>): State {
    State(FIRST_STRINGS, [], preamble, {INVALID_FRAME, UNKNOWN_FRAME})
  }

  /** StringTable::key: a string is written when it is met for the first time. */
  function Interned(s: State, str: Key, text: Option<Text>): State {
    if str in s.strings || text.None? then s
    else s.(strings := s.strings[str := text.value], events := s.events + [StringDef(str, text.value)])
  }

  function KeyFound(s: State, str: Key, text: Option<Text>): bool {
    str in s.strings || text.Some?
  }

  /** The event that defines a frame. */
  function Definition(f: Frame, place: Place): Event {
    FrameDef(f.cacheKey, f.filename, f.name, place.line, place.lineEnd, place.column, place.columnEnd)
  }

  /** A new frame is written, and cached. */
  function Added(s: State, capacity: nat, f: Frame, place: Place): State
    requires 1 <= capacity
  {
    s.(events := s.events + [Definition(f, place)],
       cache := Stored(s.cache, capacity, Entry(f.cacheKey, f)))
  }

  /** Frame::create and what follows it on a miss: the new state and the frame. */
  function Created(s: State, capacity: nat, key: Key, r: Recipe, fallback: Frame): (State, Frame)
    requires 1 <= capacity
  {
    var s1 := Interned(s, r.filename, r.filenameText);
    if !KeyFound(s, r.filename, r.filenameText) then (s1, fallback)
    else
      var s2 := Interned(s1, r.name, r.nameText);
      if !KeyFound(s1, r.name, r.nameText) || r.place.None? then (s2, fallback)
      else
        var f := Frame(key, r.filename, r.name, false);
        (Added(s2, capacity, f, r.place.value), f)
  }

  /** Frame::get for a code object or a native frame: the new state and the frame. */
  function Gotten(s: State, capacity: nat, key: Key, recipe: Option<Recipe>, fallback: Frame): (State, Frame)
    requires 1 <= capacity
  {
    var i := Position(s.cache, key);
    if i < |s.cache| then (s.(cache := Touched(s.cache, key)), s.cache[i].value)
    else if recipe.None? then (s, fallback)
    else Created(s, capacity, key, recipe.value, fallback)
  }

  /** Frame::get for a name: the frame has no file. */
  function GottenNamed(s: State, capacity: nat, name: Key): (State, Frame)
    requires 1 <= capacity
  {
    var i := Position(s.cache, name);
    if i < |s.cache| then (s.(cache := Touched(s.cache, name)), s.cache[i].value)
    else
      var f := Frame(name, 0, name, false);
      (Added(s, capacity, f, Place(0, 0, 0, 0)), f)
  }

  function Holding(r: (State, Frame)): State {
    r.0.(held := r.0.held + {r.1})
  }

  function Step(s: State, capacity: nat, op: Op): State
    requires 1 <= capacity
  {
    match op
    case Intern(str, text) => Interned(s, str, text)
    case GetFrame(key, recipe, fallback) => Holding(Gotten(s, capacity, key, recipe, fallback))
    case GetNamed(name) => Holding(GottenNamed(s, capacity, name))
    case Render(frame) => s.(events := s.events + [FrameRef(frame.cacheKey)])
    case Write(event) => s.(events := s.events + [event])
  }

  /** A name is looked up only after it was interned, and only frames that were handed out are rendered. */
  predicate Allowed(s: State, op: Op) {
    match op
    case GetFrame(_, _, fallback) => fallback == INVALID_FRAME || fallback == UNKNOWN_FRAME
    case GetNamed(name) => name in s.strings
    case Render(frame) => frame in s.held
    case Write(event) => event.Metadata? || event.Stack? || event.MetricTime? || event.MetricMemory?
    case _ => true
  }

  // ---------------------------------------------------------------------
  // The objects

  class FrameSource {
    const cache: LRUCache<Key, Frame>
    const renderer: MojoRenderer
    var strings: map<Key, Text>
    ghost var events: seq<Event>
    ghost var held: set<Frame>

    ghost predicate Valid()
      reads this, cache, renderer
    {
      cache.Valid() && renderer.output == Header() + PrintAll(events)
    }

    ghost function Abstract(): State
      reads this, cache
    {
      State(strings, cache.Entries(), events, held)
    }

    constructor (capacity: nat, mode: Text, interval: Text, echion: Text, pid: int, mainThread: Text)
      requires 1 <= capacity && IsInt64(pid)
      ensures Valid() && fresh(cache) && fresh(renderer) && cache.capacity == capacity
      ensures Abstract() == Started(Preamble(mode, interval, echion, pid, mainThread))
    {
      cache := new LRUCache(capacity);
      renderer := new MojoRenderer();
      strings := FIRST_STRINGS;
      held := {INVALID_FRAME, UNKNOWN_FRAME};
      events := [];
      new;
      renderer.WriteHeader();
      WriteAll(Preamble(mode, interval, echion, pid, mainThread));
      assert cache.Entries() == [];
    }

    method WriteAll(es: seq<Event>)
      requires Valid() && forall i :: 0 <= i < |es| ==> InRange(es[i])
      modifies this`events, renderer
      ensures Valid() && events == old(events) + es
    {
      hide Print, PrintAll, Header;
      for n := 0 to |es|
        invariant Valid() && events == old(events) + es[..n]
      {
        WriteEvent(es[n]);
      }
    }

    /** One event goes to the renderer. */
    method WriteEvent(e: Event)
      requires Valid() && InRange(e)
      modifies this`events, renderer
      ensures Valid() && events == old(events) + [e]
    {
      hide Print, PrintAll, Header, LRUCache.Valid;
      match e {
        case Metadata(key, value) => renderer.WriteMetadata(key, value);
        case Stack(pid, iid, threadName) => renderer.WriteStack(pid, iid, threadName);
        case FrameDef(frame, filename, name, line, lineEnd, column, columnEnd) =>
          renderer.WriteFrame(frame, filename, name, line, lineEnd, column, columnEnd);
        case FrameInvalid =>
          InvalidIsRefZero();
          renderer.WriteFrameRef(0);
        case FrameRef(frame) => renderer.WriteFrameRef(frame);
        case FrameKernel(scope) => renderer.WriteFrameKernel(scope);
        case MetricTime(time) => renderer.WriteMetricTime(time);
        case MetricMemory(bytes) => renderer.WriteMetricMemory(bytes);
        case StringDef(str, text) => renderer.WriteString(str, text);
        case StringRef(str) => renderer.WriteStringRef(str);
      }
      ConcatAssociates(Header(), PrintAll(events), Print(e));
      PrintOneMore(events, e);
      events := events + [e];
    }

    method InternString(str: Key, text: Option<Text>) returns (r: Option<Key>)
      requires Valid() && IsUInt64(str)
      modifies this, renderer
      ensures Valid() && Abstract() == Interned(old(Abstract()), str, text)
      ensures r == if KeyFound(old(Abstract()), str, text) then Some(str) else None
    {
      hide Print, PrintAll, Header, LRUCache.Valid;
      if str !in strings {
        if text.None? {
          return None;
        }
        strings := strings[str := text.value];
        WriteEvent(StringDef(str, text.value));
      }
      return Some(str);
    }

    method Add(f: Frame, place: Place)
      requires Valid() && !Holds(cache.Entries(), f.cacheKey)
      requires InRange(Definition(f, place))
      modifies this, cache, renderer
      ensures Valid() && Abstract() == Added(old(Abstract()), cache.capacity, f, place)
    {
      hide Print, PrintAll, Header;
      WriteEvent(Definition(f, place));
      EntriesAreWellFormed(cache.items, cache.index);
      var node := cache.Store(f.cacheKey, f);
    }

    /** Frame::get for a code object or a native frame. */
    method Get(key: Key, recipe: Option<Recipe>, fallback: Frame) returns (frame: Frame)
      requires Valid() && InRangeRecipe(key, recipe)
      modifies this, cache, renderer
      ensures Valid()
      ensures Abstract() == Holding(Gotten(old(Abstract()), cache.capacity, key, recipe, fallback))
      ensures frame == Gotten(old(Abstract()), cache.capacity, key, recipe, fallback).1
    {
      EntriesAreWellFormed(cache.items, cache.index);
      HoldsMeansPosition(cache.Entries(), key);
      var node, at := cache.Lookup(key);
      if node.Some? {
        frame := node.value.value;
        SplicedFirst(old(cache.Entries()), key);
      } else if recipe.None? {
        frame := fallback;
      } else {
        frame := Make(key, recipe.value, fallback);
      }
      held := held + {frame};
    }

    /** Frame::create on a miss, then the new frame is written and cached. */
    method Make(key: Key, r: Recipe, fallback: Frame) returns (frame: Frame)
      requires Valid() && InRangeRecipe(key, Some(r)) && Position(cache.Entries(), key) == |cache.Entries()|
      modifies this, cache, renderer
      ensures Valid()
      ensures (Abstract(), frame) == Created(old(Abstract()), cache.capacity, key, r, fallback)
    {
      hide Print, PrintAll, Header;
      var filename := InternString(r.filename, r.filenameText);
      if filename.None? {
        return fallback;
      }
      var name := InternString(r.name, r.nameText);
      if name.None? {
        return fallback;
      }
      if r.place.None? {
        return fallback;
      }
      frame := Frame(key, filename.value, name.value, false);
      Add(frame, r.place.value);
    }

    /** Frame::get for the name of a task. */
    method GetByName(name: Key) returns (frame: Frame)
      requires Valid() && IsUInt64(name)
      modifies this, cache, renderer
      ensures Valid()
      ensures Abstract() == Holding(GottenNamed(old(Abstract()), cache.capacity, name))
      ensures frame == GottenNamed(old(Abstract()), cache.capacity, name).1
    {
      HoldsMeansPosition(cache.Entries(), name);
      var node, at := cache.Lookup(name);
      if node.Some? {
        frame := node.value.value;
        SplicedFirst(old(cache.Entries()), name);
      } else {
        frame := Frame(name, 0, name, false);
        Add(frame, Place(0, 0, 0, 0));
      }
      held := held + {frame};
    }

    /** MojoRenderer::render_frame. */
    method RenderFrame(frame: Frame)
      requires Valid() && IsUInt64(frame.cacheKey)
      modifies this, renderer
      ensures Valid() && Abstract() == old(Abstract()).(events := old(events) + [FrameRef(frame.cacheKey)])
    {
      WriteEvent(FrameRef(frame.cacheKey));
    }

    /** Every operation on the objects is a step of a run. */
    method Perform(op: Op)
      requires Valid() && InRangeOp(op)
      modifies this, cache, renderer
      ensures Valid() && Abstract() == Step(old(Abstract()), cache.capacity, op)
    {
      match op {
        case Intern(str, text) =>
          var key := InternString(str, text);
        case GetFrame(key, recipe, fallback) =>
          var frame := Get(key, recipe, fallback);
        case GetNamed(name) =>
          var frame := GetByName(name);
        case Render(frame) => RenderFrame(frame);
        case Write(event) => WriteEvent(event);
      }
    }
  }

  predicate InRangeOp(op: Op) {
    match op
    case Intern(str, _) => IsUInt64(str)
    case GetFrame(key, recipe, _) => InRangeRecipe(key, recipe)
    case GetNamed(name) => IsUInt64(name)
    case Render(frame) => IsUInt64(frame.cacheKey)
    case Write(event) => InRange(event)
  }

  predicate InRangeRecipe(key: Key, recipe: Option<Recipe>) {
    && IsUInt64(key)
    && (recipe.Some? ==>
          var r := recipe.value;
          && IsUInt64(r.filename) && IsUInt64(r.name)
          && (r.place.Some? ==>
                var p := r.place.value;
                IsInt64(p.line) && IsInt64(p.lineEnd) && IsInt64(p.column) && IsInt64(p.columnEnd)))
  }

  lemma SplicedFirst<K, V>(es: seq<Entry<K, V>>, k: K)
    requires Holds(es, k)
    ensures Touched(es, k) != [] && Touched(es, k)[0] == es[Position(es, k)]
  {
  }

  /** What a get would cache on a miss. */
  function MadeBy(s: State, key: Key, recipe: Option<Recipe>): Option<Frame> {
    if recipe.None? then None
    else
      var r := recipe.value;
      var s1 := Interned(s, r.filename, r.filenameText);
      var found := KeyFound(s, r.filename, r.filenameText) && KeyFound(s1, r.name, r.nameText);
      if found && r.place.Some? then Some(Frame(key, r.filename, r.name, false)) else None
  }

  /** Frame::get is a get of the frame cache. */
  lemma GottenIsAGet(s: State, capacity: nat, key: Key, recipe: Option<Recipe>, fallback: Frame)
    requires 1 <= capacity
    ensures var r, access := Gotten(s, capacity, key, recipe, fallback), Access(key, MadeBy(s, key, recipe));
            && r.0.cache == FrameCache.Get(s.cache, capacity, access)
            && r.1 == if OutcomeOf(s.cache, access).Failed? then fallback else OutcomeOf(s.cache, access).value
  {
  }

  lemma GottenNamedIsAGet(s: State, capacity: nat, name: Key)
    requires 1 <= capacity
    ensures var r, access := GottenNamed(s, capacity, name), Access(name, Some(Frame(name, 0, name, false)));
            && r.0.cache == FrameCache.Get(s.cache, capacity, access)
            && r.1 == OutcomeOf(s.cache, access).value
  {
  }

  /** The get that an operation makes of the frame cache, if it makes one. */
  function AccessOf(s: State, op: Op): Option<Access<Key, Frame>> {
    match op
    case GetFrame(key, recipe, _) => Some(Access(key, MadeBy(s, key, recipe)))
    case GetNamed(name) => Some(Access(name, Some(Frame(name, 0, name, false))))
    case _ => None
  }

  /** The key that an operation looks up, if it does. */
  function KeyLookedUp(op: Op): seq<Key> {
    match op
    case GetFrame(key, _, _) => [key]
    case GetNamed(name) => [name]
    case _ => []
  }

  lemma StepGets(s: State, capacity: nat, op: Op)
    requires 1 <= capacity
    ensures var access := AccessOf(s, op);
            && KeyLookedUp(op) == (if access.None? then [] else [access.value.key])
            && Step(s, capacity, op).cache
                 == if access.None? then s.cache else FrameCache.Get(s.cache, capacity, access.value)
  {
    match op
    case GetFrame(key, recipe, fallback) => GottenIsAGet(s, capacity, key, recipe, fallback);
    case GetNamed(name) => GottenNamedIsAGet(s, capacity, name);
    case _ =>
  }

  // ---------------------------------------------------------------------
  // Define before use

  /** The strings that the events define. */
  function DefinedStrings(events: seq<Event>): set<int> {
    if events == [] then {}
    else
      var last := events[|events| - 1];
      DefinedStrings(events[..|events| - 1]) + if last.StringDef? then {last.str} else {}
  }

  /** The frames that the events define. */
  function DefinedFrames(events: seq<Event>): set<int> {
    if events == [] then {}
    else
      var last := events[|events| - 1];
      DefinedFrames(events[..|events| - 1]) + if last.FrameDef? then {last.frame} else {}
  }

  /**
   An event that may follow: a reference is to a frame defined before, a frame has its strings defined before,
   and no string is defined for the second time.
   */
  predicate MayFollow(events: seq<Event>, e: Event) {
    match e
    case FrameRef(frame) => frame == 0 || frame in DefinedFrames(events)
    case FrameDef(_, filename, name, _, _, _, _) => filename in DefinedStrings(events) && name in DefinedStrings(events)
    case StringDef(str, _) => str !in DefinedStrings(events)
    case StringRef(str) => str in DefinedStrings(events)
    case _ => true
  }

  /** Every event of the stream may follow those before it. */
  ghost predicate DefinesBeforeUse(events: seq<Event>) {
    forall i :: 0 <= i < |events| ==> MayFollow(events[..i], events[i])
  }

  lemma OneMoreEvent(events: seq<Event>, e: Event)
    requires DefinesBeforeUse(events) && MayFollow(events, e)
    ensures DefinesBeforeUse(events + [e])
    ensures DefinedStrings(events + [e]) == DefinedStrings(events) + if e.StringDef? then {e.str} else {}
    ensures DefinedFrames(events + [e]) == DefinedFrames(events) + if e.FrameDef? then {e.frame} else {}
  {
    var es := events + [e];
    assert es[..|es| - 1] == events;
    forall i | 0 <= i < |es|
      ensures MayFollow(es[..i], es[i])
    {
      if i < |events| { assert es[..i] == events[..i]; }
    }
  }

  /**
   The string table holds exactly the strings defined so far, and every frame that is cached or was handed out
   has been defined, unless its key is 0.
   */
  ghost predicate Accounted(s: State) {
    && DefinesBeforeUse(s.events)
    && (forall k :: k in s.strings <==> k in DefinedStrings(s.events))
    && 0 in s.strings
    && (forall i :: 0 <= i < |s.cache| ==> IsDefined(s, s.cache[i].value))
    && (forall f :: f in s.held ==> IsDefined(s, f))
  }

  ghost predicate IsDefined(s: State, f: Frame) {
    f.cacheKey == 0 || f.cacheKey in DefinedFrames(s.events)
  }

  lemma {:induction false} PlainEvents(es: seq<Event>)
    requires forall i :: 0 <= i < |es| ==> es[i].Metadata? || es[i].Stack? || es[i].MetricTime?
    ensures DefinesBeforeUse(es) && DefinedStrings(es) == {} && DefinedFrames(es) == {}
  {
    if es == [] {
    } else {
      var init := es[..|es| - 1];
      PlainEvents(init);
      OneMoreEvent(init, es[|es| - 1]);
      assert es == init + [es[|es| - 1]];
    }
  }

  lemma OneMoreString(events: seq<Event>, str: int, text: Text, defined: set<int>)
    requires DefinesBeforeUse(events) && DefinedStrings(events) == defined && DefinedFrames(events) == {}
    requires str !in defined
    ensures var es := events + [StringDef(str, text)];
            DefinesBeforeUse(es) && DefinedStrings(es) == defined + {str} && DefinedFrames(es) == {}
  {
    OneMoreEvent(events, StringDef(str, text));
  }

  lemma PreambleIsAccounted(mode: Text, interval: Text, echion: Text, pid: int, mainThread: Text)
    ensures Accounted(Started(Preamble(mode, interval, echion, pid, mainThread)))
  {
    var es := Preamble(mode, interval, echion, pid, mainThread);
    PreambleDefines(es[..4], es);
  }

  lemma PreambleDefines(plain: seq<Event>, es: seq<Event>)
    requires forall i :: 0 <= i < |plain| ==> plain[i].Metadata? || plain[i].Stack? || plain[i].MetricTime?
    requires es == plain + [StringDef(0, []), StringDef(1, INVALID_TEXT), StringDef(2, UNKNOWN_TEXT), MetricTime(0)]
    ensures DefinesBeforeUse(es) && DefinedStrings(es) == {0, 1, 2} && DefinedFrames(es) == {}
  {
    hide DefinesBeforeUse, DefinedStrings, DefinedFrames;
    PlainEvents(plain);
    OneMoreString(plain, 0, [], {});
    var e1 := plain + [StringDef(0, [])];
    OneMoreString(e1, 1, INVALID_TEXT, {} + {0});
    var e2 := e1 + [StringDef(1, INVALID_TEXT)];
    OneMoreString(e2, 2, UNKNOWN_TEXT, {0} + {1});
    var e3 := e2 + [StringDef(2, UNKNOWN_TEXT)];
    OneMoreEvent(e3, MetricTime(0));
    assert es == e3 + [MetricTime(0)];
  }

  lemma InternIsAccounted(s: State, str: Key, text: Option<Text>)
    requires Accounted(s)
    ensures Accounted(Interned(s, str, text))
    ensures KeyFound(s, str, text) ==> str in Interned(s, str, text).strings
    ensures forall k :: k in s.strings ==> k in Interned(s, str, text).strings
  {
    hide DefinesBeforeUse, DefinedStrings, DefinedFrames;
    if str !in s.strings && text.Some? {
      OneMoreEvent(s.events, StringDef(str, text.value));
    }
  }

  lemma AddIsAccounted(s: State, capacity: nat, f: Frame, place: Place)
    requires Accounted(s) && 1 <= capacity && f.filename in s.strings && f.name in s.strings
    ensures Accounted(Added(s, capacity, f, place)) && IsDefined(Added(s, capacity, f, place), f)
  {
    hide DefinesBeforeUse, DefinedStrings, DefinedFrames;
    OneMoreEvent(s.events, Definition(f, place));
  }

  lemma TouchIsAccounted(s: State, key: Key)
    requires Accounted(s)
    ensures Accounted(s.(cache := Touched(s.cache, key)))
  {
  }

  lemma CreateIsAccounted(s: State, capacity: nat, key: Key, r: Recipe, fallback: Frame)
    requires Accounted(s) && 1 <= capacity && fallback.cacheKey == 0
    ensures var created := Created(s, capacity, key, r, fallback);
            Accounted(created.0) && IsDefined(created.0, created.1)
  {
    hide Accounted, Interned, Added;
    var s1 := Interned(s, r.filename, r.filenameText);
    InternIsAccounted(s, r.filename, r.filenameText);
    if KeyFound(s, r.filename, r.filenameText) {
      var s2 := Interned(s1, r.name, r.nameText);
      InternIsAccounted(s1, r.name, r.nameText);
      if KeyFound(s1, r.name, r.nameText) && r.place.Some? {
        AddIsAccounted(s2, capacity, Frame(key, r.filename, r.name, false), r.place.value);
      }
    }
  }

  lemma GetIsAccounted(s: State, capacity: nat, key: Key, recipe: Option<Recipe>, fallback: Frame)
    requires Accounted(s) && 1 <= capacity && fallback.cacheKey == 0
    ensures var r := Gotten(s, capacity, key, recipe, fallback);
            Accounted(r.0) && IsDefined(r.0, r.1)
  {
    if Position(s.cache, key) < |s.cache| {
      TouchIsAccounted(s, key);
    } else if recipe.Some? {
      CreateIsAccounted(s, capacity, key, recipe.value, fallback);
    }
  }

  lemma GetNamedIsAccounted(s: State, capacity: nat, name: Key)
    requires Accounted(s) && 1 <= capacity && name in s.strings
    ensures var r := GottenNamed(s, capacity, name);
            Accounted(r.0) && IsDefined(r.0, r.1)
  {
    if Position(s.cache, name) < |s.cache| {
      TouchIsAccounted(s, name);
    } else {
      AddIsAccounted(s, capacity, Frame(name, 0, name, false), Place(0, 0, 0, 0));
    }
  }

  lemma RenderIsAccounted(s: State, f: Frame)
    requires Accounted(s) && IsDefined(s, f)
    ensures Accounted(s.(events := s.events + [FrameRef(f.cacheKey)]))
  {
    hide DefinesBeforeUse, DefinedStrings, DefinedFrames;
    OneMoreEvent(s.events, FrameRef(f.cacheKey));
  }

  lemma WriteIsAccounted(s: State, e: Event)
    requires Accounted(s) && (e.Metadata? || e.Stack? || e.MetricTime? || e.MetricMemory?)
    ensures Accounted(s.(events := s.events + [e]))
  {
    hide DefinesBeforeUse, DefinedStrings, DefinedFrames;
    OneMoreEvent(s.events, e);
  }

  lemma HeldIsAccounted(r: (State, Frame))
    requires Accounted(r.0) && IsDefined(r.0, r.1)
    ensures Accounted(Holding(r))
  {
  }

  lemma HeldIsDefined(s: State, f: Frame)
    requires Accounted(s) && f in s.held
    ensures IsDefined(s, f)
  {
  }

  lemma StepIsAccounted(s: State, capacity: nat, op: Op)
    requires Accounted(s) && 1 <= capacity && Allowed(s, op)
    ensures Accounted(Step(s, capacity, op))
  {
    hide Accounted, Gotten, GottenNamed, Interned, Holding;
    match op
    case Intern(str, text) => InternIsAccounted(s, str, text);
    case GetFrame(key, recipe, fallback) =>
      GetIsAccounted(s, capacity, key, recipe, fallback);
      HeldIsAccounted(Gotten(s, capacity, key, recipe, fallback));
    case GetNamed(name) =>
      GetNamedIsAccounted(s, capacity, name);
      HeldIsAccounted(GottenNamed(s, capacity, name));
    case Render(frame) =>
      HeldIsDefined(s, frame);
      RenderIsAccounted(s, frame);
    case Write(event) => WriteIsAccounted(s, event);
  }

  // ---------------------------------------------------------------------
  // Whole runs

  /** `s` is what the operations make of a fresh start, each allowed where it happens. */
  ghost predicate RunsTo(start: State, capacity: nat, ops: seq<Op>, s: State)
    requires 1 <= capacity
  {
    if ops == [] then s == start
    else
      var last := ops[|ops| - 1];
      exists before ::
        RunsTo(start, capacity, ops[..|ops| - 1], before) && Allowed(before, last) && s == Step(before, capacity, last)
  }

  /** The keys that the operations look up, in order. */
  function KeysLookedUp(ops: seq<Op>): seq<Key> {
    if ops == [] then [] else KeysLookedUp(ops[..|ops| - 1]) + KeyLookedUp(ops[|ops| - 1])
  }

  function KeysOf(gets: seq<Access<Key, Frame>>): (ks: seq<Key>)
    ensures |ks| == |gets| && forall i :: 0 <= i < |gets| ==> ks[i] == gets[i].key
  {
    seq(|gets|, i requires 0 <= i < |gets| => gets[i].key)
  }

  /** What a run makes of the cache is what its gets make of it, in their order. */
  lemma {:induction false} RunIsGets(start: State, capacity: nat, ops: seq<Op>, s: State)
    returns (gets: seq<Access<Key, Frame>>)
    requires 1 <= capacity && RunsTo(start, capacity, ops, s)
    ensures s.cache == FrameCache.Run(start.cache, capacity, gets, |gets|) && KeysOf(gets) == KeysLookedUp(ops)
  {
    hide Step, AccessOf, KeyLookedUp, FrameCache.Get;
    if ops == [] {
      gets := [];
    } else {
      var last := ops[|ops| - 1];
      var before :| RunsTo(start, capacity, ops[..|ops| - 1], before) && s == Step(before, capacity, last);
      var access := AccessOf(before, last);
      var gets' := RunIsGets(start, capacity, ops[..|ops| - 1], before);
      StepGets(before, capacity, last);
      gets := if access.None? then gets' else gets' + [access.value];
      if access.Some? {
        RunOfPrefix(start.cache, capacity, gets', [access.value], |gets'|);
        assert KeysOf(gets) == KeysOf(gets') + [access.value.key];
      }
    }
  }

  /** So in every run from a fresh start the frame cache holds the frames used last. */
  lemma CacheOfRunIsRecent(preamble: seq<Event>, capacity: nat, ops: seq<Op>, s: State)
    returns (gets: seq<Access<Key, Frame>>)
    requires 1 <= capacity && RunsTo(Started(preamble), capacity, ops, s)
    ensures KeysOf(gets) == KeysLookedUp(ops)
    ensures s.cache == Take(Recent([], Outcomes([], capacity, gets), |gets|), capacity)
  {
    gets := RunIsGets(Started(preamble), capacity, ops, s);
    CacheIsRecent([], capacity, gets, |gets|);
  }

  /** In every run, the stream defines its frames and strings before it uses them, and every string once. */
  lemma {:induction false} RunDefinesBeforeUse(mode: Text, interval: Text, echion: Text, pid: int, mainThread: Text,
                                               capacity: nat, ops: seq<Op>, s: State)
    requires 1 <= capacity && RunsTo(Started(Preamble(mode, interval, echion, pid, mainThread)), capacity, ops, s)
    ensures Accounted(s)
  {
    if ops == [] {
      PreambleIsAccounted(mode, interval, echion, pid, mainThread);
    } else {
      var last, start := ops[|ops| - 1], Started(Preamble(mode, interval, echion, pid, mainThread));
      var before :|
        RunsTo(start, capacity, ops[..|ops| - 1], before) && Allowed(before, last) && s == Step(before, capacity, last);
      RunDefinesBeforeUse(mode, interval, echion, pid, mainThread, capacity, ops[..|ops| - 1], before);
      StepIsAccounted(before, capacity, last);
    }
  }

  lemma StepAppends(s: State, capacity: nat, op: Op)
    requires 1 <= capacity
    ensures s.events <= Step(s, capacity, op).events
  {
  }

  /** Whatever is done, the stream of a run starts with the metadata, the main thread and the first three strings. */
  lemma {:induction false} PreambleComesFirst(mode: Text, interval: Text, echion: Text, pid: int, mainThread: Text,
                                              capacity: nat, ops: seq<Op>, s: State)
    requires 1 <= capacity && RunsTo(Started(Preamble(mode, interval, echion, pid, mainThread)), capacity, ops, s)
    ensures [Metadata(MODE, mode), Metadata(INTERVAL, interval), Metadata(SAMPLER, echion), Stack(pid, 0, mainThread),
             StringDef(0, []), StringDef(1, INVALID_TEXT), StringDef(2, UNKNOWN_TEXT), MetricTime(0)] <= s.events
  {
    hide Step, Allowed;
    if ops != [] {
      var last, start := ops[|ops| - 1], Started(Preamble(mode, interval, echion, pid, mainThread));
      var before :|
        RunsTo(start, capacity, ops[..|ops| - 1], before) && Allowed(before, last) && s == Step(before, capacity, last);
      PreambleComesFirst(mode, interval, echion, pid, mainThread, capacity, ops[..|ops| - 1], before);
      StepAppends(before, capacity, last);
    }
  }

  // ---------------------------------------------------------------------
  // What a get writes

  /** What is written for a string that is met: nothing if it is known. */
  function NewString(known: bool, str: Key, text: Option<Text>): seq<Event> {
    if known || text.None? then [] else [StringDef(str, text.value)]
  }

  /**
   On a miss the file's string is met first, then the name's.  If one of them cannot be read, or the location is not
   found, nothing is written any more, nothing is cached and the fallback is returned.  Otherwise the frame is written
   with its own key, its file, its name and its location, and the cache has it first.
   */
  lemma MissWrites(s: State, capacity: nat, key: Key, r: Recipe, fallback: Frame)
    requires 1 <= capacity && Position(s.cache, key) == |s.cache|
    ensures var (s', f) := Gotten(s, capacity, key, Some(r), fallback);
            var file, name := r.filename in s.strings, r.name in s.strings || r.name == r.filename;
            var found := (file || r.filenameText.Some?) && (name || r.nameText.Some?) && r.place.Some?;
            var first := NewString(file, r.filename, r.filenameText);
            var second := if file || r.filenameText.Some? then NewString(name, r.name, r.nameText) else [];
            && s'.held == s.held
            && f == (if found then Frame(key, r.filename, r.name, false) else fallback)
            && (!found ==> s'.events == s.events + first + second && s'.cache == s.cache)
            && (found ==>
                  && s'.events == s.events + first + second
                       + [FrameDef(key, r.filename, r.name, r.place.value.line, r.place.value.lineEnd,
                                   r.place.value.column, r.place.value.columnEnd)]
                  && s'.cache != [] && s'.cache[0] == Entry(key, f))
  {
    hide Stored;
    StoredFirst(s.cache, capacity, Entry(key, Frame(key, r.filename, r.name, false)));
  }

  lemma StoredFirst<K, V>(es: seq<Entry<K, V>>, capacity: nat, e: Entry<K, V>)
    requires 1 <= capacity
    ensures Stored(es, capacity, e) != [] && Stored(es, capacity, e)[0] == e
  {
  }

  /** A name that is not cached is written as a frame without a file or a location. */
  lemma NameWrites(s: State, capacity: nat, name: Key)
    requires 1 <= capacity && Position(s.cache, name) == |s.cache|
    ensures var (s', f) := GottenNamed(s, capacity, name);
            && s'.events == s.events + [FrameDef(name, 0, name, 0, 0, 0, 0)]
            && f == Frame(name, 0, name, false) && s'.cache != [] && s'.cache[0] == Entry(name, f)
  {
    hide Stored;
    StoredFirst(s.cache, capacity, Entry(name, Frame(name, 0, name, false)));
  }

  // ---------------------------------------------------------------------
  // What a reader makes of a reference

  /** The last definition of a frame that the events have. */
  function LatestDefinition(events: seq<Event>, key: int): Option<Event> {
    if events == [] then None
    else
      var last := events[|events| - 1];
      if last.FrameDef? && last.frame == key then Some(last) else LatestDefinition(events[..|events| - 1], key)
  }

  lemma LatestOfOneMore(events: seq<Event>, e: Event, key: int)
    ensures LatestDefinition(events + [e], key)
      == if e.FrameDef? && e.frame == key then Some(e) else LatestDefinition(events, key)
  {
    assert (events + [e])[..|events|] == events;
  }

  /** The event defines this frame: its key, its file and its name. */
  predicate Defines(e: Event, f: Frame) {
    e.FrameDef? && e.frame == f.cacheKey && e.filename == f.filename && e.name == f.name
  }

  /** A cached frame is the one that its key was last defined as, and its strings are known. */
  ghost predicate Resolves(s: State, e: Entry<Key, Frame>) {
    var latest := LatestDefinition(s.events, e.key);
    && e.value.cacheKey == e.key && latest.Some? && Defines(latest.value, e.value)
    && e.value.filename in s.strings && e.value.name in s.strings
  }

  /** The frame is one of the two fallbacks, or some event defines it. */
  ghost predicate WasDefined(s: State, f: Frame) {
    f == INVALID_FRAME || f == UNKNOWN_FRAME || exists i :: 0 <= i < |s.events| && Defines(s.events[i], f)
  }

  /** Every known string was written with the text it has. */
  ghost predicate TextsAreWritten(s: State) {
    forall k :: k in s.strings ==> StringDef(k, s.strings[k]) in s.events
  }

  ghost predicate AllResolve(s: State, cache: seq<Entry<Key, Frame>>) {
    forall i :: 0 <= i < |cache| ==> Resolves(s, cache[i])
  }

  ghost predicate AllWereDefined(s: State) {
    forall f :: f in s.held ==> WasDefined(s, f)
  }

  ghost predicate Faithful(s: State) {
    TextsAreWritten(s) && AllResolve(s, s.cache) && AllWereDefined(s)
  }

  lemma {:induction false} LatestIsThere(events: seq<Event>, key: int)
    ensures LatestDefinition(events, key).Some? ==> LatestDefinition(events, key).value in events
  {
    if events != [] {
      LatestIsThere(events[..|events| - 1], key);
    }
  }

  lemma ResolvesWasDefined(s: State, e: Entry<Key, Frame>)
    requires Resolves(s, e)
    ensures WasDefined(s, e.value)
  {
    LatestIsThere(s.events, e.key);
    var i :| 0 <= i < |s.events| && s.events[i] == LatestDefinition(s.events, e.key).value;
    assert Defines(s.events[i], e.value);
  }

  /** The state after one more event, and perhaps one more string. */
  predicate GrowsBy(s: State, s': State, e: Event) {
    && s'.events == s.events + [e] && s'.held == s.held
    && forall k :: k in s.strings ==> k in s'.strings
  }

  lemma StillResolves(s: State, s': State, e: Event, entry: Entry<Key, Frame>)
    requires Resolves(s, entry) && GrowsBy(s, s', e) && !(e.FrameDef? && e.frame == entry.key)
    ensures Resolves(s', entry)
  {
    LatestOfOneMore(s.events, e, entry.key);
  }

  lemma StillDefined(s: State, s': State, e: Event)
    requires AllWereDefined(s) && GrowsBy(s, s', e)
    ensures AllWereDefined(s')
  {
    forall f | f in s'.held
      ensures WasDefined(s', f)
    {
      if i :| 0 <= i < |s.events| && Defines(s.events[i], f) {
        assert Defines(s'.events[i], f);
      }
    }
  }

  lemma WriteIsFaithful(s: State, e: Event)
    requires Faithful(s) && !e.FrameDef?
    ensures Faithful(s.(events := s.events + [e]))
  {
    var s' := s.(events := s.events + [e]);
    hide Resolves, WasDefined, LatestDefinition;
    forall i | 0 <= i < |s.cache|
      ensures Resolves(s', s.cache[i])
    {
      StillResolves(s, s', e, s.cache[i]);
    }
    StillDefined(s, s', e);
  }

  lemma InternIsFaithful(s: State, str: Key, text: Option<Text>)
    requires Faithful(s)
    ensures Faithful(Interned(s, str, text))
    ensures KeyFound(s, str, text) ==> str in Interned(s, str, text).strings
    ensures forall k :: k in s.strings ==> k in Interned(s, str, text).strings
    ensures Interned(s, str, text).cache == s.cache
  {
    var s' := Interned(s, str, text);
    hide Resolves, WasDefined, LatestDefinition;
    if s' != s {
      var e := StringDef(str, text.value);
      forall i | 0 <= i < |s.cache|
        ensures Resolves(s', s.cache[i])
      {
        StillResolves(s, s', e, s.cache[i]);
      }
      StillDefined(s, s', e);
    }
  }

  lemma AddIsFaithful(s: State, capacity: nat, f: Frame, place: Place)
    requires Faithful(s) && 1 <= capacity && Position(s.cache, f.cacheKey) == |s.cache|
    requires f.filename in s.strings && f.name in s.strings
    ensures Faithful(Added(s, capacity, f, place)) && WasDefined(Added(s, capacity, f, place), f)
  {
    var s', e := Added(s, capacity, f, place), Definition(f, place);
    LatestOfOneMore(s.events, e, f.cacheKey);
    ResolvesWasDefined(s', Entry(f.cacheKey, f));
    hide Resolves, WasDefined, LatestDefinition;
    forall i | 0 <= i < |s'.cache|
      ensures Resolves(s', s'.cache[i])
    {
      if i > 0 {
        assert s'.cache[i] == s.cache[i - 1];
        StillResolves(s, s', e, s.cache[i - 1]);
      }
    }
    StillDefined(s, s', e);
  }

  lemma TouchIsFaithful(s: State, key: Key)
    requires Faithful(s) && Position(s.cache, key) < |s.cache|
    ensures Faithful(s.(cache := Touched(s.cache, key)))
    ensures WasDefined(s.(cache := Touched(s.cache, key)), s.cache[Position(s.cache, key)].value)
  {
    ResolvesWasDefined(s, s.cache[Position(s.cache, key)]);
  }

  lemma CreateIsFaithful(s: State, capacity: nat, key: Key, r: Recipe, fallback: Frame)
    requires Faithful(s) && 1 <= capacity && Position(s.cache, key) == |s.cache|
    requires fallback == INVALID_FRAME || fallback == UNKNOWN_FRAME
    ensures var created := Created(s, capacity, key, r, fallback);
            Faithful(created.0) && WasDefined(created.0, created.1)
  {
    hide Faithful, Interned, Added, Position;
    var s1 := Interned(s, r.filename, r.filenameText);
    InternIsFaithful(s, r.filename, r.filenameText);
    if KeyFound(s, r.filename, r.filenameText) {
      var s2 := Interned(s1, r.name, r.nameText);
      InternIsFaithful(s1, r.name, r.nameText);
      if KeyFound(s1, r.name, r.nameText) && r.place.Some? {
        AddIsFaithful(s2, capacity, Frame(key, r.filename, r.name, false), r.place.value);
      }
    }
  }

  lemma HoldIsFaithful(r: (State, Frame))
    requires Faithful(r.0) && WasDefined(r.0, r.1)
    ensures Faithful(Holding(r))
  {
    var s' := Holding(r);
    forall i | 0 <= i < |s'.cache|
      ensures Resolves(s', s'.cache[i])
    {
      assert Resolves(r.0, r.0.cache[i]);
    }
    forall f | f in s'.held
      ensures WasDefined(s', f)
    {
      assert WasDefined(r.0, f);
    }
  }

  lemma StepIsFaithful(s: State, capacity: nat, op: Op)
    requires Faithful(s) && 1 <= capacity && Allowed(s, op) && 0 in s.strings
    ensures Faithful(Step(s, capacity, op)) && 0 in Step(s, capacity, op).strings
  {
    hide Faithful, Created, Added, Interned, Resolves;
    match op
    case Intern(str, text) => InternIsFaithful(s, str, text);
    case GetFrame(key, recipe, fallback) =>
      if Position(s.cache, key) < |s.cache| {
        TouchIsFaithful(s, key);
      } else if recipe.Some? {
        CreateIsFaithful(s, capacity, key, recipe.value, fallback);
        CreateKeepsStrings(s, capacity, key, recipe.value, fallback);
      }
      HoldIsFaithful(Gotten(s, capacity, key, recipe, fallback));
    case GetNamed(name) =>
      if Position(s.cache, name) < |s.cache| {
        TouchIsFaithful(s, name);
      } else {
        AddIsFaithful(s, capacity, Frame(name, 0, name, false), Place(0, 0, 0, 0));
        AddKeepsStrings(s, capacity, Frame(name, 0, name, false), Place(0, 0, 0, 0));
      }
      HoldIsFaithful(GottenNamed(s, capacity, name));
    case Render(frame) => WriteIsFaithful(s, FrameRef(frame.cacheKey));
    case Write(event) => WriteIsFaithful(s, event);
  }

  lemma CreateKeepsStrings(s: State, capacity: nat, key: Key, r: Recipe, fallback: Frame)
    requires 1 <= capacity
    ensures forall k :: k in s.strings ==> k in Created(s, capacity, key, r, fallback).0.strings
  {
  }

  lemma AddKeepsStrings(s: State, capacity: nat, f: Frame, place: Place)
    requires 1 <= capacity
    ensures Added(s, capacity, f, place).strings == s.strings
  {
  }

  /**
   In every run: every known string was written with its text, every frame handed out was written with its key, file
   and name, and a cached frame is what its key was last defined as.
   */
  lemma {:induction false} RunIsFaithful(mode: Text, interval: Text, echion: Text, pid: int, mainThread: Text,
                                         capacity: nat, ops: seq<Op>, s: State)
    requires 1 <= capacity && RunsTo(Started(Preamble(mode, interval, echion, pid, mainThread)), capacity, ops, s)
    ensures Faithful(s) && 0 in s.strings
  {
    hide Faithful, Step, Allowed;
    var start := Started(Preamble(mode, interval, echion, pid, mainThread));
    if ops == [] {
      StartIsFaithful(mode, interval, echion, pid, mainThread);
    } else {
      var last := ops[|ops| - 1];
      var before :|
        RunsTo(start, capacity, ops[..|ops| - 1], before) && Allowed(before, last) && s == Step(before, capacity, last);
      RunIsFaithful(mode, interval, echion, pid, mainThread, capacity, ops[..|ops| - 1], before);
      StepIsFaithful(before, capacity, last);
    }
  }

  lemma StartIsFaithful(mode: Text, interval: Text, echion: Text, pid: int, mainThread: Text)
    ensures Faithful(Started(Preamble(mode, interval, echion, pid, mainThread)))
  {
    var es := Preamble(mode, interval, echion, pid, mainThread);
    assert es[4] == StringDef(0, []) && es[5] == StringDef(1, INVALID_TEXT) && es[6] == StringDef(2, UNKNOWN_TEXT);
  }

  lemma {:induction false} DefinedBySomeEvent(events: seq<Event>, i: nat)
    requires i < |events| && events[i].StringDef?
    ensures events[i].str in DefinedStrings(events)
    decreases |events|
  {
    if i < |events| - 1 {
      DefinedBySomeEvent(events[..|events| - 1], i);
    }
  }

  /** A string is written once, so whoever reads a definition of it has its text. */
  lemma OneTextPerString(s: State, i: nat)
    requires Accounted(s) && Faithful(s) && i < |s.events| && s.events[i].StringDef?
    ensures s.events[i].str in s.strings && s.events[i].text == s.strings[s.events[i].str]
  {
    hide DefinedStrings, DefinedFrames, AllResolve, AllWereDefined;
    var str := s.events[i].str;
    DefinedBySomeEvent(s.events, i);
    var j :| 0 <= j < |s.events| && s.events[j] == StringDef(str, s.strings[str]);
    if i != j {
      var first, second := if i < j then i else j, if i < j then j else i;
      assert MayFollow(s.events[..second], s.events[second]);
      DefinedBySomeEvent(s.events[..second], first);
    }
  }

  /**
   So in every run, a reader that meets a reference to a cached frame has for its key the file and the name of that
   frame, and for these, wherever it finds them defined, the texts that were read for them.
   */
  lemma RenderedFrameIsRead(mode: Text, interval: Text, echion: Text, pid: int, mainThread: Text,
                            capacity: nat, ops: seq<Op>, s: State, e: Entry<Key, Frame>)
    requires 1 <= capacity && RunsTo(Started(Preamble(mode, interval, echion, pid, mainThread)), capacity, ops, s)
    requires e in s.cache
    ensures var events := Step(s, capacity, Render(e.value)).events;
            var key := e.value.cacheKey;
            var latest := LatestDefinition(events, key);
            && events == s.events + [FrameRef(key)]
            && latest.Some? && Defines(latest.value, e.value)
            && e.value.filename in s.strings && e.value.name in s.strings
            && (forall i :: 0 <= i < |events| && events[i].StringDef? && events[i].str == e.value.filename ==>
                  events[i].text == s.strings[e.value.filename])
            && (forall i :: 0 <= i < |events| && events[i].StringDef? && events[i].str == e.value.name ==>
                  events[i].text == s.strings[e.value.name])
  {
    hide Accounted, LatestDefinition, TextsAreWritten, AllWereDefined, RunsTo, Preamble, Started;
    RunIsFaithful(mode, interval, echion, pid, mainThread, capacity, ops, s);
    RunDefinesBeforeUse(mode, interval, echion, pid, mainThread, capacity, ops, s);
    LatestOfOneMore(s.events, FrameRef(e.value.cacheKey), e.value.cacheKey);
    forall i | 0 <= i < |s.events| && s.events[i].StringDef?
      ensures s.events[i].str in s.strings && s.events[i].text == s.strings[s.events[i].str]
    {
      OneTextPerString(s, i);
    }
  }

  /**
   A frame that is held beyond its eviction may be read as another: with room for one, the key of the first frame is
   defined again with another file.
   */
  lemma EvictedFrameIsMisread(s: State, p: Place)
    requires s.cache == [] && 100 in s.strings && 101 in s.strings && 200 in s.strings
    ensures var s1 := Step(s, 1, GetFrame(9, Some(Recipe(100, None, 200, None, Some(p))), INVALID_FRAME));
            var s2 := Step(s1, 1, GetFrame(10, Some(Recipe(100, None, 200, None, Some(p))), INVALID_FRAME));
            var s3 := Step(s2, 1, GetFrame(9, Some(Recipe(101, None, 200, None, Some(p))), INVALID_FRAME));
            && Frame(9, 100, 200, false) in s1.held && Frame(9, 100, 200, false) in s3.held
            && LatestDefinition(s3.events, 9)
                 == Some(FrameDef(9, 101, 200, p.line, p.lineEnd, p.column, p.columnEnd))
  {
    var r := Recipe(100, None, 200, None, Some(p));
    var s1 := Step(s, 1, GetFrame(9, Some(r), INVALID_FRAME));
    assert s1.cache == [Entry(9, Frame(9, 100, 200, false))];
    var s2 := Step(s1, 1, GetFrame(10, Some(r), INVALID_FRAME));
    assert s2.cache == [Entry(10, Frame(10, 100, 200, false))];
    LatestOfOneMore(s2.events, Definition(Frame(9, 101, 200, false), p), 9);
  }

  /** On the wire, the same strings and frames are defined. */
  lemma {:induction false} OnWireKeepsDefinitions(es: seq<Event>, k: int)
    requires Writable(es) && IsUInt64(k)
    ensures AsInt64(k) in DefinedStrings(AllOnWire(es)) <==> k in DefinedStrings(es)
    ensures AsInt64(k) in DefinedFrames(AllOnWire(es)) <==> k in DefinedFrames(es)
  {
    hide AllOnWire;
    if es == [] {
      AllOnWireLength(es);
    } else {
      OnWireAt(es, |es| - 1);
      assert es[..|es| - 1] + [es[|es| - 1]] == es;
      AllOnWireLength(es[..|es| - 1]);
      OnWireKeepsDefinitions(es[..|es| - 1], k);
    }
  }

  lemma OnWireMayFollow(es: seq<Event>, e: Event)
    requires Writable(es) && InRange(e) && MayFollow(es, e)
    ensures MayFollow(AllOnWire(es), OnWire(e))
  {
    hide DefinedStrings, DefinedFrames, AllOnWire;
    match e
    case FrameRef(frame) => OnWireKeepsDefinitions(es, frame);
    case FrameDef(_, filename, name, _, _, _, _) =>
      OnWireKeepsDefinitions(es, filename);
      OnWireKeepsDefinitions(es, name);
    case StringDef(str, _) => OnWireKeepsDefinitions(es, str);
    case StringRef(str) => OnWireKeepsDefinitions(es, str);
    case _ =>
  }

  /** What a reader decodes from the bytes of a run is a stream that defines before it uses. */
  lemma DecodedStreamDefinesBeforeUse(mode: Text, interval: Text, echion: Text, pid: int, mainThread: Text,
                                      capacity: nat, ops: seq<Op>, s: State, bytes: seq<byte>)
    requires 1 <= capacity && RunsTo(Started(Preamble(mode, interval, echion, pid, mainThread)), capacity, ops, s)
    requires Writable(s.events) && bytes == Header() + PrintAll(s.events)
    ensures ParseStream(bytes).Some? && DefinesBeforeUse(ParseStream(bytes).value)
  {
    hide AllOnWire, OnWire, MayFollow, PrintAll, Header, ParseStream, Preamble, RunsTo;
    RunDefinesBeforeUse(mode, interval, echion, pid, mainThread, capacity, ops, s);
    StreamReads(s.events);
    AllOnWireLength(s.events);
    var wire := AllOnWire(s.events);
    forall i | 0 <= i < |wire|
      ensures MayFollow(wire[..i], wire[i])
    {
      assert MayFollow(s.events[..i], s.events[i]);
      OnWireAt(s.events, i);
      OnWireMayFollow(s.events[..i], s.events[i]);
    }
  }
}
