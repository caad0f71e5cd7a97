/**
  The walk over a hardware message: a recursive producer that sends what it finds on two
  unbuffered channels, each drained by a goroutine that appends to a slice.  Channels and
  goroutines are a step system; what the walk is for is a pre-order list of the tree.
 */
module HardwareWalk {
  import opened Wire
  import opened Messages
  import opened Natives
  import opened HardwareObjects

  // ---- The walk as a list ------------------------------------------------------------------------

  datatype Channel = Hardware | System

  datatype Sent = Sent(channel: Channel, obj: Obj)

  /** What is sent for one field. */
  function Found(env: Env, f: Field): seq<Sent> {
    if f.name == DEVICE_INVENTORY then [Sent(Hardware, HardwareObject(env, f))]
    else if f.name == DEVICE_SYSTEM_DATA then [Sent(System, SystemObject(env, f))]
    else []
  }

  /** An inventory field with a child named `timestamps` that holds a string: what the walk
      sends for it does not pass. */
  lemma TimeAsTextPanics(env: Env)
    ensures var child := Field(0, Name("timestamps"), Some(StringValue(Name("now"))), []);
            var f := Field(0, DEVICE_INVENTORY, None, [child]);
            Found(env, f) == [Sent(Hardware, HardwareObject(env, f))] && !Persistable(HardwareObject(env, f))
  {
    var child := Field(0, Name("timestamps"), Some(StringValue(Name("now"))), []);
    assert |Name("now")| == 3;
    PersistableIff(env, Field(0, DEVICE_INVENTORY, None, [child]));
  }

  /** A system field without children: the walk can build its object and sends it, and it does
      not pass. */
  lemma MissingTimePanics(env: Env)
    ensures var f := Field(0, DEVICE_SYSTEM_DATA, None, []);
            !Broken(f) && Found(env, f) == [Sent(System, SystemObject(env, f))]
            && !SystemPersistable(SystemObject(env, f))
  {
    assert |DEVICE_SYSTEM_DATA| == 18 && |DEVICE_INVENTORY| == 16;
    SystemPersistableIff(env, Field(0, DEVICE_SYSTEM_DATA, None, []));
  }

  /** A field whose object cannot be built. */
  predicate Broken(f: Field) {
    f.name != DEVICE_INVENTORY && f.name == DEVICE_SYSTEM_DATA && exists child :: child in f.fields && Faulty(child)
  }

  lemma BrokenIff(f: Field)
    ensures Broken(f) <==>
            f.name == DEVICE_SYSTEM_DATA
            && exists child :: child in f.fields && child.name in {SOFTWARE_VERSION, CURRENT_TIME, BOOT_TIME}
                               && !(child.value.Some? && child.value.value.StringValue?)
  {
    assert |DEVICE_SYSTEM_DATA| == 18 && |DEVICE_INVENTORY| == 16;
    hide Name;
    if f.name == DEVICE_SYSTEM_DATA
       && exists child :: child in f.fields && child.name in {SOFTWARE_VERSION, CURRENT_TIME, BOOT_TIME}
                          && !(child.value.Some? && child.value.value.StringValue?) {
      var child :| child in f.fields && child.name in {SOFTWARE_VERSION, CURRENT_TIME, BOOT_TIME}
                   && !(child.value.Some? && child.value.value.StringValue?);
      assert Faulty(child);
    }
  }

  /** The fields of a forest, each before its children. */
  function PreOrder(forest: seq<Field>): seq<Field> {
    if forest == [] then []
    else [forest[0]] + PreOrder(forest[0].fields) + PreOrder(forest[1..])
  }

  /** The pre-order of a forest is that of its trees one after the other, and the pre-order of a
      tree is its root and then that of its children, whatever the root is called. */
  lemma {:induction false} PreOrderLaws(a: seq<Field>, b: seq<Field>, f: Field)
    ensures PreOrder(a + b) == PreOrder(a) + PreOrder(b)
    ensures PreOrder([f]) == [f] + PreOrder(f.fields)
    decreases |a|
  {
    assert PreOrder([f]) == [f] + PreOrder(f.fields) + PreOrder([f][1..]);
    assert PreOrder([f][1..]) == [] && [f] + PreOrder(f.fields) + [] == [f] + PreOrder(f.fields);
    if a == [] {
      assert a + b == b && PreOrder(a) + PreOrder(b) == PreOrder(b);
    } else {
      assert (a + b)[1..] == a[1..] + b;
      PreOrderLaws(a[1..], b, f);
      Regroup([a[0]], PreOrder(a[0].fields), PreOrder(a[1..]), PreOrder(b));
      Regroup([], [a[0]] + PreOrder(a[0].fields), PreOrder(a[1..]), PreOrder(b));
    }
  }

  /** The pre-order holds the trees' roots and, with every field, all its children, matches or
      not. */
  lemma {:induction false} PreOrderIsClosed(forest: seq<Field>, f: Field)
    ensures f in forest ==> f in PreOrder(forest)
    ensures f in PreOrder(forest) ==> forall c | c in f.fields :: c in PreOrder(forest)
    decreases forest
  {
    if forest == [] {
    } else {
      var below, after := PreOrder(forest[0].fields), PreOrder(forest[1..]);
      PreOrderIsClosed(forest[0].fields, f);
      PreOrderIsClosed(forest[1..], f);
      assert PreOrder(forest) == [forest[0]] + below + after;
      forall c | c in forest[0].fields ensures c in PreOrder(forest) {
        PreOrderIsClosed(forest[0].fields, c);
      }
    }
  }

  function FoundAll(env: Env, fields: seq<Field>): seq<Sent> {
    if fields == [] then [] else Found(env, fields[0]) + FoundAll(env, fields[1..])
  }

  lemma {:induction false} FoundConcat(env: Env, a: seq<Field>, b: seq<Field>)
    ensures FoundAll(env, a + b) == FoundAll(env, a) + FoundAll(env, b)
  {
    hide Found;
    if a == [] {
      assert a + b == b;
    } else {
      FoundConcat(env, a[1..], b);
      assert (a + b)[1..] == a[1..] + b;
    }
  }

  lemma FoundFirst(env: Env, f: Field, rest: seq<Field>)
    ensures FoundAll(env, [f] + rest) == Found(env, f) + FoundAll(env, rest)
  {
    assert ([f] + rest)[1..] == rest;
  }

  /** The recursion itself: what `recursiveHWInfo` sends, in order. */
  method RecursiveHWInfo(env: Env, m: Field) returns (sent: seq<Sent>)
    requires forall f | f in PreOrder(m.fields) :: !Broken(f)
    ensures sent == FoundAll(env, PreOrder(m.fields))
    ensures On(Hardware, sent) == InventoryObjects(env, Named(PreOrder(m.fields), DEVICE_INVENTORY))
    ensures On(System, sent) == SystemObjects(env, Named(PreOrder(m.fields), DEVICE_SYSTEM_DATA))
    decreases m
  {
    hide FoundAll, Broken, Found;
    sent := [];
    var k := 0;
    assert m.fields[0..] == m.fields;
    while k < |m.fields|
      invariant 0 <= k <= |m.fields|
      invariant forall f | f in PreOrder(m.fields[k..]) :: !Broken(f)
      invariant sent + FoundAll(env, PreOrder(m.fields[k..])) == FoundAll(env, PreOrder(m.fields))
    {
      hide PreOrder;
      var field := m.fields[k];
      VisitOrder(env, m.fields[k..]);
      assert m.fields[k..][1..] == m.fields[k + 1..];
      var one := SendOne(env, field);
      var below := RecursiveHWInfo(env, field);
      Regroup(sent, one, below, FoundAll(env, PreOrder(m.fields[k + 1..])));
      sent := sent + one + below;
      k := k + 1;
    }
    NothingFound(env);
    assert m.fields[k..] == [];
    SentObjects(env, PreOrder(m.fields));
  }

  lemma NothingFound(env: Env)
    ensures FoundAll(env, PreOrder([])) == []
  {}

  /** What is sent for one field. */
  method SendOne(env: Env, field: Field) returns (one: seq<Sent>)
    requires !Broken(field)
    ensures one == Found(env, field)
  {
    hide HardwareObject, SystemObject;
    one := [];
    if field.name == DEVICE_INVENTORY {
      var hwObj := BuildHardware(env, field);
      one := [Sent(Hardware, hwObj)];
    } else if field.name == DEVICE_SYSTEM_DATA {
      NotBroken(field);
      var sysObj := BuildSystem(env, field);
      one := [Sent(System, sysObj)];
    }
  }

  lemma NotBroken(f: Field)
    requires !Broken(f) && f.name != DEVICE_INVENTORY && f.name == DEVICE_SYSTEM_DATA
    ensures forall child | child in f.fields :: !Faulty(child)
  {}

  lemma VisitOrder(env: Env, forest: seq<Field>)
    requires forest != []
    ensures var below, after := PreOrder(forest[0].fields), PreOrder(forest[1..]);
            PreOrder(forest) == [forest[0]] + below + after
            && FoundAll(env, PreOrder(forest)) == Found(env, forest[0]) + (FoundAll(env, below) + FoundAll(env, after))
            && forest[0] in PreOrder(forest)
            && (forall f | f in below || f in after :: f in PreOrder(forest))
  {
    hide Found;
    var below, after := PreOrder(forest[0].fields), PreOrder(forest[1..]);
    assert [forest[0]] + below + after == [forest[0]] + (below + after);
    FoundFirst(env, forest[0], below + after);
    FoundConcat(env, below, after);
  }

  // ---- Producer, channels and readers ----------------------------------------------------------

  /** The goroutine that drains a channel: blocked in a receive, about to append what it
      received, or gone. */
  datatype Reader = Receiving | Holding(obj: Obj) | Gone

  datatype Lane = Lane(open: bool, reader: Reader, slice: seq<Obj>)

  /** The calling goroutine.  The frames are what the active calls of the recursion have still
      to visit, innermost first; a send blocks until its reader receives. */
  datatype Producer =
    | Between
    | Walking(frames: seq<seq<Field>>)
    | Sending(sent: Sent, frames: seq<seq<Field>>)
    | Waiting
    | Finished
    | Panicked(frames: seq<seq<Field>>)

  /** `later` are the top-level fields not begun yet; `visited` is history. */
  datatype Walk = Walk(later: seq<Field>, producer: Producer, hardware: Lane, system: Lane, visited: seq<Field>)

  datatype Step = Begin | Visit | Return | Deliver | CloseHardware | CloseSystem | Join | End
                | Append(channel: Channel) | Exit(channel: Channel)

  function Initial(tops: seq<Field>): Walk {
    Walk(tops, Between, Lane(false, Gone, []), Lane(false, Gone, []), [])
  }

  function LaneOf(w: Walk, channel: Channel): Lane {
    if channel.Hardware? then w.hardware else w.system
  }

  function SetLane(w: Walk, channel: Channel, lane: Lane): Walk {
    if channel.Hardware? then w.(hardware := lane) else w.(system := lane)
  }

  predicate Enabled(w: Walk, step: Step) {
    !w.producer.Panicked? &&
    match step
    case Begin => w.producer.Between? && w.later != []
    case Visit => w.producer.Walking? && w.producer.frames != [] && w.producer.frames[0] != []
    case Return => w.producer.Walking? && w.producer.frames != [] && w.producer.frames[0] == []
    case Deliver => w.producer.Sending? && LaneOf(w, w.producer.sent.channel).reader.Receiving?
    case CloseHardware => w.producer.Walking? && w.producer.frames == [] && w.hardware.open
    case CloseSystem => w.producer.Walking? && w.producer.frames == [] && !w.hardware.open
    case Join => w.producer.Waiting? && w.hardware.reader.Gone? && w.system.reader.Gone?
    case End => w.producer.Between? && w.later == []
    case Append(channel) => LaneOf(w, channel).reader.Holding?
    case Exit(channel) => LaneOf(w, channel).reader.Receiving? && !LaneOf(w, channel).open
  }

  function Next(env: Env, w: Walk, step: Step): Walk
    requires Enabled(w, step)
  {
    match step
    case Begin =>
      w.(later := w.later[1..], producer := Walking([w.later[0].fields]),
         hardware := w.hardware.(open := true, reader := Receiving),
         system := w.system.(open := true, reader := Receiving))
    case Visit =>
      var frames := w.producer.frames;
      var f := frames[0][0];
      var deeper := [f.fields] + ([frames[0][1..]] + frames[1..]);
      if Broken(f) then w.(producer := Panicked(frames))
      else
        var found := Found(env, f);
        w.(visited := w.visited + [f],
           producer := if found == [] then Walking(deeper) else Sending(found[0], deeper))
    case Return => w.(producer := Walking(w.producer.frames[1..]))
    case Deliver =>
      var channel := w.producer.sent.channel;
      SetLane(w, channel, LaneOf(w, channel).(reader := Holding(w.producer.sent.obj)))
        .(producer := Walking(w.producer.frames))
    case CloseHardware => w.(hardware := w.hardware.(open := false))
    case CloseSystem => w.(system := w.system.(open := false), producer := Waiting)
    case Join => w.(producer := Between)
    case End => w.(producer := Finished)
    case Append(channel) =>
      var lane := LaneOf(w, channel);
      SetLane(w, channel, lane.(reader := Receiving, slice := lane.slice + [lane.reader.obj]))
    case Exit(channel) => SetLane(w, channel, LaneOf(w, channel).(reader := Gone))
  }

  function Run(env: Env, w: Walk, steps: seq<Step>): Option<Walk>
    decreases |steps|
  {
    if steps == [] then Some(w)
    else if Enabled(w, steps[0]) then Run(env, Next(env, w, steps[0]), steps[1..])
    else None
  }

  // ---- What every schedule keeps -----------------------------------------------------------------

  function FramesOrder(frames: seq<seq<Field>>): seq<Field> {
    if frames == [] then [] else PreOrder(frames[0]) + FramesOrder(frames[1..])
  }

  /** The strict descendants of each top-level field in turn, in pre-order. */
  function Descendants(tops: seq<Field>): seq<Field> {
    if tops == [] then [] else PreOrder(tops[0].fields) + Descendants(tops[1..])
  }

  function Frames(p: Producer): seq<seq<Field>> {
    if p.Walking? || p.Sending? || p.Panicked? then p.frames else []
  }

  /** The objects for one channel, in order. */
  function On(channel: Channel, sent: seq<Sent>): seq<Obj> {
    if sent == [] then []
    else For(channel, sent[0]) + On(channel, sent[1..])
  }

  function For(channel: Channel, one: Sent): seq<Obj> {
    if one.channel == channel then [one.obj] else []
  }

  function InFlight(w: Walk, channel: Channel): seq<Obj> {
    (if LaneOf(w, channel).reader.Holding? then [LaneOf(w, channel).reader.obj] else [])
    + (if w.producer.Sending? then For(channel, w.producer.sent) else [])
  }

  /** What has arrived and what is on its way is what has been found, nothing lost or doubled. */
  predicate Conserved(env: Env, w: Walk, channel: Channel) {
    LaneOf(w, channel).slice + InFlight(w, channel) == On(channel, FoundAll(env, w.visited))
  }

  predicate InOrder(tops: seq<Field>, w: Walk) {
    && w.visited + (FramesOrder(Frames(w.producer)) + Descendants(w.later)) == Descendants(tops)
    && (forall f | f in w.visited :: !Broken(f))
    && (w.producer.Panicked? ==>
          w.producer.frames != [] && w.producer.frames[0] != [] && Broken(w.producer.frames[0][0]))
  }

  /** How the states of producer, channels and readers fit together. */
  predicate Shape(w: Walk) {
    var p := w.producer;
    && (w.hardware.open ==> !w.hardware.reader.Gone?)
    && (w.system.open ==> !w.system.reader.Gone?)
    && (w.system.open <==> p.Walking? || p.Sending? || p.Panicked?)
    && (w.hardware.open ==> w.system.open)
    && (w.system.open && !w.hardware.open ==> p.Walking? && p.frames == [])
    && (p.Between? || p.Finished? ==> w.hardware.reader.Gone? && w.system.reader.Gone?)
    && (p.Finished? ==> w.later == [])
  }

  ghost predicate Inv(env: Env, tops: seq<Field>, w: Walk) {
    Shape(w) && InOrder(tops, w) && forall channel :: Conserved(env, w, channel)
  }

  lemma ShapeKept(env: Env, w: Walk, step: Step)
    requires Shape(w) && Enabled(w, step)
    ensures Shape(Next(env, w, step))
  {}

  lemma {:induction false} OnConcat(channel: Channel, a: seq<Sent>, b: seq<Sent>)
    ensures On(channel, a + b) == On(channel, a) + On(channel, b)
  {
    if a == [] {
      assert a + b == b;
    } else {
      hide For, On;
      OnConcat(channel, a[1..], b);
      OnFirst(channel, a);
      OnFirst(channel, a + b);
      assert (a + b)[1..] == a[1..] + b;
      Regroup([], For(channel, a[0]), On(channel, a[1..]), On(channel, b));
      assert [] + For(channel, a[0]) == For(channel, a[0]);
    }
  }

  lemma OnFirst(channel: Channel, sent: seq<Sent>)
    requires sent != []
    ensures On(channel, sent) == For(channel, sent[0]) + On(channel, sent[1..])
  {}

  lemma FramesFirst(frame: seq<Field>, outer: seq<seq<Field>>)
    ensures FramesOrder([frame] + outer) == PreOrder(frame) + FramesOrder(outer)
  {
    hide PreOrder;
    assert ([frame] + outer)[1..] == outer;
  }

  lemma PreOrderFirst(forest: seq<Field>)
    requires forest != []
    ensures PreOrder(forest) == [forest[0]] + PreOrder(forest[0].fields) + PreOrder(forest[1..])
  {}

  /** Visiting a field and going into its children is the next step of the pre-order. */
  lemma DeeperOrder(frames: seq<seq<Field>>)
    requires frames != [] && frames[0] != []
    ensures var f: Field := frames[0][0];
            FramesOrder(frames) == [f] + FramesOrder([f.fields] + ([frames[0][1..]] + frames[1..]))
  {
    var f: Field := frames[0][0];
    PreOrderFirst(frames[0]);
    hide PreOrder, FramesOrder;
    FramesFirst(frames[0], frames[1..]);
    FramesFirst(frames[0][1..], frames[1..]);
    FramesFirst(f.fields, [frames[0][1..]] + frames[1..]);
    assert frames == [frames[0]] + frames[1..];
    Regroup([f], PreOrder(f.fields), PreOrder(frames[0][1..]), FramesOrder(frames[1..]));
  }

  lemma Regroup<T>(a: seq<T>, b: seq<T>, c: seq<T>, d: seq<T>)
    ensures a + b + c + d == a + (b + (c + d)) == a + b + (c + d)
  {}

  lemma VisitKeepsOrder(env: Env, tops: seq<Field>, w: Walk)
    requires InOrder(tops, w) && Enabled(w, Visit)
    ensures InOrder(tops, Next(env, w, Visit))
  {
    hide FramesOrder, Descendants, PreOrder, Broken, Found;
    DeeperOrder(w.producer.frames);
    var t, f := Next(env, w, Visit), w.producer.frames[0][0];
    if !Broken(f) {
      var rest := FramesOrder(Frames(t.producer));
      assert w.visited + (([f] + rest) + Descendants(w.later)) == (w.visited + [f]) + (rest + Descendants(w.later));
    }
  }

  lemma BeginKeepsOrder(env: Env, tops: seq<Field>, w: Walk)
    requires InOrder(tops, w) && Enabled(w, Begin)
    ensures InOrder(tops, Next(env, w, Begin))
  {
    hide PreOrder, Broken;
    var top := w.later[0].fields;
    FramesFirst(top, []);
    assert [top] == [top] + [];
    assert FramesOrder([top]) == PreOrder(top) + [] == PreOrder(top);
    assert Frames(w.producer) == [] && FramesOrder([]) == [];
    assert Descendants(w.later) == PreOrder(top) + Descendants(w.later[1..]);
  }

  lemma OrderKept(env: Env, tops: seq<Field>, w: Walk, step: Step)
    requires InOrder(tops, w) && Enabled(w, step)
    ensures InOrder(tops, Next(env, w, step))
  {
    hide InOrder, Next, Enabled;
    if step.Visit? {
      VisitKeepsOrder(env, tops, w);
    } else if step.Begin? {
      BeginKeepsOrder(env, tops, w);
    } else if step.Return? {
      ReturnKeepsOrder(env, tops, w);
    } else {
      OthersKeepOrder(env, tops, w, step);
    }
  }

  lemma OthersKeepOrder(env: Env, tops: seq<Field>, w: Walk, step: Step)
    requires InOrder(tops, w) && Enabled(w, step) && !step.Visit? && !step.Begin? && !step.Return?
    ensures InOrder(tops, Next(env, w, step))
  {
    hide FramesOrder, Broken, Found, Descendants, InOrder;
    var t := Next(env, w, step);
    assert Frames(t.producer) == Frames(w.producer) && t.visited == w.visited && t.later == w.later
      && !t.producer.Panicked?;
    SameOrder(tops, w, t);
  }

  lemma SameOrder(tops: seq<Field>, w: Walk, t: Walk)
    requires InOrder(tops, w) && !t.producer.Panicked?
    requires Frames(t.producer) == Frames(w.producer) && t.visited == w.visited && t.later == w.later
    ensures InOrder(tops, t)
  {
    hide FramesOrder, Broken, Descendants;
  }

  lemma ReturnKeepsOrder(env: Env, tops: seq<Field>, w: Walk)
    requires InOrder(tops, w) && Enabled(w, Return)
    ensures InOrder(tops, Next(env, w, Return))
  {
    NoFields();
    hide Broken, Found, Descendants, PreOrder, FramesOrder;
    var outer := w.producer.frames[1..];
    FramesFirst([], outer);
    assert w.producer.frames == [[]] + outer;
    assert [] + FramesOrder(outer) == FramesOrder(outer);
  }

  lemma NoFields()
    ensures PreOrder([]) == []
  {}

  lemma FoundSnoc(env: Env, visited: seq<Field>, f: Field, channel: Channel)
    ensures On(channel, FoundAll(env, visited + [f])) ==
            On(channel, FoundAll(env, visited)) + On(channel, Found(env, f))
  {
    FoundConcat(env, visited, [f]);
    FoundFirst(env, f, []);
    hide Found;
    assert [f] == [f] + [] && FoundAll(env, [f]) == Found(env, f) + [];
    assert Found(env, f) + [] == Found(env, f);
    hide FoundAll, On;
    OnConcat(channel, FoundAll(env, visited), Found(env, f));
  }

  lemma VisitConserves(env: Env, w: Walk, channel: Channel)
    requires Conserved(env, w, channel) && Enabled(w, Visit)
    ensures Conserved(env, Next(env, w, Visit), channel)
  {
    var t, f: Field := Next(env, w, Visit), w.producer.frames[0][0];
    VisitSends(env, w, channel);
    FoundSnoc(env, w.visited, f, channel);
    hide Next, Enabled, InFlight, FoundAll, Found, On, Broken, LaneOf;
    if !Broken(f) {
      assert LaneOf(t, channel).slice + InFlight(t, channel)
          == (LaneOf(w, channel).slice + InFlight(w, channel)) + On(channel, Found(env, f));
    }
  }

  lemma VisitSends(env: Env, w: Walk, channel: Channel)
    requires Enabled(w, Visit)
    ensures var t, f: Field := Next(env, w, Visit), w.producer.frames[0][0];
            LaneOf(t, channel) == LaneOf(w, channel)
            && (Broken(f) ==> t.visited == w.visited && InFlight(t, channel) == InFlight(w, channel))
            && (!Broken(f) ==>
                  t.visited == w.visited + [f]
                  && InFlight(t, channel) == InFlight(w, channel) + On(channel, Found(env, f)))
  {
    FoundOne(env, w.producer.frames[0][0], channel);
    hide Found, On, Broken, For;
  }

  lemma FoundOne(env: Env, f: Field, channel: Channel)
    ensures On(channel, Found(env, f)) == if Found(env, f) != [] then For(channel, Found(env, f)[0]) else []
  {
    hide HardwareObject, SystemObject;
  }

  lemma ConservedKept(env: Env, w: Walk, step: Step, channel: Channel)
    requires Conserved(env, w, channel) && Shape(w) && Enabled(w, step)
    ensures Conserved(env, Next(env, w, step), channel)
  {
    if step.Visit? {
      VisitConserves(env, w, channel);
    } else {
      hide Conserved;
      var t := Next(env, w, step);
      ArrivesOnce(env, w, step, channel);
      hide Next, Enabled, InFlight;
      SameFound(env, w, t, channel);
    }
  }

  lemma ArrivesOnce(env: Env, w: Walk, step: Step, channel: Channel)
    requires Shape(w) && Enabled(w, step) && !step.Visit?
    ensures var t := Next(env, w, step);
            t.visited == w.visited
            && LaneOf(t, channel).slice + InFlight(t, channel) == LaneOf(w, channel).slice + InFlight(w, channel)
  {
    hide Found, Broken;
  }

  lemma SameFound(env: Env, w: Walk, t: Walk, channel: Channel)
    requires Conserved(env, w, channel) && t.visited == w.visited
    requires LaneOf(t, channel).slice + InFlight(t, channel) == LaneOf(w, channel).slice + InFlight(w, channel)
    ensures Conserved(env, t, channel)
  {
    hide InFlight, LaneOf, On, FoundAll;
  }

  /** Every step of every schedule keeps the invariant. */
  lemma InvKept(env: Env, tops: seq<Field>, w: Walk, step: Step)
    requires Inv(env, tops, w) && Enabled(w, step)
    ensures Inv(env, tops, Next(env, w, step))
  {
    hide Shape, InOrder, Conserved, Next, Enabled;
    ShapeKept(env, w, step);
    OrderKept(env, tops, w, step);
    forall channel ensures Conserved(env, Next(env, w, step), channel) {
      ConservedKept(env, w, step, channel);
    }
  }

  lemma InitialInv(env: Env, tops: seq<Field>)
    ensures Inv(env, tops, Initial(tops))
  {}

  // ---- What goes on each channel --------------------------------------------------------------------

  /** The fields with a name, in order. */
  function Named(fields: seq<Field>, name: seq<byte>): seq<Field> {
    if fields == [] then []
    else (if fields[0].name == name then [fields[0]] else []) + Named(fields[1..], name)
  }

  function InventoryObjects(env: Env, fields: seq<Field>): (objs: seq<Obj>)
    ensures |objs| == |fields| && forall i | 0 <= i < |fields| :: objs[i] == HardwareObject(env, fields[i])
  {
    seq(|fields|, i requires 0 <= i < |fields| => HardwareObject(env, fields[i]))
  }

  function SystemObjects(env: Env, fields: seq<Field>): (objs: seq<Obj>)
    ensures |objs| == |fields| && forall i | 0 <= i < |fields| :: objs[i] == SystemObject(env, fields[i])
  {
    seq(|fields|, i requires 0 <= i < |fields| => SystemObject(env, fields[i]))
  }

  lemma SentForOne(env: Env, f: Field)
    ensures On(Hardware, Found(env, f)) == if f.name == DEVICE_INVENTORY then [HardwareObject(env, f)] else []
    ensures On(System, Found(env, f)) == if f.name == DEVICE_SYSTEM_DATA then [SystemObject(env, f)] else []
  {
    assert |DEVICE_SYSTEM_DATA| == 18 && |DEVICE_INVENTORY| == 16;
    FoundOne(env, f, Hardware);
    FoundOne(env, f, System);
    hide HardwareObject, SystemObject, Name;
  }

  lemma {:induction false} SentInventory(env: Env, fields: seq<Field>)
    ensures On(Hardware, FoundAll(env, fields)) == InventoryObjects(env, Named(fields, DEVICE_INVENTORY))
  {
    hide HardwareObject, SystemObject, Found, Name;
    if fields == [] {
    } else {
      SentInventory(env, fields[1..]);
      SentForOne(env, fields[0]);
      OnConcat(Hardware, Found(env, fields[0]), FoundAll(env, fields[1..]));
      hide On;
    }
  }

  lemma {:induction false} SentSystem(env: Env, fields: seq<Field>)
    ensures On(System, FoundAll(env, fields)) == SystemObjects(env, Named(fields, DEVICE_SYSTEM_DATA))
  {
    hide HardwareObject, SystemObject, Found, Name;
    if fields == [] {
    } else {
      SentSystem(env, fields[1..]);
      SentForOne(env, fields[0]);
      OnConcat(System, Found(env, fields[0]), FoundAll(env, fields[1..]));
      hide On;
    }
  }

  /** The hardware channel carries the objects of the fields named `device-inventory`, the system
      channel those of the fields named `device-system-data`, all of them and in order. */
  lemma SentObjects(env: Env, fields: seq<Field>)
    ensures On(Hardware, FoundAll(env, fields)) == InventoryObjects(env, Named(fields, DEVICE_INVENTORY))
    ensures On(System, FoundAll(env, fields)) == SystemObjects(env, Named(fields, DEVICE_SYSTEM_DATA))
  {
    hide *;
    SentInventory(env, fields);
    SentSystem(env, fields);
  }

  // ---- Termination -----------------------------------------------------------------------------------

  function Weight(forest: seq<Field>): nat {
    if forest == [] then 0 else 4 + Weight(forest[0].fields) + Weight(forest[1..])
  }

  function FramesWeight(frames: seq<seq<Field>>): nat {
    if frames == [] then 0 else 1 + Weight(frames[0]) + FramesWeight(frames[1..])
  }

  function LaterWeight(tops: seq<Field>): nat {
    if tops == [] then 0 else 10 + Weight(tops[0].fields) + LaterWeight(tops[1..])
  }

  function LaneWeight(lane: Lane): nat {
    (if lane.open then 1 else 0) + (match lane.reader case Gone => 0 case Receiving => 1 case Holding(_) => 2)
  }

  /** A bound on the steps still to come. */
  function Measure(w: Walk): nat {
    LaterWeight(w.later) + LaneWeight(w.hardware) + LaneWeight(w.system)
    + match w.producer
      case Finished | Panicked(_) => 0
      case Between => 1
      case Waiting => 2
      case Walking(frames) => 3 + FramesWeight(frames)
      case Sending(_, frames) => 5 + FramesWeight(frames)
  }

  lemma DeeperWeight(frames: seq<seq<Field>>)
    requires frames != [] && frames[0] != []
    ensures var f: Field := frames[0][0];
            FramesWeight(frames) == 3 + FramesWeight([f.fields] + ([frames[0][1..]] + frames[1..]))
  {
    var f: Field := frames[0][0];
    var outer := [frames[0][1..]] + frames[1..];
    assert outer[1..] == frames[1..] && ([f.fields] + outer)[1..] == outer;
  }

  lemma EveryStepCounts(env: Env, w: Walk, step: Step)
    requires Shape(w) && Enabled(w, step)
    ensures Measure(Next(env, w, step)) < Measure(w)
  {
    hide Broken, HardwareObject, SystemObject;
    if step.Visit? {
      DeeperWeight(w.producer.frames);
      hide FramesWeight;
    } else if step.Begin? {
      assert [w.later[0].fields][1..] == [];
      assert FramesWeight([w.later[0].fields]) == 1 + Weight(w.later[0].fields) + FramesWeight([]);
      hide Weight;
    }
  }

  // ---- Every schedule ----------------------------------------------------------------------------

  /** No schedule takes more than a bounded number of steps, and all the way it keeps the
      invariant. */
  lemma {:induction false} EverySchedule(env: Env, tops: seq<Field>, w: Walk, steps: seq<Step>)
    requires Inv(env, tops, w) && Run(env, w, steps).Some?
    ensures Inv(env, tops, Run(env, w, steps).value)
    ensures |steps| + Measure(Run(env, w, steps).value) <= Measure(w)
    decreases |steps|
  {
    hide Measure, Next, Enabled, Shape, InOrder, Conserved;
    if steps == [] {
    } else {
      var next := Next(env, w, steps[0]);
      InvKept(env, tops, w, steps[0]);
      EveryStepCounts(env, w, steps[0]);
      EverySchedule(env, tops, next, steps[1..]);
    }
  }

  ghost predicate Stuck(w: Walk) {
    forall step :: !Enabled(w, step)
  }

  /** There is no deadlock: something can happen until the walk is over. */
  lemma NoDeadlock(w: Walk)
    requires Shape(w)
    ensures Stuck(w) <==> w.producer.Finished? || w.producer.Panicked?
  {
    var p := w.producer;
    if Stuck(w) {
      assert !Enabled(w, Begin) && !Enabled(w, Visit) && !Enabled(w, Return) && !Enabled(w, Deliver)
        && !Enabled(w, CloseHardware) && !Enabled(w, CloseSystem) && !Enabled(w, Join) && !Enabled(w, End);
      assert forall channel :: !Enabled(w, Append(channel)) && !Enabled(w, Exit(channel));
      assert !Enabled(w, Append(Hardware)) && !Enabled(w, Append(System));
      assert !Enabled(w, Exit(Hardware)) && !Enabled(w, Exit(System));
    }
  }

  /** What a schedule has put into a slice is always the beginning of the pre-order list. */
  lemma SlicesArePrefixes(env: Env, tops: seq<Field>, steps: seq<Step>, channel: Channel)
    requires Run(env, Initial(tops), steps).Some?
    ensures LaneOf(Run(env, Initial(tops), steps).value, channel).slice
            <= On(channel, FoundAll(env, Descendants(tops)))
  {
    InitialInv(env, tops);
    EverySchedule(env, tops, Initial(tops), steps);
    hide Run;
    var w := Run(env, Initial(tops), steps).value;
    var rest := FramesOrder(Frames(w.producer)) + Descendants(w.later);
    FoundConcat(env, w.visited, rest);
    OnConcat(channel, FoundAll(env, w.visited), FoundAll(env, rest));
    assert Conserved(env, w, channel);
    hide On, FoundAll, FramesOrder, Descendants;
    assert LaneOf(w, channel).slice <= On(channel, FoundAll(env, w.visited));
  }

  /** Whatever the schedule, when nothing more can happen the walk has panicked if some object
      could not be built, and otherwise has finished with the pre-order lists in its slices. */
  lemma WalkOutcome(env: Env, tops: seq<Field>, steps: seq<Step>)
    requires Run(env, Initial(tops), steps).Some? && Stuck(Run(env, Initial(tops), steps).value)
    ensures var w := Run(env, Initial(tops), steps).value;
            if exists f :: f in Descendants(tops) && Broken(f) then w.producer.Panicked?
            else w.producer.Finished?
                 && w.hardware.slice == InventoryObjects(env, Named(Descendants(tops), DEVICE_INVENTORY))
                 && w.system.slice == SystemObjects(env, Named(Descendants(tops), DEVICE_SYSTEM_DATA))
  {
    SentObjects(env, Descendants(tops));
    hide On, FoundAll, Named, InventoryObjects, SystemObjects;
    InitialInv(env, tops);
    EverySchedule(env, tops, Initial(tops), steps);
    hide Run;
    var w := Run(env, Initial(tops), steps).value;
    NoDeadlock(w);
    assert Conserved(env, w, Hardware) && Conserved(env, w, System);
    var rest := FramesOrder(Frames(w.producer)) + Descendants(w.later);
    if w.producer.Panicked? {
      var f := w.producer.frames[0][0];
      DeeperOrder(w.producer.frames);
      assert f in rest;
      assert f in Descendants(tops);
    } else {
      assert rest == [];
      assert w.visited == Descendants(tops);
    }
  }

  /** Every schedule can be carried on until the walk is over. */
  lemma {:induction false} CarriesOn(env: Env, tops: seq<Field>, w: Walk) returns (more: seq<Step>)
    requires Inv(env, tops, w)
    ensures Run(env, w, more).Some? && Stuck(Run(env, w, more).value)
    decreases Measure(w)
  {
    if Stuck(w) {
      more := [];
    } else {
      var step :| Enabled(w, step);
      InvKept(env, tops, w, step);
      EveryStepCounts(env, w, step);
      hide Measure, Next, Enabled, Shape, InOrder, Conserved;
      var rest := CarriesOn(env, tops, Next(env, w, step));
      more := [step] + rest;
    }
  }
}
