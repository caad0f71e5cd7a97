/**
  The receive loop of one telemetry stream, on the decoder and the collector.
 */
module DialoutServer {
  import opened Wire
  import Messages
  import Codec
  import Encoding
  import RoundTrip
  import FieldMessage
  import TelemetryMessage
  import opened MetricCache
  import opened CollectorCache

  /** What `Recv` returns: a message's data, the end of the stream, or an error. */
  datatype Received = Data(data: seq<byte>) | EndOfStream | Failure

  /** How the handler ends.  `Panicked` is a run-time panic in the decoder. */
  datatype Status = Running | Finished | Aborted | Internal | InvalidArgument | Panicked

  function SourceOf(m: Messages.Telemetry): Source {
    Source(if m.nodeId.Some? then m.nodeId.value else [], m.encodingPath)
  }

  /** What `proto.Unmarshal` makes of a message's data. */
  function Parse(data: seq<byte>): (r: Result<Messages.Telemetry>) {
    var m :- Codec.Decode(Messages.OfTelemetry(Messages.EMPTY_TELEMETRY), data, 0);
    Ok(m.telemetry)
  }

  /** The source of a telemetry message that was sent: its node, or nothing if it names none, and
      its path. */
  lemma SourceOfSent(t: Messages.Telemetry)
    requires |Encoding.Encode(Messages.OfTelemetry(t))| < TWO_63
    ensures var parsed := Parse(Encoding.Encode(Messages.OfTelemetry(t)));
            parsed.Ok? && SourceOf(parsed.value).path == t.encodingPath
            && SourceOf(parsed.value).node == match t.nodeId case Some(node) => node case None => []
  {
    hide Encoding.Encode, Codec.Decode;
    RoundTrip.RoundTripTelemetry(t);
  }

  /** The steps that stream `i` takes for what it receives, and how it ends, when `paths` are
      the encoding paths that have a record function. */
  function StreamSteps(i: nat, incoming: seq<Received>, paths: set<seq<byte>>): (seq<Step>, Status) {
    if incoming == [] then ([], Running)
    else match incoming[0]
    case EndOfStream => ([Stop(i)], Finished)
    case Failure => ([Disconnect(i)], Aborted)
    case Data(data) =>
      match Parse(data)
      case Err(OutOfRange) => ([], Panicked)
      case Err(_) => ([Stop(i)], Internal)
      case Ok(m) =>
        var source := SourceOf(m);
        var steps := OneMessage(i, source, source.path in paths);
        if source.path !in paths then (steps, InvalidArgument)
        else
          var rest := StreamSteps(i, incoming[1..], paths);
          (steps + rest.0, rest.1)
  }

  /** Stream `i` got from `s0` to `s` by `done` and has `rest` to receive; `whole` is all it does. */
  ghost predicate OnCourse(s0: State, s: State, done: seq<Step>, i: nat, rest: seq<Received>, paths: set<seq<byte>>,
                           whole: (seq<Step>, Status)) {
    && Run(s0, done) == Some(s)
    && done + StreamSteps(i, rest, paths).0 == whole.0
    && StreamSteps(i, rest, paths).1 == whole.1
  }

  lemma Ends(s0: State, s: State, done: seq<Step>, i: nat, rest: seq<Received>, paths: set<seq<byte>>,
             whole: (seq<Step>, Status), steps: seq<Step>, t: State)
    requires OnCourse(s0, s, done, i, rest, paths, whole) && StreamSteps(i, rest, paths).0 == steps
    requires Run(s, steps) == Some(t)
    ensures Run(s0, whole.0) == Some(t) && whole.1 == StreamSteps(i, rest, paths).1
  {
    hide Run, StreamSteps;
    RunConcat(s0, done, steps);
  }

  lemma RunOne(s: State, step: Step)
    requires Enabled(s, step)
    ensures Run(s, [step]) == Some(Next(s, step))
  {
    hide Enabled, Next;
    assert [step][1..] == [];
    assert Run(Next(s, step), []) == Some(Next(s, step));
  }

  lemma Continues(s0: State, s: State, done: seq<Step>, i: nat, rest: seq<Received>, paths: set<seq<byte>>,
                  whole: (seq<Step>, Status), source: Source, t: State)
    requires OnCourse(s0, s, done, i, rest, paths, whole)
    requires rest != [] && rest[0].Data? && Parse(rest[0].data).Ok?
    requires source == SourceOf(Parse(rest[0].data).value) && source.path in paths
    requires Run(s, OneMessage(i, source, true)) == Some(t)
    ensures OnCourse(s0, t, done + OneMessage(i, source, true), i, rest[1..], paths, whole)
  {
    hide Run, OneMessage, Parse, SourceOf;
    RunConcat(s0, done, OneMessage(i, source, true));
    var steps := OneMessage(i, source, true);
    assert done + steps + StreamSteps(i, rest[1..], paths).0 == done + (steps + StreamSteps(i, rest[1..], paths).0);
  }

  /** The steps of a stream for what it receives next, when that is the last it does. */
  lemma LastSteps(i: nat, rest: seq<Received>, paths: set<seq<byte>>)
    ensures rest == [] ==> StreamSteps(i, rest, paths) == ([], Running)
    ensures rest != [] && rest[0].EndOfStream? ==> StreamSteps(i, rest, paths) == ([Stop(i)], Finished)
    ensures rest != [] && rest[0].Failure? ==> StreamSteps(i, rest, paths) == ([Disconnect(i)], Aborted)
    ensures rest != [] && rest[0].Data? && Parse(rest[0].data).Err? ==>
              StreamSteps(i, rest, paths) ==
              if Parse(rest[0].data).error == OutOfRange then ([], Panicked) else ([Stop(i)], Internal)
    ensures rest != [] && rest[0].Data? && Parse(rest[0].data).Ok? ==>
              var source := SourceOf(Parse(rest[0].data).value);
              source.path !in paths ==>
                StreamSteps(i, rest, paths) == (OneMessage(i, source, false), InvalidArgument)
  {}

  /** Stream `i` waits for a message, and `source` is that of its last one. */
  predicate Ready(s: State, i: nat, source: Source) {
    Idle(s, i) && s.streams[i].source == source
  }

  lemma OpenEffect(s: State, i: nat)
    requires Enabled(s, Open(i)) && s.holder.None?
    ensures Ready(Next(s, Open(i)), i, NO_SOURCE)
  {}

  lemma ReadyEnables(s: State, i: nat, source: Source)
    requires Ready(s, i, source)
    ensures Idle(s, i) && i in s.streams && s.streams[i].source == source
    ensures Enabled(s, Stop(i)) && Enabled(s, Disconnect(i))
  {}

  lemma OneMessageSteps(s: State, i: nat, source: Source, supported: bool, t: State, u: State)
    requires Enabled(s, Receive(i, source)) && Run(s, [Receive(i, source)]) == Some(t)
    requires Enabled(t, Replace(i)) && Run(t, [Replace(i)]) == Some(u) && Enabled(u, Dispatch(i, supported))
    ensures Run(s, OneMessage(i, source, supported)) == Some(Next(u, Dispatch(i, supported)))
  {
    hide Run, Next, Enabled;
    RunConcat(s, [Receive(i, source)], [Replace(i)]);
    RunExtends(s, [Receive(i, source)] + [Replace(i)], u, Dispatch(i, supported));
    assert OneMessage(i, source, supported) == [Receive(i, source)] + [Replace(i)] + [Dispatch(i, supported)];
  }

  lemma ReceiveEffect(s: State, i: nat, source: Source)
    requires Idle(s, i)
    ensures Enabled(s, Receive(i, source))
    ensures var t := Next(s, Receive(i, source));
            Enabled(t, Replace(i)) && t.streams[i].source == source && t.holder.None?
  {}

  lemma DispatchEffect(s: State, i: nat, supported: bool)
    requires i in s.streams && s.streams[i].phase.Installed? && s.holder.None?
    ensures Enabled(s, Dispatch(i, supported))
    ensures var t := Next(s, Dispatch(i, supported));
            supported ==> Ready(t, i, s.streams[i].source)
  {}

  /** The sources of the messages the handler takes in, in order. */
  function Reported(incoming: seq<Received>, paths: set<seq<byte>>): seq<Source> {
    if incoming == [] || !incoming[0].Data? || Parse(incoming[0].data).Err? then []
    else
      var source := SourceOf(Parse(incoming[0].data).value);
      [source] + (if source.path in paths then Reported(incoming[1..], paths) else [])
  }

  /** A message that decodes and whose path has a record function. */
  predicate TakenIn(r: Received, paths: set<seq<byte>>) {
    r.Data? && Parse(r.data).Ok? && Parse(r.data).value.encodingPath in paths
  }

  /** A stream that takes in `k` messages and no more: it runs on if that is all it receives, and
      else the next thing ends it and says how.  It reports the sources of those messages, and
      that of the next one if it decodes. */
  lemma {:induction false} StreamEnds(i: nat, incoming: seq<Received>, paths: set<seq<byte>>, k: nat)
    requires k <= |incoming| && (forall j | 0 <= j < k :: TakenIn(incoming[j], paths))
    requires k < |incoming| ==> !TakenIn(incoming[k], paths)
    ensures StreamSteps(i, incoming, paths).1 ==
            if k == |incoming| then Running
            else if incoming[k].EndOfStream? then Finished
            else if incoming[k].Failure? then Aborted
            else if Parse(incoming[k].data).Ok? then InvalidArgument
            else if Parse(incoming[k].data).error == OutOfRange then Panicked
            else Internal
    ensures |Reported(incoming, paths)| ==
            if k < |incoming| && incoming[k].Data? && Parse(incoming[k].data).Ok? then k + 1 else k
    ensures forall j | 0 <= j < |Reported(incoming, paths)| ::
              j < |incoming| && incoming[j].Data? && Parse(incoming[j].data).Ok?
              && Reported(incoming, paths)[j] == SourceOf(Parse(incoming[j].data).value)
    decreases k
  {
    hide Parse, OneMessage;
    if k == 0 {
    } else {
      var rest := incoming[1..];
      assert TakenIn(incoming[0], paths) && forall j | 0 <= j < |rest| :: rest[j] == incoming[j + 1];
      StreamEnds(i, rest, paths, k - 1);
    }
  }

  /** From `s` to `t` the cache gained the sources reported; if the connection failed it lost the
      last of them, or `last` if there was none.  Each message reported got a group, and a
      record function if and only if there is one for its path. */
  predicate Leaves(s: State, t: State, last: Source, reported: seq<Source>, paths: set<seq<byte>>, failed: bool) {
    var gone := if reported == [] then last else reported[|reported| - 1];
    && t.cache.Keys == s.cache.Keys + (set source | source in reported) - (if failed then {gone} else {})
    && |t.groups| == |s.groups| + |reported| && |t.messages| == |s.messages| + |reported|
    && t.handlers == s.handlers + Started(|s.messages|, |s.groups|, reported, paths)
  }

  /** The record functions of messages whose numbers and groups count from `message` and `group`. */
  function Started(message: nat, group: nat, reported: seq<Source>, paths: set<seq<byte>>): set<Handler> {
    set j | 0 <= j < |reported| && reported[j].path in paths :: Handler(message + j, group + j)
  }

  lemma StartedFirst(message: nat, group: nat, source: Source, rest: seq<Source>, paths: set<seq<byte>>)
    ensures Started(message, group, [source] + rest, paths) ==
            (if source.path in paths then {Handler(message, group)} else {})
            + Started(message + 1, group + 1, rest, paths)
  {
    var all := [source] + rest;
    forall h | h in Started(message + 1, group + 1, rest, paths) ensures h in Started(message, group, all, paths) {
      var j :| 0 <= j < |rest| && rest[j].path in paths && h == Handler(message + 1 + j, group + 1 + j);
      assert all[j + 1] == rest[j];
    }
    if source.path in paths {
      assert all[0] == source;
    }
    forall h | h in Started(message, group, all, paths) && h != Handler(message, group)
      ensures h in Started(message + 1, group + 1, rest, paths)
    {
      var j :| 0 <= j < |all| && all[j].path in paths && h == Handler(message + j, group + j);
      assert rest[j - 1] == all[j];
    }
  }

  lemma LeavesNothing(s: State, last: Source, paths: set<seq<byte>>)
    ensures Leaves(s, s, last, [], paths, false)
  {}

  lemma LeavesMore(s: State, u: State, t: State, last: Source, source: Source, rest: seq<Source>,
                   paths: set<seq<byte>>, failed: bool)
    requires u.cache.Keys == s.cache.Keys + {source}
    requires |u.groups| == |s.groups| + 1 && |u.messages| == |s.messages| + 1
    requires u.handlers == s.handlers +
             (if source.path in paths then {Handler(|s.messages|, |s.groups|)} else {})
    requires Leaves(u, t, source, rest, paths, failed)
    ensures Leaves(s, t, last, [source] + rest, paths, failed)
  {
    hide Started;
    StartedFirst(|s.messages|, |s.groups|, source, rest, paths);
    assert (set x | x in [source] + rest) == {source} + (set x | x in rest);
  }

  /** A stream on its own can always take its steps.  In the end the cache has a group for each
      source it reported; if the connection failed, for all but the last of them.  The record
      functions started are those of the supported messages. */
  lemma {:induction false} StreamAlone(s: State, i: nat, last: Source, incoming: seq<Received>, paths: set<seq<byte>>)
    requires Ready(s, i, last)
    ensures var (steps, end) := StreamSteps(i, incoming, paths);
            Run(s, steps).Some? && Leaves(s, Run(s, steps).value, last, Reported(incoming, paths), paths, end.Aborted?)
    decreases |incoming|
  {
    ReadyEnables(s, i, last);
    LastSteps(i, incoming, paths);
    RunNothing(s);
    if incoming != [] && incoming[0].Data? && Parse(incoming[0].data).Ok? {
      var source := SourceOf(Parse(incoming[0].data).value);
      var supported := source.path in paths;
      OneMessageRun(s, i, source, supported);
      var u := Run(s, OneMessage(i, source, supported)).value;
      if supported {
        StreamAlone(u, i, source, incoming[1..], paths);
        var (steps, end) := StreamSteps(i, incoming[1..], paths);
        RunConcat(s, OneMessage(i, source, true), steps);
        hide Run, OneMessage, Parse, SourceOf, Leaves;
        LeavesMore(s, u, Run(u, steps).value, last, source, Reported(incoming[1..], paths), paths, end.Aborted?);
      } else {
        hide Run, OneMessage, Parse, SourceOf;
        LeavesNothing(u, source, paths);
        LeavesMore(s, u, u, last, source, [], paths, false);
      }
    } else if incoming != [] && !incoming[0].Data? {
      var step := if incoming[0].Failure? then Disconnect(i) else Stop(i);
      RunOne(s, step);
      hide Run;
      assert (set source: Source | source in []) == {};
    } else if incoming != [] {
      RunOne(s, Stop(i));
      hide Run;
    }
  }

  class HighObsSrv {
    const exp: Collector

    constructor (exp: Collector)
      ensures this.exp == exp
    {
      this.exp := exp;
    }

    /** The receive loop of one stream, undisturbed: the collector takes exactly the steps of
        the stream. */
    method MdtDialout(ghost i: nat, incoming: seq<Received>, registrar: seq<seq<byte>>) returns (status: Status)
      requires exp.Valid() && Enabled(exp.state, Open(i)) && exp.state.holder.None?
      modifies exp
      ensures exp.Valid()
      ensures var (steps, end) := StreamSteps(i, incoming, set path | path in registrar);
              Run(old(exp.state), [Open(i)] + steps) == Some(exp.state) && status == end
    {
      ghost var paths := set path | path in registrar;
      ghost var stream := StreamSteps(i, incoming, paths);
      ghost var whole, done := ([Open(i)] + stream.0, stream.1), [Open(i)];
      RunOne(exp.state, Open(i));
      OpenEffect(exp.state, i);
      assert OnCourse(exp.state, Next(exp.state, Open(i)), done, i, incoming, paths, whole);
      hide *;
      var telemetrySource := NO_SOURCE;
      exp.Observe(Open(i));
      var k := 0;
      assert incoming[0..] == incoming;
      while k < |incoming|
        invariant 0 <= k <= |incoming|
        invariant exp.Valid() && Ready(exp.state, i, telemetrySource)
        invariant OnCourse(old(exp.state), exp.state, done, i, incoming[k..], paths, whole)
      {
        ghost var before, rest := exp.state, incoming[k..];
        ReadyEnables(before, i, telemetrySource);
        LastSteps(i, rest, paths);
        var req := incoming[k];
        if req.EndOfStream? {
          RunOne(before, Stop(i));
          exp.Observe(Stop(i));
          Ends(old(exp.state), before, done, i, rest, paths, whole, [Stop(i)], exp.state);
          return Finished;
        }
        if req.Failure? {
          RunOne(before, Disconnect(i));
          exp.Remove(telemetrySource, i);
          Ends(old(exp.state), before, done, i, rest, paths, whole, [Disconnect(i)], exp.state);
          return Aborted;
        }
        var err;
        telemetrySource, err := Unmarshal(req.data);
        if err == Some(OutOfRange) {
          RunNothing(before);
          Ends(old(exp.state), before, done, i, rest, paths, whole, [], before);
          return Panicked;
        }
        if err.Some? {
          RunOne(before, Stop(i));
          exp.Observe(Stop(i));
          Ends(old(exp.state), before, done, i, rest, paths, whole, [Stop(i)], exp.state);
          return Internal;
        }
        var yangPathSupported := Accept(i, telemetrySource, registrar);
        if !yangPathSupported {
          Ends(old(exp.state), before, done, i, rest, paths, whole, OneMessage(i, telemetrySource, false), exp.state);
          return InvalidArgument;
        }
        Continues(old(exp.state), before, done, i, rest, paths, whole, telemetrySource, exp.state);
        assert rest[1..] == incoming[k + 1..];
        done := done + OneMessage(i, telemetrySource, true);
        k := k + 1;
      }
      LastSteps(i, [], paths);
      RunNothing(exp.state);
      Ends(old(exp.state), exp.state, done, i, incoming[k..], paths, whole, [], exp.state);
      return Running;
    }

    /** Puts a new group under the source of a message, and starts its record functions. */
    method Accept(ghost i: nat, telemetrySource: Source, registrar: seq<seq<byte>>) returns (yangPathSupported: bool)
      requires exp.Valid() && Idle(exp.state, i)
      modifies exp
      ensures exp.Valid()
      ensures yangPathSupported <==> telemetrySource.path in registrar
      ensures Run(old(exp.state), OneMessage(i, telemetrySource, yangPathSupported)) == Some(exp.state)
      ensures yangPathSupported ==> Ready(exp.state, i, telemetrySource)
      ensures exp.state.handlers == old(exp.state).handlers +
              (if yangPathSupported then {Handler(|old(exp.state).messages|, |old(exp.state).groups|)} else {})
    {
      hide *;
      ghost var s := exp.state;
      ReceiveEffect(s, i, telemetrySource);
      RunOne(s, Receive(i, telemetrySource));
      exp.Observe(Receive(i, telemetrySource));
      ghost var t := exp.state;
      ReplaceEffect(t, i);
      RunOne(t, Replace(i));
      var deviceMetrics := new DeviceGroupedMetrics(|exp.groups|);
      exp.Install(telemetrySource, deviceMetrics, i);
      ghost var u := exp.state;
      yangPathSupported := false;
      var r := 0;
      while r < |registrar|
        invariant 0 <= r <= |registrar|
        invariant yangPathSupported <==> telemetrySource.path in registrar[..r]
      {
        if telemetrySource.path == registrar[r] {
          yangPathSupported := true;
        }
        r := r + 1;
      }
      assert registrar[..r] == registrar;
      DispatchEffect(u, i, yangPathSupported);
      OneMessageSteps(s, i, telemetrySource, yangPathSupported, t, u);
      exp.Observe(Dispatch(i, yangPathSupported));
      OneMessageRun(s, i, telemetrySource, yangPathSupported);
    }

    /** `proto.Unmarshal` into a new message, and its source. */
    method Unmarshal(data: seq<byte>) returns (source: Source, err: Option<Error>)
      ensures err == FieldMessage.ErrorOf(Parse(data))
      ensures err.None? ==> source == SourceOf(Parse(data).value)
    {
      hide Codec.Decode;
      var dAtA := new byte[|data|](n requires 0 <= n < |data| => data[n]);
      var msg := new TelemetryMessage.Telemetry();
      assert dAtA[0..dAtA.Length] == data;
      err := msg.Unmarshal(dAtA, 0, dAtA.Length);
      source := Source(if msg.nodeId.Some? then msg.nodeId.value else [], msg.encodingPath);
    }
  }
}
