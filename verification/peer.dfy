/** A peer's recording lifecycle: its producers, the plain RTP transports
    and paused consumers that feed the recorder, the recorder process and
    its output path. Asynchronous calls and timers are events; the media
    engine's objects are opaque handles, and what the peer asks of the
    outside world is returned as a list of effects. */
module PeerRecording {
  import opened Wrappers
  import opened Text
  import PortPool
  import Sdp
  import Pipeline

  // ---------------------------------------------------------------------
  // Producers
  // ---------------------------------------------------------------------

  datatype MediaKind = Audio | Video

  /** The pool kind whose port carries a medium's RTP, and its RTCP. */
  function RtpPortKind(k: MediaKind): PortPool.PortKind
  {
    if k == Audio then PortPool.Audio else PortPool.Video
  }

  function RtcpPortKind(k: MediaKind): PortPool.PortKind
  {
    if k == Audio then PortPool.AudioRtcp else PortPool.VideoRtcp
  }

  datatype Producer = Producer(id: string, kind: MediaKind)

  /** The `producers` map in insertion order; its keys are distinct. */
  predicate UniqueIds(ps: seq<Producer>)
  {
    forall i, j :: 0 <= i < j < |ps| ==> ps[i].id != ps[j].id
  }

  /** `Array.from(producers.values()).filter(p => p.kind === kind)`. */
  function OfKind(ps: seq<Producer>, kind: MediaKind): (r: seq<Producer>)
    ensures forall p :: p in r <==> p in ps && p.kind == kind
  {
    if |ps| == 0 then []
    else (if ps[0].kind == kind then [ps[0]] else []) + OfKind(ps[1..], kind)
  }

  /** The first element of the filtered list is the first producer of the
      kind in insertion order. */
  lemma {:induction false} OfKindFirst(ps: seq<Producer>, kind: MediaKind)
    requires |OfKind(ps, kind)| > 0
    ensures exists i :: 0 <= i < |ps| && ps[i] == OfKind(ps, kind)[0]
                        && forall j :: 0 <= j < i ==> ps[j].kind != kind
  {
    if ps[0].kind != kind {
      OfKindFirst(ps[1..], kind);
      var i :| 0 <= i < |ps[1..]| && ps[1..][i] == OfKind(ps[1..], kind)[0]
               && forall j :: 0 <= j < i ==> ps[1..][j].kind != kind;
      assert ps[i + 1] == OfKind(ps, kind)[0];
      forall j | 0 <= j < i + 1
        ensures ps[j].kind != kind
      {
        if j > 0 { assert ps[j] == ps[1..][j - 1]; }
      }
    }
  }

  /** What `getProducerByKind` returns: `null` when the peer has no
      producers at all, `undefined` when none has the kind. */
  datatype Lookup = NoProducers | NoneOfKind | Found(producer: Producer)

  function GetProducerByKind(ps: seq<Producer>, kind: MediaKind): (r: Lookup)
    ensures r.NoProducers? <==> |ps| == 0
    ensures r.NoneOfKind? <==> |ps| > 0 && forall i :: 0 <= i < |ps| ==> ps[i].kind != kind
    ensures r.Found? ==> r.producer.kind == kind
    ensures r.Found? ==> exists i :: 0 <= i < |ps| && ps[i] == r.producer
                                     && forall j :: 0 <= j < i ==> ps[j].kind != kind
  {
    if |ps| == 0 then NoProducers
    else
      var f := OfKind(ps, kind);
      if |f| == 0 then
        assert forall i :: 0 <= i < |ps| ==> ps[i] in ps && ps[i] !in f;
        NoneOfKind
      else
        assert f[0] in f;
        OfKindFirst(ps, kind);
        Found(f[0])
  }

  /** `closeProducer(id)`: the entry is deleted whether or not closing the
      producer threw (a missing id throws and is only logged). */
  function CloseProducer(ps: seq<Producer>, id: string): (r: seq<Producer>)
    ensures forall p :: p in r <==> p in ps && p.id != id
    ensures (forall i :: 0 <= i < |ps| ==> ps[i].id != id) ==> r == ps
    ensures UniqueIds(ps) ==> UniqueIds(r)
  {
    if |ps| == 0 then []
    else
      var rest := CloseProducer(ps[1..], id);
      if ps[0].id == id then rest
      else
        KeptHeadUnique(ps, rest);
        [ps[0]] + rest
  }

  /** Keeping the head in front of a subset of the tail keeps ids
      distinct. */
  lemma KeptHeadUnique(ps: seq<Producer>, rest: seq<Producer>)
    requires |ps| > 0
    requires forall q :: q in rest ==> q in ps[1..]
    requires UniqueIds(ps) ==> UniqueIds(rest)
    ensures UniqueIds(ps) ==> UniqueIds([ps[0]] + rest)
  {
    if UniqueIds(ps) {
      TailUnique(ps);
      var r := [ps[0]] + rest;
      forall i, j | 0 <= i < j < |r|
        ensures r[i].id != r[j].id
      {
        assert r[j] == rest[j - 1];
        if i > 0 {
          assert r[i] == rest[i - 1];
        } else {
          assert rest[j - 1] in ps[1..];
        }
      }
    }
  }

  /** With distinct ids, closing removes exactly the entry with that id and
      keeps the others in order. */
  lemma {:induction false} CloseProducerSplice(ps: seq<Producer>, id: string, i: nat)
    requires UniqueIds(ps) && i < |ps| && ps[i].id == id
    ensures CloseProducer(ps, id) == ps[..i] + ps[i + 1..]
    decreases i
  {
    TailUnique(ps);
    if i == 0 {
      assert CloseProducer(ps, id) == CloseProducer(ps[1..], id);
    } else {
      assert ps[0].id != ps[i].id;
      assert ps[1..][i - 1] == ps[i];
      CloseProducerSplice(ps[1..], id, i - 1);
      SpliceCons(ps, i);
    }
  }

  lemma TailUnique(ps: seq<Producer>)
    requires UniqueIds(ps) && |ps| > 0
    ensures UniqueIds(ps[1..])
    ensures forall k :: 0 <= k < |ps[1..]| ==> ps[1..][k].id != ps[0].id
  {
    var tail := ps[1..];
    assert forall k :: 0 <= k < |tail| ==> tail[k] == ps[k + 1];
  }

  lemma SpliceCons<T>(xs: seq<T>, i: nat)
    requires 0 < i < |xs|
    ensures xs[..i] + xs[i + 1..] == [xs[0]] + (xs[1..][..i - 1] + xs[1..][i..])
  {
    assert xs[..i] == [xs[0]] + xs[1..][..i - 1];
    assert xs[i + 1..] == xs[1..][i..];
  }

  /** After a producer is closed, lookups by kind never return it. */
  lemma CloseThenLookup(ps: seq<Producer>, id: string, kind: MediaKind)
    ensures var r := GetProducerByKind(CloseProducer(ps, id), kind);
            r.Found? ==> r.producer.id != id && r.producer in ps
  {
    var r := GetProducerByKind(CloseProducer(ps, id), kind);
    if r.Found? {
      assert r.producer in CloseProducer(ps, id);
    }
  }

  // ---------------------------------------------------------------------
  // Recording fields
  // ---------------------------------------------------------------------

  /** An object of the media engine or the process table, known only by
      identity. */
  datatype Handle = Handle(n: nat)

  datatype Consumer = Consumer(handle: Handle, paused: bool)

  /** `audio/videoRtpTransport`, `audio/videoRtpConsumer`, `recProcess`,
      `recOutputPath`, and whether `startRecording` is still waiting for
      the recorder to report that it is playing. */
  datatype Rec = Rec(audioTransport: Option<Handle>, videoTransport: Option<Handle>,
                     audioConsumer: Option<Consumer>, videoConsumer: Option<Consumer>,
                     process: Option<Handle>, outputPath: Option<string>,
                     awaitingReady: bool)
  {
    function Transport(k: MediaKind): Option<Handle>
    {
      if k == Audio then audioTransport else videoTransport
    }

    function ConsumerOf(k: MediaKind): Option<Consumer>
    {
      if k == Audio then audioConsumer else videoConsumer
    }

    /** `this[`${kind}RtpTransport`] = h`. */
    function WithTransport(k: MediaKind, h: Option<Handle>): (r: Rec)
      ensures r.Transport(k) == h
      ensures forall m :: m != k ==> r.Transport(m) == Transport(m)
      ensures forall m :: r.ConsumerOf(m) == ConsumerOf(m)
      ensures r.process == process && r.outputPath == outputPath && r.awaitingReady == awaitingReady
    {
      if k == Audio then this.(audioTransport := h) else this.(videoTransport := h)
    }

    /** `this[`${kind}RtpConsumer`] = c`. */
    function WithConsumer(k: MediaKind, c: Option<Consumer>): (r: Rec)
      ensures r.ConsumerOf(k) == c
      ensures forall m :: m != k ==> r.ConsumerOf(m) == ConsumerOf(m)
      ensures forall m :: r.Transport(m) == Transport(m)
      ensures r.process == process && r.outputPath == outputPath && r.awaitingReady == awaitingReady
    {
      if k == Audio then this.(audioConsumer := c) else this.(videoConsumer := c)
    }
  }

  /** The fields as the constructor leaves them. */
  const Idle: Rec := Rec(None, None, None, None, None, None, false)

  /** Every consumer sits on a transport of its kind, and a running
      recorder has an output path. */
  predicate ConsumersBacked(r: Rec)
  {
    (r.audioConsumer.Some? ==> r.audioTransport.Some?) && (r.videoConsumer.Some? ==> r.videoTransport.Some?)
  }

  predicate Consistent(r: Rec)
  {
    ConsumersBacked(r) && (r.process.Some? ==> r.outputPath.Some?)
  }

  /** Transports and consumers come and go together: what every run
      without engine faults keeps. */
  predicate Paired(r: Rec)
  {
    forall k :: r.Transport(k).Some? <==> r.ConsumerOf(k).Some?
  }

  datatype Peer = Peer(id: string, name: string, roomId: string, producers: seq<Producer>, rec: Rec)

  /** What a transition asks of the outside world, in order. */
  datatype Effect =
    | CreateTransport(kind: MediaKind, transport: Handle)
    | Connect(transport: Handle, port: Option<int>, rtcpPort: Option<int>)
    | Consume(transport: Handle, producerId: string, consumer: Handle)
    | Spawn(program: string, args: seq<string>, env: Pipeline.Env)
    | Resume(consumer: Handle)
    | Kill(process: Handle, signal: string)
    | PostProcess(path: Option<string>, roomId: string, name: string)
    | ScheduleDeleteSdp(session: string)
    | CloseConsumer(consumer: Handle)
    | CloseTransport(transport: Handle)
    | CloseWebRtcTransports

  /** The peer after a transition, the effects it requested, and the error
      the transition's promise rejects with, if any. */
  datatype Outcome = Outcome(peer: Peer, effects: seq<Effect>, error: Option<string>)

  // ---------------------------------------------------------------------
  // createRtpTransportAndConsumer
  // ---------------------------------------------------------------------

  /** Which of the engine calls rejects, if one does. */
  datatype SetupFault = NoSetupFault | TransportFault(message: string) | ConnectFault(message: string) | ConsumeFault(message: string)

  /** Only the fields of kind `k` may differ. */
  predicate OnlyKindChanged(a: Rec, b: Rec, k: MediaKind)
  {
    && (forall m :: m != k ==> b.Transport(m) == a.Transport(m) && b.ConsumerOf(m) == a.ConsumerOf(m))
    && b.process == a.process && b.outputPath == a.outputPath && b.awaitingReady == a.awaitingReady
  }

  /** `createRtpTransportAndConsumer(kind, router, config)`: without a
      producer of the kind nothing happens. Otherwise the new plain
      transport is stored, connected to the kind's RTP and RTCP ports, and
      a paused consumer of the first producer of the kind is stored. A
      rejected step leaves the fields set so far; a rejected transport
      creation still records the request and stores nothing. */
  function SetupRtp(p: Peer, kind: MediaKind, ports: PortPool.Ports, transport: Handle, consumer: Handle,
                    fault: SetupFault): (o: Outcome)
    ensures o.peer == p.(rec := o.peer.rec)
    ensures OnlyKindChanged(p.rec, o.peer.rec, kind)
    ensures !GetProducerByKind(p.producers, kind).Found? ==> o == Outcome(p, [], None)
    ensures GetProducerByKind(p.producers, kind).Found? && fault.TransportFault? ==>
              o == Outcome(p, [CreateTransport(kind, transport)], Some(fault.message))
    ensures GetProducerByKind(p.producers, kind).Found? && !fault.TransportFault? ==>
              && o.peer.rec.Transport(kind) == Some(transport)
              && |o.effects| >= 2
              && o.effects[..2] == [CreateTransport(kind, transport),
                                    Connect(transport, ports.Get(RtpPortKind(kind)), ports.Get(RtcpPortKind(kind)))]
    ensures GetProducerByKind(p.producers, kind).Found? && fault.NoSetupFault? ==>
              && o.peer.rec.ConsumerOf(kind) == Some(Consumer(consumer, true))
              && |o.effects| == 3
              && o.effects[2] == Consume(transport, GetProducerByKind(p.producers, kind).producer.id, consumer)
              && o.error.None?
    ensures (fault.ConnectFault? || fault.ConsumeFault?) ==>
              o.peer.rec.ConsumerOf(kind) == p.rec.ConsumerOf(kind)
              && (GetProducerByKind(p.producers, kind).Found? ==> o.error == Some(fault.message))
    ensures Consistent(p.rec) ==> Consistent(o.peer.rec)
    ensures fault.NoSetupFault? && Paired(p.rec) ==> Paired(o.peer.rec)
  {
    match GetProducerByKind(p.producers, kind)
    case NoProducers => Outcome(p, [], None)
    case NoneOfKind => Outcome(p, [], None)
    case Found(producer) =>
      if fault.TransportFault? then Outcome(p, [CreateTransport(kind, transport)], Some(fault.message))
      else
        var rec1 := p.rec.WithTransport(kind, Some(transport));
        var connect := [CreateTransport(kind, transport),
                        Connect(transport, ports.Get(RtpPortKind(kind)), ports.Get(RtcpPortKind(kind)))];
        if fault.ConnectFault? then Outcome(p.(rec := rec1), connect, Some(fault.message))
        else
          var effects := connect + [Consume(transport, producer.id, consumer)];
          if fault.ConsumeFault? then Outcome(p.(rec := rec1), effects, Some(fault.message))
          else Outcome(p.(rec := rec1.WithConsumer(kind, Some(Consumer(consumer, true)))), effects, None)
  }

  // ---------------------------------------------------------------------
  // startRecordingGstreamer
  // ---------------------------------------------------------------------

  /** Spawns the recorder on the session description: the output path is
      derived from the room and the peer name, the pipeline carries a
      branch for each consumer that exists, and the peer now waits for the
      recorder to report that it is playing. */
  function StartGstreamer(p: Peer, dir: string, inputPath: string, logLevel: string, env: Pipeline.Env,
                          process: Handle): (o: Outcome)
    ensures o.peer == p.(rec := o.peer.rec) && o.error.None?
    ensures o.peer.rec == p.rec.(process := Some(process),
                                 outputPath := Some(Pipeline.OutputPath(dir, p.roomId, p.name)),
                                 awaitingReady := true)
    ensures |o.effects| == 1 && o.effects[0].Spawn? && o.effects[0].program == Pipeline.ProgramName
    ensures o.effects[0] == Spawn(Pipeline.ProgramName,
                                  Pipeline.PipelineArgs(inputPath, Pipeline.OutputPath(dir, p.roomId, p.name),
                                                        p.rec.audioConsumer.Some?, p.rec.videoConsumer.Some?),
                                  Pipeline.MergeEnv(logLevel, env))
    ensures o.effects[0].env.Keys == env.Keys + {"GST_DEBUG"}
    ensures ConsumersBacked(p.rec) ==> Consistent(o.peer.rec)
    ensures Paired(p.rec) ==> Paired(o.peer.rec)
  {
    var output := Pipeline.OutputPath(dir, p.roomId, p.name);
    var args := Pipeline.PipelineArgs(inputPath, output, p.rec.audioConsumer.Some?, p.rec.videoConsumer.Some?);
    var rec := p.rec.(process := Some(process), outputPath := Some(output), awaitingReady := true);
    StartedKeepsPairing(p.rec, process, output);
    Outcome(p.(rec := rec), [Spawn(Pipeline.ProgramName, args, Pipeline.MergeEnv(logLevel, env))], None)
  }

  /** Marking the recorder as started touches no transport or consumer. */
  lemma StartedKeepsPairing(r: Rec, process: Handle, output: string)
    ensures var started := r.(process := Some(process), outputPath := Some(output), awaitingReady := true);
            && (ConsumersBacked(r) ==> Consistent(started))
            && (Paired(r) ==> Paired(started))
  {
    var started := r.(process := Some(process), outputPath := Some(output), awaitingReady := true);
    assert forall k :: started.Transport(k) == r.Transport(k) && started.ConsumerOf(k) == r.ConsumerOf(k);
  }

  /** With space-free paths the spawned pipeline depayloads a medium exactly
      when the peer has a consumer for it. */
  lemma StartGstreamerBranches(p: Peer, dir: string, inputPath: string, logLevel: string, env: Pipeline.Env,
                               process: Handle)
    requires NoSpace(inputPath) && NoSpace(Pipeline.OutputPath(dir, p.roomId, p.name))
    ensures var args := StartGstreamer(p, dir, inputPath, logLevel, env, process).effects[0].args;
            && ("rtpopusdepay" in args <==> p.rec.audioConsumer.Some?)
            && ("rtpvp8depay" in args <==> p.rec.videoConsumer.Some?)
  {
    Pipeline.PipelineArgsBranches(inputPath, Pipeline.OutputPath(dir, p.roomId, p.name),
                                  p.rec.audioConsumer.Some?, p.rec.videoConsumer.Some?);
  }

  /** `consumer.resume()` on the consumer when there is one. */
  function Unpause(c: Option<Consumer>): (r: Option<Consumer>)
    ensures r.Some? <==> c.Some?
    ensures c.Some? ==> r.value.handle == c.value.handle && !r.value.paused
  {
    if c.Some? then Some(c.value.(paused := false)) else None
  }

  /** The resume request for the consumer when there is one. */
  function ResumeOf(c: Option<Consumer>): (e: seq<Effect>)
    ensures forall h :: Resume(h) in e <==> c.Some? && c.value.handle == h
  {
    if c.Some? then [Resume(c.value.handle)] else []
  }

  /** Both consumers resumed and the wait over; nothing else changes. */
  function ResumeAll(r: Rec): (r2: Rec)
    ensures forall k :: r2.Transport(k) == r.Transport(k)
    ensures forall k :: r.ConsumerOf(k).Some? <==> r2.ConsumerOf(k).Some?
    ensures forall k :: r.ConsumerOf(k).Some? ==>
              r2.ConsumerOf(k).value.handle == r.ConsumerOf(k).value.handle && !r2.ConsumerOf(k).value.paused
    ensures r2.process == r.process && r2.outputPath == r.outputPath && !r2.awaitingReady
    ensures Consistent(r) ==> Consistent(r2)
    ensures Paired(r) ==> Paired(r2)
  {
    r.(audioConsumer := Unpause(r.audioConsumer), videoConsumer := Unpause(r.videoConsumer), awaitingReady := false)
  }

  /** The resume requests, audio first: one for each consumer that exists. */
  function ResumeEffects(r: Rec): (e: seq<Effect>)
    ensures forall h :: Resume(h) in e <==> exists k :: r.ConsumerOf(k).Some? && r.ConsumerOf(k).value.handle == h
  {
    var e := ResumeOf(r.audioConsumer) + ResumeOf(r.videoConsumer);
    assert r.ConsumerOf(Audio) == r.audioConsumer && r.ConsumerOf(Video) == r.videoConsumer;
    e
  }

  /** The readiness timer fired: the first one resolves the wait, and
      `startRecording` resumes whichever consumers exist at that moment,
      audio first. Later timers find the wait resolved and do nothing. */
  function OnReadyTimer(p: Peer): (o: Outcome)
    ensures o.peer == p.(rec := o.peer.rec) && o.error.None?
    ensures !p.rec.awaitingReady ==> o == Outcome(p, [], None)
    ensures !o.peer.rec.awaitingReady
    ensures forall k :: o.peer.rec.Transport(k) == p.rec.Transport(k)
    ensures forall k :: p.rec.ConsumerOf(k).Some? <==> o.peer.rec.ConsumerOf(k).Some?
    ensures forall k :: p.rec.ConsumerOf(k).Some? ==> o.peer.rec.ConsumerOf(k).value.handle == p.rec.ConsumerOf(k).value.handle
    ensures p.rec.awaitingReady ==> forall k :: o.peer.rec.ConsumerOf(k).Some? ==> !o.peer.rec.ConsumerOf(k).value.paused
    ensures p.rec.awaitingReady ==>
              forall h :: Resume(h) in o.effects <==>
                exists k :: p.rec.ConsumerOf(k).Some? && p.rec.ConsumerOf(k).value.handle == h
    ensures o.peer.rec.process == p.rec.process && o.peer.rec.outputPath == p.rec.outputPath
    ensures Consistent(p.rec) ==> Consistent(o.peer.rec)
    ensures Paired(p.rec) ==> Paired(o.peer.rec)
  {
    if !p.rec.awaitingReady then Outcome(p, [], None)
    else Outcome(p.(rec := ResumeAll(p.rec)), ResumeEffects(p.rec), None)
  }

  /** Readiness is acted on once: a second timer changes nothing. */
  lemma ReadyOnce(p: Peer)
    ensures var o := OnReadyTimer(p);
            OnReadyTimer(o.peer) == Outcome(o.peer, [], None)
  {
  }

  // ---------------------------------------------------------------------
  // stopMediasoupRtp, stopRecording, the exit handler, close
  // ---------------------------------------------------------------------

  /** What V8 throws for `null.close()`. */
  const NullCloseError: string := "TypeError: Cannot read properties of null (reading 'close')"

  /** Closes one kind's consumer and then its transport, and clears both;
      a consumer without a transport throws after the consumer is closed
      and clears nothing. */
  function StopKind(r: Rec, k: MediaKind): (s: (Rec, seq<Effect>, Option<string>))
    requires r.ConsumerOf(k).Some?
    ensures OnlyKindChanged(r, s.0, k)
    ensures s.2.None? <==> r.Transport(k).Some?
    ensures s.2.None? ==> s.0.ConsumerOf(k).None? && s.0.Transport(k).None?
                          && s.1 == [CloseConsumer(r.ConsumerOf(k).value.handle), CloseTransport(r.Transport(k).value)]
    ensures s.2.Some? ==> s.0 == r && s.1 == [CloseConsumer(r.ConsumerOf(k).value.handle)]
  {
    var c := r.ConsumerOf(k).value;
    match r.Transport(k)
    case None => (r, [CloseConsumer(c.handle)], Some(NullCloseError))
    case Some(t) => (r.WithConsumer(k, None).WithTransport(k, None), [CloseConsumer(c.handle), CloseTransport(t)], None)
  }

  /** `stopMediasoupRtp()`: schedules the session description's deletion
      when some consumer exists, then closes and clears the audio pair and
      then the video pair. A transport is cleared only together with its
      consumer, so a transport whose consumer never came to be stays. */
  function StopRtp(p: Peer): (o: Outcome)
    ensures o.peer == p.(rec := o.peer.rec)
    ensures ScheduleDeleteSdp(p.id) in o.effects <==> p.rec.audioConsumer.Some? || p.rec.videoConsumer.Some?
    ensures o.error.None? <==> ConsumersBacked(p.rec)
    ensures o.error.None? ==> o.peer.rec.audioConsumer.None? && o.peer.rec.videoConsumer.None?
    ensures forall k :: o.peer.rec.Transport(k) != p.rec.Transport(k) ==>
                          p.rec.ConsumerOf(k).Some? && o.peer.rec.Transport(k).None?
    ensures forall k :: p.rec.ConsumerOf(k).None? ==> o.peer.rec.Transport(k) == p.rec.Transport(k)
    ensures o.peer.rec.process == p.rec.process && o.peer.rec.outputPath == p.rec.outputPath
    ensures o.peer.rec.awaitingReady == p.rec.awaitingReady
    ensures Consistent(p.rec) ==> Consistent(o.peer.rec)
    ensures Paired(p.rec) ==> forall k :: o.peer.rec.Transport(k).None? && o.peer.rec.ConsumerOf(k).None?
  {
    var schedule := if p.rec.videoConsumer.Some? || p.rec.audioConsumer.Some? then [ScheduleDeleteSdp(p.id)] else [];
    var (r1, e1, err1) := if p.rec.audioConsumer.Some? then StopKind(p.rec, Audio) else (p.rec, [], None);
    if err1.Some? then
      Outcome(p.(rec := r1), schedule + e1, err1)
    else
      var (r2, e2, err2) := if r1.videoConsumer.Some? then StopKind(r1, Video) else (r1, [], None);
      assert forall e :: e in e1 + e2 ==> !e.ScheduleDeleteSdp?;
      Outcome(p.(rec := r2), schedule + e1 + e2, err2)
  }

  /** Once RTP has been stopped, stopping again does nothing. */
  lemma StopRtpIdempotent(p: Peer)
    requires StopRtp(p).error.None?
    ensures StopRtp(StopRtp(p).peer) == Outcome(StopRtp(p).peer, [], None)
  {
  }

  /** The stop timer of `stopRecording()` fired: a running recorder is
      interrupted (its exit handler does the cleanup); without one, RTP is
      stopped directly. */
  function OnStopTimer(p: Peer): (o: Outcome)
    ensures p.rec.process.Some? ==> o == Outcome(p, [Kill(p.rec.process.value, "SIGINT")], None)
    ensures p.rec.process.None? ==> o == StopRtp(p)
  {
    match p.rec.process
    case Some(proc) => Outcome(p, [Kill(proc, "SIGINT")], None)
    case None => StopRtp(p)
  }

  /** The recorder exited: post-processing is handed the output path before
      the path and the process are cleared, RTP is stopped, and the exit is
      reported clean or not from the signal alone. */
  function OnExit(p: Peer, code: Option<int>, signal: Option<string>): (o: Outcome)
    ensures |o.effects| >= 1 && o.effects[0] == PostProcess(p.rec.outputPath, p.roomId, p.name)
    ensures o.peer == p.(rec := o.peer.rec)
    ensures o.peer.rec.process.None? && o.peer.rec.outputPath.None?
    ensures ScheduleDeleteSdp(p.id) in o.effects <==> p.rec.audioConsumer.Some? || p.rec.videoConsumer.Some?
    ensures o.error.None? <==> ConsumersBacked(p.rec)
    ensures o.error.None? ==> o.peer.rec.audioConsumer.None? && o.peer.rec.videoConsumer.None?
    ensures Consistent(p.rec) ==> Consistent(o.peer.rec)
  {
    var cleared := p.(rec := p.rec.(process := None, outputPath := None));
    var s := StopRtp(cleared);
    Outcome(s.peer, [PostProcess(p.rec.outputPath, p.roomId, p.name)] + s.effects, s.error)
  }

  /** The exit code is logged but decides nothing. */
  lemma ExitIgnoresCode(p: Peer, c1: Option<int>, c2: Option<int>, signal: Option<string>)
    ensures OnExit(p, c1, signal) == OnExit(p, c2, signal)
  {
  }

  /** Any exit, whatever signal ended the recorder, cleans up as an
      interrupted one does: post-processing gets the output path first, the
      process and the path are cleared, and RTP is stopped on the cleared
      peer. A kill is reported unclean and an interrupt clean, and that
      report is all that differs. */
  lemma UncleanExitCleansUp(p: Peer, code: Option<int>, signal: Option<string>)
    ensures !Pipeline.CleanExit(Some("SIGKILL")) && !Pipeline.CleanExit(Some("SIGTERM"))
    ensures Pipeline.CleanExit(None) && Pipeline.CleanExit(Some("SIGINT"))
    ensures var o := OnExit(p, code, signal);
            var s := StopRtp(p.(rec := p.rec.(process := None, outputPath := None)));
            && o == OnExit(p, code, Some("SIGINT"))
            && o.effects == [PostProcess(p.rec.outputPath, p.roomId, p.name)] + s.effects
            && o.peer == s.peer && o.error == s.error
  {
  }

  /** The only signal the peer ever sends its recorder, from the stop
      timer, is one the exit handler reports as clean. */
  lemma StopSignalIsClean(p: Peer)
    ensures forall e :: e in OnStopTimer(p).effects && e.Kill? ==> Pipeline.CleanExit(Some(e.signal))
    ensures p.rec.process.Some? ==> exists e :: e in OnStopTimer(p).effects && e.Kill?
  {
    if p.rec.process.Some? {
      assert OnStopTimer(p).effects[0] == Kill(p.rec.process.value, "SIGINT");
    }
  }

  /** `close()`: the peer's WebRTC transports are closed, then RTP is
      stopped. */
  function Close(p: Peer): (o: Outcome)
    ensures |o.effects| >= 1 && o.effects[0] == CloseWebRtcTransports
    ensures o.peer == StopRtp(p).peer && o.error == StopRtp(p).error
    ensures ScheduleDeleteSdp(p.id) in o.effects <==> p.rec.audioConsumer.Some? || p.rec.videoConsumer.Some?
  {
    var s := StopRtp(p);
    Outcome(s.peer, [CloseWebRtcTransports] + s.effects, s.error)
  }

  // ---------------------------------------------------------------------
  // startRecording
  // ---------------------------------------------------------------------

  /** The port pool and the filesystem. */
  datatype World = World(table: PortPool.Table, files: Sdp.Files)

  /** The handles the engine and the process table hand out. */
  datatype StartHandles = StartHandles(audioTransport: Handle, audioConsumer: Handle,
                                       videoTransport: Handle, videoConsumer: Handle, process: Handle)

  /** What can reject during `startRecording`. */
  datatype StartFaults = StartFaults(pool: PortPool.Faults, write: Option<string>, audio: SetupFault, video: SetupFault)

  const NoStartFaults: StartFaults := StartFaults(PortPool.NoFaults, None, NoSetupFault, NoSetupFault)

  /** The session descriptions live next to the connector, under
      `lib/recording`, while the peer code lives in `lib`. */
  function SdpDir(libDir: string): string
  {
    libDir + "/recording"
  }

  /** The part of `startRecording` after the session description exists:
      audio RTP, video RTP, then the recorder on the description. The first
      rejection ends the run, keeping whatever was done before it. */
  function StartMedia(p: Peer, config: Sdp.SdpConfig, libDir: string, audioFault: SetupFault, videoFault: SetupFault,
                      hs: StartHandles, logLevel: string, env: Pipeline.Env): (o: Outcome)
    ensures o.peer == p.(rec := o.peer.rec)
    ensures o.error.None? ==>
              && o.peer.rec.process == Some(hs.process)
              && o.peer.rec.outputPath == Some(Pipeline.OutputPath(libDir, p.roomId, p.name))
              && o.peer.rec.awaitingReady
    ensures Consistent(p.rec) ==> Consistent(o.peer.rec)
    ensures audioFault.NoSetupFault? && videoFault.NoSetupFault? && Paired(p.rec) ==>
              o.error.None? && Paired(o.peer.rec)
  {
    var a := SetupRtp(p, Audio, config.ports, hs.audioTransport, hs.audioConsumer, audioFault);
    if a.error.Some? then a
    else
      var v := SetupRtp(a.peer, Video, config.ports, hs.videoTransport, hs.videoConsumer, videoFault);
      if v.error.Some? then Outcome(v.peer, a.effects + v.effects, v.error)
      else
        var g := StartGstreamer(v.peer, libDir, config.filePath, logLevel, env, hs.process);
        Outcome(g.peer, a.effects + v.effects + g.effects, None)
  }

  /** `startRecording(router)` up to the wait for readiness: the session
      description (and with it the four port claims) first; if that
      rejects, the peer is untouched. */
  function StartRecording(w: World, p: Peer, libDir: string, now: PortPool.Timestamp, faults: StartFaults,
                          hs: StartHandles, logLevel: string, env: Pipeline.Env): (r: (World, Outcome))
    ensures var c := Sdp.CreateSdp(w.table, w.files, SdpDir(libDir), p.id, now, faults.pool, faults.write);
            && r.0 == World(c.0, c.1)
            && (c.2.Failure? ==> r.1 == Outcome(p, [], Some(c.2.error)))
            && (c.2.Success? ==> r.1 == StartMedia(p, c.2.value, libDir, faults.audio, faults.video, hs, logLevel, env))
    ensures r.0.table == PortPool.ClaimAll(w.table, p.id, now, faults.pool).0
    ensures r.1.peer == p.(rec := r.1.peer.rec)
    ensures Consistent(p.rec) ==> Consistent(r.1.peer.rec)
  {
    var (t1, f1, sdp) := Sdp.CreateSdp(w.table, w.files, SdpDir(libDir), p.id, now, faults.pool, faults.write);
    match sdp
    case Failure(e) => (World(t1, f1), Outcome(p, [], Some(e)))
    case Success(config) => (World(t1, f1), StartMedia(p, config, libDir, faults.audio, faults.video, hs, logLevel, env))
  }

  lemma AudioOnlyLookup(ps: seq<Producer>, pid: string)
    requires ps == [Producer(pid, Audio)]
    ensures GetProducerByKind(ps, Audio) == Found(Producer(pid, Audio))
    ensures GetProducerByKind(ps, Video).NoneOfKind?
  {
    assert OfKind(ps, Audio) == [Producer(pid, Audio)] by {
      assert ps[1..] == [];
    }
  }

  /** With only an audio producer the run sets up audio RTP only and spawns
      a recorder without a video branch. */
  lemma AudioOnlyMedia(p: Peer, pid: string, config: Sdp.SdpConfig, libDir: string, hs: StartHandles,
                       logLevel: string, env: Pipeline.Env)
    requires p.producers == [Producer(pid, Audio)] && p.rec == Idle
    requires NoSpace(config.filePath) && NoSpace(Pipeline.OutputPath(libDir, p.roomId, p.name))
    ensures var o := StartMedia(p, config, libDir, NoSetupFault, NoSetupFault, hs, logLevel, env);
            && o.error.None?
            && o.peer.rec.audioConsumer == Some(Consumer(hs.audioConsumer, true))
            && o.peer.rec.videoConsumer.None? && o.peer.rec.videoTransport.None?
            && |o.effects| == 4 && o.effects[3].Spawn?
            && "rtpopusdepay" in o.effects[3].args && "rtpvp8depay" !in o.effects[3].args
  {
    AudioOnlyRtp(p, pid, config, hs);
    var a := SetupRtp(p, Audio, config.ports, hs.audioTransport, hs.audioConsumer, NoSetupFault);
    StartGstreamerBranches(a.peer, libDir, config.filePath, logLevel, env, hs.process);
  }

  /** With only an audio producer, audio RTP is set up and the video step
      does nothing. */
  lemma AudioOnlyRtp(p: Peer, pid: string, config: Sdp.SdpConfig, hs: StartHandles)
    requires p.producers == [Producer(pid, Audio)] && p.rec == Idle
    ensures var a := SetupRtp(p, Audio, config.ports, hs.audioTransport, hs.audioConsumer, NoSetupFault);
            && a.error.None? && |a.effects| == 3
            && a.peer == p.(rec := Idle.(audioTransport := Some(hs.audioTransport),
                                         audioConsumer := Some(Consumer(hs.audioConsumer, true))))
            && SetupRtp(a.peer, Video, config.ports, hs.videoTransport, hs.videoConsumer, NoSetupFault)
               == Outcome(a.peer, [], None)
  {
    AudioOnlyLookup(p.producers, pid);
  }

  /** A peer with only an audio producer still claims all four ports, gets
      audio RTP only, and spawns a recorder without a video branch. */
  lemma AudioOnlyStart(w: World, p: Peer, pid: string, libDir: string, now: PortPool.Timestamp,
                       hs: StartHandles, logLevel: string, env: Pipeline.Env)
    requires p.producers == [Producer(pid, Audio)] && p.rec == Idle
    requires forall j :: 0 <= j < |w.table| ==> w.table[j].sessionId != Some(p.id)
    requires |PortPool.FreeIndices(w.table)| >= 4
    requires NoSpace(Sdp.SdpPath(SdpDir(libDir), p.id)) && NoSpace(Pipeline.OutputPath(libDir, p.roomId, p.name))
    ensures var (w1, o) := StartRecording(w, p, libDir, now, NoStartFaults, hs, logLevel, env);
            && o.error.None?
            && (forall k :: PortPool.HeldBy(w1.table, p.id, k))
            && o.peer.rec.audioConsumer == Some(Consumer(hs.audioConsumer, true))
            && o.peer.rec.videoConsumer.None? && o.peer.rec.videoTransport.None?
            && |o.effects| == 4 && o.effects[3].Spawn?
            && "rtpopusdepay" in o.effects[3].args && "rtpvp8depay" !in o.effects[3].args
  {
    PortPool.ClaimAllHoldsEveryKind(w.table, p.id, now);
    Sdp.CreateSdpFresh(w.table, w.files, SdpDir(libDir), p.id, now);
    var c := Sdp.CreateSdp(w.table, w.files, SdpDir(libDir), p.id, now, PortPool.NoFaults, None);
    AudioOnlyMedia(p, pid, c.2.value, libDir, hs, logLevel, env);
  }

  /** Some consumer exists. */
  predicate Recording(r: Rec)
  {
    r.audioConsumer.Some? || r.videoConsumer.Some?
  }

  lemma HasProducerOfSomeKind(ps: seq<Producer>)
    ensures |ps| > 0 <==> GetProducerByKind(ps, Audio).Found? || GetProducerByKind(ps, Video).Found?
  {
    if |ps| > 0 {
      var k := ps[0].kind;
      assert !GetProducerByKind(ps, k).NoneOfKind?;
    }
  }

  /** A fault-free media start from the constructor's fields: a consumer
      exists exactly when the peer has some producer. */
  lemma StartMediaRecords(p: Peer, config: Sdp.SdpConfig, libDir: string, hs: StartHandles,
                          logLevel: string, env: Pipeline.Env)
    requires p.rec == Idle
    ensures Recording(StartMedia(p, config, libDir, NoSetupFault, NoSetupFault, hs, logLevel, env).peer.rec)
            <==> |p.producers| > 0
  {
    var a := SetupRtp(p, Audio, config.ports, hs.audioTransport, hs.audioConsumer, NoSetupFault);
    var v := SetupRtp(a.peer, Video, config.ports, hs.videoTransport, hs.videoConsumer, NoSetupFault);
    assert a.peer.rec.audioConsumer.Some? <==> GetProducerByKind(p.producers, Audio).Found?;
    assert v.peer.rec.videoConsumer.Some? <==> GetProducerByKind(p.producers, Video).Found?;
    assert v.peer.rec.audioConsumer == a.peer.rec.audioConsumer;
    HasProducerOfSomeKind(p.producers);
  }

  /** A running recording with paired fields, from the readiness timer to
      the recorder's exit on the interrupt: the stop timer only interrupts,
      and the exit hands the output path to post-processing, schedules the
      description's deletion exactly when something was recorded, and
      leaves the fields as the constructor set them. */
  lemma StopCycle(q: Peer, code: Option<int>)
    requires Paired(q.rec) && q.rec.process.Some?
    ensures var ready := OnReadyTimer(q);
            var stop := OnStopTimer(ready.peer);
            var exit := OnExit(stop.peer, code, Some("SIGINT"));
            && ready.error.None?
            && stop == Outcome(ready.peer, [Kill(q.rec.process.value, "SIGINT")], None)
            && exit.error.None?
            && exit.peer == q.(rec := Idle)
            && exit.effects[0] == PostProcess(q.rec.outputPath, q.roomId, q.name)
            && (ScheduleDeleteSdp(q.id) in exit.effects <==> Recording(q.rec))
            && Pipeline.CleanExit(Some("SIGINT"))
  {
    var ready := OnReadyTimer(q);
    assert Recording(ready.peer.rec) <==> Recording(q.rec) by {
      assert q.rec.ConsumerOf(Audio) == q.rec.audioConsumer && q.rec.ConsumerOf(Video) == q.rec.videoConsumer;
      assert ready.peer.rec.ConsumerOf(Audio) == ready.peer.rec.audioConsumer;
      assert ready.peer.rec.ConsumerOf(Video) == ready.peer.rec.videoConsumer;
    }
    var exit := OnExit(ready.peer, code, Some("SIGINT"));
    var cleared := ready.peer.(rec := ready.peer.rec.(process := None, outputPath := None));
    assert Paired(cleared.rec) by {
      assert forall k :: cleared.rec.Transport(k) == ready.peer.rec.Transport(k);
      assert forall k :: cleared.rec.ConsumerOf(k) == ready.peer.rec.ConsumerOf(k);
    }
    assert StopRtp(cleared).peer.rec.Transport(Audio).None? && StopRtp(cleared).peer.rec.Transport(Video).None?;
    assert StopRtp(cleared).peer.rec.ConsumerOf(Audio).None? && StopRtp(cleared).peer.rec.ConsumerOf(Video).None?;
  }

  /** A full recording run without faults: start, the readiness timer, the
      stop timer, and the recorder's exit on the interrupt. */
  lemma RecordingCycle(w: World, p: Peer, libDir: string, now: PortPool.Timestamp, hs: StartHandles,
                       logLevel: string, env: Pipeline.Env, code: Option<int>)
    requires p.rec == Idle
    requires forall j :: 0 <= j < |w.table| ==> w.table[j].sessionId != Some(p.id)
    ensures var s := StartRecording(w, p, libDir, now, NoStartFaults, hs, logLevel, env).1;
            var ready := OnReadyTimer(s.peer);
            var stop := OnStopTimer(ready.peer);
            var exit := OnExit(stop.peer, code, Some("SIGINT"));
            && s.error.None? && ready.error.None?
            && stop == Outcome(ready.peer, [Kill(hs.process, "SIGINT")], None)
            && exit.error.None?
            && exit.peer == p
            && exit.effects[0] == PostProcess(Some(Pipeline.OutputPath(libDir, p.roomId, p.name)), p.roomId, p.name)
            && (ScheduleDeleteSdp(p.id) in exit.effects <==> |p.producers| > 0)
            && Pipeline.CleanExit(Some("SIGINT"))
  {
    Sdp.CreateSdpFresh(w.table, w.files, SdpDir(libDir), p.id, now);
    var c := Sdp.CreateSdp(w.table, w.files, SdpDir(libDir), p.id, now, PortPool.NoFaults, None);
    assert Paired(p.rec);
    StartMediaRecords(p, c.2.value, libDir, hs, logLevel, env);
    var s := StartRecording(w, p, libDir, now, NoStartFaults, hs, logLevel, env).1;
    StopCycle(s.peer, code);
  }

  /** Starting again while the session still holds its rows: the first
      claim breaks the unique constraint, so `startRecording` rejects with
      that error and neither the pool, the files nor the peer change. */
  lemma StartWhileHeld(w: World, p: Peer, libDir: string, now: PortPool.Timestamp, faults: StartFaults,
                       hs: StartHandles, logLevel: string, env: Pipeline.Env)
    requires PortPool.HeldBy(w.table, p.id, PortPool.Audio) && |PortPool.FreeIndices(w.table)| > 0
    requires PortPool.Audio !in faults.pool.update
    ensures StartRecording(w, p, libDir, now, faults, hs, logLevel, env)
            == (w, Outcome(p, [], Some(PortPool.UniqueViolation)))
  {
    PortPool.ClaimAllWhileHeld(w.table, p.id, now, faults.pool);
  }

  /** A peer without producers leaks its claim: the recording starts, runs
      and exits on the interrupt without ever scheduling the description's
      deletion, so its four rows stay claimed and the next
      `startRecording` of the same peer rejects with the unique-constraint
      error. */
  lemma NoProducersLeak(w: World, p: Peer, libDir: string, now: PortPool.Timestamp, later: PortPool.Timestamp,
                        hs: StartHandles, logLevel: string, env: Pipeline.Env, code: Option<int>)
    requires p.producers == [] && p.rec == Idle
    requires forall j :: 0 <= j < |w.table| ==> w.table[j].sessionId != Some(p.id)
    requires |PortPool.FreeIndices(w.table)| >= 5
    ensures var (w1, s) := StartRecording(w, p, libDir, now, NoStartFaults, hs, logLevel, env);
            var exit := OnExit(OnStopTimer(OnReadyTimer(s.peer).peer).peer, code, Some("SIGINT"));
            && s.error.None? && exit.error.None? && exit.peer == p
            && ScheduleDeleteSdp(p.id) !in exit.effects
            && StartRecording(w1, p, libDir, later, NoStartFaults, hs, logLevel, env)
               == (w1, Outcome(p, [], Some(PortPool.UniqueViolation)))
  {
    RecordingCycle(w, p, libDir, now, hs, logLevel, env, code);
    PortPool.ClaimAllTwice(w.table, p.id, now, later, PortPool.NoFaults);
    var w1 := StartRecording(w, p, libDir, now, NoStartFaults, hs, logLevel, env).0;
    PortPool.ClaimAllHoldsEveryKind(w.table, p.id, now);
    StartWhileHeld(w1, p, libDir, later, NoStartFaults, hs, logLevel, env);
  }
}
