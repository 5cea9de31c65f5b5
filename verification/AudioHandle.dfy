// The playback handle of crates/kael-media/src/native.rs. Creating an engine is slow, so `play`, `seek`
// and `duration` take a snapshot under the lock, work without it, and commit under the lock again if the
// generation still matches. Whatever happens in between is arbitrary here.
module AudioHandles {
  import opened Arithmetic
  import opened Options

  datatype PlaybackState = Playing | Paused | Stopped

  /** The output stream as far as the handle sets it: its volume, its speed, and whether it runs. */
  datatype Engine = Engine(volume: real, speed: real, running: bool)

  /** What the outside world shows at the moment the lock is held: the time, and the position of the
      engine's sink and whether it has run empty. Durations are in nanoseconds. */
  datatype Probe = Probe(now: nat, sinkPosition: nat, sinkEmpty: bool)

  function Clamp(x: real, lo: real, hi: real): real {
    if x < lo then lo else if x > hi then hi else x
  }

  function SanitizeVolume(volume: real): real {
    Clamp(volume, 0.0, 1.0)
  }

  function SanitizeSpeed(speed: real): real {
    Clamp(speed, 0.5, 2.0)
  }

  function MinWith(position: nat, limit: Option<nat>): nat {
    if limit.Some? && limit.value < position then limit.value else position
  }

  /** The position one comes to on the way to `wanted`: there, or at the limit if that comes first. */
  lemma MinWithIsLimited(wanted: nat, limit: Option<nat>, at: nat)
    ensures at == MinWith(wanted, limit)
       <==> at <= wanted && (limit.Some? ==> at <= limit.value) && (at == wanted || Some(at) == limit)
  {
  }

  function Or<T>(a: Option<T>, b: Option<T>): Option<T> {
    if a.Some? then a else b
  }

  const GENERATIONS := 0x1_0000_0000_0000_0000  // generations are 64-bit and wrap around

  /** The state behind the lock. `bumps` counts the changes of generation; `decoded` stands for the cache
      of decoded audio. */
  datatype AudioState = AudioState(
    volume: real, speed: real, duration: Option<nat>, decoded: Option<nat>, position: nat, engineOrigin: nat,
    startedAt: Option<nat>, state: PlaybackState, engine: Option<Engine>, bumps: nat)
  {
    function Generation(): nat {
      bumps % GENERATIONS
    }

    function CurrentPosition(env: Probe): (current: nat)
      ensures duration.Some? ==> current <= duration.value
      ensures state != Playing ==> current == MinWith(position, duration)
    {
      var raw :=
        if state == Playing then
          if engine.Some? then engineOrigin + env.sinkPosition
          else if startedAt.Some? && startedAt.value <= env.now then
            position + ((env.now - startedAt.value) as real * SanitizeSpeed(speed)).Floor
          else position
        else position;
      MinWith(raw, duration)
    }

    function RefreshFinished(env: Probe): AudioState {
      var finished := engine.Some? && env.sinkEmpty;
      var current := CurrentPosition(env);
      var reachedEnd := duration.Some? && current >= duration.value;
      if state != Playing || (!finished && !reachedEnd) then this
      else
        var end := if duration.Some? then duration.value else current;
        this.(position := end, engineOrigin := end, startedAt := None, state := Stopped, engine := None)
    }

    function Bump(): AudioState {
      this.(bumps := bumps + 1)
    }

    // The critical sections

    /** `play`, first half: no request means that there was nothing more to do. */
    function PlayBegin(env: Probe): (AudioState, Option<Request>) {
      var s := RefreshFinished(env);
      if s.state == Playing then (s, None)
      else if s.state == Paused && s.engine.Some? then
        (s.(engine := Some(s.engine.value.(running := true)), startedAt := Some(env.now), state := Playing).Bump(), None)
      else
        var position := if s.duration.Some? && s.position >= s.duration.value then 0 else s.position;
        (s, Some(Snapshot(s, position)))
    }

    function PlayCommit(env: Probe, r: Request, found: Found): AudioState {
      var s := RefreshFinished(env);
      if s.Generation() != r.generation || s.state == Playing then s
      else
        var position := MinWith(r.position, found.duration);
        s.(decoded := Or(found.decoded, s.decoded), duration := Or(found.duration, s.duration),
           position := position, engineOrigin := position, startedAt := Some(env.now), state := Playing,
           engine := Some(MakeEngine(r).(volume := SanitizeVolume(s.volume), speed := s.speed))).Bump()
    }

    function Pause(env: Probe): AudioState {
      var s := RefreshFinished(env);
      if s.state != Playing then s
      else
        s.(position := s.CurrentPosition(env), startedAt := None, state := Paused,
           engine := if s.engine.Some? then Some(s.engine.value.(running := false)) else None).Bump()
    }

    function Stop(): AudioState {
      this.(engine := None, position := 0, engineOrigin := 0, startedAt := None, state := Stopped).Bump()
    }

    function SeekBegin(env: Probe, position: nat): (AudioState, Request) {
      var s := RefreshFinished(env);
      (s, Snapshot(s, position))
    }

    /** `probed` is what probing found if the snapshot knew no duration; `found` what making an engine found. */
    function SeekCommit(env: Probe, r: Request, probed: Found, found: Found): AudioState {
      var s := RefreshFinished(env);
      if s.Generation() != r.generation then s
      else
        var known := if r.duration.Some? then Found(r.duration, r.decoded) else probed;
        var target := MinWith(r.position, known.duration);
        var playing := r.playbackState == Playing;
        var duration := if playing then Or(found.duration, known.duration) else known.duration;
        var decoded := if playing then found.decoded else known.decoded;
        var position := if playing then MinWith(target, found.duration) else target;
        s.(decoded := Or(decoded, s.decoded), duration := Or(duration, s.duration),
           position := position, engineOrigin := position,
           startedAt := if playing then Some(env.now) else None,
           engine := if playing then Some(MakeEngine(r).(volume := SanitizeVolume(s.volume), speed := s.speed)) else None).Bump()
    }

    function SetVolume(volume: real): AudioState {
      var v := SanitizeVolume(volume);
      this.(volume := v, engine := if engine.Some? then Some(engine.value.(volume := v)) else None)
    }

    function SetSpeed(env: Probe, speed: real): AudioState {
      var s, v := RefreshFinished(env), SanitizeSpeed(speed);
      s.(position := s.CurrentPosition(env), startedAt := if s.state == Playing then Some(env.now) else None, speed := v,
         engine := if s.engine.Some? then Some(s.engine.value.(speed := v)) else None)
    }

    /** `duration`, second half. */
    function DurationCommit(generation: nat, found: Found): AudioState {
      if Generation() == generation && duration.None? then
        this.(decoded := Or(found.decoded, decoded), duration := found.duration)
      else this
    }
  }

  const INITIAL := AudioState(1.0, 1.0, None, None, 0, 0, None, Stopped, None, 0)

  /** A snapshot taken by `play` or `seek`. */
  datatype Request = Request(
    generation: nat, volume: real, speed: real, position: nat, duration: Option<nat>, decoded: Option<nat>,
    playbackState: PlaybackState)

  /** What the work outside the lock came up with: the duration and decoded audio it learned. */
  datatype Found = Found(duration: Option<nat>, decoded: Option<nat>)

  function Snapshot(s: AudioState, position: nat): Request {
    Request(s.Generation(), s.volume, s.speed, position, s.duration, s.decoded, s.state)
  }

  /** A new engine carries the volume and speed of the snapshot until the commit updates them. */
  function MakeEngine(r: Request): Engine {
    Engine(SanitizeVolume(r.volume), SanitizeSpeed(r.speed), true)
  }

  // ----- Invariants of the state -----

  /** While the handle says it plays, something plays. */
  ghost predicate PlayingIsReal(s: AudioState) {
    s.state == Playing ==> s.engine.Some? && s.engine.value.running && s.startedAt.Some?
  }

  /** While it says it does not, nothing does. */
  ghost predicate SilenceIsReal(s: AudioState) {
    && (s.state == Stopped ==> s.engine.None? && s.startedAt.None?)
    && (s.state == Paused ==> (s.engine.Some? ==> !s.engine.value.running) && s.startedAt.None?)
  }

  ghost predicate Coherent(s: AudioState) {
    PlayingIsReal(s) && SilenceIsReal(s)
  }

  /** Whatever engine there is runs at the volume and speed set last. */
  ghost predicate Tuned(s: AudioState) {
    && 0.0 <= s.volume <= 1.0 && 0.5 <= s.speed <= 2.0
    && (s.engine.Some? ==> s.engine.value.volume == s.volume && s.engine.value.speed == s.speed)
  }

  // ----- Any number of callers -----

  /** Work in progress: a snapshot, and how often the generation had changed when it was taken. */
  datatype Pending =
    | PlayWork(request: Request, since: nat)
    | SeekWork(request: Request, since: nat)
    | DurationWork(generation: nat, since: nat)

  datatype System = System(s: AudioState, pending: map<nat, Pending>)

  datatype Event =
    | PlayStart(id: nat, env: Probe)
    | SeekStart(id: nat, env: Probe, position: nat)
    | DurationStart(id: nat)
    | Finish(id: nat, env: Probe, probed: Found, found: Found)
    | Abandon(id: nat)
    | PauseNow(env: Probe)
    | StopNow
    | VolumeNow(volume: real)
    | SpeedNow(env: Probe, speed: real)
    | Look(env: Probe)

  /** One critical section. Work is numbered; starting work under a number in use is not possible. */
  function Step(sys: System, e: Event): System {
    match e
    case PlayStart(id, env) =>
      if id in sys.pending then sys
      else
        var (s, r) := sys.s.PlayBegin(env);
        System(s, if r.Some? then sys.pending[id := PlayWork(r.value, s.bumps)] else sys.pending)
    case SeekStart(id, env, position) =>
      if id in sys.pending then sys
      else
        var (s, r) := sys.s.SeekBegin(env, position);
        System(s, sys.pending[id := SeekWork(r, s.bumps)])
    case DurationStart(id) =>
      if id in sys.pending || sys.s.duration.Some? then sys
      else sys.(pending := sys.pending[id := DurationWork(sys.s.Generation(), sys.s.bumps)])
    case Finish(id, env, probed, found) =>
      if id !in sys.pending then sys
      else
        System((match sys.pending[id]
                case PlayWork(r, _) => sys.s.PlayCommit(env, r, found)
                case SeekWork(r, _) => sys.s.SeekCommit(env, r, probed, found)
                case DurationWork(g, _) => sys.s.DurationCommit(g, found)),
               sys.pending - {id})
    case Abandon(id) => sys.(pending := sys.pending - {id})
    case PauseNow(env) => sys.(s := sys.s.Pause(env))
    case StopNow => sys.(s := sys.s.Stop())
    case VolumeNow(volume) => sys.(s := sys.s.SetVolume(volume))
    case SpeedNow(env, speed) => sys.(s := sys.s.SetSpeed(env, speed))
    case Look(env) => sys.(s := sys.s.RefreshFinished(env))
  }

  function Run(sys: System, events: seq<Event>): System
    decreases |events|
  {
    if events == [] then sys else Run(Step(sys, events[0]), events[1..])
  }

  const START := System(INITIAL, map[])

  /** Since a snapshot was taken with no change of generation after it, the state is what the snapshot
      says - or playback has come to its end, which changes no generation. */
  ghost predicate PendingOk(sys: System) {
    forall id :: id in sys.pending ==>
      var w := sys.pending[id];
      && w.since <= sys.s.bumps
      && match w
         case DurationWork(g, since) => g == since % GENERATIONS
         case PlayWork(r, since) =>
           r.generation == since % GENERATIONS && r.playbackState != Playing
           && (since == sys.s.bumps ==> r.playbackState == sys.s.state)
         case SeekWork(r, since) =>
           r.generation == since % GENERATIONS
           && (since == sys.s.bumps ==> r.playbackState == sys.s.state || (r.playbackState == Playing && sys.s.state == Stopped))
  }

  /** Fewer than 2^64 changes of generation while work is in progress. */
  ghost predicate NoWrap(sys: System) {
    forall id :: id in sys.pending ==> sys.s.bumps < sys.pending[id].since + GENERATIONS
  }

  ghost predicate Inv(sys: System) {
    PlayingIsReal(sys.s) && Tuned(sys.s) && PendingOk(sys)
  }

  lemma SameGeneration(a: nat, b: nat)
    requires a <= b < a + GENERATIONS
    ensures a % GENERATIONS == b % GENERATIONS <==> a == b
  {
  }

  lemma StepKeepsInv(sys: System, e: Event)
    requires Inv(sys) && NoWrap(sys)
    ensures Inv(Step(sys, e)) && sys.s.bumps <= Step(sys, e).s.bumps
  {
    if e.Finish? && e.id in sys.pending {
      SameGeneration(sys.pending[e.id].since, sys.s.bumps);
    }
  }

  lemma StepBumpsAtMostOnce(sys: System, e: Event)
    ensures sys.s.bumps <= Step(sys, e).s.bumps <= sys.s.bumps + 1
  {
  }

  /** Along the run, fewer than 2^64 changes of generation happen while any one piece of work is in progress. */
  ghost predicate NeverWraps(sys: System, events: seq<Event>)
    decreases |events|
  {
    NoWrap(sys) && (events != [] ==> NeverWraps(Step(sys, events[0]), events[1..]))
  }

  /** Fewer than 2^64 events cannot wrap the generation around. */
  lemma {:induction false} FewEventsNeverWrap(sys: System, events: seq<Event>)
    requires Inv(sys) && sys.s.bumps + |events| < GENERATIONS
    ensures NeverWraps(sys, events)
    decreases |events|
  {
    if events != [] {
      StepKeepsInv(sys, events[0]);
      StepBumpsAtMostOnce(sys, events[0]);
      FewEventsNeverWrap(Step(sys, events[0]), events[1..]);
    }
  }

  lemma {:induction false} RunKeepsInv(sys: System, events: seq<Event>)
    requires Inv(sys) && NeverWraps(sys, events)
    ensures Inv(Run(sys, events))
    decreases |events|
  {
    if events != [] {
      StepKeepsInv(sys, events[0]);
      RunKeepsInv(Step(sys, events[0]), events[1..]);
    }
  }

  /** Along every run, of any length, in which no generation comes round while work is in progress: a handle that
      says it plays has a running engine, and the engine carries the newest volume and speed, however snapshots and
      commits interleave. */
  lemma ReachableStates(events: seq<Event>)
    requires NeverWraps(START, events)
    ensures PlayingIsReal(Run(START, events).s) && Tuned(Run(START, events).s)
  {
    RunKeepsInv(START, events);
  }

  // ----- Stale commits -----

  /** A commit goes through exactly if the number of changes since its snapshot is a multiple of 2^64:
      none, or so many that the generation has come round. */
  lemma AcceptedExactly(sys: System, id: nat)
    requires PendingOk(sys) && id in sys.pending
    ensures var w := sys.pending[id];
            var g := if w.DurationWork? then w.generation else w.request.generation;
            sys.s.Generation() == g <==> (sys.s.bumps - w.since) % GENERATIONS == 0
  {
    var b, a := sys.s.bumps, sys.pending[id].since;
    assert b == GENERATIONS * (b / GENERATIONS) + b % GENERATIONS;
    assert a == GENERATIONS * (a / GENERATIONS) + a % GENERATIONS;
    assert b - a == GENERATIONS * (b / GENERATIONS - a / GENERATIONS) + (b % GENERATIONS - a % GENERATIONS);
  }

  /** So without wrapping, a commit that anything has overtaken - a play, pause, stop or another seek -
      changes nothing beyond noticing that playback has ended. */
  lemma StaleCommitChangesNothing(sys: System, id: nat, env: Probe, probed: Found, found: Found)
    requires Inv(sys) && NoWrap(sys) && id in sys.pending && sys.pending[id].since < sys.s.bumps
    ensures Step(sys, Finish(id, env, probed, found)).s
         == if sys.pending[id].DurationWork? then sys.s else sys.s.RefreshFinished(env)
  {
    SameGeneration(sys.pending[id].since, sys.s.bumps);
  }

  // ----- Late seeks -----

  /** A seek that was started while playing and is accepted after playback has come to its end. */
  ghost predicate IsLateSeek(sys: System, e: Event) {
    && e.Finish? && e.id in sys.pending && sys.pending[e.id].SeekWork?
    && sys.pending[e.id].since == sys.s.bumps
    && sys.pending[e.id].request.playbackState == Playing
    && sys.s.RefreshFinished(e.env).state != Playing
  }

  lemma StepIsCoherentUnlessLate(sys: System, e: Event)
    requires Inv(sys) && NoWrap(sys) && Coherent(sys.s)
    ensures Coherent(Step(sys, e).s) <==> !IsLateSeek(sys, e)
  {
    if e.Finish? && e.id in sys.pending {
      SameGeneration(sys.pending[e.id].since, sys.s.bumps);
    }
  }

  ghost predicate AlwaysCoherent(sys: System, events: seq<Event>)
    decreases |events|
  {
    Coherent(sys.s) && (events == [] || AlwaysCoherent(Step(sys, events[0]), events[1..]))
  }

  ghost predicate NoLateSeek(sys: System, events: seq<Event>)
    decreases |events|
  {
    events == [] || (!IsLateSeek(sys, events[0]) && NoLateSeek(Step(sys, events[0]), events[1..]))
  }

  /** Over a whole run the reported state matches what can be heard at every point if and only if no seek
      is committed late. */
  lemma {:induction false} CoherentExactlyWithoutLateSeeks(sys: System, events: seq<Event>)
    requires Inv(sys) && Coherent(sys.s) && NeverWraps(sys, events)
    ensures AlwaysCoherent(sys, events) <==> NoLateSeek(sys, events)
    decreases |events|
  {
    if events != [] {
      StepKeepsInv(sys, events[0]);
      StepIsCoherentUnlessLate(sys, events[0]);
      if !IsLateSeek(sys, events[0]) {
        CoherentExactlyWithoutLateSeeks(Step(sys, events[0]), events[1..]);
      }
    }
  }

  /** Late seeks do happen, and leave a stopped handle with a running engine that pausing cannot reach. */
  lemma ALateSeek(env: Probe) returns (events: seq<Event>)
    requires env.sinkEmpty
    ensures var s := Run(START, events).s;
            && s.state == Stopped && s.engine.Some? && s.engine.value.running
            && forall later :: s.Pause(later) == s
  {
    var unknown := Found(None, None);
    var playing := env.(sinkEmpty := false);
    events := [PlayStart(0, env), Finish(0, env, unknown, unknown), SeekStart(1, playing, 5), Look(env),
               Finish(1, env, unknown, unknown)];
    var s1 := Step(START, events[0]);
    var s2 := Step(s1, events[1]);
    var s3 := Step(s2, events[2]);
    var s4 := Step(s3, events[3]);
    var s5 := Step(s4, events[4]);
    assert s2.s.state == Playing && s4.s.state == Stopped;
    assert Run(START, events) == Run(s1, events[1..]);
    assert Run(s1, events[1..]) == Run(s2, events[2..]);
    assert Run(s2, events[2..]) == Run(s3, events[3..]);
    assert Run(s3, events[3..]) == Run(s4, events[4..]);
    assert Run(s4, events[4..]) == Run(s5, events[5..]);
  }

  // ----- What the position means -----

  /** The events that change the generation: a stop, a play that resumes or is accepted, an accepted seek, and a pause
      while playing. */
  ghost predicate Intervenes(sys: System, e: Event) {
    match e
    case StopNow => true
    case PauseNow(env) => sys.s.RefreshFinished(env).state == Playing
    case PlayStart(id, env) => id !in sys.pending && sys.s.RefreshFinished(env).state == Paused && sys.s.engine.Some?
    case Finish(id, env, _, _) =>
      && id in sys.pending
      && (match sys.pending[id]
          case PlayWork(r, _) => sys.s.Generation() == r.generation && sys.s.RefreshFinished(env).state != Playing
          case SeekWork(r, _) => sys.s.Generation() == r.generation
          case DurationWork(_, _) => false)
    case _ => false
  }

  lemma GenerationMovesExactly(sys: System, e: Event)
    ensures Step(sys, e).s.bumps == sys.s.bumps + if Intervenes(sys, e) then 1 else 0
  {
  }

  /** Nothing intervenes: there may be changes of volume and speed, found durations, stale commits, looks, and plays and
      seeks that begin. */
  ghost predicate Undisturbed(sys: System, events: seq<Event>)
    decreases |events|
  {
    events == [] || (!Intervenes(sys, events[0]) && Undisturbed(Step(sys, events[0]), events[1..]))
  }

  lemma QuietStep(sys: System, e: Event, later: Probe)
    requires sys.s.state != Playing && !Intervenes(sys, e)
    ensures var s := Step(sys, e).s;
      && s.state == sys.s.state && (sys.s.duration.Some? ==> s.duration == sys.s.duration)
      && s.CurrentPosition(later) == MinWith(sys.s.CurrentPosition(later), s.duration)
  {
  }

  /** A handle that does not play reports the same position, limited by the duration once that is known, until something
      intervenes - whatever clock and sink show. */
  lemma {:induction false} QuietPositionStands(sys: System, events: seq<Event>, later: Probe)
    requires sys.s.state != Playing && Undisturbed(sys, events)
    ensures var end := Run(sys, events).s;
      && end.state == sys.s.state && (sys.s.duration.Some? ==> end.duration == sys.s.duration)
      && end.CurrentPosition(later) == MinWith(sys.s.CurrentPosition(later), end.duration)
    decreases |events|
  {
    if events != [] {
      QuietStep(sys, events[0], later);
      QuietPositionStands(Step(sys, events[0]), events[1..], later);
    }
  }

  /** From a pause until something intervenes, the position is the one reported at the pause. */
  lemma PausedPositionStands(sys: System, env: Probe, events: seq<Event>, later: Probe)
    requires sys.s.RefreshFinished(env).state == Playing && Undisturbed(Step(sys, PauseNow(env)), events)
    ensures var end := Run(Step(sys, PauseNow(env)), events).s;
      && end.state == Paused
      && end.CurrentPosition(later) == MinWith(sys.s.RefreshFinished(env).CurrentPosition(env), end.duration)
  {
    QuietPositionStands(Step(sys, PauseNow(env)), events, later);
  }

  /** From a stop until something intervenes, the position is 0. */
  lemma StoppedPositionIsZero(sys: System, events: seq<Event>, later: Probe)
    requires Undisturbed(Step(sys, StopNow), events)
    ensures var end := Run(Step(sys, StopNow), events).s; end.state == Stopped && end.CurrentPosition(later) == 0
  {
    QuietPositionStands(Step(sys, StopNow), events, later);
  }

  /** An accepted seek while not playing moves to the position asked for, or to the end if that comes first, and
      there the position stays until something intervenes. */
  lemma SoughtPosition(sys: System, id: nat, env: Probe, probed: Found, found: Found, events: seq<Event>, later: Probe)
    requires id in sys.pending && sys.pending[id].SeekWork? && sys.s.Generation() == sys.pending[id].request.generation
    requires sys.pending[id].request.playbackState != Playing && sys.s.state != Playing
    requires Undisturbed(Step(sys, Finish(id, env, probed, found)), events)
    ensures var end := Run(Step(sys, Finish(id, env, probed, found)), events).s;
            end.state == sys.s.state && end.CurrentPosition(later) == MinWith(sys.pending[id].request.position, end.duration)
  {
    QuietPositionStands(Step(sys, Finish(id, env, probed, found)), events, later);
  }

  /** Playback starts at the position of the snapshot, or at the end if that comes first: there the new engine has
      not played anything yet. */
  lemma StartingPosition(s: AudioState, env: Probe, r: Request, found: Found)
    requires s.RefreshFinished(env).state != Playing && s.Generation() == r.generation && env.sinkPosition == 0
    ensures var s' := s.PlayCommit(env, r, found);
            s'.state == Playing && s'.CurrentPosition(env) == MinWith(r.position, s'.duration)
  {
  }

  /** A change of speed does not make the position jump. */
  lemma SpeedKeepsPosition(s: AudioState, env: Probe, speed: real)
    ensures s.SetSpeed(env, speed).CurrentPosition(env) == s.RefreshFinished(env).CurrentPosition(env)
  {
  }

  /** The position never runs backwards while clock and sink do not. */
  lemma PositionAdvances(s: AudioState, env: Probe, later: Probe)
    requires env.now <= later.now && env.sinkPosition <= later.sinkPosition
    ensures s.CurrentPosition(env) <= s.CurrentPosition(later)
  {
    if s.startedAt.Some? && s.startedAt.value <= env.now {
      var speed, gone := SanitizeSpeed(s.speed), env.now - s.startedAt.value;
      ProductIsNonnegative((later.now - env.now) as real, speed);
      assert (later.now - s.startedAt.value) as real * speed == gone as real * speed + (later.now - env.now) as real * speed;
    }
  }

  lemma PlayingStep(sys: System, e: Event)
    requires sys.s.state == Playing && sys.s.engine.Some? && !Intervenes(sys, e)
    ensures var s := Step(sys, e).s;
      s.state == Stopped || (s.state == Playing && s.engine.Some? && s.engineOrigin == sys.s.engineOrigin)
  {
  }

  /** While it plays and nothing intervenes, a handle reports what the sink has played past a fixed origin, up to the
      duration - whatever else happens to volume, speed and durations, and until playback comes to its end. */
  lemma {:induction false} PlayingFollowsSink(sys: System, events: seq<Event>, later: Probe)
    requires sys.s.state == Playing && sys.s.engine.Some? && Undisturbed(sys, events)
    ensures var end := Run(sys, events).s;
      && (end.state == Playing || end.state == Stopped)
      && (end.state == Playing ==>
            end.engine.Some? && end.CurrentPosition(later) == MinWith(sys.s.engineOrigin + later.sinkPosition, end.duration))
    decreases |events|
  {
    if events != [] {
      PlayingStep(sys, events[0]);
      if Step(sys, events[0]).s.state == Playing {
        PlayingFollowsSink(Step(sys, events[0]), events[1..], later);
      } else {
        QuietPositionStands(Step(sys, events[0]), events[1..], later);
      }
    }
  }

  /** The end of the way to `wanted` when the durations in the snapshot, else by probing, and found with a new engine
      are `known` and `found`. */
  function Target(wanted: nat, known: Option<nat>, found: Option<nat>): nat {
    MinWith(MinWith(wanted, known), found)
  }

  /** An accepted seek reports the position asked for, limited by every duration known by then. If it was asked for
      and comes while playing, the position advances from there with what the new sink has played. */
  lemma SeekGoesToTarget(s: AudioState, env: Probe, r: Request, probed: Found, found: Found, later: Probe)
    requires s.Generation() == r.generation
    ensures var s' := s.SeekCommit(env, r, probed, found);
      var playing := r.playbackState == Playing;
      var target := Target(r.position, if r.duration.Some? then r.duration else probed.duration,
                           if playing then found.duration else None);
      && s'.state == s.RefreshFinished(env).state
      && s'.CurrentPosition(later) == MinWith(target + if playing && s'.state == Playing then later.sinkPosition else 0, s'.duration)
  {
  }

  /** From an accepted seek while playing until something intervenes, a handle that still plays reports the target of
      the seek plus what the new sink has played. */
  lemma SoughtPositionAdvances(sys: System, id: nat, env: Probe, probed: Found, found: Found, events: seq<Event>, later: Probe)
    requires id in sys.pending && sys.pending[id].SeekWork? && sys.s.Generation() == sys.pending[id].request.generation
    requires sys.pending[id].request.playbackState == Playing && sys.s.RefreshFinished(env).state == Playing
    requires Undisturbed(Step(sys, Finish(id, env, probed, found)), events)
    ensures var end := Run(Step(sys, Finish(id, env, probed, found)), events).s;
      var r := sys.pending[id].request;
      var target := Target(r.position, if r.duration.Some? then r.duration else probed.duration, found.duration);
      && (end.state == Playing || end.state == Stopped)
      && (end.state == Playing ==> end.CurrentPosition(later) == MinWith(target + later.sinkPosition, end.duration))
  {
    PlayingFollowsSink(Step(sys, Finish(id, env, probed, found)), events, later);
  }

  /** A play that begins on a quiet handle and is accepted starts where the handle stood when it began - or at 0 if
      that was the end - and plays on from there with the sink until something intervenes. */
  lemma PlayStartsWhereItStood(sys: System, id: nat, env: Probe, mid: System, at: Probe, probed: Found, found: Found,
                               events: seq<Event>, later: Probe)
    requires id !in sys.pending && id in Step(sys, PlayStart(id, env)).pending
    requires id in mid.pending && mid.pending[id] == Step(sys, PlayStart(id, env)).pending[id]
    requires mid.s.Generation() == mid.pending[id].request.generation && mid.s.RefreshFinished(at).state != Playing
    requires Undisturbed(Step(mid, Finish(id, at, probed, found)), events)
    ensures var begun := Step(sys, PlayStart(id, env)).s;
      var end := Run(Step(mid, Finish(id, at, probed, found)), events).s;
      var stood := begun.CurrentPosition(env);
      var from := if begun.duration == Some(stood) then 0 else stood;
      && (end.state == Playing || end.state == Stopped)
      && (end.state == Playing ==>
            end.CurrentPosition(later) == MinWith(MinWith(from, found.duration) + later.sinkPosition, end.duration))
  {
    hide Run, Undisturbed;
    PlayingFollowsSink(Step(mid, Finish(id, at, probed, found)), events, later);
  }

  /** A seek that begins remembers the position asked for and what the handle knows at that moment, and changes nothing
      else; so its commit finds them. */
  lemma SeekIsRemembered(sys: System, id: nat, env: Probe, position: nat)
    requires id !in sys.pending
    ensures var now := Step(sys, SeekStart(id, env, position)); var s := sys.s.RefreshFinished(env);
      && now.s == s && now.pending.Keys == sys.pending.Keys + {id} && now.pending[id].SeekWork?
      && (forall other :: other in sys.pending ==> now.pending[other] == sys.pending[other])
      && var r := now.pending[id].request;
         r.position == position && r.generation == s.Generation() && r.playbackState == s.state
         && r.duration == s.duration && r.decoded == s.decoded
  {
  }

  lemma {:induction false} PausedEngineStands(sys: System, events: seq<Event>)
    requires sys.s.state == Paused && sys.s.engine.Some? && Undisturbed(sys, events)
    ensures var end := Run(sys, events).s;
      end.state == Paused && end.engine.Some? && end.engineOrigin == sys.s.engineOrigin
    decreases |events|
  {
    if events != [] {
      PausedEngineStands(Step(sys, events[0]), events[1..]);
    }
  }

  /** A paused handle resumes at the position reported at the pause, and plays on from there with the sink, which stands
      still in between. */
  lemma ResumesWhereItPaused(sys: System, env: Probe, events: seq<Event>, id: nat, at: Probe, later: Probe)
    requires sys.s.RefreshFinished(env).state == Playing && sys.s.RefreshFinished(env).engine.Some?
    requires Undisturbed(Step(sys, PauseNow(env)), events) && env.sinkPosition <= later.sinkPosition
    requires id !in Run(Step(sys, PauseNow(env)), events).pending
    ensures var end := Step(Run(Step(sys, PauseNow(env)), events), PlayStart(id, at)).s;
      && end.state == Playing && end.engine.Some? && end.engine.value.running
      && end.CurrentPosition(later)
      == MinWith(sys.s.RefreshFinished(env).CurrentPosition(env) + (later.sinkPosition - env.sinkPosition), end.duration)
  {
    hide Run, Undisturbed;
    PausedEngineStands(Step(sys, PauseNow(env)), events);
  }

  /** Playback comes to its end exactly if the sink has run empty or the duration is reached. The handle is then stopped
      at its end, without an engine; nothing else can happen to it by being looked at. */
  lemma EndOfPlayback(s: AudioState, env: Probe, later: Probe)
    ensures var s' := s.RefreshFinished(env); var at := s.CurrentPosition(env);
      && (s' != s ==> s.state == Playing && s'.state == Stopped && s'.engine.None?
                      && s'.CurrentPosition(later) == if s.duration.Some? then s.duration.value else at)
      && (s.state == Playing ==>
            (s'.state == Stopped <==> (s.engine.Some? && env.sinkEmpty) || s.duration == Some(at)))
  {
  }

  // ----- Settings and what is learned -----

  /** What was asked for if that lies between the limits, else the limit it lies beyond. */
  ghost predicate IsWithin(setting: real, asked: real, lo: real, hi: real) {
    && (lo <= asked <= hi ==> setting == asked)
    && (asked < lo ==> setting == lo) && (asked > hi ==> setting == hi)
  }

  /** The volume becomes what was asked for, limited to [0, 1], and an engine there is follows at once; nothing else
      changes. */
  lemma VolumeIsSet(s: AudioState, asked: real)
    ensures var s' := s.SetVolume(asked);
      && IsWithin(s'.volume, asked, 0.0, 1.0)
      && s' == s.(volume := s'.volume, engine := s'.engine) && (s'.engine.Some? <==> s.engine.Some?)
      && (s.engine.Some? ==> s'.engine.value == s.engine.value.(volume := s'.volume))
  {
  }

  /** The speed becomes what was asked for, limited to [1/2, 2], and an engine there is follows at once; whether the
      handle plays and what it knows does not change beyond noticing the end of playback. */
  lemma SpeedIsSet(s: AudioState, env: Probe, asked: real)
    ensures var was, s' := s.RefreshFinished(env), s.SetSpeed(env, asked);
      && IsWithin(s'.speed, asked, 0.5, 2.0)
      && s'.state == was.state && s'.volume == was.volume && s'.duration == was.duration && s'.decoded == was.decoded
      && (s'.engine.Some? <==> was.engine.Some?)
      && (was.engine.Some? ==> s'.engine.value == was.engine.value.(speed := s'.speed))
  {
  }

  /** What is known is only replaced by something newly found, and what is newly found is kept. */
  ghost predicate Learns(was: Option<nat>, found: Option<nat>, now: Option<nat>) {
    (found.Some? ==> now == found) && (found.None? ==> now == was)
  }

  /** What an accepted commit learns: a play what its engine found, a seek while playing what its engine found, else the
      duration it knew already, and a request for the duration only what was not known. */
  lemma CommitsLearn(s: AudioState, env: Probe, r: Request, probed: Found, found: Found)
    requires s.Generation() == r.generation
    ensures var known := if r.duration.Some? then Found(r.duration, r.decoded) else probed;
      && (s.RefreshFinished(env).state != Playing ==>
            var s' := s.PlayCommit(env, r, found);
            Learns(s.duration, found.duration, s'.duration) && Learns(s.decoded, found.decoded, s'.decoded))
      && (var s' := s.SeekCommit(env, r, probed, found);
          if r.playbackState == Playing then
            && Learns(s.decoded, found.decoded, s'.decoded)
            && (found.duration.Some? ==> s'.duration == found.duration)
            && (found.duration.None? ==> Learns(s.duration, known.duration, s'.duration))
          else Learns(s.decoded, known.decoded, s'.decoded) && Learns(s.duration, known.duration, s'.duration))
      && (var s' := s.DurationCommit(r.generation, found);
          if s.duration.Some? then s' == s
          else s' == s.(duration := found.duration, decoded := s'.decoded) && Learns(s.decoded, found.decoded, s'.decoded))
  {
  }

  // ----- The handle itself -----

  class AudioHandle {
    var volume: real
    var speed: real
    var duration: Option<nat>
    var decoded: Option<nat>
    var position: nat
    var engineOrigin: nat
    var startedAt: Option<nat>
    var state: PlaybackState
    var engine: Option<Engine>
    var generation: nat
    ghost var bumps: nat

    ghost predicate Valid()
      reads this
    {
      generation == bumps % GENERATIONS
    }

    ghost function Value(): AudioState
      reads this
    {
      AudioState(volume, speed, duration, decoded, position, engineOrigin, startedAt, state, engine, bumps)
    }

    constructor ()
      ensures Valid() && Value() == INITIAL
    {
      volume, speed, duration, decoded, position, engineOrigin := 1.0, 1.0, None, None, 0, 0;
      startedAt, state, engine, generation := None, Stopped, None, 0;
      bumps := 0;
    }

    method BumpGeneration()
      requires Valid()
      modifies this`generation, this`bumps
      ensures Valid() && bumps == old(bumps) + 1
    {
      generation := (generation + 1) % GENERATIONS;
      bumps := bumps + 1;
    }

    method CurrentPosition(env: Probe) returns (current: nat)
      ensures current == Value().CurrentPosition(env)
    {
      current := position;
      if state == Playing {
        if engine.Some? {
          current := engineOrigin + env.sinkPosition;
        } else if startedAt.Some? && startedAt.value <= env.now {
          current := position + ((env.now - startedAt.value) as real * SanitizeSpeed(speed)).Floor;
        }
      }
      current := MinWith(current, duration);
    }

    method RefreshFinished(env: Probe)
      requires Valid()
      modifies this
      ensures Valid() && Value() == old(Value()).RefreshFinished(env)
    {
      if state != Playing {
        return;
      }
      var finished := engine.Some? && env.sinkEmpty;
      var current := CurrentPosition(env);
      var reachedEnd := duration.Some? && current >= duration.value;
      if !finished && !reachedEnd {
        return;
      }
      position := if duration.Some? then duration.value else current;
      engineOrigin := position;
      startedAt := None;
      state := Stopped;
      engine := None;
    }

    method PlayBegin(env: Probe) returns (request: Option<Request>)
      requires Valid()
      modifies this
      ensures Valid() && (Value(), request) == old(Value()).PlayBegin(env)
    {
      RefreshFinished(env);
      if state == Playing {
        return None;
      }
      if state == Paused && engine.Some? {
        engine := Some(engine.value.(running := true));
        startedAt := Some(env.now);
        state := Playing;
        BumpGeneration();
        return None;
      }
      var requested := if duration.Some? && position >= duration.value then 0 else position;
      request := Some(Request(generation, volume, speed, requested, duration, decoded, state));
    }

    method PlayCommit(env: Probe, request: Request, found: Found)
      requires Valid()
      modifies this
      ensures Valid() && Value() == old(Value()).PlayCommit(env, request, found)
    {
      var made := MakeEngine(request);
      RefreshFinished(env);
      if generation != request.generation || state == Playing {
        return;
      }
      if found.decoded.Some? {
        decoded := found.decoded;
      }
      duration := Or(found.duration, duration);
      position := MinWith(request.position, found.duration);
      engineOrigin := position;
      startedAt := Some(env.now);
      state := Playing;
      engine := Some(made.(volume := SanitizeVolume(volume), speed := speed));
      BumpGeneration();
    }

    method Pause(env: Probe)
      requires Valid()
      modifies this
      ensures Valid() && Value() == old(Value()).Pause(env)
    {
      RefreshFinished(env);
      if state != Playing {
        return;
      }
      position := CurrentPosition(env);
      startedAt := None;
      if engine.Some? {
        engine := Some(engine.value.(running := false));
      }
      state := Paused;
      BumpGeneration();
    }

    method Stop()
      requires Valid()
      modifies this
      ensures Valid() && Value() == old(Value()).Stop()
    {
      engine := None;
      position := 0;
      engineOrigin := 0;
      startedAt := None;
      state := Stopped;
      BumpGeneration();
    }

    method SeekBegin(env: Probe, target: nat) returns (request: Request)
      requires Valid()
      modifies this
      ensures Valid() && (Value(), request) == old(Value()).SeekBegin(env, target)
    {
      RefreshFinished(env);
      request := Request(generation, volume, speed, target, duration, decoded, state);
    }

    method SeekCommit(env: Probe, request: Request, probed: Found, found: Found)
      requires Valid()
      modifies this
      ensures Valid() && Value() == old(Value()).SeekCommit(env, request, probed, found)
    {
      var known := if request.duration.Some? then Found(request.duration, request.decoded) else probed;
      var actual := MinWith(request.position, known.duration);
      var made: Option<Engine> := None;
      if request.playbackState == Playing {
        made := Some(MakeEngine(request));
        actual := MinWith(actual, found.duration);
        known := Found(Or(found.duration, known.duration), found.decoded);
      }
      RefreshFinished(env);
      if generation != request.generation {
        return;
      }
      if known.decoded.Some? {
        decoded := known.decoded;
      }
      duration := Or(known.duration, duration);
      position := actual;
      engineOrigin := actual;
      startedAt := if request.playbackState == Playing then Some(env.now) else None;
      if made.Some? {
        engine := Some(made.value.(volume := SanitizeVolume(volume), speed := speed));
      } else {
        engine := None;
      }
      BumpGeneration();
    }

    method SetVolume(newVolume: real)
      requires Valid()
      modifies this
      ensures Valid() && Value() == old(Value()).SetVolume(newVolume)
    {
      volume := SanitizeVolume(newVolume);
      if engine.Some? {
        engine := Some(engine.value.(volume := volume));
      }
    }

    method SetSpeed(env: Probe, newSpeed: real)
      requires Valid()
      modifies this
      ensures Valid() && Value() == old(Value()).SetSpeed(env, newSpeed)
    {
      RefreshFinished(env);
      position := CurrentPosition(env);
      startedAt := if state == Playing then Some(env.now) else None;
      speed := SanitizeSpeed(newSpeed);
      if engine.Some? {
        engine := Some(engine.value.(speed := speed));
      }
    }

    method DurationCommit(snapshot: nat, found: Found) returns (known: Option<nat>)
      requires Valid()
      modifies this
      ensures Valid() && Value() == old(Value()).DurationCommit(snapshot, found)
      ensures known == Or(duration, found.duration)
    {
      if generation == snapshot && duration.None? {
        if found.decoded.Some? {
          decoded := found.decoded;
        }
        duration := found.duration;
      }
      known := Or(duration, found.duration);
    }
  }
}
