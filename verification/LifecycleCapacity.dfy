// How many sessions the agent holds: over every run the sessions recorded as
// starting or running are within the configured maximum.
module LifecycleCapacity {
  import opened Text
  import opened Sessions
  import opened Persistence
  import opened Lifecycle

  ghost function Held(m: SessionMap): set<string> {
    set id | id in m && (m[id].status == Starting || m[id].status == Running)
  }

  ghost predicate WithinMaximum(cfg: Config, im: Image) {
    |Held(im.mem)| <= cfg.maxSessions && |Held(im.disk)| <= cfg.maxSessions
  }

  // An admitted start finds its ID free, and with all sessions that are starting,
  // running, stopping or waiting to be revoked fewer than the maximum.
  lemma AdmissionHasRoom(cfg: Config, s: State, step: Step)
    requires step.BeginStart? && WriteOf(cfg, s, step).Some?
    ensures step.q.sessionId !in s.im.mem
    ensures |set id | id in s.im.mem && s.im.mem[id].status in {Starting, Running, Stopping, RevokeFailed}|
          < cfg.maxSessions
  {
    assert ActiveIds(s.im.mem)
        == set id | id in s.im.mem && s.im.mem[id].status in {Starting, Running, Stopping, RevokeFailed};
  }

  // And with room it is admitted: a valid request for an unknown ID is refused
  // for nothing else.
  lemma RoomMeansAdmission(cfg: Config, s: State, step: Step)
    requires step.BeginStart? && s.phase.Serving? && step.op !in s.ops && step.validatedAt <= step.acceptedAt <= s.now
    requires ValidRequest(cfg, step.q, step.validatedAt) && step.q.sessionId !in s.im.mem
    requires |set id | id in s.im.mem && s.im.mem[id].status in {Starting, Running, Stopping, RevokeFailed}|
           < cfg.maxSessions
    ensures WriteOf(cfg, s, step).Some?
  {
    assert ActiveIds(s.im.mem)
        == set id | id in s.im.mem && s.im.mem[id].status in {Starting, Running, Stopping, RevokeFailed};
  }

  lemma RetainedHeld(cfg: Config, m: SessionMap, now: int)
    ensures |Held(Retained(cfg, m, now))| <= |Held(m)|
  {
    SubsetIsSmaller(Held(Retained(cfg, m, now)), Held(m));
  }

  lemma OneMoreHeld(m: SessionMap, id: string, r: SessionRecord)
    ensures |Held(m[id := r])| <= |Held(m)| + 1
    ensures id in Held(m) || !(r.status == Starting || r.status == Running) ==> |Held(m[id := r])| <= |Held(m)|
    ensures |Held(m - {id})| <= |Held(m)|
  {
    SubsetIsSmaller(Held(m[id := r]), Held(m) + {id});
    SubsetIsSmaller(Held(m - {id}), Held(m));
    if id in Held(m) || !(r.status == Starting || r.status == Running) {
      SubsetIsSmaller(Held(m[id := r]), Held(m));
    }
  }

  // Whatever is written or put back, the maximum is kept.
  ghost predicate Fits(cfg: Config, mem: SessionMap, w: Write) {
    && |Held(mem[w.id := w.rec])| <= cfg.maxSessions
    && |Held(if w.undo.Some? then mem[w.id := w.undo.value] else mem - {w.id})| <= cfg.maxSessions
  }

  lemma StartFits(cfg: Config, s: State, step: Step)
    requires step.BeginStart? && WriteOf(cfg, s, step).Some? && |Held(s.im.mem)| <= cfg.maxSessions
    ensures Fits(cfg, s.im.mem, WriteOf(cfg, s, step).value)
  {
    var w := WriteOf(cfg, s, step).value;
    AdmissionHasRoom(cfg, s, step);
    SubsetIsSmaller(Held(s.im.mem), ActiveIds(s.im.mem));
    OneMoreHeld(s.im.mem, w.id, w.rec);
  }

  lemma WriteFits(cfg: Config, s: State, step: Step)
    requires WriteOf(cfg, s, step).Some? && |Held(s.im.mem)| <= cfg.maxSessions
    ensures Fits(cfg, s.im.mem, WriteOf(cfg, s, step).value)
  {
    if step.BeginStart? {
      StartFits(cfg, s, step);
    } else {
      var w := WriteOf(cfg, s, step).value;
      OneMoreHeld(s.im.mem, w.id, w.rec);
      if w.undo.Some? { OneMoreHeld(s.im.mem, w.id, w.undo.value); }
    }
  }

  lemma CommitKeepsMaximum(cfg: Config, im: Image, w: Write, now: int, save: SaveOutcome)
    requires WithinMaximum(cfg, im) && Fits(cfg, im.mem, w)
    ensures WithinMaximum(cfg, Commit(cfg, im, w, now, save))
  {
    var mem := im.mem[w.id := w.rec];
    RetainedHeld(cfg, mem, now);
    if w.undo.Some? {
      assert mem[w.id := w.undo.value] == im.mem[w.id := w.undo.value];
    } else {
      assert mem - {w.id} == im.mem - {w.id};
    }
  }

  lemma LoadKeepsMaximum(cfg: Config, s: State, step: Step)
    requires ConfigOk(cfg) && WithinMaximum(cfg, s.im) && (step.Crash? || step.Load?)
    ensures WithinMaximum(cfg, Apply(cfg, s, step).im)
  {
    NothingHeld(map[]);
    RetainedHeld(cfg, s.im.disk, s.now);
  }

  lemma NothingHeld(m: SessionMap)
    requires m == map[]
    ensures |Held(m)| == 0
  {
    assert Held(m) == {};
  }

  lemma RetryKeepsMaximum(cfg: Config, s: State, step: Step)
    requires WithinMaximum(cfg, s.im) && step.PrepareRetry?
    ensures WithinMaximum(cfg, Apply(cfg, s, step).im)
  {
    if step.id in s.im.mem {
      OneMoreHeld(s.im.mem, step.id, s.im.mem[step.id].(status := RevokeFailed, closeReason := step.reason));
    }
  }

  lemma StepKeepsMaximum(cfg: Config, s: State, step: Step)
    requires ConfigOk(cfg) && WithinMaximum(cfg, s.im)
    ensures WithinMaximum(cfg, Apply(cfg, s, step).im)
  {
    if WriteOf(cfg, s, step).Some? {
      WriteFits(cfg, s, step);
      CommitKeepsMaximum(cfg, s.im, WriteOf(cfg, s, step).value, s.now, step.save);
    } else if step.Crash? || step.Load? {
      LoadKeepsMaximum(cfg, s, step);
    } else if step.PrepareRetry? {
      RetryKeepsMaximum(cfg, s, step);
    } else {
      OtherStepsAreCalm(cfg, s, step);
    }
  }

  // Over every run, whatever operations overlap and whichever saves fail.
  lemma {:induction false} SessionsStayWithinMaximum(cfg: Config, steps: seq<Step>)
    requires ConfigOk(cfg)
    ensures WithinMaximum(cfg, Run(cfg, steps).im)
    decreases |steps|
  {
    if steps == [] {
      NothingHeld(map[]);
    } else {
      SessionsStayWithinMaximum(cfg, steps[..|steps| - 1]);
      StepKeepsMaximum(cfg, Run(cfg, steps[..|steps| - 1]), steps[|steps| - 1]);
    }
  }
}
