/** The parallel parse never gets stuck by itself: as long as no worker is interrupted or killed and no recipe
  * fails, every run can be continued until the generator ends with every result consumed.
  */
module ParseProgress {
  import opened Common
  import opened ParseProtocol

  /** No interrupt, no kill, no recipe that fails to parse. */
  predicate Faultless(e: Event) {
    !e.Interrupt? && !e.Kill? && !e.ConsumeFailed?
  }

  predicate Sound(k: Worker) {
    !k.exit && !k.broke && !k.pc.Killed?
  }

  /** What runs without faults keep until the generator ends. */
  ghost predicate Healthy(s: State) {
    && Inv(s) && s.workers != [] && !s.pc.Done? && !s.pc.Raised? && !s.pc.Aborted?
    && forall w :: 0 <= w < |s.workers| ==> Sound(s.workers[w])
  }

  /** When all workers have left and the pipe is empty, everything has been consumed. */
  lemma NothingLeft(s: State)
    requires Healthy(s) && AllDead(s) && s.queue == [] && !s.pc.Yielded?
    ensures s.parsed >= s.toparse
  {
    var k := s.workers[0];
    assert WorkerOk(s, k) && k.pc.Exited? && Sound(k);
    assert s.lost == [] by {
      assert forall w :: 0 <= w < |s.workers| ==> Sound(s.workers[w]) && !Broken(s.workers[w]);
    }
    forall j: Job | j < s.toparse ensures Times(s.consumed, j) >= 1 {
      DeadHoldNothing(s.workers, j);
      assert Places(s, j) == 1;
    }
    AtLeast(s.consumed, s.toparse);
  }

  /** A step without fault leads to a healthy state again, or to the end. */
  lemma HealthyKept(s: State, e: Event)
    requires Healthy(s) && Enabled(s, e) && Faultless(e)
    ensures Healthy(Apply(s, e)) || Apply(s, e).pc.Done?
  {
    StepInv(s, e);
    if e.Finish? && s.parsed < s.toparse {
      NothingLeft(s);
    }
    assert !s.quit;
    if !ByConsumer(e) {
      assert Sound(s.workers[e.w]);
      assert forall w :: 0 <= w < |s.workers| && w != e.w ==> Apply(s, e).workers[w] == s.workers[w];
    }
  }

  // ---- The work that is left --------------------------------------------------------------------

  /** The steps left to a worker for the jobs it holds, tenfold, and those that take it out of its loop. */
  function Work(k: Worker): nat {
    10 * ((if k.pc.Parse? then 3 else 0) + 2 * |k.pending| + |k.outbox|)
    + (if k.havejobs then 5 else 0)
    + match k.pc
      case Head => if k.pending == [] then 2 else 3
      case Parse(_) => 4
      case Post => if k.pending == [] then 3 else 2
      case Closing => 1
      case _ => 0
  }

  function AllWork(ws: seq<Worker>): nat {
    if ws == [] then 0 else Work(ws[0]) + AllWork(ws[1..])
  }

  lemma {:induction false} WorkUpdate(ws: seq<Worker>, w: nat, k: Worker)
    requires w < |ws|
    ensures AllWork(ws[w := k]) == AllWork(ws) - Work(ws[w]) + Work(k)
  {
    if w > 0 {
      WorkUpdate(ws[1..], w - 1, k);
      assert ws[w := k][1..] == ws[1..][w - 1 := k];
    } else {
      assert ws[w := k][1..] == ws[1..];
    }
  }

  ghost function WorkLeft(s: State): nat
    requires s.next <= s.toparse
  {
    40 * (s.toparse - s.next) + AllWork(s.workers)
  }

  function Unconsumed(s: State): nat {
    if s.parsed < s.toparse then s.toparse - s.parsed else 0
  }

  /** Where the generator stands in its round. */
  function Place(s: State): nat {
    match s.pc
    case Fetch => if s.parsed >= s.toparse then 6 else 2
    case Check => 5
    case Reap(_) => 4
    case Test => 3
    case Yielded(_) => 1
    case End => 1
    case _ => 0
  }

  function Todo(s: State): nat {
    if s.pc.Reap? then |s.pc.todo| else 0
  }

  /** What a worker that is still there does next. */
  function Next(k: Worker, w: nat, more: bool): Event {
    if k.outbox != [] then FeedPipe(w)
    else match k.pc
         case Head => if k.havejobs then if more then TakeJob(w) else SeeNoJobs(w)
                      else if k.pending != [] then SkipTaking(w) else LeaveLoop(w)
         case Parse(_) => FinishParse(w)
         case Post => if k.pending != [] then PostResult(w) else PostNothing(w)
         case _ => ExitProcess(w)
  }

  lemma WorkFalls(k: Worker, w: nat, next: nat, more: bool)
    requires Sound(k) && !k.Dead()
    ensures var e := Next(k, w, more);
            && WorkerMay(k, e, more, false)
            && Work(WorkerApply(k, e, next, more, false)) < Work(k) + if e.TakeJob? then 40 else 0
  {
  }

  lemma WorkerAdvances(s: State, w: nat)
    requires Healthy(s) && w < |s.workers| && !s.workers[w].Dead()
    ensures var e := Next(s.workers[w], w, s.next < s.toparse);
            && Enabled(s, e) && Faultless(e) && s.next <= Apply(s, e).next <= s.toparse
            && WorkLeft(Apply(s, e)) < WorkLeft(s)
  {
    var k, more := s.workers[w], s.next < s.toparse;
    var e := Next(k, w, more);
    WorkFalls(k, w, s.next, more);
    WorkUpdate(s.workers, w, WorkerApply(k, e, s.next, more, false));
  }

  /** Closer to the next result or to the end. */
  ghost predicate Closer(s: State, t: State) {
    && t.workers == s.workers && t.next == s.next && t.toparse == s.toparse
    && (Unconsumed(t) < Unconsumed(s)
        || (Unconsumed(t) == Unconsumed(s)
            && (Place(t) < Place(s) || (Place(t) == Place(s) && Todo(t) < Todo(s)))))
  }

  lemma ReapAdvances(s: State, w: nat)
    requires Healthy(s) && s.pc.Reap? && w in s.pc.todo
    ensures Enabled(s, ReapOne(w)) && Closer(s, Apply(s, ReapOne(w)))
  {
    assert |s.pc.todo - {w}| < |s.pc.todo|;
  }

  /** What the generator does next once all workers have left. */
  lemma GeneratorAdvances(s: State) returns (e: Event)
    requires Healthy(s) && AllDead(s)
    ensures Enabled(s, e) && Faultless(e) && ByConsumer(e)
    ensures Closer(s, Apply(s, e))
  {
    match s.pc
    case Check => e := CheckLoop;
    case Reap(todo) =>
      if todo == {} {
        e := ReapEnd;
      } else {
        var w := Member(todo);
        ReapAdvances(s, w);
        e := ReapOne(w);
      }
    case Test => e := TestParsed;
    case Fetch =>
      if s.queue != [] {
        e := GetResult;
      } else {
        NothingLeft(s);
        e := GetTimeout;
      }
    case Yielded(_) =>
      InHandUnconsumed(s);
      e := ConsumeGood;
    case End => e := Finish;
  }

  /** A result in hand has not been counted. */
  lemma InHandUnconsumed(s: State)
    requires Healthy(s) && s.pc.Yielded?
    ensures s.parsed < s.toparse
  {
    var all := s.consumed + [s.pc.result];
    forall j: Job ensures Times(all, j) <= if j < s.toparse then 1 else 0 {
      TimesConcat(s.consumed, [s.pc.result], j);
      assert Times([s.pc.result], j) == InHand(s.pc, j);
      assert Times(all, j) <= Places(s, j);
    }
    Pigeonhole(all, s.toparse);
  }

  // ---- It can always end ------------------------------------------------------------------------

  lemma {:induction false} CanFinish(s: State) returns (es: seq<Event>)
    requires Healthy(s) || s.pc.Done?
    ensures IsRun(s, es) && After(s, es).pc.Done? && forall e :: e in es ==> Faultless(e)
    decreases !s.pc.Done?, if Healthy(s) then WorkLeft(s) else 0, Unconsumed(s), Place(s), Todo(s)
  {
    if s.pc.Done? {
      es := [];
    } else {
      var e;
      if AllDead(s) {
        e := GeneratorAdvances(s);
      } else {
        var w: nat :| w < |s.workers| && !s.workers[w].Dead();
        WorkerAdvances(s, w);
        e := Next(s.workers[w], w, s.next < s.toparse);
      }
      HealthyKept(s, e);
      var rest := CanFinish(Apply(s, e));
      es := [e] + rest;
      assert es[1..] == rest;
    }
  }

  lemma {:induction false} RunHealthy(s: State, es: seq<Event>)
    requires (Healthy(s) || s.pc.Done?) && IsRun(s, es) && forall e :: e in es ==> Faultless(e)
    ensures Healthy(After(s, es)) || After(s, es).pc.Done?
    decreases |es|
  {
    if es != [] {
      assert es[0] in es;
      if s.pc.Done? {
        assert Apply(s, es[0]).pc.Done?;
      } else {
        HealthyKept(s, es[0]);
      }
      RunHealthy(Apply(s, es[0]), es[1..]);
    }
  }

  lemma {:induction false} RunConcat(s: State, a: seq<Event>, b: seq<Event>)
    requires IsRun(s, a) && IsRun(After(s, a), b)
    ensures IsRun(s, a + b) && After(s, a + b) == After(After(s, a), b)
    decreases |a|
  {
    if a == [] {
      assert a + b == b;
    } else {
      assert (a + b)[0] == a[0] && (a + b)[1..] == a[1..] + b;
      RunConcat(Apply(s, a[0]), a[1..], b);
    }
  }

  /** With at least one worker every run without faults can be continued, without faults, until the generator
    * ends quietly; then it has consumed each result once. */
  lemma AlwaysCanFinish(toparse: nat, num: nat, es: seq<Event>) returns (more: seq<Event>)
    requires num > 0 && IsRun(Initial(toparse, num), es) && forall e :: e in es ==> Faultless(e)
    ensures IsRun(Initial(toparse, num), es + more) && forall e :: e in more ==> Faultless(e)
    ensures var t := After(Initial(toparse, num), es + more);
            t.pc.Done? && t.parsed == toparse && forall j: Job :: Times(t.consumed, j) == if j < toparse then 1 else 0
  {
    var s := Initial(toparse, num);
    InitialInv(toparse, num);
    assert s.workers[0] == FRESH;
    RunHealthy(s, es);
    more := CanFinish(After(s, es));
    RunConcat(s, es, more);
    QuietEndIsComplete(toparse, num, es + more);
  }
}
