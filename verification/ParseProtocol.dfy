/** The parallel parse: worker processes take recipe indices from a shared counter, parse them and post
  * the results; one consumer collects the results and must notice when some can no longer arrive.
  *
  * The processes interleave arbitrarily, any worker may be killed at any moment, and any worker may be
  * interrupted, which makes it leave its loop with results still pending.
  */
module ParseProtocol {
  import opened Common

  type Job = nat

  /** Where a worker stands in its loop, or how it ended. */
  datatype WorkerPc = Head | Parse(job: Job) | Post | Closing | Exited | Killed

  /** `outbox` is what the queue feeder of the worker has not written to the pipe yet. `broke` says that
    * the worker left its loop because of the quit flag or an interrupt. */
  datatype Worker = Worker(pc: WorkerPc, havejobs: bool, pending: seq<Job>, outbox: seq<Job>, exit: bool, broke: bool)
  {
    predicate Dead() {
      pc.Exited? || pc.Killed?
    }

    /** How often the worker is responsible for a job. */
    function Count(j: Job): nat {
      (if pc == Parse(j) then 1 else 0) + Times(pending, j) + Times(outbox, j)
    }
  }

  const FRESH := Worker(Head, true, [], [], false, false)

  /** Where the consumer stands in its generator and in parse_next. */
  datatype ConsumerPc =
    | Check
    | Reap(todo: set<nat>)
    | Test
    | Fetch
    | Yielded(result: Job)
    | End
    | Done
    | Raised
    | Aborted

  datatype State = State(
    toparse: nat,
    next: nat,
    workers: seq<Worker>,
    queue: seq<Job>,
    quit: bool,
    pc: ConsumerPc,
    processes: set<nat>,
    empty: bool,
    consumed: seq<Job>,
    parsed: nat,
    lost: seq<Job>)

  function Upto(n: nat): (r: set<nat>)
    ensures forall i: nat :: i in r <==> i < n
  {
    if n == 0 then {} else Upto(n - 1) + {n - 1}
  }

  function Initial(toparse: nat, num: nat): State {
    State(toparse, 0, seq(num, _ => FRESH), [], false, Check, Upto(num), false, [], 0, [])
  }

  datatype Event =
    | TakeJob(w: nat)
    | SeeNoJobs(w: nat)
    | SkipTaking(w: nat)
    | FinishParse(w: nat)
    | PostResult(w: nat)
    | QueueFull(w: nat)
    | PostNothing(w: nat)
    | LeaveLoop(w: nat)
    | BreakLoop(w: nat)
    | FeedPipe(w: nat)
    | ExitProcess(w: nat)
    | Interrupt(w: nat)
    | Kill(w: nat)
    | CheckLoop
    | ReapOne(w: nat)
    | ReapEnd
    | TestParsed
    | GetResult
    | GetTimeout
    | ConsumeGood
    | ConsumeFailed
    | Finish

  predicate ByConsumer(e: Event) {
    match e
    case CheckLoop | ReapOne(_) | ReapEnd | TestParsed | GetResult | GetTimeout | ConsumeGood | ConsumeFailed
      | Finish => true
    case _ => false
  }

  /** When worker k can take the step e; `more` says that the counter has not reached the last job. */
  predicate WorkerMay(k: Worker, e: Event, more: bool, quit: bool) {
    match e
    case TakeJob(_) => k.pc.Head? && k.havejobs && more
    case SeeNoJobs(_) => k.pc.Head? && k.havejobs && !more
    case SkipTaking(_) => k.pc.Head? && !k.havejobs && k.pending != []
    case FinishParse(_) => k.pc.Parse?
    case PostResult(_) => k.pc.Post? && k.pending != []
    case QueueFull(_) => k.pc.Post? && k.pending != []
    case PostNothing(_) => k.pc.Post? && k.pending == []
    case LeaveLoop(_) => k.pc.Head? && !k.havejobs && k.pending == []
    case BreakLoop(_) => k.pc.Head? && (k.exit || quit)
    case FeedPipe(_) => !k.Dead() && k.outbox != []
    case ExitProcess(_) => k.pc.Closing? && k.outbox == []
    case Interrupt(_) => !k.Dead()
    case Kill(_) => !k.Dead()
    case _ => false
  }

  /** What the step makes of the worker; `next` is the job on the shared counter. */
  function WorkerApply(k: Worker, e: Event, next: nat, more: bool, quit: bool): Worker
    requires WorkerMay(k, e, more, quit)
  {
    var last := |k.pending| - 1;
    match e
    case TakeJob(_) => k.(pc := Parse(next))
    case SeeNoJobs(_) => k.(havejobs := false, pc := Post)
    case SkipTaking(_) => k.(pc := Post)
    case FinishParse(_) => k.(pending := k.pending + [k.pc.job], pc := Post)
    case PostResult(_) => k.(pending := k.pending[..last], outbox := k.outbox + [k.pending[last]], pc := Head)
    case QueueFull(_) => k.(pc := Head)
    case PostNothing(_) => k.(pc := Head)
    case LeaveLoop(_) => k.(pc := Closing)
    case BreakLoop(_) => k.(pc := Closing, broke := true)
    case FeedPipe(_) => k.(outbox := k.outbox[1..])
    case ExitProcess(_) => k.(pc := Exited, pending := [])
    case Interrupt(_) => k.(exit := true)
    case Kill(_) => k.(pc := Killed, pending := [], outbox := [])
  }

  /** The job that enters the pipe with a step. */
  function Fed(k: Worker, e: Event): seq<Job> {
    if e.FeedPipe? && k.outbox != [] then [k.outbox[0]] else []
  }

  /** The jobs that are gone for good after a step. */
  function Gone(k: Worker, e: Event): seq<Job> {
    if e.Kill? then (if k.pc.Parse? then [k.pc.job] else []) + k.pending + k.outbox
    else if e.ExitProcess? then k.pending
    else []
  }

  predicate Enabled(s: State, e: Event) {
    match e
    case CheckLoop => s.pc.Check?
    case ReapOne(w) => s.pc.Reap? && w in s.pc.todo && w < |s.workers|
    case ReapEnd => s.pc.Reap? && s.pc.todo == {}
    case TestParsed => s.pc.Test?
    case GetResult => s.pc.Fetch? && s.queue != []
    // a get may time out while writers are still busy, but not on a pipe with data and no writer left
    case GetTimeout => s.pc.Fetch? && (s.queue == [] || exists i :: 0 <= i < |s.workers| && !s.workers[i].Dead())
    case ConsumeGood => s.pc.Yielded?
    case ConsumeFailed => s.pc.Yielded?
    case Finish => s.pc.End?
    case _ => e.w < |s.workers| && WorkerMay(s.workers[e.w], e, s.next < s.toparse, s.quit)
  }

  function Apply(s: State, e: Event): State
    requires Enabled(s, e)
  {
    if ByConsumer(e) then ConsumerApply(s, e)
    else
      var k := s.workers[e.w];
      s.(workers := s.workers[e.w := WorkerApply(k, e, s.next, s.next < s.toparse, s.quit)],
         next := if e.TakeJob? then s.next + 1 else s.next,
         queue := s.queue + Fed(k, e),
         lost := s.lost + Gone(k, e))
  }

  function ConsumerApply(s: State, e: Event): State
    requires ByConsumer(e) && Enabled(s, e)
  {
    match e
    case CheckLoop => s.(pc := if s.processes != {} || !s.empty then Reap(s.processes) else End)
    case ReapOne(w) =>
      s.(pc := Reap(s.pc.todo - {w}), processes := if s.workers[w].Dead() then s.processes - {w} else s.processes)
    case ReapEnd => s.(pc := Test)
    case TestParsed => s.(pc := if s.parsed >= s.toparse then End else Fetch)
    case GetResult => s.(pc := Yielded(s.queue[0]), queue := s.queue[1..], empty := false)
    case GetTimeout => s.(pc := Check, empty := true)
    case ConsumeGood => s.(pc := Check, consumed := s.consumed + [s.pc.result], parsed := s.parsed + 1)
    case ConsumeFailed => s.(pc := Aborted, consumed := s.consumed + [s.pc.result], quit := true)
    case Finish => s.(pc := if s.parsed >= s.toparse then Done else Raised, quit := true)
  }

  ghost predicate IsRun(s: State, es: seq<Event>)
    decreases |es|
  {
    es == [] || (Enabled(s, es[0]) && IsRun(Apply(s, es[0]), es[1..]))
  }

  ghost function After(s: State, es: seq<Event>): State
    requires IsRun(s, es)
    decreases |es|
  {
    if es == [] then s else After(Apply(s, es[0]), es[1..])
  }

  // ---- Accounting -------------------------------------------------------------------------------

  function Held(ws: seq<Worker>, j: Job): nat {
    if ws == [] then 0 else ws[0].Count(j) + Held(ws[1..], j)
  }

  function InHand(pc: ConsumerPc, j: Job): nat {
    if pc == Yielded(j) then 1 else 0
  }

  /** In how many places a job is. */
  function Places(s: State, j: Job): nat {
    Held(s.workers, j) + Times(s.queue, j) + InHand(s.pc, j) + Times(s.consumed, j) + Times(s.lost, j)
  }

  /** Every job handed out is in exactly one place, and no other job is anywhere. */
  ghost predicate Accounted(s: State) {
    forall j: Job :: Places(s, j) == if j < s.next then 1 else 0
  }

  lemma {:induction false} HeldUpdate(ws: seq<Worker>, w: nat, k: Worker, j: Job)
    requires w < |ws|
    ensures Held(ws[w := k], j) == Held(ws, j) - ws[w].Count(j) + k.Count(j)
  {
    if w > 0 {
      HeldUpdate(ws[1..], w - 1, k, j);
      assert ws[w := k][1..] == ws[1..][w - 1 := k];
    } else {
      assert ws[w := k][1..] == ws[1..];
    }
  }

  lemma {:induction false} TimesConcat(a: seq<Job>, b: seq<Job>, j: Job)
    ensures Times(a + b, j) == Times(a, j) + Times(b, j)
  {
    if b == [] {
      assert a + b == a;
    } else {
      var c := b[..|b| - 1];
      TimesConcat(a, c, j);
      assert (a + b)[..|a + b| - 1] == a + c;
    }
  }

  // ---- The invariant ----------------------------------------------------------------------------

  ghost predicate WorkerOk(s: State, k: Worker) {
    && (k.Dead() ==> k.pending == [] && k.outbox == [])
    && (!k.havejobs ==> s.next == s.toparse)
    && (k.pc.Closing? || k.pc.Exited? ==> k.broke || (!k.havejobs && k.pending == []))
    && (k.broke ==> k.exit || s.quit)
  }

  /** A worker that may have taken results with it. */
  predicate Broken(k: Worker) {
    k.pc.Killed? || k.broke
  }

  ghost predicate AllDead(s: State) {
    forall w :: 0 <= w < |s.workers| ==> s.workers[w].Dead()
  }

  ghost predicate Inv(s: State) {
    && Accounted(s) && s.next <= s.toparse
    && (forall w :: 0 <= w < |s.workers| ==> WorkerOk(s, s.workers[w]))
    && (s.lost != [] ==> exists w :: 0 <= w < |s.workers| && Broken(s.workers[w]))
    && ConsumerOk(s)
  }

  ghost predicate ConsumerOk(s: State) {
    && |s.consumed| == s.parsed + (if s.pc.Aborted? then 1 else 0)
    && (forall w :: 0 <= w < |s.workers| && w !in s.processes ==> s.workers[w].Dead())
    && (forall w :: w in s.processes ==> w < |s.workers|)
    && (s.pc.Reap? ==> forall w :: w in s.pc.todo ==> w < |s.workers|)
    && (s.quit <==> s.pc.Done? || s.pc.Raised? || s.pc.Aborted?)
    && ((s.pc.Check? && s.empty && s.processes == {}) || (s.pc.End? && s.parsed < s.toparse) || s.pc.Raised? ==>
          AllDead(s) && s.queue == [])
    && (s.pc.Yielded? ==> !s.empty)
    && (s.pc.Raised? ==> s.parsed < s.toparse)
    && (s.pc.Done? ==> s.parsed >= s.toparse)
  }

  lemma {:induction false} FreshHoldNothing(num: nat, j: Job)
    ensures Held(seq(num, _ => FRESH), j) == 0
  {
    if num > 0 {
      FreshHoldNothing(num - 1, j);
      assert seq(num, _ => FRESH)[1..] == seq(num - 1, _ => FRESH);
    }
  }

  lemma InitialInv(toparse: nat, num: nat)
    ensures Inv(Initial(toparse, num))
  {
    forall j: Job ensures Places(Initial(toparse, num), j) == 0 {
      FreshHoldNothing(num, j);
    }
  }

  /** How the jobs of the worker that moves change. */
  ghost predicate JobMoved(k: Worker, e: Event, next: nat, more: bool, quit: bool, j: Job)
    requires WorkerMay(k, e, more, quit)
  {
    k.Count(j) + (if e.TakeJob? && j == next then 1 else 0) ==
    WorkerApply(k, e, next, more, quit).Count(j) + Times(Fed(k, e), j) + Times(Gone(k, e), j)
  }

  lemma FeedMoves(k: Worker, e: Event, next: nat, more: bool, quit: bool, j: Job)
    requires WorkerMay(k, e, more, quit) && e.FeedPipe?
    ensures JobMoved(k, e, next, more, quit, j)
  {
    TimesConcat([k.outbox[0]], k.outbox[1..], j);
    assert k.outbox == [k.outbox[0]] + k.outbox[1..];
  }

  lemma KillMoves(k: Worker, e: Event, next: nat, more: bool, quit: bool, j: Job)
    requires WorkerMay(k, e, more, quit) && e.Kill?
    ensures JobMoved(k, e, next, more, quit, j)
  {
    var head := if k.pc.Parse? then [k.pc.job] else [];
    TimesConcat(head, k.pending, j);
    TimesConcat(head + k.pending, k.outbox, j);
  }

  lemma FinishMoves(k: Worker, e: Event, next: nat, more: bool, quit: bool, j: Job)
    requires WorkerMay(k, e, more, quit) && e.FinishParse?
    ensures JobMoved(k, e, next, more, quit, j)
  {
    TimesConcat(k.pending, [k.pc.job], j);
  }

  lemma PostMoves(k: Worker, e: Event, next: nat, more: bool, quit: bool, j: Job)
    requires WorkerMay(k, e, more, quit) && e.PostResult?
    ensures JobMoved(k, e, next, more, quit, j)
  {
    TimesConcat(k.outbox, [k.pending[|k.pending| - 1]], j);
  }

  lemma JobsMoved(k: Worker, e: Event, next: nat, more: bool, quit: bool, j: Job)
    requires WorkerMay(k, e, more, quit)
    ensures JobMoved(k, e, next, more, quit, j)
  {
    if e.FinishParse? {
      FinishMoves(k, e, next, more, quit, j);
    } else if e.PostResult? {
      PostMoves(k, e, next, more, quit, j);
    } else if e.FeedPipe? {
      FeedMoves(k, e, next, more, quit, j);
    } else if e.Kill? {
      KillMoves(k, e, next, more, quit, j);
    }
  }

  /** Moving jobs between a worker, the queue and the lost ones keeps the account. */
  lemma WorkerPlaces(s: State, e: Event, j: Job)
    requires Enabled(s, e) && !ByConsumer(e)
    ensures Places(Apply(s, e), j) == Places(s, j) + if e.TakeJob? && j == s.next then 1 else 0
  {
    var k := s.workers[e.w];
    JobsMoved(k, e, s.next, s.next < s.toparse, s.quit, j);
    HeldUpdate(s.workers, e.w, WorkerApply(k, e, s.next, s.next < s.toparse, s.quit), j);
    TimesConcat(s.queue, Fed(k, e), j);
    TimesConcat(s.lost, Gone(k, e), j);
  }

  lemma WorkerAccount(s: State, e: Event)
    requires Accounted(s) && Enabled(s, e) && !ByConsumer(e)
    ensures Accounted(Apply(s, e))
  {
    forall j: Job ensures Places(Apply(s, e), j) == if j < Apply(s, e).next then 1 else 0 {
      assert Places(s, j) == if j < s.next then 1 else 0;
      WorkerPlaces(s, e, j);
    }
  }

  lemma ConsumerAccount(s: State, e: Event)
    requires Accounted(s) && Enabled(s, e) && ByConsumer(e)
    ensures Accounted(Apply(s, e))
  {
    forall j: Job ensures Places(ConsumerApply(s, e), j) == if j < s.next then 1 else 0 {
      ConsumerKeepsPlaces(s, e, j);
    }
  }

  lemma ConsumerKeepsPlaces(s: State, e: Event, j: Job)
    requires Enabled(s, e) && ByConsumer(e)
    ensures Places(ConsumerApply(s, e), j) == Places(s, j)
  {
    if e.GetResult? {
      TimesConcat([s.queue[0]], s.queue[1..], j);
      assert s.queue == [s.queue[0]] + s.queue[1..];
    } else if e.ConsumeGood? || e.ConsumeFailed? {
      TimesConcat(s.consumed, [s.pc.result], j);
    }
  }

  /** What one step of a worker may do to it and to the shared state. */
  ghost predicate Moved(s: State, r: State, w: nat) {
    && w < |s.workers| == |r.workers| && r.workers == s.workers[w := r.workers[w]]
    && s.next <= r.next <= r.toparse == s.toparse && WorkerOk(r, r.workers[w])
    && (r.next != s.next ==> s.next < s.toparse)
    && !s.workers[w].Dead() && (Broken(s.workers[w]) ==> Broken(r.workers[w]))
    && (r.lost == s.lost || Broken(r.workers[w]))
    && r.quit == s.quit && r.pc == s.pc && r.processes == s.processes && r.empty == s.empty
    && r.consumed == s.consumed && r.parsed == s.parsed
  }

  lemma WorkerMoves(s: State, e: Event)
    requires Enabled(s, e) && !ByConsumer(e) && s.next <= s.toparse && WorkerOk(s, s.workers[e.w])
    ensures Moved(s, Apply(s, e), e.w)
  {
  }

  lemma MovedKeepsInv(s: State, r: State, w: nat)
    requires Inv(s) && Moved(s, r, w) && Accounted(r)
    ensures Inv(r)
  {
    forall i | 0 <= i < |r.workers| ensures WorkerOk(r, r.workers[i]) {
      assert WorkerOk(s, s.workers[i]);
    }
    if r.lost != [] && r.lost == s.lost {
      var i :| 0 <= i < |s.workers| && Broken(s.workers[i]);
      assert Broken(r.workers[i]);
    }
  }

  lemma ConsumerStep(s: State, e: Event)
    requires Inv(s) && Enabled(s, e) && ByConsumer(e)
    ensures ConsumerOk(Apply(s, e))
  {
    var r := ConsumerApply(s, e);
    assert r.workers == s.workers;
    if e.GetTimeout? && s.processes == {} {
      assert AllDead(s) && s.queue == [];
    }
  }

  lemma StepInv(s: State, e: Event)
    requires Inv(s) && Enabled(s, e)
    ensures Inv(Apply(s, e))
    ensures Apply(s, e).toparse == s.toparse && |Apply(s, e).workers| == |s.workers|
  {
    if ByConsumer(e) {
      ConsumerAccount(s, e);
      ConsumerStep(s, e);
      var r := Apply(s, e);
      assert r.workers == s.workers && r.lost == s.lost && r.next == s.next && (s.quit ==> r.quit);
      assert forall w :: 0 <= w < |s.workers| ==> WorkerOk(r, s.workers[w]);
    } else {
      WorkerAccount(s, e);
      WorkerMoves(s, e);
      MovedKeepsInv(s, Apply(s, e), e.w);
    }
  }

  lemma {:induction false} RunInv(s: State, es: seq<Event>)
    requires Inv(s) && IsRun(s, es)
    ensures Inv(After(s, es))
    ensures After(s, es).toparse == s.toparse && |After(s, es).workers| == |s.workers|
    decreases |es|
  {
    if es != [] {
      StepInv(s, es[0]);
      RunInv(Apply(s, es[0]), es[1..]);
    }
  }

  // ---- What the consumer can rely on ------------------------------------------------------------

  /** No job is handed out twice, and no result is in two places. */
  lemma EachJobOnce(toparse: nat, num: nat, es: seq<Event>)
    requires IsRun(Initial(toparse, num), es)
    ensures var s := After(Initial(toparse, num), es);
            s.next <= toparse && forall j: Job :: Places(s, j) == if j < s.next then 1 else 0
  {
    InitialInv(toparse, num);
    RunInv(Initial(toparse, num), es);
  }

  /** Distinct jobs below n are at most n, and exactly n only if they are all of them. */
  lemma {:induction false} Pigeonhole(jobs: seq<Job>, n: nat)
    requires forall j: Job :: Times(jobs, j) <= if j < n then 1 else 0
    ensures |jobs| <= n
    ensures |jobs| == n ==> forall j: Job :: Times(jobs, j) == if j < n then 1 else 0
  {
    if n == 0 {
      if jobs != [] {
        assert Times(jobs, jobs[|jobs| - 1]) >= 1;
      }
      return;
    }
    var last: Job := n - 1;
    if Times(jobs, last) == 0 {
      forall j: Job ensures Times(jobs, j) <= if j < n - 1 then 1 else 0 {
      }
      Pigeonhole(jobs, n - 1);
    } else {
      var i := Find(jobs, last);
      var rest := jobs[..i] + jobs[i + 1..];
      forall j: Job ensures Times(rest, j) == Times(jobs, j) - if j == last then 1 else 0 {
        TimesConcat(jobs[..i], jobs[i + 1..], j);
        TimesConcat(jobs[..i], [jobs[i]], j);
        TimesConcat(jobs[..i] + [jobs[i]], jobs[i + 1..], j);
        assert jobs == jobs[..i] + [jobs[i]] + jobs[i + 1..];
      }
      Pigeonhole(rest, n - 1);
    }
  }

  lemma {:induction false} Find(jobs: seq<Job>, j: Job) returns (i: nat)
    requires Times(jobs, j) > 0
    ensures i < |jobs| && jobs[i] == j
  {
    if jobs[|jobs| - 1] == j {
      i := |jobs| - 1;
    } else {
      i := Find(jobs[..|jobs| - 1], j);
    }
  }

  /** The generator ends quietly only when every recipe was parsed and every result consumed, once. */
  lemma QuietEndIsComplete(toparse: nat, num: nat, es: seq<Event>)
    requires IsRun(Initial(toparse, num), es) && After(Initial(toparse, num), es).pc.Done?
    ensures var s := After(Initial(toparse, num), es);
            s.parsed == toparse && forall j: Job :: Times(s.consumed, j) == if j < toparse then 1 else 0
  {
    EachJobOnce(toparse, num, es);
    InitialInv(toparse, num);
    RunInv(Initial(toparse, num), es);
    var s := After(Initial(toparse, num), es);
    forall j: Job ensures Times(s.consumed, j) <= if j < toparse then 1 else 0 {
      assert Times(s.consumed, j) <= Places(s, j);
    }
    Pigeonhole(s.consumed, toparse);
  }

  lemma {:induction false} DeadHoldNothing(ws: seq<Worker>, j: Job)
    requires forall w :: 0 <= w < |ws| ==> ws[w].Dead() && ws[w].pending == [] && ws[w].outbox == []
    ensures Held(ws, j) == 0
  {
    if ws != [] {
      DeadHoldNothing(ws[1..], j);
    }
  }

  /** The generator raises ParseError only when recipes are really missing and can no longer arrive: no
    * process is left, the pipe is empty, every job handed out was consumed or went down with its worker,
    * and some worker was killed or broke off, unless there were no workers to begin with. */
  lemma ErrorIsReal(toparse: nat, num: nat, es: seq<Event>)
    requires IsRun(Initial(toparse, num), es) && After(Initial(toparse, num), es).pc.Raised?
    ensures var s := After(Initial(toparse, num), es);
            && s.parsed < toparse && AllDead(s) && s.queue == []
            && (forall j: Job :: Times(s.consumed, j) + Times(s.lost, j) == if j < s.next then 1 else 0)
            && (num == 0 || exists w :: 0 <= w < |s.workers| && Broken(s.workers[w]))
  {
    InitialInv(toparse, num);
    RunInv(Initial(toparse, num), es);
    var s := After(Initial(toparse, num), es);
    forall j: Job ensures Times(s.consumed, j) + Times(s.lost, j) == if j < s.next then 1 else 0 {
      DeadHoldNothing(s.workers, j);
      assert Places(s, j) == if j < s.next then 1 else 0;
    }
    if num > 0 && s.lost == [] {
      assert forall j: Job :: Times(s.consumed, j) == if j < s.next then 1 else 0;
      AtLeast(s.consumed, s.next);
      assert WorkerOk(s, s.workers[0]) && s.workers[0].Dead() && s.workers[0].havejobs;
      assert Broken(s.workers[0]);
    }
  }

  lemma {:induction false} AtLeast(jobs: seq<Job>, n: nat)
    requires forall j: Job :: j < n ==> Times(jobs, j) >= 1
    ensures |jobs| >= n
  {
    if n > 0 {
      var last: Job := n - 1;
      var i := Find(jobs, last);
      var rest := jobs[..i] + jobs[i + 1..];
      forall j: Job | j < n - 1 ensures Times(rest, j) >= 1 {
        TimesConcat(jobs[..i], jobs[i + 1..], j);
        TimesConcat(jobs[..i], [jobs[i]], j);
        TimesConcat(jobs[..i] + [jobs[i]], jobs[i + 1..], j);
        assert jobs == jobs[..i] + [jobs[i]] + jobs[i + 1..];
      }
      AtLeast(rest, n - 1);
    }
  }

  // ---- Workers can be killed --------------------------------------------------------------------

  function Kills(from: nat, num: nat): seq<Event>
    requires from <= num
    decreases num - from
  {
    if from == num then [] else [Kill(from)] + Kills(from + 1, num)
  }

  lemma {:induction false} KillsRun(s: State, from: nat)
    requires from <= |s.workers| && forall w :: from <= w < |s.workers| ==> !s.workers[w].Dead()
    requires forall w :: 0 <= w < from ==> s.workers[w].Dead()
    ensures IsRun(s, Kills(from, |s.workers|))
    ensures var t := After(s, Kills(from, |s.workers|));
            AllDead(t) && t.queue == s.queue && t.parsed == s.parsed && t.toparse == s.toparse && t.pc == s.pc
    decreases |s.workers| - from
  {
    if from < |s.workers| {
      var t, rest := Apply(s, Kill(from)), Kills(from + 1, |s.workers|);
      assert t.queue == s.queue + [] == s.queue;
      assert ([Kill(from)] + rest)[1..] == rest;
      KillsRun(t, from + 1);
    }
  }

  // ---- Missing work raises ----------------------------------------------------------------------

  /** Work is missing, nothing is left that could deliver it, and the generator has not ended yet. */
  ghost predicate Stranded(s: State) {
    && AllDead(s) && s.queue == [] && s.parsed < s.toparse
    && (s.pc.Check? || s.pc.Reap? || s.pc.Test? || s.pc.Fetch? || s.pc.End?)
    && (s.pc.Reap? ==> forall w :: w in s.pc.todo ==> w < |s.workers|)
    && forall w :: w in s.processes ==> w < |s.workers|
  }

  /** The steps that are left at the head of the loop once a get has timed out. */
  function Rounds(processes: set<nat>): nat {
    if processes == {} then 2 else |processes| + 6
  }

  /** The steps a stranded generator takes before it raises. */
  function StepsLeft(s: State): nat {
    match s.pc
    case Check => if s.empty then Rounds(s.processes) else |s.processes| + 6
    case Reap(todo) => |todo| + 3 + Rounds(s.processes - todo)
    case Test => 2 + Rounds(s.processes)
    case Fetch => 1 + Rounds(s.processes)
    case End => 1
    case _ => 0
  }

  /** Nobody but the generator can move. */
  lemma StrandedConsumer(s: State, e: Event)
    requires Stranded(s) && Enabled(s, e)
    ensures ByConsumer(e) && !e.GetResult? && !e.ConsumeGood? && !e.ConsumeFailed?
    ensures Apply(s, e).workers == s.workers && Apply(s, e).queue == s.queue && Apply(s, e).parsed == s.parsed
            && Apply(s, e).toparse == s.toparse
  {
  }

  lemma ReapFalls(todo: set<nat>, processes: set<nat>, w: nat)
    requires w in todo
    ensures |todo - {w}| == |todo| - 1 && (processes - {w}) - (todo - {w}) == processes - todo
  {
  }

  lemma ReapStepFalls(s: State, e: Event)
    requires Stranded(s) && Enabled(s, e) && e.ReapOne?
    ensures StepsLeft(Apply(s, e)) == StepsLeft(s) - 1 && StepsLeft(s) != 1
  {
    assert s.workers[e.w].Dead();
    ReapFalls(s.pc.todo, s.processes, e.w);
  }

  lemma LoopStepFalls(s: State, e: Event)
    requires Stranded(s) && Enabled(s, e) && (e.CheckLoop? || e.ReapEnd?)
    ensures StepsLeft(Apply(s, e)) == StepsLeft(s) - 1 && StepsLeft(s) != 1
  {
    assert s.processes - s.processes == {} && s.processes - {} == s.processes;
  }

  /** Each of its steps is one of those counted. */
  lemma StepsFall(s: State, e: Event)
    requires Stranded(s) && Enabled(s, e) && ByConsumer(e) && !e.GetResult? && !e.ConsumeGood? && !e.ConsumeFailed?
    ensures StepsLeft(Apply(s, e)) == StepsLeft(s) - 1
    ensures StepsLeft(s) == 1 <==> e.Finish?
  {
    match e
    case ReapOne(_) => ReapStepFalls(s, e);
    case CheckLoop | ReapEnd => LoopStepFalls(s, e);
    case _ =>
  }

  /** The last one raises. */
  lemma StrandedStep(s: State, e: Event)
    requires Stranded(s) && Enabled(s, e)
    ensures var t := Apply(s, e);
            && StepsLeft(t) == StepsLeft(s) - 1 && AllDead(t)
            && (if StepsLeft(s) == 1 then t.pc.Raised? else Stranded(t))
  {
    StrandedConsumer(s, e);
    StepsFall(s, e);
  }

  /** The step that a stranded generator takes. */
  lemma StrandedMoves(s: State) returns (e: Event)
    requires Stranded(s)
    ensures Enabled(s, e)
  {
    match s.pc
    case Check => e := CheckLoop;
    case Reap(todo) =>
      if todo == {} {
        e := ReapEnd;
      } else {
        var w := Member(todo);
        e := ReapOne(w);
      }
    case Test => e := TestParsed;
    case Fetch => e := GetTimeout;
    case End => e := Finish;
  }

  /** Every run of a stranded generator is at most StepsLeft long; it can go on until then, and then it has
    * raised and nothing moves any more. */
  lemma {:induction false} StrandedRaises(s: State, es: seq<Event>)
    requires Stranded(s) && IsRun(s, es)
    ensures |es| <= StepsLeft(s)
    ensures |es| == StepsLeft(s) <==> After(s, es).pc.Raised?
    ensures After(s, es).pc.Raised? <==> forall e :: !Enabled(After(s, es), e)
    decreases |es|
  {
    if es == [] {
      var e := StrandedMoves(s);
    } else {
      StrandedStep(s, es[0]);
      var t := Apply(s, es[0]);
      if Stranded(t) {
        StrandedRaises(t, es[1..]);
      } else if es[1..] != [] {
        RaisedStays(t, es[1]);
      } else {
        forall e ensures !Enabled(t, e) {
          RaisedStays(t, e);
        }
      }
    }
  }

  lemma RaisedStays(s: State, e: Event)
    requires AllDead(s) && s.pc.Raised?
    ensures !Enabled(s, e)
  {
  }

  /** The other half: in any run, once every worker is dead, the pipe is empty and the generator is back in
    * its loop with a result missing, it goes on to ParseError, and never ends quietly. The number of steps
    * is at most linear in the number of workers. */
  lemma MissingWorkRaises(toparse: nat, num: nat, es: seq<Event>, more: seq<Event>)
    requires IsRun(Initial(toparse, num), es)
    requires var s := After(Initial(toparse, num), es);
             && AllDead(s) && s.queue == [] && s.parsed < toparse
             && !s.pc.Yielded? && !s.pc.Raised? && !s.pc.Aborted?
    requires IsRun(After(Initial(toparse, num), es), more)
    ensures var s := After(Initial(toparse, num), es);
            && |more| <= StepsLeft(s) <= 2 * num + 9
            && (|more| == StepsLeft(s) <==> After(s, more).pc.Raised?)
            && (After(s, more).pc.Raised? <==> forall e :: !Enabled(After(s, more), e))
  {
    InitialInv(toparse, num);
    RunInv(Initial(toparse, num), es);
    var s := After(Initial(toparse, num), es);
    StrandedRaises(s, more);
    FewWorkers(s.processes, num);
    if s.pc.Reap? {
      FewWorkers(s.pc.todo, num);
      FewWorkers(s.processes - s.pc.todo, num);
    }
  }

  /** Such runs there are: all workers can be killed before anything is parsed. */
  lemma KilledRunRaises(toparse: nat, num: nat, more: seq<Event>)
    requires toparse > 0
    ensures IsRun(Initial(toparse, num), Kills(0, num))
    ensures var s := After(Initial(toparse, num), Kills(0, num));
            IsRun(s, more) ==> |more| <= 2 * num + 9 && (|more| == StepsLeft(s) <==> After(s, more).pc.Raised?)
  {
    var s := Initial(toparse, num);
    assert forall w :: 0 <= w < num ==> s.workers[w] == FRESH;
    KillsRun(s, 0);
    if IsRun(After(s, Kills(0, num)), more) {
      MissingWorkRaises(toparse, num, Kills(0, num), more);
    }
  }

  lemma {:induction false} FewWorkers(ws: set<nat>, n: nat)
    requires forall w :: w in ws ==> w < n
    ensures |ws| <= n
  {
    if n > 0 {
      var last: nat := n - 1;
      FewWorkers(ws - {last}, last);
    } else if |ws| > 0 {
      var w := Member(ws);
    }
  }

  /** With no worker processes at all (a thread count of zero) the error needs no casualty: the sixth step
    * raises, whatever happens. */
  lemma NoWorkersRaise(toparse: nat, es: seq<Event>)
    requires toparse > 0 && IsRun(Initial(toparse, 0), es)
    ensures |es| <= 6 && (|es| == 6 <==> After(Initial(toparse, 0), es).pc.Raised?)
    ensures |es| < 6 <==> exists e :: Enabled(After(Initial(toparse, 0), es), e)
  {
    StrandedRaises(Initial(toparse, 0), es);
  }
}
