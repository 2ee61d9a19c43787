/**
 Weighted round robin over the five streaming lanes.

 `Scheduler` is the scheduler's state as a value, with the transition functions the
 theorems speak about; `LaneScheduler` is the object that updates its fields in place,
 and each of its methods is proved to perform exactly the corresponding transition.
 */
module LaneScheduling {
  import opened Wrappers

  type Job = nat

  datatype Lane = JoinCritical | SpawnCritical | Foreground | Background | Optional {

    function Weight(): nat {
      match this
      case JoinCritical => 8
      case SpawnCritical => 4
      case Foreground => 2
      case Background => 1
      case Optional => 1
    }

    function Index(): nat {
      match this
      case JoinCritical => 0
      case SpawnCritical => 1
      case Foreground => 2
      case Background => 3
      case Optional => 4
    }
  }

  /** The rotation, highest priority first. */
  function LaneAt(i: nat): (lane: Lane)
    requires i < 5
    ensures lane.Index() == i
  {
    if i == 0 then JoinCritical
    else if i == 1 then SpawnCritical
    else if i == 2 then Foreground
    else if i == 3 then Background
    else Optional
  }

  /** A full rotation grants this many turns. */
  const ROUND: nat := 16

  datatype Scheduler = Scheduler(
    queues: map<Lane, seq<Job>>,
    pos: nat,
    remaining: map<Lane, nat>,
    served: map<Lane, nat>)
  {
    function Queue(lane: Lane): seq<Job> {
      if lane in queues then queues[lane] else []
    }

    function Served(lane: Lane): nat {
      if lane in served then served[lane] else 0
    }

    function Pending(lane: Lane): nat {
      |Queue(lane)|
    }

    function TotalPending(): nat {
      Pending(JoinCritical) + Pending(SpawnCritical) + Pending(Foreground) + Pending(Background) + Pending(Optional)
    }

    function Current(): Lane {
      LaneAt(pos % 5)
    }

    /** Jobs left in the current turn: the remainder of an ongoing turn or a whole quantum. */
    function Quantum(): nat {
      if Current() in remaining then remaining[Current()] else Current().Weight()
    }

    /**
     What every operation keeps: only the lane under the pointer may hold a remainder,
     and then it is a proper part of the quantum and the lane still has jobs.
     */
    ghost predicate Valid() {
      && pos < 5
      && remaining.Keys <= {Current()}
      && (Current() in remaining ==> 1 <= remaining[Current()] < Current().Weight() && Queue(Current()) != [])
    }
  }

  const INITIAL: Scheduler := Scheduler(map[], 0, map[], map[])

  // ---------- Transitions ----------

  function Enqueue(s: Scheduler, lane: Lane, job: Job): Scheduler {
    s.(queues := s.queues[lane := s.Queue(lane) + [job]])
  }

  function Skip(s: Scheduler): Scheduler {
    s.(remaining := s.remaining - {s.Current()}, pos := (s.pos + 1) % 5)
  }

  /** Serve the head of the current lane; the turn ends when the queue or the quantum runs out. */
  function ServeCurrent(s: Scheduler): (r: (Scheduler, (Lane, Job)))
    requires s.Valid() && s.Queue(s.Current()) != []
  {
    var lane := s.Current();
    var rem: nat := s.Quantum() - 1;
    var rest := s.Queue(lane)[1..];
    var t := s.(queues := s.queues[lane := rest], served := s.served[lane := s.Served(lane) + 1]);
    var t' := if rest == [] || rem == 0
              then t.(remaining := t.remaining - {lane}, pos := (t.pos + 1) % 5)
              else t.(remaining := t.remaining[lane := rem]);
    (t', (lane, s.Queue(lane)[0]))
  }

  /** Serving touches the current queue only, and either continues the turn or starts the next lane's. */
  lemma ServeShape(s: Scheduler)
    requires s.Valid() && s.Queue(s.Current()) != []
    ensures var (t, out) := ServeCurrent(s);
            && t.Valid()
            && out.0 == s.Current()
            && (forall l: Lane :: t.Queue(l) == if l == s.Current() then s.Queue(l)[1..] else s.Queue(l))
            && 1 <= s.Quantum() <= s.Current().Weight()
            && (if s.Quantum() == 1 || t.Queue(s.Current()) == []
                then t.pos == (s.pos + 1) % 5 && t.Quantum() == t.Current().Weight()
                else t.pos == s.pos && t.Quantum() == s.Quantum() - 1)
  {
  }

  /** Look at up to `k` lanes from the pointer on, serving the first non-empty one. */
  function Scan(s: Scheduler, k: nat): (r: (Scheduler, Option<(Lane, Job)>))
    requires s.Valid()
    ensures r.0.Valid()
    decreases k
  {
    if k == 0 then (s, None)
    else if s.Pending(s.Current()) == 0 then Scan(Skip(s), k - 1)
    else var (t, out) := ServeCurrent(s); (t, Some(out))
  }

  function PopNext(s: Scheduler): (r: (Scheduler, Option<(Lane, Job)>))
    requires s.Valid()
    ensures r.0.Valid()
  {
    if s.TotalPending() == 0 then (s.(pos := 0, remaining := map[]), None) else Scan(s, 5)
  }

  // ---------- Runs ----------

  datatype Event = Push(lane: Lane, job: Job) | Pop

  function Step(s: Scheduler, e: Event): (t: Scheduler)
    requires s.Valid()
    ensures t.Valid()
  {
    match e
    case Push(lane, job) => Enqueue(s, lane, job)
    case Pop => PopNext(s).0
  }

  /** What a single event hands out: nothing, or one job. */
  function Output(s: Scheduler, e: Event): seq<(Lane, Job)>
    requires s.Valid()
  {
    if e.Pop? then AsSeq(PopNext(s).1) else []
  }

  function AsSeq<T>(o: Option<T>): seq<T> {
    if o.Some? then [o.value] else []
  }

  function Final(s: Scheduler, es: seq<Event>): (t: Scheduler)
    requires s.Valid()
    ensures t.Valid()
    decreases |es|
  {
    if es == [] then s else Final(Step(s, es[0]), es[1..])
  }

  /** Every job handed out along a run, in order. */
  function Outputs(s: Scheduler, es: seq<Event>): seq<(Lane, Job)>
    requires s.Valid()
    decreases |es|
  {
    if es == [] then [] else Output(s, es[0]) + Outputs(Step(s, es[0]), es[1..])
  }

  function Pops(es: seq<Event>): nat {
    if es == [] then 0 else (if es[0].Pop? then 1 else 0) + Pops(es[1..])
  }

  /** The jobs of one lane, in order, among those handed out. */
  function JobsOf(lane: Lane, outs: seq<(Lane, Job)>): seq<Job> {
    if outs == [] then [] else (if outs[0].0 == lane then [outs[0].1] else []) + JobsOf(lane, outs[1..])
  }

  function Pushed(lane: Lane, es: seq<Event>): seq<Job> {
    if es == [] then [] else PushedBy(lane, es[0]) + Pushed(lane, es[1..])
  }

  function PushedBy(lane: Lane, e: Event): seq<Job> {
    if e.Push? && e.lane == lane then [e.job] else []
  }

  /** The lane has work at the start, at the end, and between any two events. */
  ghost predicate Busy(s: Scheduler, es: seq<Event>, lane: Lane)
    requires s.Valid()
    decreases |es|
  {
    s.Queue(lane) != [] && (es != [] ==> Busy(Step(s, es[0]), es[1..], lane))
  }

  // ---------- Work conservation ----------

  lemma {:induction false} ScanFinds(s: Scheduler, k: nat, lane: Lane)
    requires s.Valid() && k <= 5 && s.Queue(lane) != []
    requires (lane.Index() - s.pos) % 5 < k
    ensures Scan(s, k).1.Some?
    decreases k
  {
    if s.Pending(s.Current()) == 0 {
      ScanFinds(Skip(s), k - 1, lane);
    }
  }

  /** A pop hands out a job exactly when some lane has one: the fall-through after the loop is dead. */
  lemma PopNextIsWorkConserving(s: Scheduler)
    requires s.Valid()
    ensures PopNext(s).1.Some? <==> exists lane: Lane :: s.Queue(lane) != []
  {
    hide Scan, Scheduler.TotalPending, Scheduler.Queue;
    PendingIff(s);
    if lane: Lane :| s.Queue(lane) != [] {
      ScanFinds(s, 5, lane);
    }
  }

  lemma PendingIff(s: Scheduler)
    ensures s.TotalPending() > 0 <==> exists lane: Lane :: s.Queue(lane) != []
  {
    hide Scheduler.Queue;
    if lane: Lane :| s.Queue(lane) != [] {
      assert s.Pending(lane) > 0;
      match lane {
        case JoinCritical =>
        case SpawnCritical =>
        case Foreground =>
        case Background =>
        case Optional =>
      }
    } else {
      assert s.Queue(JoinCritical) == [] && s.Queue(SpawnCritical) == [] && s.Queue(Foreground) == [];
      assert s.Queue(Background) == [] && s.Queue(Optional) == [];
    }
  }

  // ---------- Order of service ----------

  /** The lanes by priority, most urgent first. */
  const PRIORITY: seq<Lane> := [JoinCritical, SpawnCritical, Foreground, Background, Optional]

  lemma PriorityIsIndex(lane: Lane)
    ensures lane.Index() < 5 && PRIORITY[lane.Index()] == lane && LaneAt(lane.Index()) == lane
  {
  }

  /** How many lanes the rotation passes from index `i` until it is at the lane. */
  function Distance(i: nat, lane: Lane): (d: nat)
    requires i < 5
    ensures d < 5
  {
    (lane.Index() - i) % 5
  }

  lemma DistanceStep(i: nat, lane: Lane)
    requires i < 5
    ensures Distance(i, lane) == 0 <==> lane == LaneAt(i)
    ensures lane != LaneAt(i) ==> Distance((i + 1) % 5, lane) == Distance(i, lane) - 1
  {
    var j := lane.Index();
    assert Distance(i, lane) == if i <= j then j - i else j - i + 5;
    assert Distance((i + 1) % 5, lane) == if i == 4 then j else if i < j then j - i - 1 else j - i + 4;
  }

  /** The lane has work and none between the pointer and it has. */
  ghost predicate IsNext(s: Scheduler, lane: Lane)
    requires s.Valid()
  {
    && s.Queue(lane) != []
    && forall other: Lane :: s.Queue(other) != [] ==> Distance(s.pos, lane) <= Distance(s.pos, other)
  }

  /** A scan serves the first lane, from the pointer on, that has work. */
  lemma {:induction false} ScanServesNext(s: Scheduler, k: nat, lane: Lane)
    requires s.Valid() && IsNext(s, lane) && Distance(s.pos, lane) < k
    ensures Scan(s, k).1 == Some((lane, s.Queue(lane)[0]))
    decreases k
  {
    hide Scan, Distance, ServeCurrent, Skip, IsNext, Scheduler.Valid;
    ScanUnfolds(s, k);
    if s.Queue(s.Current()) == [] {
      SkipKeepsNext(s, lane);
      ScanServesNext(Skip(s), k - 1, lane);
    } else {
      NextAtPointer(s, lane);
    }
  }

  lemma SkipKeepsNext(s: Scheduler, lane: Lane)
    requires s.Valid() && IsNext(s, lane) && s.Queue(s.Current()) == []
    ensures Skip(s).Valid() && IsNext(Skip(s), lane) && Skip(s).Queue(lane) == s.Queue(lane)
    ensures Distance(Skip(s).pos, lane) == Distance(s.pos, lane) - 1
  {
    var t := Skip(s);
    forall other: Lane
      ensures t.Queue(other) == s.Queue(other)
      ensures other != s.Current() ==> Distance(t.pos, other) == Distance(s.pos, other) - 1
    {
      DistanceStep(s.pos, other);
    }
    hide Distance, Scheduler.Queue;
  }

  lemma NextAtPointer(s: Scheduler, lane: Lane)
    requires s.Valid() && IsNext(s, lane) && s.Queue(s.Current()) != []
    ensures lane == s.Current() && ServeCurrent(s).1 == (lane, s.Queue(lane)[0])
  {
    hide ServeCurrent, Distance, Scheduler.Queue;
    DistanceStep(s.pos, lane);
    DistanceStep(s.pos, s.Current());
    ServeTakesHead(s, lane);
    ServesCurrent(s);
  }

  lemma ServesCurrent(s: Scheduler)
    requires s.Valid() && s.Queue(s.Current()) != []
    ensures ServeCurrent(s).1.0 == s.Current()
  {
  }

  lemma PopServesNext(s: Scheduler, lane: Lane)
    requires s.Valid() && IsNext(s, lane)
    ensures Output(s, Pop) == [(lane, s.Queue(lane)[0])]
  {
    hide Scan, Scheduler.Queue;
    PendingIff(s);
    ScanServesNext(s, 5, lane);
  }

  lemma SomeLaneIsNext(s: Scheduler) returns (lane: Lane)
    requires s.Valid() && exists l: Lane :: s.Queue(l) != []
    ensures IsNext(s, lane)
  {
    lane :| s.Queue(lane) != [];
    while exists l: Lane :: s.Queue(l) != [] && Distance(s.pos, l) < Distance(s.pos, lane)
      invariant s.Queue(lane) != []
      decreases Distance(s.pos, lane)
    {
      var nearer: Lane :| s.Queue(nearer) != [] && Distance(s.pos, nearer) < Distance(s.pos, lane);
      lane := nearer;
    }
  }

  ghost predicate OnlyPushes(es: seq<Event>) {
    forall i :: 0 <= i < |es| ==> es[i].Push?
  }

  lemma {:induction false} PushesOnlyQueue(s: Scheduler, es: seq<Event>, lane: Lane)
    requires s.Valid() && OnlyPushes(es)
    ensures Final(s, es).pos == s.pos && Final(s, es).Queue(lane) == s.Queue(lane) + Pushed(lane, es)
    decreases |es|
  {
    hide Step, Scheduler.Queue, Scheduler.Valid, PushedBy;
    if es == [] {
      assert s.Queue(lane) + [] == s.Queue(lane);
    } else {
      assert es[0].Push?;
      PushOnlyQueues(s, es[0], lane);
      PushesOnlyQueue(Step(s, es[0]), es[1..], lane);
      var q, p, ps := s.Queue(lane), PushedBy(lane, es[0]), Pushed(lane, es[1..]);
      assert (q + p) + ps == q + (p + ps);
    }
  }

  lemma PushOnlyQueues(s: Scheduler, e: Event, lane: Lane)
    requires s.Valid() && e.Push?
    ensures Step(s, e).pos == s.pos && Step(s, e).Queue(lane) == s.Queue(lane) + PushedBy(lane, e)
  {
    hide PopNext;
  }

  ghost predicate AllEmpty(s: Scheduler) {
    forall lane: Lane :: s.Queue(lane) == []
  }

  /** Of the lanes that get work, the k-th by priority is the most urgent. */
  ghost predicate MostUrgent(es: seq<Event>, k: nat) {
    k < 5 && Pushed(PRIORITY[k], es) != [] && forall j :: 0 <= j < k ==> Pushed(PRIORITY[j], es) == []
  }

  /** With the pointer at the start and every lane empty, the most urgent lane that gets work is served first. */
  lemma FromTheStart(s: Scheduler, es: seq<Event>, k: nat)
    requires s.Valid() && s.pos == 0 && AllEmpty(s) && OnlyPushes(es) && MostUrgent(es, k)
    ensures Output(Final(s, es), Pop) == [(PRIORITY[k], Pushed(PRIORITY[k], es)[0])]
  {
    hide Final, Scan, Pushed, Output, OnlyPushes, Scheduler.Queue, Scheduler.Valid, Distance;
    var t := Final(s, es);
    forall lane: Lane
      ensures t.pos == 0 && t.Queue(lane) == Pushed(lane, es)
    {
      PushesOnlyQueue(s, es, lane);
      assert [] + Pushed(lane, es) == Pushed(lane, es);
    }
    forall lane: Lane
      ensures t.Queue(lane) != [] ==> k <= Distance(0, lane)
    {
      DistanceFromStart(lane);
    }
    DistanceFromStart(PRIORITY[k]);
    assert PRIORITY[k].Index() == k;
    PopServesNext(t, PRIORITY[k]);
  }

  lemma DistanceFromStart(lane: Lane)
    ensures Distance(0, lane) == lane.Index() && lane.Index() < 5 && PRIORITY[lane.Index()] == lane
  {
  }

  /**
   Starting over: after a pop that finds nothing, as at the very start, the most urgent lane that gets work before the
   next pop is served first, with its first job, wherever the rotation had been.
   */
  lemma EmptyPopStartsOver(s: Scheduler, es: seq<Event>, k: nat)
    requires s.Valid() && AllEmpty(s) && OnlyPushes(es) && MostUrgent(es, k)
    ensures Output(s, Pop) == []
    ensures Output(Final(Step(s, Pop), es), Pop) == [(PRIORITY[k], Pushed(PRIORITY[k], es)[0])]
    ensures INITIAL.Valid() && Output(Final(INITIAL, es), Pop) == [(PRIORITY[k], Pushed(PRIORITY[k], es)[0])]
  {
    EmptyPop(s);
    hide Final, Pushed, Output, Step, OnlyPushes, MostUrgent;
    FromTheStart(Step(s, Pop), es, k);
    FromTheStart(INITIAL, es, k);
  }

  lemma EmptyPop(s: Scheduler)
    requires s.Valid() && AllEmpty(s)
    ensures Output(s, Pop) == [] && Step(s, Pop).pos == 0 && AllEmpty(Step(s, Pop))
  {
    PendingIff(s);
    hide Scan;
    assert forall lane: Lane :: Step(s, Pop).Queue(lane) == s.Queue(lane);
  }

  /**
   The rotation goes by priority: when two pops in a row serve `a` and `b`, every lane the rotation passes between them
   is empty.
   */
  lemma RotationOrder(s: Scheduler, a: Lane, b: Lane, c: Lane)
    requires s.Valid()
    requires var t := Step(s, Pop);
             |Output(s, Pop)| == 1 && Output(s, Pop)[0].0 == a && |Output(t, Pop)| == 1 && Output(t, Pop)[0].0 == b
    requires 0 < Distance(a.Index(), c) < Distance(a.Index(), b)
    ensures Step(s, Pop).Queue(c) == []
  {
    hide Step, Output, Distance, Scheduler.Queue, Scheduler.Valid, LaneAt;
    var t := Step(s, Pop);
    PopLeavesPointer(s, a);
    ServedIsNext(t, b);
    PriorityIsIndex(a);
    DistanceStep(a.Index(), a);
    DistanceStep(a.Index(), b);
    DistanceStep(a.Index(), c);
  }

  lemma ServedIsNext(t: Scheduler, b: Lane)
    requires t.Valid() && |Output(t, Pop)| == 1 && Output(t, Pop)[0].0 == b
    ensures IsNext(t, b)
  {
    PopNextIsWorkConserving(t);
    hide PopNext, IsNext;
    var lane := SomeLaneIsNext(t);
    PopServesNext(t, lane);
  }

  /** After serving a lane the pointer is at that lane or just behind it. */
  lemma PopLeavesPointer(s: Scheduler, a: Lane)
    requires s.Valid() && |Output(s, Pop)| == 1 && Output(s, Pop)[0].0 == a
    ensures Step(s, Pop).pos == a.Index() || Step(s, Pop).pos == (a.Index() + 1) % 5
  {
    hide Scan;
    ScanLeavesPointer(s, 5);
  }

  lemma {:induction false} ScanLeavesPointer(s: Scheduler, k: nat)
    requires s.Valid()
    ensures var (t, out) := Scan(s, k);
            out.Some? ==> t.pos == out.value.0.Index() || t.pos == (out.value.0.Index() + 1) % 5
    decreases k
  {
    hide ServeCurrent;
    if k > 0 {
      if s.Pending(s.Current()) == 0 {
        ScanLeavesPointer(Skip(s), k - 1);
      } else {
        ServeShape(s);
      }
    }
  }

  // ---------- FIFO and conservation ----------

  lemma ServeTakesHead(s: Scheduler, lane: Lane)
    requires s.Valid() && s.Queue(s.Current()) != []
    ensures var (t, out) := ServeCurrent(s);
            if out.0 == lane
            then s.Queue(lane) == [out.1] + t.Queue(lane) && t.Served(lane) == s.Served(lane) + 1
            else t.Queue(lane) == s.Queue(lane) && t.Served(lane) == s.Served(lane)
  {
  }

  lemma {:induction false} ScanTakesHead(s: Scheduler, k: nat, lane: Lane)
    requires s.Valid()
    ensures var (t, out) := Scan(s, k);
            if out.Some? && out.value.0 == lane
            then s.Queue(lane) == [out.value.1] + t.Queue(lane) && t.Served(lane) == s.Served(lane) + 1
            else t.Queue(lane) == s.Queue(lane) && t.Served(lane) == s.Served(lane)
    decreases k
  {
    hide ServeCurrent;
    if k > 0 {
      if s.Pending(s.Current()) == 0 {
        ScanTakesHead(Skip(s), k - 1, lane);
      } else {
        ServeTakesHead(s, lane);
      }
    }
  }

  lemma PopTakesHead(s: Scheduler, lane: Lane)
    requires s.Valid()
    ensures s.Queue(lane) == JobsOf(lane, Output(s, Pop)) + Step(s, Pop).Queue(lane)
    ensures Step(s, Pop).Served(lane) == s.Served(lane) + |JobsOf(lane, Output(s, Pop))|
  {
    hide PopNext, AsSeq, JobsOf, Scheduler.Queue, Scheduler.Served, Scheduler.Valid;
    PopNextTakesHead(s, lane);
    JobsOfOption(lane, PopNext(s).1);
    assert [] + PopNext(s).0.Queue(lane) == PopNext(s).0.Queue(lane);
  }

  lemma PopNextTakesHead(s: Scheduler, lane: Lane)
    requires s.Valid()
    ensures var (t, out) := PopNext(s);
            if out.Some? && out.value.0 == lane
            then s.Queue(lane) == [out.value.1] + t.Queue(lane) && t.Served(lane) == s.Served(lane) + 1
            else t.Queue(lane) == s.Queue(lane) && t.Served(lane) == s.Served(lane)
  {
    hide Scan;
    ScanTakesHead(s, 5, lane);
  }

  lemma JobsOfOption(lane: Lane, out: Option<(Lane, Job)>)
    ensures JobsOf(lane, AsSeq(out))
         == if out.Some? && out.value.0 == lane then [out.value.1] else []
  {
    if out.Some? {
      assert [out.value][1..] == [];
    }
  }

  lemma StepIsFifo(s: Scheduler, e: Event, lane: Lane)
    requires s.Valid()
    ensures s.Queue(lane) + PushedBy(lane, e) == JobsOf(lane, Output(s, e)) + Step(s, e).Queue(lane)
    ensures Step(s, e).Served(lane) == s.Served(lane) + |JobsOf(lane, Output(s, e))|
  {
    if e.Pop? {
      PopTakesHead(s, lane);
      hide Step, Output;
    }
  }

  lemma {:induction false} JobsOfAppend(lane: Lane, xs: seq<(Lane, Job)>, ys: seq<(Lane, Job)>)
    ensures JobsOf(lane, xs + ys) == JobsOf(lane, xs) + JobsOf(lane, ys)
  {
    hide JobsOf;
    if xs == [] {
      NoJobs(lane);
      assert xs + ys == ys && [] + JobsOf(lane, ys) == JobsOf(lane, ys);
    } else {
      var x, rest := xs[0], xs[1..];
      assert xs == [x] + rest && xs + ys == [x] + (rest + ys);
      JobsOfAppend(lane, rest, ys);
      FirstJob(lane, x, rest);
      FirstJob(lane, x, rest + ys);
    }
  }

  lemma NoJobs(lane: Lane)
    ensures JobsOf(lane, []) == []
  {
  }

  lemma FirstJob(lane: Lane, x: (Lane, Job), rest: seq<(Lane, Job)>)
    ensures JobsOf(lane, [x] + rest) == (if x.0 == lane then [x.1] else []) + JobsOf(lane, rest)
  {
    assert ([x] + rest)[1..] == rest;
  }

  lemma QueueChain(q: seq<Job>, p: seq<Job>, ps: seq<Job>, j: seq<Job>, q': seq<Job>, js: seq<Job>, q'': seq<Job>)
    requires q + p == j + q' && q' + ps == js + q''
    ensures q + (p + ps) == (j + js) + q''
  {
    assert q + (p + ps) == (q + p) + ps == j + (q' + ps) == (j + js) + q'';
  }

  /**
   Each lane is first in first out and loses nothing: over any run, what was queued plus what
   was pushed is what was served followed by what is still queued, and the served counter
   counts exactly the jobs handed out.
   */
  lemma {:induction false} LaneIsFifo(s: Scheduler, es: seq<Event>, lane: Lane)
    requires s.Valid()
    ensures s.Queue(lane) + Pushed(lane, es) == JobsOf(lane, Outputs(s, es)) + Final(s, es).Queue(lane)
    ensures Final(s, es).Served(lane) == s.Served(lane) + |JobsOf(lane, Outputs(s, es))|
    decreases |es|
  {
    if es != [] {
      hide Step, Output;
      var t := Step(s, es[0]);
      var head := Output(s, es[0]);
      StepIsFifo(s, es[0], lane);
      LaneIsFifo(t, es[1..], lane);
      JobsOfAppend(lane, head, Outputs(t, es[1..]));
      QueueChain(s.Queue(lane), PushedBy(lane, es[0]), Pushed(lane, es[1..]), JobsOf(lane, head), t.Queue(lane),
                 JobsOf(lane, Outputs(t, es[1..])), Final(t, es[1..]).Queue(lane));
    }
  }

  // ---------- No starvation ----------

  /** Turns granted in one rotation before the pointer reaches index `i`. */
  ghost function Before(i: nat): nat
    requires i <= 5
  {
    if i == 0 then 0 else Before(i - 1) + LaneAt(i - 1).Weight()
  }

  lemma BeforeTable()
    ensures Before(0) == 0 && Before(1) == 8 && Before(2) == 12 && Before(3) == 14 && Before(4) == 15
    ensures Before(5) == ROUND
  {
    assert Before(2) == Before(1) + 4 && Before(3) == Before(2) + 2;
  }

  /** Turns that can still go to other lanes before the pointer reaches `lane`. */
  ghost function Ahead(s: Scheduler, lane: Lane): int
    requires s.Valid()
  {
    TurnsAhead(s.pos, s.Quantum(), lane.Index())
  }

  /** The same for the pointer at `pos` with `quantum` turns left there, and a lane at index `i`. */
  ghost function TurnsAhead(pos: nat, quantum: nat, i: nat): int
    requires pos < 5 && i < 5
  {
    if pos == i then 0 else quantum + Before(i) - Before(pos + 1) + (if pos < i then 0 else ROUND)
  }

  /** A turn taken elsewhere brings the lane closer, whether it ends the visit or not. */
  lemma TurnApproaches(pos: nat, quantum: nat, pos': nat, quantum': nat, i: nat)
    requires pos < 5 && pos' < 5 && i < 5 && pos != i && quantum >= 1
    requires if pos' == pos then quantum' == quantum - 1 else pos' == (pos + 1) % 5 && quantum' == LaneAt(pos').Weight()
    ensures TurnsAhead(pos', quantum', i) < TurnsAhead(pos, quantum, i)
  {
    BeforeTable();
    hide Before;
  }

  lemma AheadBound(s: Scheduler, lane: Lane)
    requires s.Valid()
    ensures 0 <= Ahead(s, lane) <= ROUND - lane.Weight()
  {
    BeforeTable();
    hide Before;
  }

  lemma SkipApproaches(s: Scheduler, lane: Lane)
    requires s.Valid() && s.Queue(lane) != [] && s.Queue(s.Current()) == []
    ensures Ahead(Skip(s), lane) <= Ahead(s, lane)
  {
    BeforeTable();
    hide Before;
  }

  lemma ServeApproaches(s: Scheduler, lane: Lane)
    requires s.Valid() && s.Queue(lane) != [] && s.Queue(s.Current()) != [] && s.Current() != lane
    ensures ServeCurrent(s).0.Queue(lane) != []
    ensures ServeCurrent(s).1.0 != lane
    ensures Ahead(ServeCurrent(s).0, lane) < Ahead(s, lane)
  {
    ServeShape(s);
    var t := ServeCurrent(s).0;
    hide ServeCurrent, Scheduler.Quantum, Scheduler.Queue, TurnsAhead;
    TurnApproaches(s.pos, s.Quantum(), t.pos, t.Quantum(), lane.Index());
  }

  lemma {:induction false} ScanApproaches(s: Scheduler, k: nat, lane: Lane)
    requires s.Valid() && s.Queue(lane) != []
    ensures var (t, out) := Scan(s, k);
            out.Some? && out.value.0 != lane ==> t.Queue(lane) != [] && Ahead(t, lane) < Ahead(s, lane)
    decreases k
  {
    hide ServeCurrent, Ahead;
    if k > 0 {
      if s.Pending(s.Current()) == 0 {
        SkipApproaches(s, lane);
        ScanApproaches(Skip(s), k - 1, lane);
      } else {
        if s.Current() != lane {
          ServeApproaches(s, lane);
        } else {
          ServeShape(s);
        }
      }
    }
  }

  lemma {:induction false} WaitBound(s: Scheduler, es: seq<Event>, lane: Lane)
    requires s.Valid() && s.Queue(lane) != []
    requires JobsOf(lane, Outputs(s, es)) == []
    ensures Pops(es) <= Ahead(s, lane)
    decreases |es|
  {
    if es == [] {
      AheadBound(s, lane);
    } else {
      var t := Step(s, es[0]);
      JobsOfAppend(lane, Output(s, es[0]), Outputs(t, es[1..]));
      if es[0].Pop? {
        PopNextIsWorkConserving(s);
        assert s.Pending(lane) > 0;
        ScanApproaches(s, 5, lane);
      } else {
        assert Ahead(t, lane) == Ahead(s, lane);
      }
      WaitBound(t, es[1..], lane);
    }
  }

  /**
   No starvation: whatever is enqueued meanwhile, a lane with work that is not served
   sees at most 16 - weight pops, all of them of other lanes.
   */
  lemma NoStarvation(s: Scheduler, es: seq<Event>, lane: Lane)
    requires s.Valid() && s.Queue(lane) != []
    requires Pops(es) > ROUND - lane.Weight()
    ensures JobsOf(lane, Outputs(s, es)) != []
  {
    if JobsOf(lane, Outputs(s, es)) == [] {
      WaitBound(s, es, lane);
      AheadBound(s, lane);
    }
  }

  // ---------- Weighted fairness ----------

  /** How much of its quantum `lane` has used in the rotation that is under way. */
  ghost function Phase(s: Scheduler, lane: Lane): int
    requires s.Valid()
  {
    if s.pos < lane.Index() then 0
    else if s.pos > lane.Index() then lane.Weight()
    else lane.Weight() - s.Quantum()
  }

  /** Times the pointer passes from the last lane back to the first during a scan. */
  ghost function ScanWraps(s: Scheduler, k: nat): nat
    requires s.Valid()
    decreases k
  {
    if k == 0 then 0
    else if s.Pending(s.Current()) == 0 then (if s.pos == 4 then 1 else 0) + ScanWraps(Skip(s), k - 1)
    else if s.pos == 4 && ServeCurrent(s).0.pos == 0 then 1 else 0
  }

  ghost function StepWraps(s: Scheduler, e: Event): nat
    requires s.Valid()
  {
    if e.Pop? then ScanWraps(s, 5) else 0
  }

  /** Completed rotations along a run. */
  ghost function Wraps(s: Scheduler, es: seq<Event>): nat
    requires s.Valid()
    decreases |es|
  {
    if es == [] then 0
    else StepWraps(s, es[0]) + Wraps(Step(s, es[0]), es[1..])
  }

  lemma SkipPhase(s: Scheduler, lane: Lane)
    requires s.Valid() && s.Queue(lane) != [] && s.Queue(s.Current()) == []
    ensures Phase(Skip(s), lane) == Phase(s, lane) - (if s.pos == 4 then lane.Weight() else 0)
  {
  }

  lemma ServePhase(s: Scheduler, lane: Lane)
    requires s.Valid() && s.Queue(lane) != [] && s.Queue(s.Current()) != []
    requires ServeCurrent(s).0.Queue(lane) != []
    ensures var (t, out) := ServeCurrent(s);
            (if out.0 == lane then 1 else 0)
            == (if s.pos == 4 && t.pos == 0 then lane.Weight() else 0) + Phase(t, lane) - Phase(s, lane)
  {
    ServeShape(s);
    hide ServeCurrent, Scheduler.Quantum;
  }

  lemma Distribute(w: int, x: int, y: int)
    ensures w * (x + y) == w * x + w * y
  {
  }

  lemma {:induction false} ScanPhase(s: Scheduler, k: nat, lane: Lane)
    requires s.Valid() && s.Queue(lane) != [] && Scan(s, k).0.Queue(lane) != []
    ensures var (t, out) := Scan(s, k);
            (if out.Some? && out.value.0 == lane then 1 else 0)
            == lane.Weight() * ScanWraps(s, k) + Phase(t, lane) - Phase(s, lane)
    decreases k
  {
    hide ServeCurrent, Phase;
    if k > 0 {
      if s.Pending(s.Current()) == 0 {
        SkipPhase(s, lane);
        ScanPhase(Skip(s), k - 1, lane);
        Distribute(lane.Weight(), if s.pos == 4 then 1 else 0, ScanWraps(Skip(s), k - 1));
      } else {
        ServePhase(s, lane);
      }
    }
  }

  lemma StepPhase(s: Scheduler, e: Event, lane: Lane)
    requires s.Valid() && s.Queue(lane) != [] && Step(s, e).Queue(lane) != []
    ensures |JobsOf(lane, Output(s, e))|
         == lane.Weight() * StepWraps(s, e) + Phase(Step(s, e), lane) - Phase(s, lane)
  {
    match e
    case Push(_, _) =>
    case Pop =>
      hide Scan, ScanWraps;
      assert s.Pending(lane) > 0;
      ScanPhase(s, 5, lane);
      var out := Output(s, e);
      assert out != [] ==> out[1..] == [];
  }

  /** While a lane stays busy, what it is served is one quantum per rotation, up to its phase. */
  lemma {:induction false} ServedPerRotation(s: Scheduler, es: seq<Event>, lane: Lane)
    requires s.Valid() && Busy(s, es, lane)
    ensures |JobsOf(lane, Outputs(s, es))|
         == lane.Weight() * Wraps(s, es) + Phase(Final(s, es), lane) - Phase(s, lane)
    decreases |es|
  {
    hide *;
    if es == [] {
      NothingServed(s, lane);
    } else {
      RunStep(s, es, lane);
      var t := Step(s, es[0]);
      StepPhase(s, es[0], lane);
      ServedPerRotation(t, es[1..], lane);
      JobsOfAppend(lane, Output(s, es[0]), Outputs(t, es[1..]));
      Distribute(lane.Weight(), StepWraps(s, es[0]), Wraps(t, es[1..]));
    }
  }

  lemma NothingServed(s: Scheduler, lane: Lane)
    requires s.Valid()
    ensures JobsOf(lane, Outputs(s, [])) == [] && lane.Weight() * Wraps(s, []) == 0 && Final(s, []) == s
  {
  }

  /** The first event of a run, and what the rest starts from. */
  lemma RunStep(s: Scheduler, es: seq<Event>, lane: Lane)
    requires s.Valid() && es != []
    ensures var t, rest := Step(s, es[0]), es[1..];
            && Outputs(s, es) == Output(s, es[0]) + Outputs(t, rest)
            && Final(s, es) == Final(t, rest)
            && Wraps(s, es) == StepWraps(s, es[0]) + Wraps(t, rest)
            && (Busy(s, es, lane) ==> s.Queue(lane) != [] && t.Queue(lane) != [] && Busy(t, rest, lane))
  {
    hide Step, Output, StepWraps;
    var t, rest := Step(s, es[0]), es[1..];
    assert Busy(t, rest, lane) ==> t.Queue(lane) != [];
  }

  /**
   Weighted fairness: over any stretch in which two lanes always have work, their served counts
   stay in proportion to their weights up to one quantum, whatever happens on the other lanes.
   */
  lemma WeightedFairness(s: Scheduler, es: seq<Event>, a: Lane, b: Lane)
    requires s.Valid() && Busy(s, es, a) && Busy(s, es, b)
    ensures var na, nb := |JobsOf(a, Outputs(s, es))|, |JobsOf(b, Outputs(s, es))|;
            -(a.Weight() * b.Weight()) <= na * b.Weight() - nb * a.Weight() <= a.Weight() * b.Weight()
  {
    ServedPerRotation(s, es, a);
    ServedPerRotation(s, es, b);
    var t := Final(s, es);
    SkewRange(s, a, b);
    SkewRange(t, a, b);
    hide *;
    Balance(a.Weight(), b.Weight(), Wraps(s, es), Phase(t, a), Phase(s, a), Phase(t, b), Phase(s, b),
            |JobsOf(a, Outputs(s, es))|, |JobsOf(b, Outputs(s, es))|);
  }

  lemma Balance(wa: int, wb: int, w: int, ta: int, sa: int, tb: int, sb: int, na: int, nb: int)
    requires na == wa * w + (ta - sa) && nb == wb * w + (tb - sb)
    ensures na * wb - nb * wa == (ta * wb - tb * wa) - (sa * wb - sb * wa)
  {
    Distribute(wb, wa * w, ta - sa);
    Distribute(wa, wb * w, tb - sb);
    Distribute(wb, ta, -sa);
    Distribute(wa, tb, -sb);
    assert wb * (wa * w) == wa * (wb * w);
  }

  lemma SkewRange(s: Scheduler, a: Lane, b: Lane)
    requires s.Valid()
    ensures var skew := Phase(s, a) * b.Weight() - Phase(s, b) * a.Weight();
            if a.Index() <= b.Index() then 0 <= skew <= a.Weight() * b.Weight()
            else -(a.Weight() * b.Weight()) <= skew <= 0
  {
  }

  /** When no lane runs dry, sixteen pops are one whole rotation: every lane gets exactly its quantum. */
  lemma {:induction false} ExactShares(s: Scheduler, es: seq<Event>, k: nat, lane: Lane)
    requires s.Valid() && Pops(es) == ROUND * k
    requires forall l: Lane :: Busy(s, es, l)
    ensures |JobsOf(lane, Outputs(s, es))| == lane.Weight() * k
  {
    var t, w := Final(s, es), Wraps(s, es);
    PopsAsRotations(s, es);
    PositionDetermines(s, t);
    assert w == k && Position(t) == Position(s);
    assert Busy(s, es, lane);
    ServedPerRotation(s, es, lane);
  }

  /** The shares in figures: of every sixteen jobs the five lanes get 8, 4, 2, 1 and 1. */
  lemma ShareTable(s: Scheduler, es: seq<Event>, k: nat)
    requires s.Valid() && Pops(es) == 16 * k
    requires forall l: Lane :: Busy(s, es, l)
    ensures var outs := Outputs(s, es);
            && |JobsOf(JoinCritical, outs)| == 8 * k && |JobsOf(SpawnCritical, outs)| == 4 * k
            && |JobsOf(Foreground, outs)| == 2 * k && |JobsOf(Background, outs)| == k && |JobsOf(Optional, outs)| == k
  {
    hide Outputs, JobsOf, Pops, Busy;
    ExactShares(s, es, k, JoinCritical);
    ExactShares(s, es, k, SpawnCritical);
    ExactShares(s, es, k, Foreground);
    ExactShares(s, es, k, Background);
    ExactShares(s, es, k, Optional);
  }

  lemma PopsAsRotations(s: Scheduler, es: seq<Event>)
    requires s.Valid()
    requires forall l: Lane :: Busy(s, es, l)
    ensures Pops(es) == ROUND * Wraps(s, es) + Position(Final(s, es)) - Position(s)
  {
    hide Outputs, Final, Busy, Phase, Wraps, JobsOf, Pops;
    AllPopsServe(s, es);
    CountByLane(Outputs(s, es));
    ServedPerRotation(s, es, JoinCritical);
    ServedPerRotation(s, es, SpawnCritical);
    ServedPerRotation(s, es, Foreground);
    ServedPerRotation(s, es, Background);
    ServedPerRotation(s, es, Optional);
  }

  /** Sum of all phases: the number of turns taken in the rotation under way. */
  ghost function Position(s: Scheduler): int
    requires s.Valid()
  {
    Phase(s, JoinCritical) + Phase(s, SpawnCritical) + Phase(s, Foreground) + Phase(s, Background) + Phase(s, Optional)
  }

  lemma PositionDetermines(s: Scheduler, t: Scheduler)
    requires s.Valid() && t.Valid()
    ensures 0 <= Position(s) < ROUND && 0 <= Position(t) < ROUND
    ensures Position(s) == Position(t) ==> forall lane: Lane :: Phase(s, lane) == Phase(t, lane)
  {
    PositionSplits(s);
    PositionSplits(t);
    BeforeTable();
    hide Before, Position;
    assert Position(s) == Position(t) ==> s.pos == t.pos && s.Quantum() == t.Quantum();
    hide Scheduler.Quantum;
  }

  lemma PositionSplits(s: Scheduler)
    requires s.Valid()
    ensures Position(s) == Before(s.pos + 1) - s.Quantum()
    ensures Before(s.pos) <= Position(s) < Before(s.pos + 1)
  {
    BeforeTable();
    hide Before;
  }

  lemma {:induction false} AllPopsServe(s: Scheduler, es: seq<Event>)
    requires s.Valid() && Busy(s, es, Optional)
    ensures |Outputs(s, es)| == Pops(es)
    decreases |es|
  {
    if es != [] {
      PopNextIsWorkConserving(s);
      AllPopsServe(Step(s, es[0]), es[1..]);
    }
  }

  lemma CountByLane(outs: seq<(Lane, Job)>)
    ensures |outs| == |JobsOf(JoinCritical, outs)| + |JobsOf(SpawnCritical, outs)| + |JobsOf(Foreground, outs)|
                    + |JobsOf(Background, outs)| + |JobsOf(Optional, outs)|
  {
  }

  // ---------- The object ----------

  lemma PendingMeansServed(s: Scheduler)
    requires s.Valid() && s.TotalPending() > 0
    ensures PopNext(s) == Scan(s, 5) && Scan(s, 5).1.Some?
  {
    hide Scan;
    assert exists lane: Lane :: s.Pending(lane) > 0;
    PopNextIsWorkConserving(s);
  }

  lemma ScanOfNothing(s: Scheduler)
    requires s.Valid()
    ensures Scan(s, 0).1 == None
  {
  }

  lemma ScanUnfolds(s: Scheduler, k: nat)
    requires s.Valid() && k > 0
    ensures s.Queue(s.Current()) == [] ==> Scan(s, k) == Scan(Skip(s), k - 1)
    ensures s.Queue(s.Current()) != [] ==> Scan(s, k) == (ServeCurrent(s).0, Some(ServeCurrent(s).1))
  {
  }

  /** Serving field by field. */
  lemma ServeFields(s: Scheduler)
    requires s.Valid() && s.Queue(s.Current()) != []
    ensures var lane := s.Current();
            var left := if lane in s.remaining then s.remaining[lane] else lane.Weight();
            && lane in s.queues && s.queues[lane] != [] && left >= 1
            && var rest := s.queues[lane][1..];
               var over := rest == [] || left == 1;
               ServeCurrent(s) ==
               (Scheduler(s.queues[lane := rest],
                          if over then (s.pos + 1) % 5 else s.pos,
                          if over then s.remaining - {lane} else s.remaining[lane := left - 1],
                          s.served[lane := s.Served(lane) + 1]),
                (lane, s.queues[lane][0]))
  {
  }

  class LaneScheduler {
    var queues: map<Lane, seq<Job>>
    var pos: nat
    var remaining: map<Lane, nat>
    var served: map<Lane, nat>

    ghost function State(): Scheduler
      reads this
    {
      Scheduler(queues, pos, remaining, served)
    }

    constructor ()
      ensures State() == INITIAL && State().Valid()
    {
      queues, pos, remaining, served := map[], 0, map[], map[];
    }

    function PendingIn(lane: Lane): (n: nat)
      reads this
      ensures n == |State().Queue(lane)|
    {
      if lane in queues then |queues[lane]| else 0
    }

    method EnqueueJob(lane: Lane, job: Job)
      requires State().Valid()
      modifies this
      ensures State() == Step(old(State()), Push(lane, job))
    {
      var q := if lane in queues then queues[lane] else [];
      queues := queues[lane := q + [job]];
    }

    method Next() returns (out: Option<(Lane, Job)>)
      requires State().Valid()
      modifies this
      ensures State() == Step(old(State()), Pop)
      ensures AsSeq(out) == Output(old(State()), Pop)
    {
      var total := PendingIn(JoinCritical) + PendingIn(SpawnCritical) + PendingIn(Foreground)
                   + PendingIn(Background) + PendingIn(Optional);
      if total == 0 {
        pos := 0;
        remaining := map[];
        out := None;
      } else {
        PendingMeansServed(State());
        out := ScanLanes();
      }
    }

    /** One rotation at most over the lanes; with work pending it never falls through. */
    method ScanLanes() returns (out: Option<(Lane, Job)>)
      requires State().Valid() && Scan(State(), 5).1.Some?
      modifies this
      ensures (State(), out) == Scan(old(State()), 5)
    {
      hide Scan, ServeCurrent;
      ghost var start := State();
      for k := 0 to 5
        invariant State().Valid()
        invariant Scan(start, 5) == Scan(State(), 5 - k)
      {
        ghost var here := State();
        ScanUnfolds(here, 5 - k);
        var lane := LaneAt(pos % 5);
        if PendingIn(lane) == 0 {
          remaining := remaining - {lane};
          pos := (pos + 1) % 5;
          assert State() == Skip(here);
        } else {
          var job := ServeLane(lane);
          return Some(job);
        }
      }
      ScanOfNothing(State());
      assert false;
      return None;
    }

    /** The serving branch of the scan. */
    method ServeLane(lane: Lane) returns (out: (Lane, Job))
      requires State().Valid() && lane == State().Current() && State().Queue(lane) != []
      modifies this
      ensures (State(), out) == ServeCurrent(old(State()))
    {
      hide Scheduler.Valid, ServeCurrent, Scheduler.Current, Scheduler.Queue, Lane.Weight;
      ServeFields(State());
      var rem: nat := if lane in remaining then remaining[lane] else lane.Weight();
      rem := rem - 1;
      var job := queues[lane][0];
      queues := queues[lane := queues[lane][1..]];
      if PendingIn(lane) == 0 || rem == 0 {
        remaining := remaining - {lane};
        pos := (pos + 1) % 5;
      } else {
        remaining := remaining[lane := rem];
      }
      served := served[lane := (if lane in served then served[lane] else 0) + 1];
      return (lane, job);
    }
  }
}
