/** The converge goroutine and the refresher goroutine over one cache, step by step.

    A step is one locked section, one network answer or one wait; every interleaving is a
    sequence of steps. Network calls happen between locked sections, so anything the other
    goroutine can do may come between a call and the section that records its answer. */
module VaultProtocol {

  import opened Wrappers
  import opened VaultCache
  import opened VaultKey

  /** Where the goroutine that calls Fetch stands. */
  datatype Converge =
    | ConvIdle
    | ConvReading(ck: Key, spec: FetchSpec, token: string)
    | ConvInserting(ck: Key, spec: FetchSpec, token: string, res: ReadResult)
    | ConvSignalling

  /** What the refresher is doing for the value it is attending to. */
  datatype Task =
    | Between
    | Renewing(ck: Key, job: Job)
    | Rereading(ck: Key, job: Job)
    | Settling(ck: Key, job: Job, res: ReadResult, newValue: bool)
    | Failing(ck: Key, job: Job)
    | Replacing(outgoing: Lease)

  /** Where the refresher's loop stands. */
  datatype Refresher =
    | Top
    | Arming(deadline: Option<Time>)
    | Asleep(armed: Time, target: Time)
    | Woken
    | Scanning(now: Time)
    | Passing(evicted: map<Key, Lease>, work: map<Key, Job>, task: Task)

  /** What happened to the cache, in order; the reference for what it should hold. */
  datatype Event =
    | Used(ck: Key, spec: FetchSpec, t: Time)
    | Stored(ck: Key, spec: FetchSpec, data: Data, first: bool, t: Time, until: int)
    | Renewed(ck: Key, t: Time, until: int)
    | Failed(ck: Key, t: Time)
    | Pass(t: Time, gone: set<Key>, due: set<Key>)
    | Attempted(ck: Key, t: Time)

  datatype State = State(cache: Cache, wake: bool, now: Time, conv: Converge, refr: Refresher,
                         issued: set<Lease>, released: seq<Lease>, log: seq<Event>)

  function Init(now: Time): State {
    State(map[], false, now, ConvIdle, Top, {}, [], [])
  }

  datatype Step =
    | Tick(elapsed: nat)
    | FetchHit(spec: FetchSpec, token: string)
    | FetchMiss(spec: FetchSpec, token: string)
    | FirstReadFails
    | FirstReadSucceeds(answer: Answer)
    | InsertValue
    | SendSignal
    | ReadDeadline(deadline: Option<Time>)
    | Arm
    | TakeWake
    | TimerFires
    | TakeNow
    | ScanCache
    | ReleaseEvicted(ck: Key)
    | PickWork(ck: Key)
    | RenewSucceeds(leaseSeconds: int, renewable: bool)
    | RenewFails
    | RereadFails
    | RereadSucceeds(answer: Answer)
    | SettleValue
    | FailValue
    | ReleaseReplaced
    | EndPass

  /** A lease the server has not issued before. */
  predicate FreshAnswer(s: State, spec: FetchSpec, answer: Answer) {
    ReadSpec(spec, answer).Some? && ReadSpec(spec, answer).value.lease !in s.issued
  }

  ghost predicate Enabled(s: State, step: Step) {
    match step
    case Tick(_) => true
    case FetchHit(spec, _) => s.conv.ConvIdle? && CacheKey(spec) in s.cache
    case FetchMiss(spec, _) => s.conv.ConvIdle? && CacheKey(spec) !in s.cache
    case FirstReadFails => s.conv.ConvReading?
    case FirstReadSucceeds(answer) => s.conv.ConvReading? && FreshAnswer(s, s.conv.spec, answer)
    case InsertValue => s.conv.ConvInserting?
    case SendSignal => s.conv.ConvSignalling?
    case ReadDeadline(d) => s.refr.Top? && IsEarliest(s.cache, d)
    case Arm => s.refr.Arming?
    case TakeWake => s.refr.Asleep? && s.wake
    case TimerFires => s.refr.Asleep? && s.now >= s.refr.target
    case TakeNow => s.refr.Woken?
    case ScanCache => s.refr.Scanning?
    case ReleaseEvicted(ck) => s.refr.Passing? && s.refr.task.Between? && ck in s.refr.evicted
    case PickWork(ck) => s.refr.Passing? && s.refr.task.Between? && s.refr.evicted == map[] && ck in s.refr.work
    case RenewSucceeds(_, _) => s.refr.Passing? && s.refr.task.Renewing?
    case RenewFails => s.refr.Passing? && s.refr.task.Renewing?
    case RereadFails => s.refr.Passing? && s.refr.task.Rereading?
    case RereadSucceeds(answer) =>
      s.refr.Passing? && s.refr.task.Rereading? && FreshAnswer(s, s.refr.task.job.spec, answer)
    case SettleValue => s.refr.Passing? && s.refr.task.Settling?
    case FailValue => s.refr.Passing? && s.refr.task.Failing?
    case ReleaseReplaced => s.refr.Passing? && s.refr.task.Replacing?
    case EndPass => s.refr.Passing? && s.refr.task.Between? && s.refr.evicted == map[] && s.refr.work == map[]
  }

  function Issue(issued: set<Lease>, res: ReadResult): set<Lease> {
    if res.lease == NO_LEASE then issued else issued + {res.lease}
  }

  /** The timer: at the deadline, at once if it has passed, or after the idle bound. */
  function TimerTarget(now: Time, deadline: Option<Time>): Time {
    now + (if deadline.Some? then Max(0, deadline.value - now) else IDLE_EVICT)
  }

  function Apply(s: State, step: Step): State
    requires Enabled(s, step)
  {
    match step
    case Tick(elapsed) => s.(now := s.now + elapsed)
    case FetchHit(spec, token) =>
      var ck := CacheKey(spec);
      s.(cache := s.cache[ck := ServedEntry(s.cache[ck], token, s.now)], log := s.log + [Used(ck, spec, s.now)])
    case FetchMiss(spec, token) => s.(conv := ConvReading(CacheKey(spec), spec, token))
    case FirstReadFails => s.(conv := ConvIdle)
    case FirstReadSucceeds(answer) =>
      var res := ReadSpec(s.conv.spec, answer).value;
      s.(conv := ConvInserting(s.conv.ck, s.conv.spec, s.conv.token, res), issued := Issue(s.issued, res))
    case InsertValue =>
      s.(cache := s.cache[s.conv.ck := NewEntry(s.conv.spec, s.conv.token, s.conv.res, s.now)],
         conv := ConvSignalling,
         log := s.log + [Stored(s.conv.ck, s.conv.spec, s.conv.res.data, true, s.now, s.conv.res.until)])
    case SendSignal => s.(wake := true, conv := ConvIdle)
    case ReadDeadline(d) => s.(refr := Arming(d))
    case Arm => s.(refr := Asleep(s.now, TimerTarget(s.now, s.refr.deadline)))
    case TakeWake => s.(wake := false, refr := Woken)
    case TimerFires => s.(refr := Woken)
    case TakeNow => s.(refr := Scanning(s.now))
    case ScanCache =>
      var t := s.refr.now;
      s.(cache := Surviving(s.cache, t),
         refr := Passing(IdleLeases(s.cache, t), DueJobs(s.cache, t), Between),
         log := s.log + [Pass(t, s.cache.Keys - Surviving(s.cache, t).Keys, DueJobs(s.cache, t).Keys)])
    case ReleaseEvicted(ck) =>
      s.(refr := s.refr.(evicted := s.refr.evicted - {ck}), released := s.released + [s.refr.evicted[ck]])
    case PickWork(ck) =>
      var job := s.refr.work[ck];
      var task := if job.lease != NO_LEASE && job.renew then Renewing(ck, job) else Rereading(ck, job);
      s.(refr := s.refr.(work := s.refr.work - {ck}, task := task), log := s.log + [Attempted(ck, s.now)])
    case RenewSucceeds(seconds, renewable) =>
      var res := ReadResult(map[], RenewAfter(seconds * SECOND), s.refr.task.job.lease, renewable);
      s.(refr := s.refr.(task := Settling(s.refr.task.ck, s.refr.task.job, res, false)))
    case RenewFails => s.(refr := s.refr.(task := Rereading(s.refr.task.ck, s.refr.task.job)))
    case RereadFails => s.(refr := s.refr.(task := Failing(s.refr.task.ck, s.refr.task.job)))
    case RereadSucceeds(answer) =>
      var res := ReadSpec(s.refr.task.job.spec, answer).value;
      s.(refr := s.refr.(task := Settling(s.refr.task.ck, s.refr.task.job, res, true)), issued := Issue(s.issued, res))
    case SettleValue => ApplySettle(s)
    case FailValue => ApplyFail(s)
    case ReleaseReplaced => s.(refr := s.refr.(task := Between), released := s.released + [s.refr.task.outgoing])
    case EndPass => s.(refr := Top)
  }

  /** settle, then hand the replaced lease on to be released. */
  function ApplySettle(s: State): State
    requires s.refr.Passing? && s.refr.task.Settling?
  {
    var Settling(ck, job, res, newValue) := s.refr.task;
    var task := if newValue && job.lease != NO_LEASE && job.lease != res.lease then Replacing(job.lease) else Between;
    var next := s.(refr := s.refr.(task := task));
    if ck in s.cache then
      next.(cache := s.cache[ck := SettledEntry(s.cache[ck], res, newValue, s.now)],
            log := s.log + [if newValue then Stored(ck, job.spec, res.data, false, s.now, res.until)
                            else Renewed(ck, s.now, res.until)])
    else next
  }

  function ApplyFail(s: State): State
    requires s.refr.Passing? && s.refr.task.Failing?
  {
    var ck := s.refr.task.ck;
    var next := s.(refr := s.refr.(task := Between));
    if ck in s.cache then
      next.(cache := s.cache[ck := FailedEntry(s.cache[ck], s.now)], log := s.log + [Failed(ck, s.now)])
    else next
  }

  /** A run: every step is enabled where it is taken. */
  ghost predicate IsRun(s: State, steps: seq<Step>)
    decreases |steps|
  {
    steps == [] || (Enabled(s, steps[0]) && IsRun(Apply(s, steps[0]), steps[1..]))
  }

  ghost function After(s: State, steps: seq<Step>): State
    requires IsRun(s, steps)
    decreases |steps|
  {
    if steps == [] then s else After(Apply(s, steps[0]), steps[1..])
  }

  // ---------------------------------------------------------------------------------------------
  // Leases: where each one is.
  // ---------------------------------------------------------------------------------------------

  datatype Place =
    | Held(ck: Key)
    | WithConverge
    | Evicted(ck: Key)
    | WithRefresher
    | Outgoing
    | Released(n: nat)

  ghost predicate At(s: State, l: Lease, p: Place) {
    match p
    case Held(ck) => ck in s.cache && s.cache[ck].lease == l
    case WithConverge => s.conv.ConvInserting? && s.conv.res.lease == l
    case Evicted(ck) => s.refr.Passing? && ck in s.refr.evicted && s.refr.evicted[ck] == l
    case WithRefresher => s.refr.Passing? && s.refr.task.Settling? && s.refr.task.newValue && s.refr.task.res.lease == l
    case Outgoing => s.refr.Passing? && s.refr.task.Replacing? && s.refr.task.outgoing == l
    case Released(n) => n < |s.released| && s.released[n] == l
  }

  /** Every issued lease is somewhere, and nothing that was never issued is anywhere. */
  ghost predicate Accounted(s: State) {
    && NO_LEASE !in s.issued
    && (forall l :: l in s.issued ==> exists p :: At(s, l, p))
    && (forall l, p :: l != NO_LEASE && At(s, l, p) ==> l in s.issued)
  }

  /** No lease is in two places; in particular none is released twice or held after release. */
  ghost predicate OnePlace(s: State) {
    forall l, p, q :: l != NO_LEASE && At(s, l, p) && At(s, l, q) ==> p == q
  }

  predicate HasKey(task: Task) {
    task.Renewing? || task.Rereading? || task.Settling? || task.Failing?
  }

  /** The refresher's private jobs still describe the cache, and the converge goroutine is
      reading only what the cache lacks. */
  ghost predicate Linked(s: State) {
    && (s.conv.ConvReading? ==> s.conv.ck !in s.cache)
    && (s.conv.ConvInserting? ==> s.conv.ck !in s.cache)
    && (s.refr.Passing? ==>
          && (forall ck :: ck in s.refr.work ==> ck in s.cache && s.refr.work[ck].lease == s.cache[ck].lease)
          && (HasKey(s.refr.task) ==>
                && s.refr.task.ck in s.cache && s.refr.task.ck !in s.refr.work
                && s.refr.task.job.lease == s.cache[s.refr.task.ck].lease)
          && (s.refr.task.Settling? && !s.refr.task.newValue ==> s.refr.task.res.lease == s.refr.task.job.lease)
          && (s.refr.task.Replacing? ==> s.refr.task.outgoing != NO_LEASE))
  }

  lemma TaskEntryCached(s: State)
    requires Linked(s) && s.refr.Passing? && (s.refr.task.Settling? || s.refr.task.Failing?)
    ensures s.refr.task.ck in s.cache
  {
  }

  predicate ConvergeStep(step: Step) {
    step.Tick? || step.FetchHit? || step.FetchMiss? || step.FirstReadFails? || step.FirstReadSucceeds?
    || step.InsertValue? || step.SendSignal?
  }

  predicate LoopStep(step: Step) {
    step.ReadDeadline? || step.Arm? || step.TakeWake? || step.TimerFires? || step.TakeNow? || step.ScanCache?
    || step.EndPass?
  }

  predicate PassStep(step: Step) {
    !ConvergeStep(step) && !LoopStep(step)
  }

  lemma LinkedKeptByConverge(s: State, step: Step)
    requires Linked(s) && Enabled(s, step) && ConvergeStep(step)
    ensures Linked(Apply(s, step))
  {
  }

  lemma LinkedKeptByLoop(s: State, step: Step)
    requires Linked(s) && Enabled(s, step) && LoopStep(step)
    ensures Linked(Apply(s, step))
  {
  }

  lemma LinkedKeptByPass(s: State, step: Step)
    requires Linked(s) && Enabled(s, step) && PassStep(step)
    ensures Linked(Apply(s, step))
  {
  }

  /** Where a step takes a lease that is at p. */
  function Destination(s: State, step: Step, p: Place): Place
    requires Enabled(s, step)
  {
    match step
    case InsertValue => if p.WithConverge? then Held(s.conv.ck) else p
    case ScanCache =>
      if p.Held? && p.ck in s.cache && Idle(s.cache[p.ck], s.refr.now) then Evicted(p.ck) else p
    case ReleaseEvicted(ck) => if p == Evicted(ck) then Released(|s.released|) else p
    case SettleValue =>
      if !s.refr.task.newValue then p
      else if p == Held(s.refr.task.ck) then Outgoing
      else if p == WithRefresher then Held(s.refr.task.ck)
      else p
    case ReleaseReplaced => if p.Outgoing? then Released(|s.released|) else p
    case _ => p
  }

  /** Where a lease appears when a read returns it. */
  function Birthplace(step: Step): Place {
    if step.FirstReadSucceeds? then WithConverge else WithRefresher
  }

  /** While a replacement is being settled, its lease and the one it replaces differ. */
  lemma ReplacementDiffers(s: State, step: Step)
    requires Linked(s) && OnePlace(s) && Enabled(s, step) && step.SettleValue? && s.refr.task.newValue
    requires s.refr.task.res.lease != NO_LEASE
    ensures s.refr.task.res.lease != s.refr.task.job.lease
  {
    var l := s.refr.task.res.lease;
    assert At(s, l, WithRefresher);
    if l == s.refr.task.job.lease {
      assert At(s, l, Held(s.refr.task.ck));
      assert false;
    }
  }

  ghost predicate Distinct(s: State, step: Step)
    requires Enabled(s, step)
  {
    step.SettleValue? && s.refr.task.newValue && s.refr.task.res.lease != NO_LEASE
    ==> s.refr.task.res.lease != s.refr.task.job.lease
  }

  lemma ConvergeMovesLease(s: State, step: Step, l: Lease, p: Place)
    requires Linked(s) && Enabled(s, step) && ConvergeStep(step) && l != NO_LEASE && At(s, l, p)
    ensures At(Apply(s, step), l, Destination(s, step, p))
  {
  }

  lemma LoopMovesLease(s: State, step: Step, l: Lease, p: Place)
    requires Linked(s) && Enabled(s, step) && LoopStep(step) && l != NO_LEASE && At(s, l, p)
    ensures At(Apply(s, step), l, Destination(s, step, p))
  {
  }

  lemma PassMovesLease(s: State, step: Step, l: Lease, p: Place)
    requires Linked(s) && Enabled(s, step) && PassStep(step) && Distinct(s, step) && l != NO_LEASE && At(s, l, p)
    ensures At(Apply(s, step), l, Destination(s, step, p))
  {
  }

  ghost predicate Newborn(s: State, step: Step, l: Lease)
    requires Enabled(s, step)
  {
    l !in s.issued && l in Apply(s, step).issued
  }

  /** Where a lease found after a step was before it. */
  ghost function Origin(s: State, step: Step, p: Place): Place
    requires Enabled(s, step)
  {
    match step
    case InsertValue => if p == Held(s.conv.ck) then WithConverge else p
    case ScanCache => if p.Evicted? then Held(p.ck) else p
    case ReleaseEvicted(ck) => if p == Released(|s.released|) then Evicted(ck) else p
    case SettleValue =>
      if !s.refr.task.newValue then p
      else if p.Outgoing? then Held(s.refr.task.ck)
      else if p == Held(s.refr.task.ck) then WithRefresher
      else p
    case ReleaseReplaced => if p == Released(|s.released|) then Outgoing else p
    case _ => p
  }

  lemma ConvergeOrigin(s: State, step: Step, l: Lease, p: Place)
    requires Linked(s) && Enabled(s, step) && ConvergeStep(step) && l != NO_LEASE && At(Apply(s, step), l, p)
    ensures || (At(s, l, Origin(s, step, p)) && Destination(s, step, Origin(s, step, p)) == p)
            || (Newborn(s, step, l) && p == Birthplace(step))
  {
  }

  lemma LoopOrigin(s: State, step: Step, l: Lease, p: Place)
    requires Linked(s) && Enabled(s, step) && LoopStep(step)
    requires l != NO_LEASE && At(Apply(s, step), l, p)
    ensures || (At(s, l, Origin(s, step, p)) && Destination(s, step, Origin(s, step, p)) == p)
            || (Newborn(s, step, l) && p == Birthplace(step))
  {
  }

  lemma PassOrigin(s: State, step: Step, l: Lease, p: Place)
    requires Linked(s) && Enabled(s, step) && PassStep(step) && Distinct(s, step)
    requires l != NO_LEASE && At(Apply(s, step), l, p)
    ensures || (At(s, l, Origin(s, step, p)) && Destination(s, step, Origin(s, step, p)) == p)
            || (Newborn(s, step, l) && p == Birthplace(step))
  {
  }

  lemma LinkedKept(s: State, step: Step)
    requires Linked(s) && Enabled(s, step)
    ensures Linked(Apply(s, step))
  {
    hide Linked, Enabled, Apply;
    if ConvergeStep(step) {
      LinkedKeptByConverge(s, step);
    } else if LoopStep(step) {
      LinkedKeptByLoop(s, step);
    } else {
      LinkedKeptByPass(s, step);
    }
  }

  lemma LeaseMoves(s: State, step: Step, l: Lease, p: Place)
    requires Linked(s) && OnePlace(s) && Enabled(s, step) && l != NO_LEASE && At(s, l, p)
    ensures At(Apply(s, step), l, Destination(s, step, p))
  {
    hide Linked, Enabled, Apply, At, Destination, OnePlace;
    if ConvergeStep(step) {
      ConvergeMovesLease(s, step, l, p);
    } else if LoopStep(step) {
      LoopMovesLease(s, step, l, p);
    } else {
      DistinctHolds(s, step);
      PassMovesLease(s, step, l, p);
    }
  }

  lemma LeaseOrigin(s: State, step: Step, l: Lease, p: Place)
    requires Linked(s) && OnePlace(s) && Enabled(s, step) && l != NO_LEASE && At(Apply(s, step), l, p)
    ensures || (At(s, l, Origin(s, step, p)) && Destination(s, step, Origin(s, step, p)) == p)
            || (Newborn(s, step, l) && p == Birthplace(step))
  {
    hide Linked, Enabled, Apply, At, Destination, Origin, Newborn, OnePlace;
    if ConvergeStep(step) {
      ConvergeOrigin(s, step, l, p);
    } else if LoopStep(step) {
      LoopOrigin(s, step, l, p);
    } else {
      DistinctHolds(s, step);
      PassOrigin(s, step, l, p);
    }
  }

  lemma DistinctHolds(s: State, step: Step)
    requires Linked(s) && OnePlace(s) && Enabled(s, step)
    ensures Distinct(s, step)
  {
    if step.SettleValue? && s.refr.task.newValue && s.refr.task.res.lease != NO_LEASE {
      ReplacementDiffers(s, step);
    }
  }

  lemma OnePlaceKept(s: State, step: Step)
    requires Linked(s) && Accounted(s) && OnePlace(s) && Enabled(s, step)
    ensures OnePlace(Apply(s, step))
  {
    hide Linked, Enabled, Apply, At, Destination, Origin, Birthplace;
    forall l, p, q | l != NO_LEASE && At(Apply(s, step), l, p) && At(Apply(s, step), l, q)
      ensures p == q
    {
      LeaseOrigin(s, step, l, p);
      LeaseOrigin(s, step, l, q);
    }
  }

  /** A newly issued lease is where the read left it, and nothing else is issued. */
  lemma IssueStep(s: State, step: Step)
    requires Enabled(s, step) && NO_LEASE !in s.issued
    ensures var next := Apply(s, step);
            && s.issued <= next.issued && NO_LEASE !in next.issued
            && forall l :: Newborn(s, step, l) ==> At(next, l, Birthplace(step))
  {
    hide CacheKey, ReadSpec, Surviving, IdleLeases, DueJobs, ServedEntry, NewEntry;
  }

  lemma AccountedKept(s: State, step: Step)
    requires Linked(s) && Accounted(s) && OnePlace(s) && Enabled(s, step)
    ensures Accounted(Apply(s, step))
  {
    hide Linked, Enabled, Apply, At, Destination, Origin, OnePlace;
    var next := Apply(s, step);
    IssueStep(s, step);
    forall l | l in next.issued
      ensures exists p :: At(next, l, p)
    {
      if l in s.issued {
        var p :| At(s, l, p);
        LeaseMoves(s, step, l, p);
      } else {
        assert At(next, l, Birthplace(step));
      }
    }
    forall l, p | l != NO_LEASE && At(next, l, p)
      ensures l in next.issued
    {
      LeaseOrigin(s, step, l, p);
    }
  }

  // ---------------------------------------------------------------------------------------------
  // Which read a value belongs to.
  // ---------------------------------------------------------------------------------------------

  /** Every entry is filed under its own read's key, and whoever reads for it reads that. */
  ghost predicate SpecsMatch(s: State) {
    && (forall ck :: ck in s.cache ==> CacheKey(s.cache[ck].spec) == ck)
    && (s.conv.ConvReading? || s.conv.ConvInserting? ==> s.conv.ck == CacheKey(s.conv.spec))
    && (s.refr.Passing? ==>
          && (forall ck :: ck in s.refr.work && ck in s.cache ==> s.refr.work[ck].spec == s.cache[ck].spec)
          && (HasKey(s.refr.task) && s.refr.task.ck in s.cache ==>
                s.refr.task.job.spec == s.cache[s.refr.task.ck].spec))
  }

  lemma SpecsMatchByConverge(s: State, step: Step)
    requires Linked(s) && SpecsMatch(s) && Enabled(s, step) && ConvergeStep(step)
    ensures SpecsMatch(Apply(s, step))
  {
    hide CacheKey, ReadSpec, Issue;
  }

  lemma SpecsMatchByLoop(s: State, step: Step)
    requires SpecsMatch(s) && Enabled(s, step) && LoopStep(step) && !step.ScanCache?
    ensures SpecsMatch(Apply(s, step))
  {
    hide CacheKey, ReadSpec, Issue, DueJobs, IdleLeases, Surviving;
  }

  lemma SpecsMatchByScan(s: State)
    requires SpecsMatch(s) && Enabled(s, ScanCache)
    ensures SpecsMatch(Apply(s, ScanCache))
  {
    hide CacheKey, ReadSpec, Issue;
  }

  lemma SpecsMatchByPass(s: State, step: Step)
    requires Linked(s) && SpecsMatch(s) && Enabled(s, step) && PassStep(step)
    ensures SpecsMatch(Apply(s, step))
  {
    hide CacheKey, ReadSpec, Issue, Surviving, IdleLeases, DueJobs, Backoff;
  }

  lemma SpecsMatchKept(s: State, step: Step)
    requires Linked(s) && SpecsMatch(s) && Enabled(s, step)
    ensures SpecsMatch(Apply(s, step))
  {
    hide Linked, SpecsMatch, Enabled, Apply;
    if ConvergeStep(step) {
      SpecsMatchByConverge(s, step);
    } else if step.ScanCache? {
      SpecsMatchByScan(s);
    } else if LoopStep(step) {
      SpecsMatchByLoop(s, step);
    } else {
      SpecsMatchByPass(s, step);
    }
  }

  // ---------------------------------------------------------------------------------------------
  // Waking in time.
  // ---------------------------------------------------------------------------------------------

  /** A new value is covered: its wake-up is pending or about to be sent. */
  predicate SignalPending(s: State) {
    s.wake || s.conv.ConvSignalling?
  }

  /** While the refresher sleeps, or has read the deadline it will sleep on, that deadline is no
      later than any in the cache, unless a wake-up is pending. */
  ghost predicate WakesInTime(s: State) {
    && (s.refr.Arming? && !SignalPending(s) ==>
          forall ck :: ck in s.cache ==> s.refr.deadline.Some? && s.refr.deadline.value <= s.cache[ck].expires)
    && (s.refr.Asleep? && !SignalPending(s) ==>
          forall ck :: ck in s.cache ==> s.refr.target <= Max(s.refr.armed, s.cache[ck].expires))
    && (s.refr.Asleep? ==> s.refr.armed <= s.now)
  }

  lemma WakesInTimeByConverge(s: State, step: Step)
    requires WakesInTime(s) && Enabled(s, step) && ConvergeStep(step)
    ensures WakesInTime(Apply(s, step))
  {
    hide CacheKey, ReadSpec, Issue;
  }

  lemma WakesInTimeByRefresher(s: State, step: Step)
    requires WakesInTime(s) && Enabled(s, step) && !ConvergeStep(step)
    ensures WakesInTime(Apply(s, step))
  {
    hide CacheKey, ReadSpec, Issue, Surviving, IdleLeases, DueJobs;
  }

  lemma WakesInTimeKept(s: State, step: Step)
    requires WakesInTime(s) && Enabled(s, step)
    ensures WakesInTime(Apply(s, step))
  {
    hide WakesInTime, Enabled, Apply;
    if ConvergeStep(step) {
      WakesInTimeByConverge(s, step);
    } else {
      WakesInTimeByRefresher(s, step);
    }
  }

  // ---------------------------------------------------------------------------------------------
  // Whole runs.
  // ---------------------------------------------------------------------------------------------

  ghost predicate Inv(s: State) {
    Linked(s) && Accounted(s) && OnePlace(s) && SpecsMatch(s) && WakesInTime(s)
  }

  lemma InvInitially(now: Time)
    ensures Inv(Init(now))
  {
  }

  lemma InvKept(s: State, step: Step)
    requires Inv(s) && Enabled(s, step)
    ensures Inv(Apply(s, step))
  {
    hide Linked, Accounted, OnePlace, SpecsMatch, WakesInTime, Enabled, Apply;
    LinkedKept(s, step);
    SpecsMatchKept(s, step);
    AccountedKept(s, step);
    OnePlaceKept(s, step);
    WakesInTimeKept(s, step);
  }

  /** Every state of every interleaving keeps the invariant. */
  lemma {:induction false} EveryRun(s: State, steps: seq<Step>)
    requires Inv(s) && IsRun(s, steps)
    ensures Inv(After(s, steps))
    decreases |steps|
  {
    hide Inv, Enabled, Apply;
    if steps != [] {
      InvKept(s, steps[0]);
      EveryRun(Apply(s, steps[0]), steps[1..]);
    }
  }

  /** No oversleep: at any point of any run, a sleeping refresher with a value that is due can wake
      now, or will be able to as soon as the Fetch that inserted a value sends its signal. */
  lemma NoOversleep(now: Time, steps: seq<Step>, ck: Key)
    requires IsRun(Init(now), steps)
    requires var s := After(Init(now), steps);
             s.refr.Asleep? && ck in s.cache && s.cache[ck].expires <= s.now
    ensures var s := After(Init(now), steps);
            Enabled(s, TakeWake) || Enabled(s, TimerFires) || Enabled(s, SendSignal)
  {
    InvInitially(now);
    EveryRun(Init(now), steps);
  }

  /** In every reachable state settle and fail find the entry they were called for, with the lease
      it had when the pass began. */
  lemma SettleAndFailFindTheirEntry(now: Time, steps: seq<Step>)
    requires IsRun(Init(now), steps)
    requires var s := After(Init(now), steps);
             s.refr.Passing? && (s.refr.task.Settling? || s.refr.task.Failing?)
    ensures var s := After(Init(now), steps);
            s.refr.task.ck in s.cache && s.cache[s.refr.task.ck].lease == s.refr.task.job.lease
  {
    InvInitially(now);
    EveryRun(Init(now), steps);
  }

  lemma ReleasedOnlyGrows(s: State, step: Step)
    requires Enabled(s, step)
    ensures s.released <= Apply(s, step).released
  {
  }

  lemma {:induction false} ReleasedStays(s: State, steps: seq<Step>)
    requires IsRun(s, steps)
    ensures s.released <= After(s, steps).released
    decreases |steps|
  {
    hide Enabled, Apply;
    if steps != [] {
      ReleasedOnlyGrows(s, steps[0]);
      ReleasedStays(Apply(s, steps[0]), steps[1..]);
    }
  }

  /** Once a lease has been handed to revocation it is never again held, in flight or revoked a
      second time, however the run goes on. */
  lemma ReleasedForGood(s: State, steps: seq<Step>, n: nat, p: Place)
    requires Inv(s) && IsRun(s, steps) && n < |s.released| && s.released[n] != NO_LEASE
    requires At(After(s, steps), s.released[n], p)
    ensures p == Released(n)
  {
    EveryRun(s, steps);
    ReleasedStays(s, steps);
    var end := After(s, steps);
    assert At(end, s.released[n], Released(n));
  }

  /** Lease conservation over every run from the start: each lease a read returned is in exactly
      one place. */
  lemma LeaseConservation(now: Time, steps: seq<Step>, l: Lease)
    requires IsRun(Init(now), steps) && l in After(Init(now), steps).issued
    ensures var end := After(Init(now), steps);
            exists p :: At(end, l, p) && forall q :: At(end, l, q) ==> q == p
  {
    InvInitially(now);
    EveryRun(Init(now), steps);
    var end := After(Init(now), steps);
    var p :| At(end, l, p);
    assert l != NO_LEASE;
    assert forall q :: At(end, l, q) ==> q == p;
  }
}
