/** What the cache holds is what the history of a run says it should hold: the last good value,
    the failures since the last success, the first of them, the next deadline, the last use. */
module VaultHistory {

  import opened Wrappers
  import opened Text
  import opened VaultCache
  import opened VaultKey
  import opened VaultProtocol

  // ---------------------------------------------------------------------------------------------
  // Reading a history backwards, for one key.
  // ---------------------------------------------------------------------------------------------

  /** A value and the read it came from. */
  datatype Good = Good(spec: FetchSpec, data: Data)

  /** The value of the latest successful read that was recorded, if it was not evicted since. */
  ghost function LastGood(log: seq<Event>, ck: Key): Option<Good> {
    if log == [] then None
    else
      var e, before := log[|log| - 1], log[..|log| - 1];
      if e.Stored? && e.ck == ck then Some(Good(e.spec, e.data))
      else if e.Pass? && ck in e.gone then None
      else LastGood(before, ck)
  }

  /** What the latest first read under the key asked for. */
  ghost function InsertedWith(log: seq<Event>, ck: Key): Option<FetchSpec> {
    if log == [] then None
    else
      var e, before := log[|log| - 1], log[..|log| - 1];
      if e.Stored? && e.first && e.ck == ck then Some(e.spec) else InsertedWith(before, ck)
  }

  predicate Succeeds(e: Event, ck: Key) {
    (e.Stored? || e.Renewed?) && e.ck == ck
  }

  predicate Fails(e: Event, ck: Key) {
    e.Failed? && e.ck == ck
  }

  /** How many refreshes failed since the latest success. */
  ghost function FailuresSince(log: seq<Event>, ck: Key): nat {
    if log == [] then 0
    else
      var e, before := log[|log| - 1], log[..|log| - 1];
      if Succeeds(e, ck) then 0
      else if Fails(e, ck) then FailuresSince(before, ck) + 1
      else FailuresSince(before, ck)
  }

  /** When the first of those failures happened. */
  ghost function FirstFailure(log: seq<Event>, ck: Key): Option<Time> {
    if log == [] then None
    else
      var e, before := log[|log| - 1], log[..|log| - 1];
      if Succeeds(e, ck) then None
      else if Fails(e, ck) && FirstFailure(before, ck).None? then Some(e.t)
      else FirstFailure(before, ck)
  }

  /** When the value is to be attended to next: what the latest success asked for, or the backoff
      for that many failures in a row. */
  ghost function Deadline(log: seq<Event>, ck: Key): Option<Time> {
    if log == [] then None
    else
      var e, before := log[|log| - 1], log[..|log| - 1];
      if Succeeds(e, ck) then Some(e.t + e.until)
      else if Fails(e, ck) then Some(e.t + Backoff(FailuresSince(before, ck) + 1))
      else Deadline(before, ck)
  }

  /** When a converge last asked for the value. */
  ghost function LastUse(log: seq<Event>, ck: Key): Option<Time> {
    if log == [] then None
    else
      var e, before := log[|log| - 1], log[..|log| - 1];
      if (e.Used? || (e.Stored? && e.first)) && e.ck == ck then Some(e.t) else LastUse(before, ck)
  }

  // ---------------------------------------------------------------------------------------------
  // The cache agrees with the history.
  // ---------------------------------------------------------------------------------------------

  ghost predicate EntryAgrees(e: Entry, log: seq<Event>, ck: Key) {
    && LastGood(log, ck) == Some(Good(e.spec, e.data))
    && InsertedWith(log, ck) == Some(e.spec)
    && FailuresSince(log, ck) == e.failures
    && FirstFailure(log, ck) == e.staleSince
    && Deadline(log, ck) == Some(e.expires)
    && LastUse(log, ck) == Some(e.lastUsed)
  }

  ghost predicate CacheAgrees(s: State) {
    forall ck ::
      if ck in s.cache then EntryAgrees(s.cache[ck], s.log, ck) else LastGood(s.log, ck) == None
  }

  lemma ChangedKeyAgrees(e: Entry, log: seq<Event>, ck: Key)
    requires EntryAgrees(e, log, ck)
    ensures forall spec, token, t: Time :: EntryAgrees(ServedEntry(e, token, t), log + [Used(ck, spec, t)], ck)
    ensures forall res: ReadResult, t: Time ::
              && EntryAgrees(SettledEntry(e, res, true, t),
                           log + [Stored(ck, e.spec, res.data, false, t, res.until)], ck)
              && EntryAgrees(SettledEntry(e, res, false, t), log + [Renewed(ck, t, res.until)], ck)
    ensures forall t: Time :: EntryAgrees(FailedEntry(e, t), log + [Failed(ck, t)], ck)
  {
  }

  lemma InsertedAgrees(spec: FetchSpec, token: string, res: ReadResult, log: seq<Event>, ck: Key, t: Time)
    ensures EntryAgrees(NewEntry(spec, token, res, t), log + [Stored(ck, spec, res.data, true, t, res.until)], ck)
  {
  }

  lemma EvictedAgrees(log: seq<Event>, e: Event, ck: Key)
    requires e.Pass? && (ck in e.gone || LastGood(log, ck) == None)
    ensures LastGood(log + [e], ck) == None
  {
  }

  /** A step that writes the log appends one event, and only that event's keys change. */
  lemma OtherStepsAgree(s: State, step: Step)
    requires CacheAgrees(s) && Enabled(s, step)
    requires !step.FetchHit? && !step.InsertValue? && !step.ScanCache? && !step.PickWork?
    requires !step.SettleValue? && !step.FailValue?
    ensures CacheAgrees(Apply(s, step))
  {
    hide EntryAgrees, LastGood, CacheKey, ReadSpec, Issue;
    assert Apply(s, step).cache == s.cache && Apply(s, step).log == s.log;
  }

  lemma OneKeyAgrees(s: State, next: State, ck: Key, e: Event)
    requires CacheAgrees(s) && !e.Pass? && e.ck == ck && next.log == s.log + [e]
    requires ck in next.cache && next.cache == s.cache[ck := next.cache[ck]]
    requires EntryAgrees(next.cache[ck], next.log, ck)
    ensures CacheAgrees(next)
  {
  }

  lemma OtherKeyAgrees(s: State, e: Event, ck: Key)
    requires CacheAgrees(s) && (e.Pass? ==> ck !in e.gone) && (!e.Pass? ==> e.ck != ck)
    ensures if ck in s.cache then EntryAgrees(s.cache[ck], s.log + [e], ck) else LastGood(s.log + [e], ck) == None
  {
  }

  lemma ScanAgrees(s: State, step: Step)
    requires CacheAgrees(s) && Enabled(s, step) && step.ScanCache?
    ensures CacheAgrees(Apply(s, step))
  {
    hide EntryAgrees;
    var next := Apply(s, step);
    var e := next.log[|s.log|];
    assert next.log == s.log + [e];
    forall ck
      ensures if ck in next.cache then EntryAgrees(next.cache[ck], next.log, ck) else LastGood(next.log, ck) == None
    {
      if ck in next.cache {
        OtherKeyAgrees(s, e, ck);
      } else {
        EvictedAgrees(s.log, e, ck);
      }
    }
  }

  lemma AttemptAgrees(e: Entry, log: seq<Event>, ck: Key, a: Event)
    requires a.Attempted?
    ensures EntryAgrees(e, log, ck) ==> EntryAgrees(e, log + [a], ck)
    ensures LastGood(log + [a], ck) == LastGood(log, ck)
  {
  }

  lemma PickAgrees(s: State, step: Step)
    requires CacheAgrees(s) && Enabled(s, step) && step.PickWork?
    ensures CacheAgrees(Apply(s, step))
  {
    hide EntryAgrees, LastGood;
    var next := Apply(s, step);
    var a := Attempted(step.ck, s.now);
    forall ck
      ensures if ck in next.cache then EntryAgrees(next.cache[ck], next.log, ck) else LastGood(next.log, ck) == None
    {
      if ck in s.cache {
        AttemptAgrees(s.cache[ck], s.log, ck, a);
      } else {
        AttemptAgrees(NewEntry(s.refr.work[step.ck].spec, "", ReadResult(map[], 0, NO_LEASE, false), 0), s.log, ck, a);
      }
    }
  }

  lemma CacheAgreesKept(s: State, step: Step)
    requires Linked(s) && SpecsMatch(s) && CacheAgrees(s) && Enabled(s, step)
    ensures CacheAgrees(Apply(s, step))
  {
    hide EntryAgrees, ServedEntry, SettledEntry, FailedEntry, NewEntry, CacheKey, Issue, ReadSpec, LastGood;
    var next := Apply(s, step);
    if step.ScanCache? {
      ScanAgrees(s, step);
    } else if step.FetchHit? || step.SettleValue? || step.FailValue? {
      var ck := if step.FetchHit? then CacheKey(step.spec) else s.refr.task.ck;
      ChangedKeyAgrees(s.cache[ck], s.log, ck);
      OneKeyAgrees(s, next, ck, next.log[|s.log|]);
    } else if step.InsertValue? {
      InsertedAgrees(s.conv.spec, s.conv.token, s.conv.res, s.log, s.conv.ck, s.now);
      OneKeyAgrees(s, next, s.conv.ck, next.log[|s.log|]);
    } else if step.PickWork? {
      PickAgrees(s, step);
    } else {
      OtherStepsAgree(s, step);
    }
  }

  // ---------------------------------------------------------------------------------------------
  // Every pass attends to exactly what is due and evicts exactly what is idle.
  // ---------------------------------------------------------------------------------------------

  ghost predicate IdleAt(log: seq<Event>, ck: Key, t: Time) {
    LastGood(log, ck).Some? && LastUse(log, ck).Some? && t - LastUse(log, ck).value >= IDLE_EVICT
  }

  ghost predicate DueAt(log: seq<Event>, ck: Key, t: Time) {
    && LastGood(log, ck).Some? && LastUse(log, ck).Some? && t - LastUse(log, ck).value < IDLE_EVICT
    && Deadline(log, ck).Some? && t >= Deadline(log, ck).value
  }

  ghost predicate PassExact(log: seq<Event>, e: Event)
    requires e.Pass?
  {
    forall ck :: (ck in e.gone <==> IdleAt(log, ck, e.t)) && (ck in e.due <==> DueAt(log, ck, e.t))
  }

  ghost predicate PassesExact(log: seq<Event>) {
    forall j :: 0 <= j < |log| && log[j].Pass? ==> PassExact(log[..j], log[j])
  }

  lemma PassesExactAppend(log: seq<Event>, e: Event)
    requires PassesExact(log) && (e.Pass? ==> PassExact(log, e))
    ensures PassesExact(log + [e])
  {
    hide PassExact;
    var longer := log + [e];
    forall j | 0 <= j < |longer| && longer[j].Pass?
      ensures PassExact(longer[..j], longer[j])
    {
      assert longer[..j] == if j < |log| then log[..j] else log;
    }
  }

  lemma ScanIsExact(s: State, step: Step)
    requires CacheAgrees(s) && Enabled(s, step) && step.ScanCache?
    ensures PassExact(s.log, Apply(s, step).log[|s.log|])
  {
    var e := Apply(s, step).log[|s.log|];
    forall ck
      ensures (ck in e.gone <==> IdleAt(s.log, ck, e.t)) && (ck in e.due <==> DueAt(s.log, ck, e.t))
    {
      assert if ck in s.cache then EntryAgrees(s.cache[ck], s.log, ck) else LastGood(s.log, ck) == None;
    }
  }

  /** What a step adds to the log. */
  lemma LogGrowsByOne(s: State, step: Step)
    requires Enabled(s, step)
    ensures var next := Apply(s, step);
            || next.log == s.log
            || (&& |next.log| == |s.log| + 1 && next.log == s.log + [next.log[|s.log|]]
                && (next.log[|s.log|].Pass? <==> step.ScanCache?)
                && (next.log[|s.log|].Used? <==> step.FetchHit?)
                && (next.log[|s.log|].Attempted? <==> step.PickWork?)
                && (!step.ScanCache? ==> next.log[|s.log|].t == s.now))
  {
    hide CacheKey, ReadSpec, Issue, Surviving, IdleLeases, DueJobs, ServedEntry, NewEntry, SettledEntry, FailedEntry;
  }

  lemma PassesExactKept(s: State, step: Step)
    requires CacheAgrees(s) && PassesExact(s.log) && Enabled(s, step)
    ensures PassesExact(Apply(s, step).log)
  {
    hide CacheAgrees, PassExact, PassesExact, Apply, Enabled;
    var next := Apply(s, step);
    LogGrowsByOne(s, step);
    if next.log != s.log {
      if step.ScanCache? {
        ScanIsExact(s, step);
      }
      PassesExactAppend(s.log, next.log[|s.log|]);
    }
  }

  // ---------------------------------------------------------------------------------------------
  // Every hit is answered with a value of the read that inserted the entry.
  // ---------------------------------------------------------------------------------------------

  ghost predicate UseExact(log: seq<Event>, e: Event)
    requires e.Used?
  {
    && CacheKey(e.spec) == e.ck
    && LastGood(log, e.ck).Some? && CacheKey(LastGood(log, e.ck).value.spec) == e.ck
    && InsertedWith(log, e.ck) == Some(LastGood(log, e.ck).value.spec)
  }

  ghost predicate UsesExact(log: seq<Event>) {
    forall j :: 0 <= j < |log| && log[j].Used? ==> UseExact(log[..j], log[j])
  }

  lemma HitIsExact(s: State, step: Step)
    requires CacheAgrees(s) && SpecsMatch(s) && Enabled(s, step) && step.FetchHit?
    ensures UseExact(s.log, Apply(s, step).log[|s.log|])
  {
    hide CacheKey, LastGood, InsertedWith, Deadline, FailuresSince, FirstFailure, LastUse;
    assert EntryAgrees(s.cache[CacheKey(step.spec)], s.log, CacheKey(step.spec));
  }

  lemma UsesExactKept(s: State, step: Step)
    requires CacheAgrees(s) && SpecsMatch(s) && UsesExact(s.log) && Enabled(s, step)
    ensures UsesExact(Apply(s, step).log)
  {
    hide CacheAgrees, SpecsMatch, UseExact, Apply, Enabled;
    var next := Apply(s, step);
    LogGrowsByOne(s, step);
    if next.log != s.log {
      if step.FetchHit? {
        HitIsExact(s, step);
      }
      forall j | 0 <= j < |next.log| && next.log[j].Used?
        ensures UseExact(next.log[..j], next.log[j])
      {
        assert next.log[..j] == if j < |s.log| then s.log[..j] else s.log;
      }
    }
  }

  // ---------------------------------------------------------------------------------------------
  // Spacing: clock, floors and pending work.
  // ---------------------------------------------------------------------------------------------

  predicate Outcome(e: Event, ck: Key) {
    Succeeds(e, ck) || Fails(e, ck)
  }

  /** Nothing in the log is later than now, and an outcome is no earlier than what precedes it. */
  ghost predicate Clocked(s: State) {
    && (s.refr.Scanning? ==> s.refr.now <= s.now)
    && (forall i :: 0 <= i < |s.log| ==> s.log[i].t <= s.now)
    && (forall i, j :: 0 <= i < j < |s.log| && !s.log[j].Pass? ==> s.log[i].t <= s.log[j].t)
  }

  lemma ClockedKept(s: State, step: Step)
    requires Clocked(s) && Enabled(s, step)
    ensures Clocked(Apply(s, step))
  {
    hide Enabled, Apply;
    LogGrowsByOne(s, step);
    ClockStep(s, step);
  }

  /** Time does not run backwards, and a pass is dated when it began. */
  lemma ClockStep(s: State, step: Step)
    requires Enabled(s, step)
    ensures var next := Apply(s, step);
            && s.now <= next.now
            && (next.refr.Scanning? ==> next.refr.now == s.now || next.refr == s.refr)
            && (step.ScanCache? ==> s.refr.Scanning? && next.log == s.log + [next.log[|s.log|]]
                                    && next.log[|s.log|].t == s.refr.now)
  {
    hide CacheKey, ReadSpec, Issue, Surviving, IdleLeases, DueJobs, ServedEntry, NewEntry, SettledEntry, FailedEntry;
  }

  /** Every success asks for at least the five-second floor. */
  ghost predicate Floored(s: State) {
    && (s.conv.ConvInserting? ==> s.conv.res.until >= RENEW_FLOOR)
    && (s.refr.Passing? && s.refr.task.Settling? ==> s.refr.task.res.until >= RENEW_FLOOR)
    && (forall i :: 0 <= i < |s.log| && (s.log[i].Stored? || s.log[i].Renewed?) ==> s.log[i].until >= RENEW_FLOOR)
  }

  lemma FlooredKept(s: State, step: Step)
    requires Floored(s) && Enabled(s, step)
    ensures Floored(Apply(s, step))
  {
    hide Enabled, Apply;
    LogGrowsByOne(s, step);
    FloorByConverge(s, step);
    FloorByRefresher(s, step);
  }

  lemma FloorByConverge(s: State, step: Step)
    requires Floored(s) && Enabled(s, step)
    ensures var next := Apply(s, step); next.conv.ConvInserting? ==> next.conv.res.until >= RENEW_FLOOR
  {
    hide CacheKey, ReadSpec, Issue, Surviving, IdleLeases, DueJobs, ServedEntry, NewEntry, SettledEntry, FailedEntry;
    if step.FirstReadSucceeds? {
      ReadLastsAtLeastTheFloor(s.conv.spec, step.answer);
    }
  }

  lemma FloorByRefresher(s: State, step: Step)
    requires Floored(s) && Enabled(s, step)
    ensures var next := Apply(s, step);
            && (next.refr.Passing? && next.refr.task.Settling? ==> next.refr.task.res.until >= RENEW_FLOOR)
            && (next.log != s.log && (next.log[|s.log|].Stored? || next.log[|s.log|].Renewed?) ==>
                  next.log[|s.log|].until >= RENEW_FLOOR)
  {
    hide CacheKey, ReadSpec, Issue, Surviving, IdleLeases, DueJobs, ServedEntry, NewEntry, SettledEntry, FailedEntry;
    if step.RereadSucceeds? {
      ReadLastsAtLeastTheFloor(s.refr.task.job.spec, step.answer);
    }
  }

  /** The refresher is attending to this key. */
  predicate InFlight(s: State, ck: Key) {
    s.refr.Passing? && HasKey(s.refr.task) && s.refr.task.ck == ck
  }

  /** The refresher still owes this key an outcome. */
  predicate Owed(s: State, ck: Key) {
    s.refr.Passing? && (ck in s.refr.work || InFlight(s, ck))
  }

  ghost predicate OutcomeBetween(log: seq<Event>, ck: Key, i: int, j: int) {
    exists k :: i < k < j && 0 <= k < |log| && Outcome(log[k], ck)
  }

  /** Each key a pass found due has had its outcome, or is still owed it. */
  ghost predicate Answered(s: State) {
    forall i, ck :: 0 <= i < |s.log| && s.log[i].Pass? && ck in s.log[i].due ==>
                      OutcomeBetween(s.log, ck, i, |s.log|) || Owed(s, ck)
  }

  lemma OutcomeSurvives(log: seq<Event>, longer: seq<Event>, ck: Key, i: int, j: int)
    requires OutcomeBetween(log, ck, i, j) && log <= longer
    ensures OutcomeBetween(longer, ck, i, j)
  {
  }

  lemma OutcomeNow(log: seq<Event>, e: Event, ck: Key, i: int)
    requires Outcome(e, ck) && i < |log|
    ensures OutcomeBetween(log + [e], ck, i, |log| + 1)
  {
    assert Outcome((log + [e])[|log|], ck);
  }

  /** A key stops being owed an outcome only by getting one. */
  lemma OwedUntilOutcome(s: State, step: Step, ck: Key)
    requires Linked(s) && Enabled(s, step) && Owed(s, ck)
    ensures var next := Apply(s, step);
            Owed(next, ck) || (|next.log| == |s.log| + 1 && Outcome(next.log[|s.log|], ck))
  {
    hide Linked;
    if step.SettleValue? || step.FailValue? {
      TaskEntryCached(s);
    } else {
      StillOwed(s, step, ck);
    }
  }

  lemma StillOwed(s: State, step: Step, ck: Key)
    requires Enabled(s, step) && Owed(s, ck) && !step.SettleValue? && !step.FailValue?
    ensures Owed(Apply(s, step), ck)
  {
    hide ApplySettle, ApplyFail, Surviving, IdleLeases, DueJobs, ReadSpec, Issue;
  }

  lemma NewPassIsOwed(s: State, step: Step)
    requires Enabled(s, step) && step.ScanCache?
    ensures forall ck :: ck in Apply(s, step).log[|s.log|].due ==> Owed(Apply(s, step), ck)
    ensures forall ck :: !Owed(s, ck)
  {
  }

  lemma AnsweredKept(s: State, step: Step)
    requires Linked(s) && Answered(s) && Enabled(s, step)
    ensures Answered(Apply(s, step))
  {
    hide Linked, Enabled, Apply, OutcomeBetween, Owed, Outcome;
    var next := Apply(s, step);
    LogGrowsByOne(s, step);
    forall i, ck | 0 <= i < |next.log| && next.log[i].Pass? && ck in next.log[i].due
      ensures OutcomeBetween(next.log, ck, i, |next.log|) || Owed(next, ck)
    {
      if i == |s.log| {
        NewPassIsOwed(s, step);
      } else if Owed(s, ck) {
        OwedUntilOutcome(s, step, ck);
        if !Owed(next, ck) {
          OutcomeNow(s.log, next.log[|s.log|], ck, i);
        }
      } else {
        StillBetween(s.log, next.log, ck, i);
      }
    }
  }

  lemma StillBetween(log: seq<Event>, longer: seq<Event>, ck: Key, i: int)
    requires OutcomeBetween(log, ck, i, |log|) && log <= longer
    ensures OutcomeBetween(longer, ck, i, |longer|)
  {
  }

  /** A pass found the key due, and it has had no outcome between that and position j. */
  ghost predicate Prompted(log: seq<Event>, ck: Key, j: nat) {
    exists p :: 0 <= p < j <= |log| && log[p].Pass? && ck in log[p].due
                && forall k :: p < k < j ==> !Outcome(log[k], ck)
  }

  /** What the refresher is about to attend to, a pass found due. */
  ghost predicate WorkPrompted(s: State) {
    s.refr.Passing? ==> forall ck :: ck in s.refr.work ==> Prompted(s.log, ck, |s.log|)
  }

  /** Every attempt was prompted. */
  ghost predicate AttemptsPrompted(log: seq<Event>) {
    forall j :: 0 <= j < |log| && log[j].Attempted? ==> Prompted(log, log[j].ck, j)
  }

  lemma PromptedSurvives(log: seq<Event>, longer: seq<Event>, ck: Key, j: nat)
    requires Prompted(log, ck, j) && log <= longer
    ensures Prompted(longer, ck, j)
  {
    var p :| 0 <= p < j <= |log| && log[p].Pass? && ck in log[p].due && forall k :: p < k < j ==> !Outcome(log[k], ck);
    assert longer[p].Pass? && ck in longer[p].due;
  }

  lemma PromptedStill(log: seq<Event>, e: Event, ck: Key)
    requires Prompted(log, ck, |log|) && !Outcome(e, ck)
    ensures Prompted(log + [e], ck, |log| + 1)
  {
    var p :| 0 <= p < |log| && log[p].Pass? && ck in log[p].due && forall k :: p < k < |log| ==> !Outcome(log[k], ck);
    assert (log + [e])[p].Pass? && ck in (log + [e])[p].due;
  }

  lemma PassPrompts(log: seq<Event>, e: Event, ck: Key)
    requires e.Pass? && ck in e.due
    ensures Prompted(log + [e], ck, |log| + 1)
  {
    assert (log + [e])[|log|] == e;
  }

  /** While a key waits in the work list nothing is recorded as its outcome. */
  lemma WorkHasNoOutcome(s: State, step: Step, ck: Key)
    requires Linked(s) && Enabled(s, step) && !step.ScanCache?
    requires var next := Apply(s, step); next.refr.Passing? && ck in next.refr.work
    ensures s.refr.Passing? && ck in s.refr.work
    ensures Apply(s, step).log == s.log || !Outcome(Apply(s, step).log[|s.log|], ck)
  {
    hide CacheKey, ReadSpec, Issue, Surviving, IdleLeases, DueJobs;
  }

  lemma ScanDue(s: State, step: Step, ck: Key)
    requires Enabled(s, step) && step.ScanCache? && ck in Apply(s, step).refr.work
    ensures ck in Apply(s, step).log[|s.log|].due
  {
  }

  lemma ScanPasses(s: State, step: Step)
    requires Enabled(s, step) && step.ScanCache?
    ensures Apply(s, step).refr.Passing? && |Apply(s, step).log| == |s.log| + 1
  {
  }

  lemma WorkPromptedKept(s: State, step: Step)
    requires Linked(s) && WorkPrompted(s) && Enabled(s, step)
    ensures WorkPrompted(Apply(s, step))
  {
    hide Linked, Enabled, Apply, Outcome, Prompted;
    var next := Apply(s, step);
    LogGrowsByOne(s, step);
    if next.refr.Passing? {
      forall ck | ck in next.refr.work
        ensures Prompted(next.log, ck, |next.log|)
      {
        if step.ScanCache? {
          ScanPasses(s, step);
          ScanDue(s, step, ck);
          PassPrompts(s.log, next.log[|s.log|], ck);
        } else {
          WorkHasNoOutcome(s, step, ck);
          if next.log != s.log {
            PromptedStill(s.log, next.log[|s.log|], ck);
          }
        }
      }
    }
  }

  lemma PickIsFromWork(s: State, step: Step)
    requires Enabled(s, step) && step.PickWork?
    ensures s.refr.Passing? && step.ck in s.refr.work && Apply(s, step).log == s.log + [Attempted(step.ck, s.now)]
    ensures InFlight(Apply(s, step), step.ck) && forall ck :: !InFlight(s, ck)
  {
  }

  lemma AttemptsPromptedKept(s: State, step: Step)
    requires WorkPrompted(s) && AttemptsPrompted(s.log) && Enabled(s, step)
    ensures AttemptsPrompted(Apply(s, step).log)
  {
    hide Enabled, Apply, Prompted, InFlight;
    var next := Apply(s, step);
    LogGrowsByOne(s, step);
    if step.PickWork? {
      PickIsFromWork(s, step);
    }
    forall j | 0 <= j < |next.log| && next.log[j].Attempted?
      ensures Prompted(next.log, next.log[j].ck, j)
    {
      PromptedSurvives(s.log, next.log, next.log[j].ck, j);
    }
  }

  /** Each attempt has had its outcome, or is still in flight. */
  ghost predicate AttemptsAnswered(s: State) {
    forall i :: 0 <= i < |s.log| && s.log[i].Attempted? ==>
                  OutcomeBetween(s.log, s.log[i].ck, i, |s.log|) || InFlight(s, s.log[i].ck)
  }

  /** Between two attempts on one key there is an outcome. */
  ghost predicate AttemptsSeparated(log: seq<Event>) {
    forall i, j :: 0 <= i < j < |log| && log[i].Attempted? && log[j].Attempted? && log[i].ck == log[j].ck ==>
                     OutcomeBetween(log, log[i].ck, i, j)
  }

  lemma FlightUntilOutcome(s: State, step: Step, ck: Key)
    requires Linked(s) && Enabled(s, step) && InFlight(s, ck)
    ensures var next := Apply(s, step);
            InFlight(next, ck) || (|next.log| == |s.log| + 1 && Outcome(next.log[|s.log|], ck))
  {
    hide CacheKey, ReadSpec, Issue, Surviving, IdleLeases, DueJobs;
  }

  lemma AttemptsAnsweredKept(s: State, step: Step)
    requires Linked(s) && AttemptsAnswered(s) && Enabled(s, step)
    ensures AttemptsAnswered(Apply(s, step))
  {
    hide Linked, Enabled, Apply, OutcomeBetween, InFlight, Outcome;
    var next := Apply(s, step);
    LogGrowsByOne(s, step);
    forall i | 0 <= i < |next.log| && next.log[i].Attempted?
      ensures OutcomeBetween(next.log, next.log[i].ck, i, |next.log|) || InFlight(next, next.log[i].ck)
    {
      var ck := next.log[i].ck;
      if i == |s.log| {
        PickIsFromWork(s, step);
      } else if InFlight(s, ck) {
        FlightUntilOutcome(s, step, ck);
        if !InFlight(next, ck) {
          OutcomeNow(s.log, next.log[|s.log|], ck, i);
        }
      } else {
        StillBetween(s.log, next.log, ck, i);
      }
    }
  }

  lemma AttemptsSeparatedKept(s: State, step: Step)
    requires AttemptsAnswered(s) && AttemptsSeparated(s.log) && Enabled(s, step)
    ensures AttemptsSeparated(Apply(s, step).log)
  {
    hide Enabled, Apply, OutcomeBetween, InFlight, Outcome;
    var next := Apply(s, step);
    LogGrowsByOne(s, step);
    if next.log != s.log {
      forall i, j | && 0 <= i < j < |next.log| && next.log[i].Attempted? && next.log[j].Attempted?
                    && next.log[i].ck == next.log[j].ck
        ensures OutcomeBetween(next.log, next.log[i].ck, i, j)
      {
        if j == |s.log| {
          PickIsFromWork(s, step);
        }
        OutcomeSurvives(s.log, next.log, next.log[i].ck, i, j);
      }
    }
  }

  /** An outcome sets the deadline, and no deadline is nearer than the floor or the backoff. */
  lemma {:induction false} DeadlineAfterOutcome(log: seq<Event>, ck: Key, k: nat) returns (m: nat)
    requires k < |log| && Outcome(log[k], ck)
    requires forall i :: 0 <= i < |log| && (log[i].Stored? || log[i].Renewed?) ==> log[i].until >= RENEW_FLOOR
    ensures k <= m < |log| && !log[m].Pass? && Deadline(log, ck).Some?
    ensures Deadline(log, ck).value >= log[m].t + RENEW_FLOOR
    ensures FailuresSince(log, ck) > 0 ==> Deadline(log, ck).value >= log[m].t + Backoff(FailuresSince(log, ck))
  {
    var e, before := log[|log| - 1], log[..|log| - 1];
    if Outcome(e, ck) {
      m := |log| - 1;
      if Fails(e, ck) {
        BackoffShape(1, FailuresSince(before, ck) + 1);
      }
    } else {
      assert before[k] == log[k];
      m := DeadlineAfterOutcome(before, ck, k);
      assert before[m] == log[m];
    }
  }

  // ---------------------------------------------------------------------------------------------
  // Whole runs.
  // ---------------------------------------------------------------------------------------------

  ghost predicate HistoryInv(s: State) {
    && CacheAgrees(s) && PassesExact(s.log) && UsesExact(s.log) && Clocked(s) && Floored(s) && Answered(s)
    && WorkPrompted(s) && AttemptsPrompted(s.log) && AttemptsAnswered(s) && AttemptsSeparated(s.log)
  }

  lemma HistoryInitially(now: Time)
    ensures HistoryInv(Init(now))
  {
  }

  lemma HistoryKept(s: State, step: Step)
    requires Linked(s) && SpecsMatch(s) && HistoryInv(s) && Enabled(s, step)
    ensures HistoryInv(Apply(s, step))
  {
    hide CacheAgrees, PassesExact, UsesExact, Clocked, Floored, Answered, WorkPrompted, AttemptsPrompted,
      AttemptsAnswered, AttemptsSeparated, Apply, Enabled, Linked, SpecsMatch;
    CacheAgreesKept(s, step);
    PassesExactKept(s, step);
    UsesExactKept(s, step);
    ClockedKept(s, step);
    FlooredKept(s, step);
    AnsweredKept(s, step);
    WorkPromptedKept(s, step);
    AttemptsPromptedKept(s, step);
    AttemptsAnsweredKept(s, step);
    AttemptsSeparatedKept(s, step);
  }

  /** In every state of every run the cache is what the history says. */
  lemma {:induction false} EveryHistory(s: State, steps: seq<Step>)
    requires Inv(s) && HistoryInv(s) && IsRun(s, steps)
    ensures HistoryInv(After(s, steps))
    decreases |steps|
  {
    hide Linked, Accounted, OnePlace, SpecsMatch, WakesInTime, HistoryInv, Apply, Enabled;
    if steps != [] {
      HistoryKept(s, steps[0]);
      InvKept(s, steps[0]);
      EveryHistory(Apply(s, steps[0]), steps[1..]);
    }
  }

  /** From insertion to idle eviction a serve answers with the last good value, and staleness is
      reported exactly while refreshes have been failing, from the first of those failures. */
  lemma ServedValueIsLastGood(now: Time, steps: seq<Step>, ck: Key)
    requires IsRun(Init(now), steps)
    ensures var s := After(Init(now), steps);
            && (ck in s.cache <==> LastGood(s.log, ck).Some?)
            && (ck in s.cache ==>
                  && LastGood(s.log, ck) == Some(Good(s.cache[ck].spec, s.cache[ck].data))
                  && s.cache[ck].staleSince == FirstFailure(s.log, ck)
                  && (s.cache[ck].staleSince.Some? <==> s.cache[ck].failures > 0))
  {
    InvInitially(now);
    HistoryInitially(now);
    EveryHistory(Init(now), steps);
    var s := After(Init(now), steps);
    FirstFailureIsFirst(s.log, ck);
  }

  /** The reported staleness starts at a failure with no success after it and no unanswered
      failure before it. */
  lemma {:induction false} FirstFailureIsFirst(log: seq<Event>, ck: Key)
    ensures FirstFailure(log, ck).Some? <==> FailuresSince(log, ck) > 0
    ensures FirstFailure(log, ck).Some? ==>
              exists i :: 0 <= i < |log| && Fails(log[i], ck) && FirstFailure(log, ck) == Some(log[i].t)
                          && (forall j :: i < j < |log| ==> !Succeeds(log[j], ck))
                          && FailuresSince(log[..i], ck) == 0
  {
    if log != [] {
      var before := log[..|log| - 1];
      var e := log[|log| - 1];
      FirstFailureIsFirst(before, ck);
      if !Succeeds(e, ck) && FirstFailure(before, ck).Some? {
        var i :| 0 <= i < |before| && Fails(before[i], ck) && FirstFailure(before, ck) == Some(before[i].t)
                 && (forall j :: i < j < |before| ==> !Succeeds(before[j], ck)) && FailuresSince(before[..i], ck) == 0;
        assert before[..i] == log[..i] && Fails(log[i], ck);
      } else if Fails(e, ck) {
        assert Fails(log[|log| - 1], ck) && log[..|log| - 1] == before;
      }
    }
  }

  /** Every attempt on a key comes at least five seconds after every earlier outcome of it, and
      while it is failing at least the backoff after: 30 s at first, never shrinking, five minutes
      at most. So do two attempts, which have an outcome between them. */
  lemma AttemptsAreSpaced(now: Time, steps: seq<Step>, k: nat, j: nat)
    requires IsRun(Init(now), steps)
    requires var log := After(Init(now), steps).log;
             && k < j < |log| && log[j].Attempted?
             && (Outcome(log[k], log[j].ck) || log[k] == Attempted(log[j].ck, log[k].t))
    ensures var log := After(Init(now), steps).log;
            && log[j].t >= log[k].t + RENEW_FLOOR
            && var f := FailuresSince(log[..j], log[j].ck);
               f > 0 ==> log[j].t >= log[k].t + Backoff(f) >= log[k].t + REFRESH_RETRY_BASE
  {
    hide Inv, CacheAgrees, PassesExact, UsesExact, Floored, Answered, WorkPrompted, AttemptsPrompted, AttemptsAnswered,
      AttemptsSeparated, Clocked, Backoff;
    InvInitially(now);
    HistoryInitially(now);
    EveryHistory(Init(now), steps);
    var s := After(Init(now), steps);
    var ck := s.log[j].ck;
    if Outcome(s.log[k], ck) {
      SpacedIn(s, k, j);
    } else {
      OutcomeFollows(s, k, j);
      var o :| k < o < j && 0 <= o < |s.log| && Outcome(s.log[o], ck);
      SpacedIn(s, o, j);
      OutcomeIsLater(s, k, o);
    }
  }

  lemma OutcomeFollows(s: State, i: nat, j: nat)
    requires AttemptsSeparated(s.log) && i < j < |s.log|
    requires s.log[i].Attempted? && s.log[j].Attempted? && s.log[i].ck == s.log[j].ck
    ensures exists o :: i < o < j && 0 <= o < |s.log| && Outcome(s.log[o], s.log[j].ck)
  {
    assert OutcomeBetween(s.log, s.log[i].ck, i, j);
  }

  lemma OutcomeIsLater(s: State, k: nat, o: nat)
    requires Clocked(s) && k < o < |s.log| && !s.log[o].Pass?
    ensures s.log[k].t <= s.log[o].t
  {
  }

  /** A failure with no success after it counts. */
  lemma {:induction false} FailureCounts(log: seq<Event>, ck: Key, k: nat)
    requires k < |log| && Fails(log[k], ck) && forall i :: k < i < |log| ==> !Succeeds(log[i], ck)
    ensures FailuresSince(log, ck) > 0
  {
    if k < |log| - 1 {
      FailureCounts(log[..|log| - 1], ck, k);
    }
  }

  /** After a failed attempt the next one comes no sooner than 30 s, whenever the failed call came
      back, unless a success came between. */
  lemma FailureDelaysNextAttempt(now: Time, steps: seq<Step>, k: nat, j: nat)
    requires IsRun(Init(now), steps)
    requires var log := After(Init(now), steps).log;
             && k < j < |log| && log[j].Attempted? && Fails(log[k], log[j].ck)
             && forall i :: k < i < j ==> !Succeeds(log[i], log[j].ck)
    ensures var log := After(Init(now), steps).log;
            && FailuresSince(log[..j], log[j].ck) > 0
            && log[j].t >= log[k].t + Backoff(FailuresSince(log[..j], log[j].ck)) >= log[k].t + REFRESH_RETRY_BASE
  {
    var log := After(Init(now), steps).log;
    assert log[..j][k] == log[k];
    FailureCounts(log[..j], log[j].ck, k);
    AttemptsAreSpaced(now, steps, k, j);
  }

  lemma {:induction false} SameFailures(log: seq<Event>, ck: Key, p: nat)
    requires p <= |log| && forall k :: p <= k < |log| ==> !Outcome(log[k], ck)
    ensures FailuresSince(log, ck) == FailuresSince(log[..p], ck)
  {
    if p < |log| {
      SameFailures(log[..|log| - 1], ck, p);
      assert log[..|log| - 1][..p] == log[..p];
    } else {
      assert log[..p] == log;
    }
  }

  lemma SpacedIn(s: State, k: nat, j: nat)
    requires HistoryInv(s) && k < j < |s.log| && s.log[j].Attempted? && Outcome(s.log[k], s.log[j].ck)
    ensures s.log[j].t >= s.log[k].t + RENEW_FLOOR
    ensures var f := FailuresSince(s.log[..j], s.log[j].ck);
            f > 0 ==> s.log[j].t >= s.log[k].t + Backoff(f) >= s.log[k].t + REFRESH_RETRY_BASE
  {
    hide CacheAgrees, PassesExact, Answered, UsesExact, WorkPrompted, AttemptsAnswered, AttemptsSeparated, Floored;
    var ck := s.log[j].ck;
    assert Prompted(s.log, ck, j);
    var p: nat :| p < j && s.log[p].Pass? && ck in s.log[p].due && forall i :: p < i < j ==> !Outcome(s.log[i], ck);
    DueAfterOutcome(s, ck, k, p);
    OutcomeIsLater(s, p, j);
    SameFailures(s.log[..j], ck, p);
    assert s.log[..j][..p] == s.log[..p];
  }

  /** A pass finds a key due no sooner than the floor, or the backoff, after any earlier outcome. */
  lemma DueAfterOutcome(s: State, ck: Key, k: nat, p: nat)
    requires PassesExact(s.log) && Clocked(s) && Floored(s)
    requires k < p < |s.log| && s.log[p].Pass? && ck in s.log[p].due && Outcome(s.log[k], ck)
    ensures s.log[p].t >= s.log[k].t + RENEW_FLOOR
    ensures var f := FailuresSince(s.log[..p], ck);
            f > 0 ==> s.log[p].t >= s.log[k].t + Backoff(f) >= s.log[k].t + REFRESH_RETRY_BASE
  {
    hide Backoff, LastGood, LastUse;
    var before := s.log[..p];
    assert before[k] == s.log[k];
    var m := DeadlineAfterOutcome(before, ck, k);
    assert s.log[k].t <= s.log[m].t;
    assert PassExact(before, s.log[p]);
    assert DueAt(before, ck, s.log[p].t);
    if FailuresSince(before, ck) > 0 {
      BackoffShape(1, FailuresSince(before, ck));
    }
  }

  // ---------------------------------------------------------------------------------------------
  // Whose value a hit is answered with.
  // ---------------------------------------------------------------------------------------------

  /** Over every run a hit is answered with a value of the read that inserted the entry. That read
      has the caller's key; it is the caller's own if and only if the caller asks for what the
      inserting fetch asked for, and without a NUL it can differ only in the store's configuration. */
  lemma ServedOwnReadIff(now: Time, steps: seq<Step>, j: nat)
    requires IsRun(Init(now), steps)
    requires var log := After(Init(now), steps).log; j < |log| && log[j].Used?
    ensures var log := After(Init(now), steps).log;
            var read := LastGood(log[..j], log[j].ck);
            && read.Some? && CacheKey(read.value.spec) == CacheKey(log[j].spec)
            && (read.value.spec == log[j].spec <==> InsertedWith(log[..j], log[j].ck) == Some(log[j].spec))
            && (Plain(Fields(log[j].spec), NUL) ==> SameButConfig(log[j].spec, read.value.spec))
  {
    InvInitially(now);
    HistoryInitially(now);
    EveryHistory(Init(now), steps);
    var log := After(Init(now), steps).log;
    assert UseExact(log[..j], log[j]);
    if Plain(Fields(log[j].spec), NUL) {
      ShareKeyIff(log[j].spec, LastGood(log[..j], log[j].ck).value.spec);
    }
  }

  /** So editing a store in place is enough: the next hit is answered with the value read through
      the store as it was. */
  lemma EditedStoreServesOldRead(now: Time, old_: FetchSpec, edited: FetchSpec, token: string, answer: Answer)
    requires edited == old_.(store := old_.store.(config := edited.store.config)) && edited != old_
    requires ReadSpec(old_, answer).Some?
    ensures var steps := [FetchMiss(old_, token), FirstReadSucceeds(answer), InsertValue, SendSignal,
                          FetchHit(edited, token)];
            && IsRun(Init(now), steps)
            && var log := After(Init(now), steps).log;
               && |log| == 2 && log[1].Used? && log[1].spec == edited
               && LastGood(log[..1], log[1].ck) == Some(Good(old_, ReadSpec(old_, answer).value.data))
  {
    hide CacheKey;
    EditedStoreSharesKey(old_, edited.store.config);
    var s0 := Init(now);
    var s1 := Apply(s0, FetchMiss(old_, token));
    var s2 := Apply(s1, FirstReadSucceeds(answer));
    var s3 := Apply(s2, InsertValue);
    var s4 := Apply(s3, SendSignal);
    assert Enabled(s4, FetchHit(edited, token));
    var s5 := Apply(s4, FetchHit(edited, token));
    FiveSteps(s0, FetchMiss(old_, token), FirstReadSucceeds(answer), InsertValue, SendSignal, FetchHit(edited, token));
    assert s5.log[..1] == s3.log;
  }

  lemma FiveSteps(s: State, a: Step, b: Step, c: Step, d: Step, e: Step)
    requires Enabled(s, a) && Enabled(Apply(s, a), b) && Enabled(Apply(Apply(s, a), b), c)
    requires Enabled(Apply(Apply(Apply(s, a), b), c), d) && Enabled(Apply(Apply(Apply(Apply(s, a), b), c), d), e)
    ensures IsRun(s, [a, b, c, d, e])
    ensures After(s, [a, b, c, d, e]) == Apply(Apply(Apply(Apply(Apply(s, a), b), c), d), e)
  {
    hide Enabled, Apply;
    assert [a, b, c, d, e][1..] == [b, c, d, e] && [b, c, d, e][1..] == [c, d, e] && [c, d, e][1..] == [d, e];
    assert [d, e][1..] == [e] && [e][1..] == [];
    var s4 := Apply(Apply(Apply(Apply(s, a), b), c), d);
    assert IsRun(s4, [e]) && After(s4, [e]) == Apply(s4, e);
    var s3 := Apply(Apply(Apply(s, a), b), c);
    assert IsRun(s3, [d, e]) && After(s3, [d, e]) == Apply(s4, e);
    var s2 := Apply(Apply(s, a), b);
    assert IsRun(s2, [c, d, e]) && After(s2, [c, d, e]) == Apply(s4, e);
    assert IsRun(Apply(s, a), [b, c, d, e]) && After(Apply(s, a), [b, c, d, e]) == Apply(s4, e);
  }
}
