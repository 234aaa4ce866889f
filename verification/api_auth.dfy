// internal/apiauth: who a bearer token is, and the cached reading of whether
// the key table holds any key at all.
module ApiAuth {
  import opened Common

  // Nanoseconds on the monotonic clock.
  type Time = int

  type Hash = string

  datatype ApiKey = ApiKey(name: string, homeNS: string, defaultNS: string, disabled: bool, admin: bool, readOnly: bool)

  type KeyTable = map<Hash, ApiKey>

  const TTL := 10_000_000_000

  // ---- The emptiness cache as a state machine -----------------------------

  // Where the one probe that can hold the lock stands: before the store has
  // looked, or after it looked (at a moment, finding the table empty or not)
  // and before the reading is recorded.
  datatype Probe = Idle | Asking | Sampled(since: Time, nonEmpty: bool)

  // at is None for the zero time, which is longer ago than any TTL.
  datatype State = State(now: Time, table: KeyTable, at: Option<Time>, nonEmpty: bool, probe: Probe)

  // One thing that happens to the server: the clock moves, the table changes,
  // Invalidate is called, or a probe begins, has the store look, and records
  // what it saw or meets an error.
  datatype Event = Tick(d: nat) | Change(table: KeyTable) | Invalidate | Begin | Sample | Stamp | Fail

  predicate IsFresh(s: State) {
    s.at.Some? && s.now - s.at.value < TTL
  }

  // The lock keeps Invalidate and other probes out while one is under way;
  // an event that is kept out leaves the state as it is.
  function Next(s: State, e: Event): State {
    match e
    case Tick(d) => s.(now := s.now + d)
    case Change(table) => s.(table := table)
    case Invalidate => if s.probe.Idle? then s.(at := None) else s
    case Begin => if s.probe.Idle? && !IsFresh(s) then s.(probe := Asking) else s
    case Sample => if s.probe.Asking? then s.(probe := Sampled(s.now, s.table != map[])) else s
    case Stamp => if s.probe.Sampled? then s.(at := Some(s.now), nonEmpty := s.probe.nonEmpty, probe := Idle) else s
    case Fail => if s.probe.Asking? then s.(nonEmpty := true, probe := Idle) else s
  }

  // What a probe answers when an event ends it; a fresh reading ends it at once.
  function Answer(s: State, e: Event): Option<bool> {
    match e
    case Begin => if s.probe.Idle? && IsFresh(s) then Some(s.nonEmpty) else None
    case Stamp => if s.probe.Sampled? then Some(s.probe.nonEmpty) else None
    case Fail => if s.probe.Asking? then Some(true) else None
    case _ => None
  }

  function Run(s: State, evs: seq<Event>): State {
    if evs == [] then s else Next(Run(s, evs[..|evs| - 1]), evs[|evs| - 1])
  }

  function At(s: State, evs: seq<Event>, n: nat): State
    requires n <= |evs|
  {
    Run(s, evs[..n])
  }

  lemma AtNext(s: State, evs: seq<Event>, n: nat)
    requires n < |evs|
    ensures At(s, evs, n + 1) == Next(At(s, evs, n), evs[n])
  {
    assert evs[..n + 1][..n] == evs[..n];
  }

  // A server that has just started.
  predicate IsInitial(s: State) {
    s.at.None? && s.probe.Idle?
  }

  // The store answers within the latency: no reading waits longer than that
  // to be recorded.
  ghost predicate AnswersWithin(s: State, evs: seq<Event>, latency: nat) {
    forall n {:trigger At(s, evs, n)} :: 0 <= n <= |evs| && At(s, evs, n).probe.Sampled? ==>
      At(s, evs, n).now - At(s, evs, n).probe.since <= latency
  }

  predicate Invalidates(s: State, e: Event) {
    e.Invalidate? && s.probe.Idle?
  }

  // The table was empty at step j, at or after the given time, and no
  // Invalidate has taken effect since, up to step n.
  ghost predicate WasEmpty(s: State, evs: seq<Event>, j: nat, n: nat, earliest: Time) {
    && j <= n <= |evs|
    && At(s, evs, j).table == map[] && earliest <= At(s, evs, j).now
    && forall k {:trigger At(s, evs, k)} :: j <= k < n ==> !Invalidates(At(s, evs, k), evs[k])
  }

  ghost predicate EmptySince(s: State, evs: seq<Event>, n: nat, earliest: Time) {
    exists j :: WasEmpty(s, evs, j, n, earliest)
  }

  // What every cached or pending reading of an empty table rests on.
  ghost predicate IsSupported(s: State, evs: seq<Event>, n: nat, latency: nat)
    requires n <= |evs|
  {
    var u := At(s, evs, n);
    && (u.at.Some? && !u.nonEmpty ==> EmptySince(s, evs, n, u.at.value - latency))
    && (u.probe.Sampled? && !u.probe.nonEmpty ==> EmptySince(s, evs, n, u.probe.since))
    && (u.probe.Sampled? ==> u.probe.since <= u.now)
    && (!u.probe.Idle? ==> !IsFresh(u))
    && (u.at.Some? ==> u.at.value <= u.now)
  }

  lemma StaysEmptySince(s: State, evs: seq<Event>, n: nat, earliest: Time)
    requires n < |evs| && EmptySince(s, evs, n, earliest) && !Invalidates(At(s, evs, n), evs[n])
    ensures EmptySince(s, evs, n + 1, earliest)
  {
    var j :| WasEmpty(s, evs, j, n, earliest);
    assert WasEmpty(s, evs, j, n + 1, earliest);
  }

  lemma SupportStep(s: State, evs: seq<Event>, n: nat, latency: nat)
    requires n < |evs| && AnswersWithin(s, evs, latency) && IsSupported(s, evs, n, latency)
    ensures IsSupported(s, evs, n + 1, latency)
  {
    var u, e := At(s, evs, n), evs[n];
    AtNext(s, evs, n);
    var v := At(s, evs, n + 1);
    if !Invalidates(u, e) {
      if u.at.Some? && !u.nonEmpty {
        StaysEmptySince(s, evs, n, u.at.value - latency);
      }
      if u.probe.Sampled? && !u.probe.nonEmpty {
        StaysEmptySince(s, evs, n, u.probe.since);
        assert EmptySince(s, evs, n + 1, u.probe.since);
        if e.Stamp? {
          var j :| WasEmpty(s, evs, j, n + 1, u.probe.since);
          assert WasEmpty(s, evs, j, n + 1, v.at.value - latency);
        }
      }
      if v.probe.Sampled? && !v.probe.nonEmpty && u.probe.Asking? {
        assert WasEmpty(s, evs, n + 1, n + 1, v.probe.since);
      }
    }
  }

  lemma {:induction false} AlwaysSupported(s: State, evs: seq<Event>, n: nat, latency: nat)
    requires n <= |evs| && IsInitial(s) && AnswersWithin(s, evs, latency)
    ensures IsSupported(s, evs, n, latency)
    decreases n
  {
    if n > 0 {
      AlwaysSupported(s, evs, n - 1, latency);
      SupportStep(s, evs, n - 1, latency);
    }
  }

  // A probe that says the table is empty is right about some instant less than
  // TTL plus the store's latency ago, and one after the last Invalidate.
  lemma EmptyAnswerIsRecent(s: State, evs: seq<Event>, n: nat, latency: nat)
    requires n < |evs| && IsInitial(s) && AnswersWithin(s, evs, latency)
    requires Answer(At(s, evs, n), evs[n]) == Some(false)
    ensures EmptySince(s, evs, n, At(s, evs, n).now - 10_000_000_000 - latency + 1)
  {
    var u := At(s, evs, n);
    AlwaysSupported(s, evs, n, latency);
    var earliest := if evs[n].Begin? then u.at.value - latency else u.probe.since;
    assert EmptySince(s, evs, n, earliest);
    assert u.probe.Sampled? ==> u.now - u.probe.since <= latency;
    var j :| WasEmpty(s, evs, j, n, earliest);
    assert WasEmpty(s, evs, j, n, u.now - TTL - latency + 1);
  }

  // So once a key is in the table to stay and Invalidate has been called, no
  // probe ever says the table is empty again.
  lemma EnforcedOnceInvalidated(s: State, evs: seq<Event>, i: nat, n: nat, latency: nat)
    requires i < n < |evs| && IsInitial(s) && AnswersWithin(s, evs, latency)
    requires Invalidates(At(s, evs, i), evs[i])
    requires forall k {:trigger At(s, evs, k)} :: i < k <= n ==> At(s, evs, k).table != map[]
    ensures Answer(At(s, evs, n), evs[n]) != Some(false)
  {
    if Answer(At(s, evs, n), evs[n]) == Some(false) {
      EmptyAnswerIsRecent(s, evs, n, latency);
    }
  }

  // An error answers that a key is required and is not remembered: the next
  // probe asks the store again.
  lemma FailureIsRetried(s: State, evs: seq<Event>, n: nat, latency: nat)
    requires n < |evs| && IsInitial(s) && AnswersWithin(s, evs, latency)
    requires At(s, evs, n).probe.Asking? && evs[n] == Fail
    ensures Answer(At(s, evs, n), evs[n]) == Some(true)
    ensures Next(At(s, evs, n + 1), Begin).probe == Asking
  {
    AlwaysSupported(s, evs, n, latency);
    AtNext(s, evs, n);
  }

  // The probe right after an Invalidate asks the store, and answers what the
  // table is when it looks, or true.
  lemma NextProbeAgrees(s: State, changes: seq<Event>, later: seq<Event>)
    requires s.probe.Idle?
    requires forall e :: e in changes + later ==> e.Tick? || e.Change?
    ensures var asked := Run(Next(Next(s, Invalidate), Begin), changes);
      && asked.probe == Asking && Answer(Next(s, Invalidate), Begin) == None
      && Answer(asked, Fail) == Some(true)
      && Answer(Run(Next(asked, Sample), later), Stamp) == Some(asked.table != map[])
  {
    ProbeKept(Next(Next(s, Invalidate), Begin), changes);
    ProbeKept(Next(Run(Next(Next(s, Invalidate), Begin), changes), Sample), later);
  }

  lemma {:induction false} ProbeKept(s: State, evs: seq<Event>)
    requires forall e :: e in evs ==> e.Tick? || e.Change?
    ensures Run(s, evs).probe == s.probe && Run(s, evs).at == s.at && Run(s, evs).nonEmpty == s.nonEmpty
    ensures s.now <= Run(s, evs).now
  {
    if evs != [] {
      ProbeKept(s, evs[..|evs| - 1]);
    }
  }

  function SlowRun(latency: nat, k: ApiKey): seq<Event> {
    [Begin, Sample, Change(map["h" := k]), Tick(latency), Stamp, Tick(TTL - 1), Begin]
  }

  const BOOTED := State(0, map[], None, false, Idle)

  lemma SlowRunStates(latency: nat, k: ApiKey)
    ensures var evs := SlowRun(latency, k);
      && At(BOOTED, evs, 0) == BOOTED
      && At(BOOTED, evs, 1) == BOOTED.(probe := Asking)
      && At(BOOTED, evs, 2) == BOOTED.(probe := Sampled(0, false))
      && At(BOOTED, evs, 3) == State(0, map["h" := k], None, false, Sampled(0, false))
      && At(BOOTED, evs, 4) == State(latency, map["h" := k], None, false, Sampled(0, false))
      && At(BOOTED, evs, 5) == State(latency, map["h" := k], Some(latency), false, Idle)
      && At(BOOTED, evs, 6) == State(latency + TTL - 1, map["h" := k], Some(latency), false, Idle)
      && At(BOOTED, evs, 7) == At(BOOTED, evs, 6)
  {
    var evs := SlowRun(latency, k);
    AtNext(BOOTED, evs, 0);
    AtNext(BOOTED, evs, 1);
    AtNext(BOOTED, evs, 2);
    AtNext(BOOTED, evs, 3);
    AtNext(BOOTED, evs, 4);
    AtNext(BOOTED, evs, 5);
    AtNext(BOOTED, evs, 6);
  }

  // The reading is dated when it is recorded, not when the store looked, so the
  // latency cannot be left out of the bound: for every latency there is a run
  // that meets it and says the table is empty when it was last empty
  // TTL + latency - 1 ago.
  lemma WindowIsTight(latency: nat, k: ApiKey)
    ensures var evs := SlowRun(latency, k);
      && IsInitial(BOOTED) && AnswersWithin(BOOTED, evs, latency)
      && Answer(At(BOOTED, evs, 6), evs[6]) == Some(false)
      && (forall earliest :: EmptySince(BOOTED, evs, 6, earliest) ==>
          earliest <= At(BOOTED, evs, 6).now - 10_000_000_000 - latency + 1)
  {
    var evs := SlowRun(latency, k);
    SlowRunStates(latency, k);
    forall n | 0 <= n <= |evs| && At(BOOTED, evs, n).probe.Sampled?
      ensures At(BOOTED, evs, n).now - At(BOOTED, evs, n).probe.since <= latency
    {
      assert n == 2 || n == 3 || n == 4;
    }
    assert "h" in map["h" := k];
    forall earliest, j | WasEmpty(BOOTED, evs, j, 6, earliest)
      ensures earliest <= 0
    {
      assert j == 0 || j == 1 || j == 2;
    }
  }

  ghost predicate MeetsDocumentedWindow(s: State, evs: seq<Event>, n: nat, latency: nat) {
    n < |evs| && IsInitial(s) && AnswersWithin(s, evs, latency) && Answer(At(s, evs, n), evs[n]) == Some(false) ==>
      EmptySince(s, evs, n, At(s, evs, n).now - 10_000_000_000 + 1)
  }

  // The documented bound, stale by less than TTL, holds of every run exactly
  // when the store answers in no time.
  lemma DocumentedWindowNeedsInstantStore(latency: nat, k: ApiKey)
    ensures (forall s, evs, n: nat :: MeetsDocumentedWindow(s, evs, n, latency)) <==> latency == 0
  {
    if latency == 0 {
      forall s, evs, n: nat
        ensures MeetsDocumentedWindow(s, evs, n, latency)
      {
        if n < |evs| && IsInitial(s) && AnswersWithin(s, evs, latency) && Answer(At(s, evs, n), evs[n]) == Some(false) {
          EmptyAnswerIsRecent(s, evs, n, 0);
        }
      }
    } else {
      WindowIsTight(latency, k);
      assert !MeetsDocumentedWindow(BOOTED, SlowRun(latency, k), 6, latency);
    }
  }

  // ---- The server ---------------------------------------------------------

  // What others do while this process waits: time passes, and the table may
  // change.
  datatype Drift = Drift(elapsed: nat, table: Option<KeyTable>)

  function Drifting(d: Drift): seq<Event> {
    [Tick(d.elapsed)] + if d.table.Some? then [Change(d.table.value)] else []
  }

  function Drifted(s: State, d: Drift): State {
    s.(now := s.now + d.elapsed, table := if d.table.Some? then d.table.value else s.table)
  }

  lemma RunDrift(s: State, d: Drift)
    ensures Run(s, Drifting(d)) == Drifted(s, d)
  {
    RunOneMore(s, [], Tick(d.elapsed));
    assert [] + [Tick(d.elapsed)] == [Tick(d.elapsed)];
    if d.table.Some? {
      RunOneMore(s, [Tick(d.elapsed)], Change(d.table.value));
    }
  }

  // What happens during a probe that finds the server in state s at the wait
  // numbered k: a fresh reading ends it at once; else the store is asked, and
  // it fails, or looks and then answers.
  function ProbeEvents(s: State, drifts: nat -> Drift, fails: nat -> bool, k: nat): seq<Event> {
    if IsFresh(s) then [Begin]
    else if fails(k) then [Begin] + Drifting(drifts(k)) + [Fail]
    else [Begin] + Drifting(drifts(k)) + [Sample] + Drifting(drifts(k + 1)) + [Stamp]
  }

  datatype StoreError = StoreError

  // The clock and the key store, which others move on whenever this process
  // waits for them. The k-th wait brings the k-th drift, and a call fails if
  // its wait is one that fails.
  class Backend {
    var now: Time
    var table: KeyTable
    const drifts: nat -> Drift
    const fails: nat -> bool
    var waits: nat

    constructor (drifts: nat -> Drift, fails: nat -> bool)
      ensures this.drifts == drifts && this.fails == fails && table == map[] && now == 0 && waits == 0
    {
      this.drifts, this.fails := drifts, fails;
      this.now, this.table, this.waits := 0, map[], 0;
    }

    method Wait()
      modifies this
      ensures waits == old(waits) + 1
      ensures var d := drifts(old(waits));
        now == old(now) + d.elapsed && table == if d.table.Some? then d.table.value else old(table)
    {
      var d := drifts(waits);
      waits := waits + 1;
      now := now + d.elapsed;
      if d.table.Some? {
        table := d.table.value;
      }
    }

    // Reads the keys; both asking and answering take time. `looked` is the
    // table the store looked at.
    method ListAPIKeys() returns (r: Result<set<Hash>, StoreError>, ghost looked: KeyTable)
      modifies this
      ensures r.Err? <==> fails(old(waits))
      ensures waits == old(waits) + if r.Ok? then 2 else 1
      ensures var first, second := drifts(old(waits)), drifts(old(waits) + 1);
        && looked == (if first.table.Some? then first.table.value else old(table))
        && (r.Err? ==> now == old(now) + first.elapsed && table == looked)
        && (r.Ok? ==>
              && r.value == looked.Keys && now == old(now) + first.elapsed + second.elapsed
              && table == if second.table.Some? then second.table.value else looked)
    {
      var k := waits;
      Wait();
      looked := table;
      if fails(k) {
        return Err(StoreError), looked;
      }
      var keys := table.Keys;
      Wait();
      return Ok(keys), looked;
    }

    method GetAPIKeyByHash(h: Hash) returns (r: Result<Option<ApiKey>, StoreError>)
      modifies this
      ensures r.Err? <==> fails(old(waits))
      ensures waits == old(waits) + 1
      ensures var d := drifts(old(waits));
        now == old(now) + d.elapsed && table == if d.table.Some? then d.table.value else old(table)
      ensures r.Ok? ==> r.value == if h in table then Some(table[h]) else None
    {
      var k := waits;
      Wait();
      if fails(k) {
        return Err(StoreError);
      }
      return Ok(if h in table then Some(table[h]) else None);
    }
  }

  lemma HasKeys(table: KeyTable)
    ensures table.Keys != {} <==> table != map[]
  {
  }

  class TableCache {
    var at: Option<Time>
    var nonEmpty: bool

    constructor ()
      ensures at == None && !nonEmpty
    {
      at, nonEmpty := None, false;
    }

    ghost function StateOf(w: Backend): State
      reads this, w
    {
      State(w.now, w.table, at, nonEmpty, Idle)
    }

    // One whole probe, holding the lock, is one run of the machine: through
    // exactly what the backend does meanwhile, to the answer that run gives.
    method TableNonEmpty(w: Backend) returns (r: bool, ghost evs: seq<Event>)
      modifies this, w
      ensures evs == ProbeEvents(old(StateOf(w)), w.drifts, w.fails, old(w.waits))
      ensures w.waits == old(w.waits) + if |evs| == 1 then 0 else if w.fails(old(w.waits)) then 1 else 2
      ensures StateOf(w) == Run(old(StateOf(w)), evs)
      ensures Probed(old(StateOf(w)), evs, r)
    {
      evs := ProbeEvents(StateOf(w), w.drifts, w.fails, w.waits);
      ProbeRuns(StateOf(w), w.drifts, w.fails, w.waits, evs);
      if at.Some? && w.now - at.value < TTL {
        return nonEmpty, evs;
      }
      var keys;
      ghost var looked;
      keys, looked := w.ListAPIKeys();
      if keys.Err? {
        nonEmpty := true;
        return true, evs;
      }
      HasKeys(looked);
      at := Some(w.now);
      nonEmpty := keys.value != {};
      return nonEmpty, evs;
    }

    // Forgets the reading, so that the next probe asks the store.
    method Invalidate(w: Backend)
      modifies this`at
      ensures StateOf(w) == Next(old(StateOf(w)), Event.Invalidate)
    {
      at := None;
    }
  }

  lemma {:induction false} RunAppend(s: State, a: seq<Event>, b: seq<Event>)
    ensures Run(s, a + b) == Run(Run(s, a), b)
  {
    if b == [] {
      assert a + b == a;
    } else {
      assert (a + b)[..|a + b| - 1] == a + b[..|b| - 1];
      RunAppend(s, a, b[..|b| - 1]);
    }
  }

  lemma RunOneMore(s: State, a: seq<Event>, e: Event)
    ensures Run(s, a + [e]) == Next(Run(s, a), e) && (a + [e])[..|a + [e]| - 1] == a
  {
    assert (a + [e])[..|a|] == a;
  }

  lemma BeginAndWait(s: State, past: seq<Event>, d: Drift)
    requires Run(s, past).probe.Idle? && !IsFresh(Run(s, past))
    ensures Run(s, past + [Begin] + Drifting(d)) == Drifted(Run(s, past), d).(probe := Asking)
  {
    RunOneMore(s, past, Begin);
    RunAppend(s, past + [Begin], Drifting(d));
    RunDrift(Run(s, past + [Begin]), d);
  }

  lemma LookAndWait(s: State, past: seq<Event>, d: Drift)
    requires Run(s, past).probe.Asking?
    ensures var u := Run(s, past);
      Run(s, past + [Sample] + Drifting(d)) == Drifted(u, d).(probe := Sampled(u.now, u.table != map[]))
  {
    RunOneMore(s, past, Sample);
    RunAppend(s, past + [Sample], Drifting(d));
    RunDrift(Run(s, past + [Sample]), d);
  }

  lemma FailedProbe(s: State, d: Drift)
    requires s.probe.Idle? && !IsFresh(s)
    ensures var evs := [Begin] + Drifting(d) + [Fail];
      && Run(s, evs) == Drifted(s, d).(nonEmpty := true) && Probed(s, evs, true)
  {
    BeginAndWait(s, [], d);
    assert [] + [Begin] == [Begin];
    RunOneMore(s, [Begin] + Drifting(d), Fail);
  }

  lemma DriftedProbe(s: State, p: Probe, d: Drift)
    ensures Drifted(s.(probe := p), d) == Drifted(s, d).(probe := p)
  {
  }

  lemma LookedProbe(s: State, first: Drift, second: Drift) returns (answered: seq<Event>)
    requires s.probe.Idle? && !IsFresh(s)
    ensures answered == [Begin] + Drifting(first) + [Sample] + Drifting(second)
    ensures var looked := Drifted(s, first);
      Run(s, answered) == Drifted(looked, second).(probe := Sampled(looked.now, looked.table != map[]))
  {
    var asked := [Begin] + Drifting(first);
    BeginAndWait(s, [], first);
    assert [] + [Begin] == [Begin];
    assert Run(s, asked) == Drifted(s, first).(probe := Asking);
    LookAndWait(s, asked, second);
    DriftedProbe(Drifted(s, first), Asking, second);
    answered := asked + [Sample] + Drifting(second);
  }

  lemma StampedProbe(s: State, answered: seq<Event>)
    requires Run(s, answered).probe.Sampled?
    ensures var u := Run(s, answered);
      && Run(s, answered + [Stamp]) == u.(at := Some(u.now), nonEmpty := u.probe.nonEmpty, probe := Idle)
      && Probed(s, answered + [Stamp], u.probe.nonEmpty)
  {
    RunOneMore(s, answered, Stamp);
  }

  lemma WholeProbe(s: State, first: Drift, second: Drift)
    requires s.probe.Idle? && !IsFresh(s)
    ensures var evs := [Begin] + Drifting(first) + [Sample] + Drifting(second) + [Stamp];
      var end, looked := Drifted(Drifted(s, first), second), Drifted(s, first).table;
      Run(s, evs) == end.(at := Some(end.now), nonEmpty := looked != map[]) && Probed(s, evs, looked != map[])
  {
    var answered := LookedProbe(s, first, second);
    StampedProbe(s, answered);
  }

  // Where a probe leaves the server; the reading it leaves is its answer.
  function ProbeEnd(s: State, drifts: nat -> Drift, fails: nat -> bool, k: nat): State {
    var first := Drifted(s, drifts(k));
    if IsFresh(s) then s
    else if fails(k) then first.(nonEmpty := true)
    else
      var end := Drifted(first, drifts(k + 1));
      end.(at := Some(end.now), nonEmpty := first.table != map[])
  }

  lemma ProbeRuns(s: State, drifts: nat -> Drift, fails: nat -> bool, k: nat, evs: seq<Event>)
    requires s.probe.Idle? && evs == ProbeEvents(s, drifts, fails, k)
    ensures Run(s, evs) == ProbeEnd(s, drifts, fails, k) && Probed(s, evs, ProbeEnd(s, drifts, fails, k).nonEmpty)
    ensures |evs| == 1 <==> IsFresh(s)
  {
    if IsFresh(s) {
      RunOneMore(s, [], Begin);
      assert [] + [Begin] == [Begin] && [Begin][..0] == [];
    } else if fails(k) {
      FailedProbe(s, drifts(k));
    } else {
      WholeProbe(s, drifts(k), drifts(k + 1));
    }
  }

  // A probe ran from s, through these events, to this answer.
  ghost predicate Probed(s: State, evs: seq<Event>, nonEmpty: bool) {
    evs != [] && Answer(Run(s, evs[..|evs| - 1]), evs[|evs| - 1]) == Some(nonEmpty)
  }

  // ---- Authentication -----------------------------------------------------

  datatype Principal = Principal(name: string, homeNS: string, defaultNS: string, admin: bool, readOnly: bool)

  function PrincipalOf(k: ApiKey): Principal {
    Principal(k.name, k.homeNS, k.defaultNS, k.admin, k.readOnly)
  }

  datatype Verdict = Admitted(principal: Option<Principal>) | Rejected | Errored

  // Copied freely: the cache is shared by every copy. An absent key file is an
  // absent map; without a key store there is no table.
  datatype Config = Config(apiKey: string, hasStore: bool, fileKeys: Option<KeyTable>, cache: TableCache,
                           hash: string -> Hash) {
    predicate IsAdmin(token: string) {
      apiKey != "" && token == apiKey
    }

    predicate IsFileKey(token: string) {
      token != "" && fileKeys.Some? && hash(token) in fileKeys.value
    }

    // A token the table, and only the table, can vouch for.
    predicate AsksTable(token: string) {
      token != "" && hasStore && !IsFileKey(token) && !IsAdmin(token)
    }

    predicate FileEnforces() {
      fileKeys.Some? && fileKeys.value != map[]
    }

    // Nothing but the table could require a credential.
    predicate Probes(token: string) {
      !IsAdmin(token) && !IsFileKey(token) && !AsksTable(token) && apiKey == "" && !FileEnforces() && hasStore
    }
  }

  // What happens while a request is authenticated.
  ghost function LoginEvents(c: Config, token: string, s: State, drifts: nat -> Drift, fails: nat -> bool,
                             k: nat): seq<Event> {
    if c.AsksTable(token) then Drifting(drifts(k))
    else if c.Probes(token) then ProbeEvents(s, drifts, fails, k)
    else []
  }

  // The file lists a key, disabled or not, under this hash.
  ghost predicate IsFiled(files: Option<KeyTable>, h: Hash) {
    files.Some? && h in files.value
  }

  // A key is held under this hash, in the file or, if not there, in the table.
  ghost predicate IsHeld(files: Option<KeyTable>, table: KeyTable, h: Hash, key: ApiKey) {
    if IsFiled(files, h) then key == files.value[h] else h in table && key == table[h]
  }

  // The principal a key stands for has its name, its namespaces and its
  // rights, and no others.
  ghost predicate StandsFor(p: Principal, key: ApiKey) {
    && p.name == key.name && p.homeNS == key.homeNS && p.defaultNS == key.defaultNS
    && (p.admin <==> key.admin) && (p.readOnly <==> key.readOnly)
  }

  // Every verdict has its own grounds, and the grounds exclude one another: a
  // key is believed from the file before the table, for what it is and no
  // more; a disabled or unknown one is never taken for no credential; an error
  // is the store's; and no credential is enough only where nothing holds a
  // key, as far as the probe can tell. What happens meanwhile is what the
  // backend does.
  method Authenticate(c: Config, token: string, w: Backend) returns (v: Verdict, ghost evs: seq<Event>)
    modifies c.cache, w
    ensures evs == LoginEvents(c, token, old(c.cache.StateOf(w)), w.drifts, w.fails, old(w.waits))
    ensures c.cache.StateOf(w) == Run(old(c.cache.StateOf(w)), evs)
    ensures c.apiKey != "" && token == c.apiKey ==> v == Admitted(None)
    ensures token != "" && token != c.apiKey && IsFiled(c.fileKeys, c.hash(token)) ==>
      var key := c.fileKeys.value[c.hash(token)];
      if key.disabled then v == Rejected else v.Admitted? && v.principal.Some? && StandsFor(v.principal.value, key)
    ensures token != "" && token != c.apiKey && !IsFiled(c.fileKeys, c.hash(token)) && c.hasStore ==>
      if w.fails(old(w.waits)) then v == Errored
      else if c.hash(token) !in w.table || w.table[c.hash(token)].disabled then v == Rejected
      else v.Admitted? && v.principal.Some? && StandsFor(v.principal.value, w.table[c.hash(token)])
    ensures token == "" || (token != c.apiKey && !IsFiled(c.fileKeys, c.hash(token)) && !c.hasStore) ==>
      if c.apiKey != "" || (c.fileKeys.Some? && c.fileKeys.value != map[]) then v == Rejected
      else if !c.hasStore then v == Admitted(None)
      else
        || (v == Admitted(None) && Probed(old(c.cache.StateOf(w)), evs, false))
        || (v == Rejected && Probed(old(c.cache.StateOf(w)), evs, true))
    ensures v.Admitted? && v.principal.Some? ==>
      && (v.principal.value.admin ==>
            exists key :: IsHeld(c.fileKeys, w.table, c.hash(token), key) && key.admin)
      && (!v.principal.value.readOnly ==>
            exists key :: IsHeld(c.fileKeys, w.table, c.hash(token), key) && !key.readOnly)
  {
    evs := [];
    if c.apiKey != "" && token == c.apiKey {
      return Admitted(None), evs;
    }
    if token != "" && c.fileKeys.Some? {
      var h := c.hash(token);
      if h in c.fileKeys.value {
        var key := c.fileKeys.value[h];
        if key.disabled {
          return Rejected, evs;
        }
        return Admitted(Some(PrincipalOf(key))), evs;
      }
    }
    if token != "" && c.hasStore {
      RunDrift(c.cache.StateOf(w), w.drifts(w.waits));
      evs := Drifting(w.drifts(w.waits));
      var key := w.GetAPIKeyByHash(c.hash(token));
      if key.Err? {
        return Errored, evs;
      }
      if key.value.Some? && !key.value.value.disabled {
        return Admitted(Some(PrincipalOf(key.value.value))), evs;
      }
      return Rejected, evs;
    }
    if c.apiKey != "" {
      return Rejected, evs;
    }
    if c.fileKeys.Some? && |c.fileKeys.value| > 0 {
      return Rejected, evs;
    }
    if c.hasStore {
      var nonEmpty;
      nonEmpty, evs := c.cache.TableNonEmpty(w);
      if nonEmpty {
        return Rejected, evs;
      }
    }
    return Admitted(None), evs;
  }

  // ---- What an admission says ---------------------------------------------

  lemma AnswersOneMore(s: State, evs: seq<Event>, e: Event, latency: nat)
    requires AnswersWithin(s, evs, latency)
    requires var u := Next(Run(s, evs), e); u.probe.Sampled? ==> u.now - u.probe.since <= latency
    ensures AnswersWithin(s, evs + [e], latency)
  {
    var all := evs + [e];
    RunOneMore(s, evs, e);
    assert all[..|all|] == all && evs[..|evs|] == evs;
    forall n {:trigger At(s, all, n)} | 0 <= n <= |all| && At(s, all, n).probe.Sampled?
      ensures At(s, all, n).now - At(s, all, n).probe.since <= latency
    {
      if n <= |evs| {
        assert all[..n] == evs[..n];
        assert At(s, all, n) == At(s, evs, n);
      }
    }
  }

  lemma AnswersDrifting(s: State, evs: seq<Event>, d: Drift, latency: nat)
    requires AnswersWithin(s, evs, latency)
    requires var u := Run(s, evs); u.probe.Sampled? ==> u.now + d.elapsed - u.probe.since <= latency
    ensures AnswersWithin(s, evs + Drifting(d), latency)
  {
    RunOneMore(s, evs, Tick(d.elapsed));
    AnswersOneMore(s, evs, Tick(d.elapsed), latency);
    if d.table.Some? {
      AnswersOneMore(s, evs + [Tick(d.elapsed)], Change(d.table.value), latency);
      assert evs + Drifting(d) == evs + [Tick(d.elapsed)] + [Change(d.table.value)];
    } else {
      assert evs + Drifting(d) == evs + [Tick(d.elapsed)];
    }
  }

  lemma AnswersBegun(s: State, past: seq<Event>, d: Drift, latency: nat)
    requires AnswersWithin(s, past, latency) && Run(s, past).probe.Idle? && !IsFresh(Run(s, past))
    ensures AnswersWithin(s, past + [Begin] + Drifting(d), latency)
  {
    AnswersOneMore(s, past, Begin, latency);
    RunOneMore(s, past, Begin);
    AnswersDrifting(s, past + [Begin], d, latency);
  }

  lemma AnswersLooked(s: State, past: seq<Event>, d: Drift, latency: nat)
    requires AnswersWithin(s, past, latency) && Run(s, past).probe.Asking? && d.elapsed <= latency
    ensures AnswersWithin(s, past + [Sample] + Drifting(d), latency)
  {
    AnswersOneMore(s, past, Sample, latency);
    RunOneMore(s, past, Sample);
    AnswersDrifting(s, past + [Sample], d, latency);
  }

  // A probe's own events keep the store within its latency, if its answer
  // takes no longer.
  lemma ProbeAnswers(s: State, past: seq<Event>, drifts: nat -> Drift, fails: nat -> bool, k: nat, latency: nat)
    requires AnswersWithin(s, past, latency) && Run(s, past).probe.Idle? && drifts(k + 1).elapsed <= latency
    ensures AnswersWithin(s, past + ProbeEvents(Run(s, past), drifts, fails, k), latency)
  {
    var u, asked := Run(s, past), past + [Begin] + Drifting(drifts(k));
    var answered := asked + [Sample] + Drifting(drifts(k + 1));
    if IsFresh(u) {
      AnswersOneMore(s, past, Begin, latency);
    } else {
      AnswersBegun(s, past, drifts(k), latency);
      BeginAndWait(s, past, drifts(k));
      if fails(k) {
        AnswersOneMore(s, asked, Fail, latency);
        assert past + ProbeEvents(u, drifts, fails, k) == asked + [Fail];
      } else {
        AnswersLooked(s, asked, drifts(k + 1), latency);
        LookAndWait(s, asked, drifts(k + 1));
        AnswersOneMore(s, answered, Stamp, latency);
        assert past + ProbeEvents(u, drifts, fails, k) == answered + [Stamp];
      }
    }
  }

  lemma ProbedAt(s: State, past: seq<Event>, evs: seq<Event>, all: seq<Event>, n: nat, nonEmpty: bool)
    requires Probed(Run(s, past), evs, nonEmpty) && all == past + evs && n == |past| + |evs| - 1
    ensures Answer(At(s, all, n), all[n]) == Some(nonEmpty)
  {
    var init := evs[..|evs| - 1];
    assert all[..n] == past + init;
    RunAppend(s, past, init);
  }

  lemma AdmissionAt(s: State, past: seq<Event>, evs: seq<Event>, all: seq<Event>, n: nat, latency: nat)
    requires Probed(Run(s, past), evs, false) && all == past + evs && n == |past| + |evs| - 1
    requires IsInitial(s) && AnswersWithin(s, all, latency)
    ensures EmptySince(s, all, n, At(s, all, n).now - 10_000_000_000 - latency + 1)
  {
    ProbedAt(s, past, evs, all, n, false);
    EmptyAnswerIsRecent(s, all, n, latency);
  }

  // A request without a credential, to a server with any past, is admitted on
  // the probe's word only if the table was empty less than TTL plus the
  // store's latency before, and since the last Invalidate: in the past, or
  // while the probe ran.
  lemma TokenlessAdmission(s: State, past: seq<Event>, evs: seq<Event>, all: seq<Event>, drifts: nat -> Drift,
                           fails: nat -> bool,
                           k: nat, latency: nat)
    requires IsInitial(s) && AnswersWithin(s, past, latency) && Run(s, past).probe.Idle?
    requires drifts(k + 1).elapsed <= latency
    requires evs == ProbeEvents(Run(s, past), drifts, fails, k) && Probed(Run(s, past), evs, false) && all == past + evs
    ensures EmptySince(s, all, |all| - 1, At(s, all, |all| - 1).now - 10_000_000_000 - latency + 1)
  {
    ProbeAnswers(s, past, drifts, fails, k, latency);
    AdmissionAt(s, past, evs, all, |all| - 1, latency);
  }
}
