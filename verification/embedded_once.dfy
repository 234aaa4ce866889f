// How often a text is sent to the embedding endpoint, along any run of
// interleaved calls to a cache: the promise of both caches is "once".
module EmbeddedOnce {
  import opened Common
  import opened Batching
  import opened DiskCaching

  // The run so far, n steps in.
  function StateAt(s: State, steps: seq<Step>, n: nat, key: string -> string, f: string -> Vec): State
    requires n <= |steps|
  {
    Run(s, steps[..n], key, f)
  }

  lemma StateAtStart(s: State, steps: seq<Step>, key: string -> string, f: string -> Vec)
    ensures StateAt(s, steps, 0, key, f) == s
  {
    assert steps[..0] == [];
  }

  lemma StateNext(s: State, steps: seq<Step>, n: nat, key: string -> string, f: string -> Vec)
    requires n < |steps|
    ensures StateAt(s, steps, n + 1, key, f) == Next(StateAt(s, steps, n, key, f), steps[n], key, f)
  {
    assert steps[..n + 1][..n] == steps[..n];
  }

  predicate IsAsking(s: State, c: nat) {
    c in s.callers && s.callers[c].Looking? && |s.callers[c].found| == |s.callers[c].texts|
  }

  // The texts a step sends: what the caller misses, or the part of it that
  // went out before a request failed.
  function SentBy(s: State, step: Step): seq<string> {
    if step.Ask? && IsAsking(s, step.c) then
      var missing := Missing(s.callers[step.c].texts, s.callers[step.c].found);
      if step.succeeds || step.sent >= |missing| then missing else missing[..step.sent]
    else []
  }

  // How often the step numbered i sends t.
  function SendsAt(s: State, steps: seq<Step>, i: nat, key: string -> string, f: string -> Vec, t: string): nat
    requires i < |steps|
  {
    multiset(SentBy(StateAt(s, steps, i, key, f), steps[i]))[t]
  }

  function Total(counts: seq<nat>): nat {
    if counts == [] then 0 else Total(counts[..|counts| - 1]) + counts[|counts| - 1]
  }

  // How often the whole run does.
  function Sends(s: State, steps: seq<Step>, key: string -> string, f: string -> Vec, t: string): nat {
    Total(seq(|steps|, i requires 0 <= i < |steps| => SendsAt(s, steps, i, key, f, t)))
  }

  // ---- Counting -----------------------------------------------------------

  lemma {:induction false} TotalSome(counts: seq<nat>)
    ensures Total(counts) > 0 <==> exists i :: 0 <= i < |counts| && counts[i] > 0
  {
    if counts != [] {
      var n := |counts| - 1;
      TotalSome(counts[..n]);
      assert forall i :: 0 <= i < n ==> counts[..n][i] == counts[i];
    }
  }

  // More than one is one count above one, or two above zero.
  lemma {:induction false} TotalMany(counts: seq<nat>)
    ensures Total(counts) > 1 <==>
      (exists i :: 0 <= i < |counts| && counts[i] > 1) ||
        (exists i, j :: 0 <= i < j < |counts| && counts[i] > 0 && counts[j] > 0)
  {
    if counts != [] {
      var n := |counts| - 1;
      TotalMany(counts[..n]);
      TotalSome(counts[..n]);
      assert forall i :: 0 <= i < n ==> counts[..n][i] == counts[i];
    }
  }

  ghost predicate IsSender(s: State, steps: seq<Step>, i: nat, key: string -> string, f: string -> Vec, t: string) {
    i < |steps| && SendsAt(s, steps, i, key, f, t) > 0
  }

  ghost predicate IsRepeat(s: State, steps: seq<Step>, i: nat, key: string -> string, f: string -> Vec, t: string) {
    i < |steps| && SendsAt(s, steps, i, key, f, t) > 1
  }

  ghost predicate AreSenders(s: State, steps: seq<Step>, i: nat, j: nat, key: string -> string, f: string -> Vec,
                             t: string) {
    i < j && IsSender(s, steps, i, key, f, t) && IsSender(s, steps, j, key, f, t)
  }

  // More than one send is a step that repeats the text, or two steps.
  lemma SendsMany(s: State, steps: seq<Step>, key: string -> string, f: string -> Vec, t: string)
    ensures Sends(s, steps, key, f, t) > 1 <==>
      (exists i :: IsRepeat(s, steps, i, key, f, t)) || (exists i, j :: AreSenders(s, steps, i, j, key, f, t))
  {
    var counts: seq<nat> := seq(|steps|, i requires 0 <= i < |steps| => SendsAt(s, steps, i, key, f, t));
    TotalMany(counts);
    forall i: nat | i < |steps|
      ensures counts[i] > 1 <==> IsRepeat(s, steps, i, key, f, t)
      ensures counts[i] > 0 <==> IsSender(s, steps, i, key, f, t)
    {
    }
    if i, j :| 0 <= i < j < |counts| && counts[i] > 0 && counts[j] > 0 {
      assert AreSenders(s, steps, i, j, key, f, t);
    }
  }

  // ---- Why a text is sent again -------------------------------------------

  // At the step numbered l this caller, its call begun, looked up and the cache
  // did not have the text.
  ghost predicate Misses(s: State, steps: seq<Step>, l: nat, c: nat, key: string -> string, f: string -> Vec,
                         t: string) {
    && l < |steps| && steps[l].Look? && steps[l].c == c
    && c in StateAt(s, steps, l, key, f).callers && key(t) !in StateAt(s, steps, l, key, f).cache
  }

  lemma {:induction false} MissingAt(texts: seq<string>, found: seq<Option<Vec>>, t: string)
    requires |found| == |texts| && t in Missing(texts, found)
    ensures exists q :: 0 <= q < |texts| && texts[q] == t && found[q].None?
  {
    if found[0].None? && texts[0] == t {
    } else {
      MissingAt(texts[1..], found[1..], t);
      var q :| 0 <= q < |texts[1..]| && texts[1..][q] == t && found[1..][q].None?;
      assert texts[q + 1] == t && found[q + 1].None?;
    }
  }

  // A step leaves what a caller has not found as it was, or is its look-up.
  lemma NotFoundStep(u: State, step: Step, c: nat, q: nat, key: string -> string, f: string -> Vec)
    requires var v := Next(u, step, key, f);
      && c in v.callers && v.callers[c].Looking? && |v.callers[c].found| <= |v.callers[c].texts|
      && q < |v.callers[c].found| && v.callers[c].found[q].None?
    ensures var w := Next(u, step, key, f).callers[c];
      && c in u.callers && u.callers[c].Looking? && u.callers[c].texts == w.texts && |u.callers[c].found| <= |w.found|
      && if q < |u.callers[c].found| then u.callers[c].found[q].None?
         else step.Look? && step.c == c && key(w.texts[q]) !in u.cache
  {
  }

  // What a caller has not found, it looked for and missed.
  lemma {:induction false} NotFoundWasMissed(s: State, steps: seq<Step>, n: nat, c: nat, q: nat,
                                             key: string -> string, f: string -> Vec)
    returns (l: nat)
    requires n <= |steps| && s.callers == map[] && c in StateAt(s, steps, n, key, f).callers
    requires var w := StateAt(s, steps, n, key, f).callers[c];
      w.Looking? && |w.found| <= |w.texts| && q < |w.found| && w.found[q].None?
    ensures l < n && Misses(s, steps, l, c, key, f, StateAt(s, steps, n, key, f).callers[c].texts[q])
    decreases n
  {
    StateAtStart(s, steps, key, f);
    var u, v := StateAt(s, steps, n - 1, key, f), StateAt(s, steps, n, key, f);
    StateNext(s, steps, n - 1, key, f);
    NotFoundStep(u, steps[n - 1], c, q, key, f);
    if q < |u.callers[c].found| {
      l := NotFoundWasMissed(s, steps, n - 1, c, q, key, f);
    } else {
      l := n - 1;
    }
  }

  // A caller that has an answer for t on its way to the cache.
  ghost predicate InFlight(s: State, c: nat, t: string) {
    && c in s.callers && CanFill(s.callers[c], 0)
    && t in Missing(s.callers[c].texts, s.callers[c].found)[s.callers[c].filled..]
  }

  predicate Forgets(step: Step, k: string) {
    step.Restart? || (step.Evict? && k in step.keys)
  }

  // Between these steps the text was forgotten.
  ghost predicate IsForgotten(steps: seq<Step>, i: nat, n: nat, k: string) {
    exists p :: i <= p < n <= |steps| && Forgets(steps[p], k)
  }

  lemma {:induction false} FilledHas(cache: Cache, key: string -> string, texts: seq<string>, vecs: seq<Vec>, t: string)
    requires |texts| == |vecs| && t in texts
    ensures key(t) in Filled(cache, key, texts, vecs)
  {
    var n := |texts| - 1;
    if t != texts[n] {
      assert texts == texts[..n] + [texts[n]];
      FilledHas(cache, key, texts[..n], vecs[..n], t);
    }
  }

  lemma RecordedOrForgotten(s: State, step: Step, key: string -> string, f: string -> Vec, k: string)
    requires k in s.cache && !Forgets(step, k)
    ensures k in Next(s, step, key, f).cache
  {
    if step.Fill? && step.c in s.callers && CanFill(s.callers[step.c], step.n) {
      FilledKeepsKeys(s.cache, key, NextTexts(s.callers[step.c], step.n), NextVecs(s.callers[step.c], step.n));
    }
  }

  lemma FlightNext(s: State, step: Step, c: nat, key: string -> string, f: string -> Vec, t: string)
    requires InFlight(s, c, t) && !step.Restart?
    ensures var v := Next(s, step, key, f); key(t) in v.cache || InFlight(v, c, t)
  {
    var w := s.callers[c];
    var missing := Missing(w.texts, w.found);
    if step.Fill? && step.c == c && CanFill(w, step.n) {
      assert missing[w.filled..] == NextTexts(w, step.n) + missing[w.filled + step.n..];
      if t in NextTexts(w, step.n) {
        FilledHas(s.cache, key, NextTexts(w, step.n), NextVecs(w, step.n), t);
      }
    }
  }

  lemma JustSent(s: State, step: Step, key: string -> string, f: string -> Vec, t: string)
    requires t in SentBy(s, step) && step.succeeds
    ensures InFlight(Next(s, step, key, f), step.c, t)
  {
    var w := s.callers[step.c];
    assert Missing(w.texts, w.found)[0..] == Missing(w.texts, w.found);
  }

  // An answer for t is recorded, or on its way.
  ghost predicate IsHeld(s: State, c: nat, key: string -> string, t: string) {
    key(t) in s.cache || InFlight(s, c, t)
  }

  lemma HeldNext(s: State, step: Step, c: nat, key: string -> string, f: string -> Vec, t: string)
    requires IsHeld(s, c, key, t) && !Forgets(step, key(t))
    ensures IsHeld(Next(s, step, key, f), c, key, t)
  {
    if key(t) in s.cache {
      RecordedOrForgotten(s, step, key, f, key(t));
    } else {
      FlightNext(s, step, c, key, f, t);
    }
  }

  // After an Ask that succeeds the text is held, until it is forgotten.
  lemma {:induction false} SentIsKept(s: State, steps: seq<Step>, i: nat, n: nat, key: string -> string,
                                      f: string -> Vec, t: string)
    requires i < n <= |steps| && t in SentBy(StateAt(s, steps, i, key, f), steps[i]) && steps[i].succeeds
    ensures IsForgotten(steps, i, n, key(t)) || IsHeld(StateAt(s, steps, n, key, f), steps[i].c, key, t)
    decreases n
  {
    var u := StateAt(s, steps, n - 1, key, f);
    StateNext(s, steps, n - 1, key, f);
    if n == i + 1 {
      JustSent(u, steps[i], key, f, t);
    } else if !IsForgotten(steps, i, n, key(t)) {
      assert !IsForgotten(steps, i, n - 1, key(t)) && !Forgets(steps[n - 1], key(t));
      SentIsKept(s, steps, i, n - 1, key, f, t);
      HeldNext(u, steps[n - 1], steps[i].c, key, f, t);
    }
  }

  // Why the text was looked up in vain at step l although step i had asked for
  // it: it had not yet, or had failed, or its answer was on its way, or it had
  // been forgotten.
  ghost predicate IsExcused(s: State, steps: seq<Step>, i: nat, l: nat, key: string -> string, f: string -> Vec,
                            t: string)
    requires i < |steps| && l < |steps| && steps[i].Ask?
  {
    || l < i
    || !steps[i].succeeds
    || InFlight(StateAt(s, steps, l, key, f), steps[i].c, t)
    || IsForgotten(steps, i, l, key(t))
  }

  // Steps i and j both send the text; the caller of j missed it at step l, for
  // one of those reasons.
  ghost predicate IsSentAgain(s: State, steps: seq<Step>, i: nat, j: nat, l: nat, key: string -> string,
                              f: string -> Vec, t: string) {
    && AreSenders(s, steps, i, j, key, f, t) && l < j && Misses(s, steps, l, steps[j].c, key, f, t)
    && IsExcused(s, steps, i, l, key, f, t)
  }

  lemma SenderAsks(s: State, steps: seq<Step>, i: nat, key: string -> string, f: string -> Vec, t: string)
    requires IsSender(s, steps, i, key, f, t)
    ensures steps[i].Ask? && IsAsking(StateAt(s, steps, i, key, f), steps[i].c)
    ensures t in SentBy(StateAt(s, steps, i, key, f), steps[i])
    ensures var w := StateAt(s, steps, i, key, f).callers[steps[i].c]; t in Missing(w.texts, w.found)
  {
    assert t in SentBy(StateAt(s, steps, i, key, f), steps[i]);
  }

  // A caller that sends a text looked it up before and missed it.
  lemma SenderMissed(s: State, steps: seq<Step>, j: nat, key: string -> string, f: string -> Vec, t: string)
    returns (l: nat)
    requires s.callers == map[] && IsSender(s, steps, j, key, f, t)
    ensures l < j && Misses(s, steps, l, steps[j].c, key, f, t)
  {
    SenderAsks(s, steps, j, key, f, t);
    var w := StateAt(s, steps, j, key, f).callers[steps[j].c];
    MissingAt(w.texts, w.found, t);
    var q :| 0 <= q < |w.texts| && w.texts[q] == t && w.found[q].None?;
    l := NotFoundWasMissed(s, steps, j, steps[j].c, q, key, f);
  }

  lemma SentAgainIsExcused(s: State, steps: seq<Step>, i: nat, j: nat, key: string -> string, f: string -> Vec,
                           t: string)
    returns (l: nat)
    requires s.callers == map[] && AreSenders(s, steps, i, j, key, f, t)
    ensures IsSentAgain(s, steps, i, j, l, key, f, t)
  {
    SenderAsks(s, steps, i, key, f, t);
    l := SenderMissed(s, steps, j, key, f, t);
    if i < l && steps[i].succeeds {
      SentIsKept(s, steps, i, l, key, f, t);
    }
  }

  // In any run, a text is sent more than once if and only if one call repeats
  // it, or two calls send it, of which the later one looked it up in vain
  // before the earlier one asked, or while its answer was on its way, or after
  // it failed, or after the text was evicted or lost with the process.
  lemma SentMoreThanOnce(s: State, steps: seq<Step>, key: string -> string, f: string -> Vec, t: string)
    requires s.callers == map[]
    ensures Sends(s, steps, key, f, t) > 1 <==>
      (exists i :: IsRepeat(s, steps, i, key, f, t)) || (exists i, j, l :: IsSentAgain(s, steps, i, j, l, key, f, t))
  {
    SendsMany(s, steps, key, f, t);
    if i, j :| AreSenders(s, steps, i, j, key, f, t) {
      var l := SentAgainIsExcused(s, steps, i, j, key, f, t);
    }
    if i, j, l :| IsSentAgain(s, steps, i, j, l, key, f, t) {
      assert AreSenders(s, steps, i, j, key, f, t);
    }
  }

  // ---- Runs that send a text once -----------------------------------------

  predicate IsFinished(w: Caller) {
    w.Returned? || w.Errored?
  }

  predicate AllFinished(s: State) {
    forall c :: c in s.callers ==> IsFinished(s.callers[c])
  }

  // This step loses no entry of the text, fails no request, and begins no call
  // that repeats the text or meets another that has not come back.
  predicate IsOrderly(s: State, step: Step, key: string -> string, t: string) {
    && !Forgets(step, key(t))
    && (step.Ask? ==> step.succeeds)
    && (step.Call? ==> multiset(step.texts)[t] <= 1 && AllFinished(s))
  }

  ghost predicate AreOrderly(s: State, steps: seq<Step>, key: string -> string, f: string -> Vec, t: string) {
    forall i {:trigger IsOrderly(StateAt(s, steps, i, key, f), steps[i], key, t)} :: 0 <= i < |steps| ==>
      IsOrderly(StateAt(s, steps, i, key, f), steps[i], key, t)
  }

  // No two calls are under way, and none repeats the text.
  ghost predicate IsOneAtATime(s: State, t: string) {
    && (forall c, d :: c in s.callers && d in s.callers && c != d ==>
        IsFinished(s.callers[c]) || IsFinished(s.callers[d]))
    && (forall c :: c in s.callers ==> multiset(s.callers[c].texts)[t] <= 1)
  }

  // A call goes forward only.
  ghost predicate IsForward(was: Caller, now: Caller) {
    now.texts == was.texts && (IsFinished(was) ==> IsFinished(now)) && (!was.Looking? ==> !now.Looking?)
  }

  lemma CallNext(s: State, step: Step, c: nat, key: string -> string, f: string -> Vec)
    requires c in s.callers && !step.Restart?
    ensures c in Next(s, step, key, f).callers && IsForward(s.callers[c], Next(s, step, key, f).callers[c])
  {
  }

  lemma OneAtATimeNext(s: State, step: Step, key: string -> string, f: string -> Vec, t: string)
    requires IsOneAtATime(s, t) && IsOrderly(s, step, key, t)
    ensures IsOneAtATime(Next(s, step, key, f), t)
  {
    var v := Next(s, step, key, f);
    forall c | c in s.callers
      ensures c in v.callers && IsForward(s.callers[c], v.callers[c])
    {
      CallNext(s, step, c, key, f);
    }
    if step.Call? && step.c !in s.callers {
      assert v.callers == s.callers[step.c := Looking(step.texts, [])];
    } else {
      assert v.callers.Keys == s.callers.Keys;
    }
  }

  lemma {:induction false} StaysOneAtATime(s: State, steps: seq<Step>, n: nat, key: string -> string,
                                           f: string -> Vec, t: string)
    requires s.callers == map[] && n <= |steps| && AreOrderly(s, steps, key, f, t)
    ensures IsOneAtATime(StateAt(s, steps, n, key, f), t)
    decreases n
  {
    StateAtStart(s, steps, key, f);
    if n > 0 {
      StaysOneAtATime(s, steps, n - 1, key, f, t);
      StateNext(s, steps, n - 1, key, f);
      OneAtATimeNext(StateAt(s, steps, n - 1, key, f), steps[n - 1], key, f, t);
    }
  }

  lemma CallStep(s: State, steps: seq<Step>, n: nat, c: nat, key: string -> string, f: string -> Vec, t: string)
    requires n < |steps| && AreOrderly(s, steps, key, f, t) && c in StateAt(s, steps, n, key, f).callers
    ensures c in StateAt(s, steps, n + 1, key, f).callers
    ensures IsForward(StateAt(s, steps, n, key, f).callers[c], StateAt(s, steps, n + 1, key, f).callers[c])
  {
    assert IsOrderly(StateAt(s, steps, n, key, f), steps[n], key, t);
    StateNext(s, steps, n, key, f);
    CallNext(StateAt(s, steps, n, key, f), steps[n], c, key, f);
  }

  lemma {:induction false} CallsGoForward(s: State, steps: seq<Step>, m: nat, n: nat, c: nat, key: string -> string,
                                          f: string -> Vec, t: string)
    requires m <= n <= |steps| && AreOrderly(s, steps, key, f, t) && c in StateAt(s, steps, m, key, f).callers
    ensures c in StateAt(s, steps, n, key, f).callers
    ensures IsForward(StateAt(s, steps, m, key, f).callers[c], StateAt(s, steps, n, key, f).callers[c])
    decreases n
  {
    if m < n {
      CallsGoForward(s, steps, m, n - 1, c, key, f, t);
      CallStep(s, steps, n - 1, c, key, f, t);
    }
  }

  lemma {:induction false} MissingIsPart(texts: seq<string>, found: seq<Option<Vec>>, t: string)
    requires |found| == |texts|
    ensures multiset(Missing(texts, found))[t] <= multiset(texts)[t]
  {
    if texts != [] {
      MissingIsPart(texts[1..], found[1..], t);
      assert texts == [texts[0]] + texts[1..];
    }
  }

  lemma NoRepeat(s: State, steps: seq<Step>, i: nat, key: string -> string, f: string -> Vec, t: string)
    requires s.callers == map[] && i < |steps| && AreOrderly(s, steps, key, f, t)
    ensures !IsRepeat(s, steps, i, key, f, t)
  {
    var u := StateAt(s, steps, i, key, f);
    StaysOneAtATime(s, steps, i, key, f, t);
    assert IsOrderly(u, steps[i], key, t);
    if steps[i].Ask? && IsAsking(u, steps[i].c) {
      MissingIsPart(u.callers[steps[i].c].texts, u.callers[steps[i].c].found, t);
    }
  }

  // The same call does not send twice.
  lemma SenderIsDone(s: State, steps: seq<Step>, i: nat, j: nat, key: string -> string, f: string -> Vec, t: string)
    requires AreOrderly(s, steps, key, f, t) && AreSenders(s, steps, i, j, key, f, t)
    ensures steps[i].Ask? && steps[j].Ask? && steps[i].c != steps[j].c
  {
    SenderAsks(s, steps, i, key, f, t);
    SenderAsks(s, steps, j, key, f, t);
    StateNext(s, steps, i, key, f);
    CallsGoForward(s, steps, i + 1, j, steps[i].c, key, f, t);
  }

  lemma NoneSendsAgain(s: State, steps: seq<Step>, i: nat, j: nat, key: string -> string, f: string -> Vec, t: string)
    requires s.callers == map[] && AreOrderly(s, steps, key, f, t)
    ensures !AreSenders(s, steps, i, j, key, f, t)
  {
    if AreSenders(s, steps, i, j, key, f, t) {
      SenderIsDone(s, steps, i, j, key, f, t);
      SenderAsks(s, steps, i, key, f, t);
      SenderAsks(s, steps, j, key, f, t);
      var l := SenderMissed(s, steps, j, key, f, t);
      CallsGoForward(s, steps, l, j, steps[j].c, key, f, t);
      if l <= i {
        CallsGoForward(s, steps, l, i, steps[j].c, key, f, t);
        CallsGoForward(s, steps, i, j, steps[j].c, key, f, t);
        StaysOneAtATime(s, steps, i, key, f, t);
      } else {
        assert IsOrderly(StateAt(s, steps, i, key, f), steps[i], key, t);
        NothingForgotten(s, steps, i, l, key, f, t);
        SentIsKept(s, steps, i, l, key, f, t);
        CallsGoForward(s, steps, i, l, steps[i].c, key, f, t);
        StaysOneAtATime(s, steps, l, key, f, t);
      }
      assert false;
    }
  }

  lemma NothingForgotten(s: State, steps: seq<Step>, i: nat, n: nat, key: string -> string, f: string -> Vec, t: string)
    requires AreOrderly(s, steps, key, f, t)
    ensures !IsForgotten(steps, i, n, key(t))
  {
    forall p | i <= p < n <= |steps|
      ensures !Forgets(steps[p], key(t))
    {
      assert IsOrderly(StateAt(s, steps, p, key, f), steps[p], key, t);
    }
  }

  // So both caches keep their promise to callers that come one at a time: if
  // none repeats the text, no request fails and its entry is not lost, it is
  // sent at most once.
  lemma SentOnce(s: State, steps: seq<Step>, key: string -> string, f: string -> Vec, t: string)
    requires s.callers == map[] && AreOrderly(s, steps, key, f, t)
    ensures Sends(s, steps, key, f, t) <= 1
  {
    SendsMany(s, steps, key, f, t);
    if i :| IsRepeat(s, steps, i, key, f, t) {
      NoRepeat(s, steps, i, key, f, t);
    }
    if i, j :| AreSenders(s, steps, i, j, key, f, t) {
      NoneSendsAgain(s, steps, i, j, key, f, t);
    }
  }

  // ---- Runs that send a text twice ----------------------------------------

  const STARTED := State(map[], false, 0, None, map[])

  lemma LookedAlone(t: string, key: string -> string)
    ensures LookOf(Looking([t], []), map[], key, 1) == Looking([t], [None]) && Missing([t], [None]) == [t]
  {
    assert [t][0..1] == [t] && [] + Looked(map[], key, [t]) == [None];
    assert Missing([t][1..], [None][1..]) == [];
  }

  // Two callers that look before either fills.
  lemma OverlappingCallersEmbedTwice(t: string, key: string -> string, f: string -> Vec)
    ensures var steps := [Call(0, [t]), Call(1, [t]), Look(0, 1), Look(1, 1), Ask(0, 0, true), Ask(1, 0, true)];
      AreSenders(STARTED, steps, 4, 5, key, f, t) && Sends(STARTED, steps, key, f, t) > 1
  {
    var steps := [Call(0, [t]), Call(1, [t]), Look(0, 1), Look(1, 1), Ask(0, 0, true), Ask(1, 0, true)];
    StateAtStart(STARTED, steps, key, f);
    StateNext(STARTED, steps, 0, key, f);
    StateNext(STARTED, steps, 1, key, f);
    StateNext(STARTED, steps, 2, key, f);
    StateNext(STARTED, steps, 3, key, f);
    StateNext(STARTED, steps, 4, key, f);
    LookedAlone(t, key);
    assert StateAt(STARTED, steps, 4, key, f).callers == map[0 := Looking([t], [None]), 1 := Looking([t], [None])];
    assert SentBy(StateAt(STARTED, steps, 4, key, f), steps[4]) == [t];
    assert SentBy(StateAt(STARTED, steps, 5, key, f), steps[5]) == [t];
    assert AreSenders(STARTED, steps, 4, 5, key, f, t);
    SendsMany(STARTED, steps, key, f, t);
  }

  // No overlap and no repetition: a call that fails sends its text if it gets
  // that far, and records nothing either way.
  lemma FailedCallEmbedsTwice(t: string, sent: nat, key: string -> string, f: string -> Vec)
    ensures var steps := [Call(0, [t]), Look(0, 1), Ask(0, sent, false), Call(1, [t]), Look(1, 1), Ask(1, 0, true)];
      && (AreSenders(STARTED, steps, 2, 5, key, f, t) <==> sent > 0)
      && (sent > 0 ==> Sends(STARTED, steps, key, f, t) > 1)
  {
    var steps := [Call(0, [t]), Look(0, 1), Ask(0, sent, false), Call(1, [t]), Look(1, 1), Ask(1, 0, true)];
    StateAtStart(STARTED, steps, key, f);
    StateNext(STARTED, steps, 0, key, f);
    StateNext(STARTED, steps, 1, key, f);
    StateNext(STARTED, steps, 2, key, f);
    StateNext(STARTED, steps, 3, key, f);
    StateNext(STARTED, steps, 4, key, f);
    LookedAlone(t, key);
    assert StateAt(STARTED, steps, 2, key, f).callers == map[0 := Looking([t], [None])];
    assert SentBy(StateAt(STARTED, steps, 2, key, f), steps[2]) == if sent > 0 then [t] else [];
    assert StateAt(STARTED, steps, 5, key, f).callers[1] == Looking([t], [None]);
    assert SentBy(StateAt(STARTED, steps, 5, key, f), steps[5]) == [t];
    SendsMany(STARTED, steps, key, f, t);
  }

  // Nor any failure: the entry was evicted, or lost with the process, before
  // the second call looked.
  lemma ForgottenTextEmbedsTwice(t: string, lose: Step, key: string -> string, f: string -> Vec)
    requires lose == Evict({key(t)}) || lose == Restart(false)
    ensures var steps := [Call(0, [t]), Look(0, 1), Ask(0, 0, true), Fill(0, 1), Return(0), lose, Call(1, [t]),
                          Look(1, 1), Ask(1, 0, true)];
      AreSenders(STARTED, steps, 2, 8, key, f, t) && Sends(STARTED, steps, key, f, t) > 1
  {
    var steps := [Call(0, [t]), Look(0, 1), Ask(0, 0, true), Fill(0, 1), Return(0), lose, Call(1, [t]),
                  Look(1, 1), Ask(1, 0, true)];
    LookedAlone(t, key);
    StateAtStart(STARTED, steps, key, f);
    StateNext(STARTED, steps, 0, key, f);
    StateNext(STARTED, steps, 1, key, f);
    assert StateAt(STARTED, steps, 2, key, f) == STARTED.(callers := map[0 := Looking([t], [None])]);
    assert SentBy(StateAt(STARTED, steps, 2, key, f), steps[2]) == [t];
    RecordedThenLost(t, steps, lose, key, f);
    StateNext(STARTED, steps, 6, key, f);
    StateNext(STARTED, steps, 7, key, f);
    assert StateAt(STARTED, steps, 8, key, f).callers[1] == Looking([t], [None]);
    assert SentBy(StateAt(STARTED, steps, 8, key, f), steps[8]) == [t];
    assert AreSenders(STARTED, steps, 2, 8, key, f, t);
    SendsMany(STARTED, steps, key, f, t);
  }

  lemma RecordedThenLost(t: string, steps: seq<Step>, lose: Step, key: string -> string, f: string -> Vec)
    requires |steps| > 6 && steps[2] == Ask(0, 0, true) && steps[3] == Fill(0, 1) && steps[4] == Return(0)
    requires steps[5] == lose && (lose == Evict({key(t)}) || lose == Restart(false))
    requires StateAt(STARTED, steps, 2, key, f) == STARTED.(callers := map[0 := Looking([t], [None])])
    ensures var u := StateAt(STARTED, steps, 6, key, f); u.cache == map[] && 1 !in u.callers
  {
    RecordedAlone(t, steps, key, f);
    StateNext(STARTED, steps, 4, key, f);
    StateNext(STARTED, steps, 5, key, f);
  }

  lemma RecordedAlone(t: string, steps: seq<Step>, key: string -> string, f: string -> Vec)
    requires |steps| > 6 && steps[2] == Ask(0, 0, true) && steps[3] == Fill(0, 1)
    requires StateAt(STARTED, steps, 2, key, f) == STARTED.(callers := map[0 := Looking([t], [None])])
    ensures var u := StateAt(STARTED, steps, 4, key, f);
      u.cache == map[key(t) := f(t)] && u.callers.Keys == {0} && u.disk == None
  {
    LookedAlone(t, key);
    StateNext(STARTED, steps, 2, key, f);
    assert Map(f, [t]) == [f(t)];
    assert StateAt(STARTED, steps, 3, key, f).callers == map[0 := Filling([t], [None], [f(t)], 0)];
    StateNext(STARTED, steps, 3, key, f);
    FilledAlone(t, key, f);
  }

  lemma FilledAlone(t: string, key: string -> string, f: string -> Vec)
    ensures var w := Filling([t], [None], [f(t)], 0);
      && CanFill(w, 1) && NextTexts(w, 1) == [t] && NextVecs(w, 1) == [f(t)]
      && Filled(map[], key, [t], [f(t)]) == map[key(t) := f(t)]
  {
    LookedAlone(t, key);
    assert [t][0..1] == [t] && [f(t)][0..1] == [f(t)];
    assert [t][..0] == [] && [f(t)][..0] == [];
  }
}
