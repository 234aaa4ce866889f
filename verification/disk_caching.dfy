// internal/embed/diskcache.go: a cache kept across runs of the process. Looking
// texts up and filling the misses in are separate critical sections, and the
// endpoint is asked between them without the lock.
module DiskCaching {
  import opened Common
  import opened Batching
  import opened Caching

  // Vectors by content hash.
  type Cache = map<string, Vec>

  const AUTOSAVE_EVERY := 500

  ghost predicate Agrees(cache: Cache, key: string -> string, f: string -> Vec) {
    forall t {:trigger key(t)} :: key(t) in cache ==> cache[key(t)] == f(t)
  }

  // What looking these texts up finds.
  function Looked(cache: Cache, key: string -> string, texts: seq<string>): (found: seq<Option<Vec>>)
    ensures |found| == |texts|
    ensures forall i :: 0 <= i < |texts| ==>
      found[i] == if key(texts[i]) in cache then Some(cache[key(texts[i])]) else None
  {
    seq(|texts|, i requires 0 <= i < |texts| => if key(texts[i]) in cache then Some(cache[key(texts[i])]) else None)
  }

  // The texts that were not found, in order.
  function Missing(texts: seq<string>, found: seq<Option<Vec>>): seq<string>
    requires |found| == |texts|
  {
    if texts == [] then []
    else (if found[0].None? then [texts[0]] else []) + Missing(texts[1..], found[1..])
  }

  // The cache with a vector recorded for each of these texts, in order.
  function Filled(cache: Cache, key: string -> string, texts: seq<string>, vecs: seq<Vec>): Cache
    requires |texts| == |vecs|
  {
    if texts == [] then cache
    else
      var n := |texts| - 1;
      Filled(cache, key, texts[..n], vecs[..n])[key(texts[n]) := vecs[n]]
  }

  // What was found, with the vectors of the misses put in their places.
  function Merge(found: seq<Option<Vec>>, vecs: seq<Vec>): seq<Vec> {
    if found == [] then []
    else if found[0].Some? then [found[0].value] + Merge(found[1..], vecs)
    else if vecs == [] then [[]] + Merge(found[1..], [])
    else [vecs[0]] + Merge(found[1..], vecs[1..])
  }

  ghost predicate AllRight(texts: seq<string>, found: seq<Option<Vec>>, f: string -> Vec) {
    |found| == |texts| && forall i :: 0 <= i < |texts| && found[i].Some? ==> found[i].value == f(texts[i])
  }

  // Right answers for what was found and for what was missing make right
  // answers for all.
  lemma {:induction false} MergeIsMap(texts: seq<string>, found: seq<Option<Vec>>, f: string -> Vec)
    requires AllRight(texts, found, f)
    ensures Merge(found, Map(f, Missing(texts, found))) == Map(f, texts)
  {
    if texts != [] {
      MergeIsMap(texts[1..], found[1..], f);
      var rest := Missing(texts[1..], found[1..]);
      if found[0].None? {
        assert Map(f, [texts[0]] + rest) == [f(texts[0])] + Map(f, rest);
      } else {
        assert [] + rest == rest;
      }
      assert Map(f, texts) == [f(texts[0])] + Map(f, texts[1..]);
    }
  }

  lemma {:induction false} FilledAgrees(cache: Cache, key: string -> string, f: string -> Vec, texts: seq<string>)
    requires IsInjective(key) && Agrees(cache, key, f)
    ensures Agrees(Filled(cache, key, texts, Map(f, texts)), key, f)
    ensures Filled(cache, key, texts, Map(f, texts)).Keys >= cache.Keys
    ensures forall t :: t in texts ==> key(t) in Filled(cache, key, texts, Map(f, texts))
  {
    if texts != [] {
      var n := |texts| - 1;
      FilledAgrees(cache, key, f, texts[..n]);
      assert Map(f, texts)[..n] == Map(f, texts[..n]);
      assert texts == texts[..n] + [texts[n]];
    }
  }

  lemma {:induction false} FilledInTwo(cache: Cache, key: string -> string, texts: seq<string>, vecs: seq<Vec>, n: nat)
    requires |texts| == |vecs| && n < |texts|
    ensures Filled(cache, key, texts[..n + 1], vecs[..n + 1]) ==
      Filled(cache, key, texts[..n], vecs[..n])[key(texts[n]) := vecs[n]]
  {
    assert texts[..n + 1][..n] == texts[..n] && vecs[..n + 1][..n] == vecs[..n];
  }

  lemma {:induction false} MissingHas(cache: Cache, key: string -> string, texts: seq<string>, t: string)
    requires t in texts && key(t) !in cache
    ensures t in Missing(texts, Looked(cache, key, texts))
  {
    assert Looked(cache, key, texts)[1..] == Looked(cache, key, texts[1..]);
    if t != texts[0] {
      MissingHas(cache, key, texts[1..], t);
    }
  }

  // After the misses are filled in, every text asked for is recorded.
  lemma FilledHasAll(cache: Cache, key: string -> string, f: string -> Vec, texts: seq<string>)
    requires IsInjective(key) && Agrees(cache, key, f)
    ensures var missing := Missing(texts, Looked(cache, key, texts));
      forall t :: t in texts ==> key(t) in Filled(cache, key, missing, Map(f, missing))
  {
    var missing := Missing(texts, Looked(cache, key, texts));
    FilledAgrees(cache, key, f, missing);
    forall t | t in texts
      ensures key(t) in Filled(cache, key, missing, Map(f, missing))
    {
      if key(t) !in cache {
        MissingHas(cache, key, texts, t);
      }
    }
  }

  // ---- Interleaved callers ------------------------------------------------

  datatype Caller =
    | Looking(texts: seq<string>, found: seq<Option<Vec>>)
    | Filling(texts: seq<string>, found: seq<Option<Vec>>, vecs: seq<Vec>, filled: nat)
    | Returned(texts: seq<string>, out: seq<Vec>)
    | Errored(texts: seq<string>)

  // disk is None when the file is absent or unreadable.
  datatype State = State(cache: Cache, dirty: bool, lastSaved: nat, disk: Option<Cache>, callers: map<nat, Caller>)

  // One step of a concurrent run. A critical section of the disk cache is a
  // Look or a Fill of everything at once; the in-memory cache takes its lock
  // for each text and may evict at any time. An Ask that fails has sent the
  // first `sent` of the missing texts by then, and records nothing.
  datatype Step =
    | Call(c: nat, texts: seq<string>)
    | Look(c: nat, n: nat)
    | Ask(c: nat, sent: nat, succeeds: bool)
    | Fill(c: nat, n: nat)
    | Return(c: nat)
    | Evict(keys: set<string>)
    | Save(succeeds: bool)
    | Restart(readable: bool)

  function Loaded(disk: Option<Cache>): Cache {
    if disk.Some? then disk.value else map[]
  }

  function LookOf(w: Caller, cache: Cache, key: string -> string, n: nat): Caller {
    if w.Looking? && |w.found| + n <= |w.texts|
    then Looking(w.texts, w.found + Looked(cache, key, w.texts[|w.found|..|w.found| + n]))
    else w
  }

  function AskOf(w: Caller, f: string -> Vec, succeeds: bool): Caller {
    if w.Looking? && |w.found| == |w.texts|
    then if succeeds then Filling(w.texts, w.found, Map(f, Missing(w.texts, w.found)), 0) else Errored(w.texts)
    else w
  }

  predicate CanFill(w: Caller, n: nat) {
    w.Filling? && |w.found| == |w.texts| && |Missing(w.texts, w.found)| == |w.vecs| && w.filled + n <= |w.vecs|
  }

  // The next n misses to record, and the vectors for them.
  function NextTexts(w: Caller, n: nat): (texts: seq<string>)
    requires CanFill(w, n)
    ensures |texts| == n
  {
    Missing(w.texts, w.found)[w.filled..w.filled + n]
  }

  function NextVecs(w: Caller, n: nat): (vecs: seq<Vec>)
    requires CanFill(w, n)
    ensures |vecs| == n
  {
    w.vecs[w.filled..w.filled + n]
  }

  function ReturnOf(w: Caller): Caller {
    if w.Filling? && w.filled == |w.vecs| then Returned(w.texts, Merge(w.found, w.vecs)) else w
  }

  // A step that is not possible in a state leaves it as it is.
  function Next(s: State, step: Step, key: string -> string, f: string -> Vec): State {
    match step
    case Call(c, texts) => if c in s.callers then s else s.(callers := s.callers[c := Looking(texts, [])])
    case Evict(keys) => s.(cache := s.cache - keys, dirty := true)
    case Save(succeeds) =>
      if s.dirty && succeeds then s.(disk := Some(s.cache), dirty := false, lastSaved := |s.cache|) else s
    case Restart(readable) => State(if readable then Loaded(s.disk) else map[], false, 0,
                                    if readable then s.disk else None, map[])
    case Look(c, n) =>
      if c in s.callers then s.(callers := s.callers[c := LookOf(s.callers[c], s.cache, key, n)]) else s
    case Ask(c, _, succeeds) =>
      if c in s.callers then s.(callers := s.callers[c := AskOf(s.callers[c], f, succeeds)]) else s
    case Fill(c, n) =>
      if c in s.callers && CanFill(s.callers[c], n) then
        var w := s.callers[c];
        s.(cache := Filled(s.cache, key, NextTexts(w, n), NextVecs(w, n)),
           dirty := true, callers := s.callers[c := w.(filled := w.filled + n)])
      else s
    case Return(c) =>
      if c in s.callers then s.(callers := s.callers[c := ReturnOf(s.callers[c])]) else s
  }

  function Run(s: State, steps: seq<Step>, key: string -> string, f: string -> Vec): State {
    if steps == [] then s else Next(Run(s, steps[..|steps| - 1], key, f), steps[|steps| - 1], key, f)
  }

  ghost predicate CallerIsRight(w: Caller, f: string -> Vec) {
    match w
    case Looking(texts, found) => |found| <= |texts| && AllRight(texts[..|found|], found, f)
    case Filling(texts, found, vecs, filled) =>
      AllRight(texts, found, f) && vecs == Map(f, Missing(texts, found)) && filled <= |vecs|
    case Returned(texts, out) => out == Map(f, texts)
    case Errored(_) => true
  }

  ghost predicate IsRight(s: State, key: string -> string, f: string -> Vec) {
    && Agrees(s.cache, key, f) && Agrees(Loaded(s.disk), key, f)
    && forall c {:trigger s.callers[c]} :: c in s.callers ==> CallerIsRight(s.callers[c], f)
  }

  lemma LookIsRight(w: Caller, cache: Cache, key: string -> string, f: string -> Vec, n: nat)
    requires CallerIsRight(w, f) && Agrees(cache, key, f)
    ensures CallerIsRight(LookOf(w, cache, key, n), f)
  {
    if w.Looking? && |w.found| + n <= |w.texts| {
      var more := Looked(cache, key, w.texts[|w.found|..|w.found| + n]);
      forall i | 0 <= i < |w.found| + n && (w.found + more)[i].Some?
        ensures (w.found + more)[i].value == f(w.texts[i])
      {
        if i < |w.found| {
          assert w.texts[..|w.found|][i] == w.texts[i];
        }
      }
    }
  }

  lemma AskIsRight(w: Caller, f: string -> Vec, succeeds: bool)
    requires CallerIsRight(w, f)
    ensures CallerIsRight(AskOf(w, f, succeeds), f)
  {
    if w.Looking? && |w.found| == |w.texts| {
      assert w.texts[..|w.found|] == w.texts;
    }
  }

  lemma NextVecsAreRight(w: Caller, f: string -> Vec, n: nat)
    requires CallerIsRight(w, f) && CanFill(w, n)
    ensures NextVecs(w, n) == Map(f, NextTexts(w, n))
  {
  }

  lemma FillIsRight(w: Caller, cache: Cache, key: string -> string, f: string -> Vec, n: nat)
    requires IsInjective(key) && Agrees(cache, key, f) && CallerIsRight(w, f) && CanFill(w, n)
    ensures Agrees(Filled(cache, key, NextTexts(w, n), NextVecs(w, n)), key, f)
  {
    NextVecsAreRight(w, f, n);
    FilledAgrees(cache, key, f, NextTexts(w, n));
  }

  lemma ReturnIsRight(w: Caller, f: string -> Vec)
    requires CallerIsRight(w, f)
    ensures CallerIsRight(ReturnOf(w), f)
  {
    if w.Filling? {
      MergeIsMap(w.texts, w.found, f);
    }
  }

  lemma NextIsRight(s: State, step: Step, key: string -> string, f: string -> Vec)
    requires IsInjective(key) && IsRight(s, key, f)
    ensures IsRight(Next(s, step, key, f), key, f)
  {
    match step
    case Look(c, n) =>
      if c in s.callers {
        LookIsRight(s.callers[c], s.cache, key, f, n);
      }
    case Ask(c, _, succeeds) =>
      if c in s.callers {
        AskIsRight(s.callers[c], f, succeeds);
      }
    case Fill(c, n) =>
      if c in s.callers && CanFill(s.callers[c], n) {
        FillIsRight(s.callers[c], s.cache, key, f, n);
      }
    case Return(c) =>
      if c in s.callers {
        ReturnIsRight(s.callers[c], f);
      }
    case _ =>
  }

  // Whatever calls interleave, with whatever evictions, saves, failures and
  // restarts, every caller that returns has the embedder's answer for each of
  // its texts, and so does whatever a later run loads from disk.
  lemma {:induction false} EveryRunIsRight(s: State, steps: seq<Step>, key: string -> string, f: string -> Vec)
    requires IsInjective(key) && IsRight(s, key, f)
    ensures IsRight(Run(s, steps, key, f), key, f)
    ensures forall c :: c in Run(s, steps, key, f).callers && Run(s, steps, key, f).callers[c].Returned? ==>
      Run(s, steps, key, f).callers[c].out == Map(f, Run(s, steps, key, f).callers[c].texts)
    decreases |steps|
  {
    if steps != [] {
      EveryRunIsRight(s, steps[..|steps| - 1], key, f);
      NextIsRight(Run(s, steps[..|steps| - 1], key, f), steps[|steps| - 1], key, f);
    }
  }

  lemma {:induction false} FilledKeepsKeys(cache: Cache, key: string -> string, texts: seq<string>, vecs: seq<Vec>)
    requires |texts| == |vecs|
    ensures cache.Keys <= Filled(cache, key, texts, vecs).Keys
  {
    if texts != [] {
      FilledKeepsKeys(cache, key, texts[..|texts| - 1], vecs[..|texts| - 1]);
    }
  }

  // While nothing is evicted and the process lives, what has been recorded
  // once is found by every later lookup, so it is not embedded again.
  lemma {:induction false} RecordedStaysRecorded(s: State, steps: seq<Step>, key: string -> string, f: string -> Vec)
    requires forall step :: step in steps ==> !step.Evict? && !step.Restart?
    ensures s.cache.Keys <= Run(s, steps, key, f).cache.Keys
    decreases |steps|
  {
    if steps != [] {
      var init, step := steps[..|steps| - 1], steps[|steps| - 1];
      RecordedStaysRecorded(s, init, key, f);
      var mid := Run(s, init, key, f);
      assert step in steps;
      if step.Fill? && step.c in mid.callers && CanFill(mid.callers[step.c], step.n) {
        var w := mid.callers[step.c];
        FilledKeepsKeys(mid.cache, key, NextTexts(w, step.n), NextVecs(w, step.n));
      }
    }
  }

  // ---- One call, from beginning to end ------------------------------------

  // The steps of a call that no other caller comes in between of: with misses
  // they are recorded, and then the cache may be saved.
  ghost function CallSteps(c: nat, texts: seq<string>, misses: nat, tried: Option<bool>): seq<Step> {
    [Call(c, texts)] + [Look(c, |texts|)] + [Ask(c, 0, true)] + FillSteps(c, misses) + SaveSteps(tried) + [Return(c)]
  }

  ghost function FillSteps(c: nat, misses: nat): seq<Step> {
    if misses > 0 then [Fill(c, misses)] else []
  }

  ghost function SaveSteps(tried: Option<bool>): seq<Step> {
    if tried.Some? then [Save(tried.value)] else []
  }

  // What recording the misses leaves, and what trying to save that leaves.
  ghost function AfterFill(s: State, missing: seq<string>, key: string -> string, f: string -> Vec): State {
    if missing == [] then s else s.(cache := Filled(s.cache, key, missing, Map(f, missing)), dirty := true)
  }

  ghost function AfterSave(s: State, tried: Option<bool>): State {
    if s.dirty && tried == Some(true) then s.(disk := Some(s.cache), dirty := false, lastSaved := |s.cache|) else s
  }

  lemma RunNext(s: State, past: seq<Step>, u: State, e: Step, v: State, key: string -> string, f: string -> Vec)
    requires Run(s, past, key, f) == u && Next(u, e, key, f) == v
    ensures Run(s, past + [e], key, f) == v
  {
    assert (past + [e])[..|past|] == past;
  }

  lemma LooksAll(u: State, c: nat, texts: seq<string>, v: State, key: string -> string, f: string -> Vec)
    requires c in u.callers && u.callers[c] == Looking(texts, [])
    requires v == u.(callers := u.callers[c := Looking(texts, Looked(u.cache, key, texts))])
    ensures Next(u, Look(c, |texts|), key, f) == v
  {
    assert texts[0..|texts|] == texts && [] + Looked(u.cache, key, texts) == Looked(u.cache, key, texts);
  }

  lemma AsksAll(u: State, c: nat, texts: seq<string>, found: seq<Option<Vec>>, v: State, key: string -> string,
                f: string -> Vec)
    requires c in u.callers && u.callers[c] == Looking(texts, found) && |found| == |texts|
    requires v == u.(callers := u.callers[c := Filling(texts, found, Map(f, Missing(texts, found)), 0)])
    ensures Next(u, Ask(c, 0, true), key, f) == v
  {
  }

  lemma NextIsAll(w: Caller, n: nat)
    requires CanFill(w, n) && w.filled == 0 && n == |w.vecs|
    ensures NextTexts(w, n) == Missing(w.texts, w.found) && NextVecs(w, n) == w.vecs
  {
    var missing := Missing(w.texts, w.found);
    assert missing[0..n] == missing && w.vecs[0..n] == w.vecs;
  }

  lemma FillsAll(u: State, c: nat, w: Caller, v: State, key: string -> string, f: string -> Vec)
    requires c in u.callers && u.callers[c] == w && w.Filling? && CanFill(w, |w.vecs|) && w.filled == 0
    requires v == u.(cache := Filled(u.cache, key, Missing(w.texts, w.found), w.vecs), dirty := true,
                     callers := u.callers[c := w.(filled := |w.vecs|)])
    ensures Next(u, Fill(c, |w.vecs|), key, f) == v
  {
    NextIsAll(w, |w.vecs|);
  }

  lemma CallAsks(s: State, c: nat, texts: seq<string>, found: seq<Option<Vec>>, u: State, key: string -> string,
                 f: string -> Vec)
    requires c !in s.callers && found == Looked(s.cache, key, texts) && |found| == |texts|
    requires u == s.(callers := s.callers[c := Filling(texts, found, Map(f, Missing(texts, found)), 0)])
    ensures Run(s, [Call(c, texts)] + [Look(c, |texts|)] + [Ask(c, 0, true)], key, f) == u
  {
    var called := s.(callers := s.callers[c := Looking(texts, [])]);
    var looked := s.(callers := s.callers[c := Looking(texts, found)]);
    CallBegins(s, c, texts, called, key, f);
    assert called.callers[c := Looking(texts, found)] == looked.callers;
    LooksAll(called, c, texts, looked, key, f);
    RunNext(s, [Call(c, texts)], called, Look(c, |texts|), looked, key, f);
    assert looked.callers[c := u.callers[c]] == u.callers;
    AsksAll(looked, c, texts, found, u, key, f);
    RunNext(s, [Call(c, texts)] + [Look(c, |texts|)], looked, Ask(c, 0, true), u, key, f);
  }

  lemma CallBegins(s: State, c: nat, texts: seq<string>, u: State, key: string -> string, f: string -> Vec)
    requires c !in s.callers && u == s.(callers := s.callers[c := Looking(texts, [])])
    ensures Run(s, [Call(c, texts)], key, f) == u
  {
    RunNext(s, [], s, Call(c, texts), u, key, f);
    assert [] + [Call(c, texts)] == [Call(c, texts)];
  }

  lemma CallFills(s: State, past: seq<Step>, u: State, c: nat, texts: seq<string>, found: seq<Option<Vec>>, v: State,
                  key: string -> string, f: string -> Vec)
    requires c in u.callers && Run(s, past, key, f) == u && |found| == |texts| && found == Looked(u.cache, key, texts)
    requires u.callers[c] == Filling(texts, found, Map(f, Missing(texts, found)), 0)
    requires var n := |Missing(texts, found)|;
      v == AfterFill(u, Missing(texts, found), key, f).(callers := u.callers[c := u.callers[c].(filled := n)])
    ensures Run(s, past + FillSteps(c, |Missing(texts, found)|), key, f) == v
  {
    if Missing(texts, found) == [] {
      assert past + [] == past && u.callers[c := u.callers[c].(filled := 0)] == u.callers;
    } else {
      FillsAll(u, c, u.callers[c], v, key, f);
      RunNext(s, past, u, Fill(c, |Missing(texts, found)|), v, key, f);
    }
  }

  lemma CallSaves(s: State, past: seq<Step>, u: State, tried: Option<bool>, key: string -> string, f: string -> Vec)
    requires Run(s, past, key, f) == u
    ensures Run(s, past + SaveSteps(tried), key, f) == AfterSave(u, tried)
  {
    if tried.None? {
      assert past + [] == past;
    } else {
      RunNext(s, past, u, Save(tried.value), AfterSave(u, tried), key, f);
    }
  }

  lemma CallReturns(s: State, past: seq<Step>, u: State, c: nat, texts: seq<string>, found: seq<Option<Vec>>, v: State,
                    key: string -> string, f: string -> Vec)
    requires c in u.callers && Run(s, past, key, f) == u && AllRight(texts, found, f)
    requires u.callers[c] == Filling(texts, found, Map(f, Missing(texts, found)), |Missing(texts, found)|)
    requires v == u.(callers := u.callers[c := Returned(texts, Map(f, texts))])
    ensures Run(s, past + [Return(c)], key, f) == v
  {
    MergeIsMap(texts, found, f);
    RunNext(s, past, u, Return(c), v, key, f);
  }

  lemma FillLeavesCallers(s: State, callers: map<nat, Caller>, missing: seq<string>, key: string -> string,
                          f: string -> Vec)
    ensures AfterFill(s.(callers := callers), missing, key, f) == AfterFill(s, missing, key, f).(callers := callers)
  {
  }

  lemma CallRecords(s: State, c: nat, texts: seq<string>, found: seq<Option<Vec>>, missing: seq<string>, v: State,
                    key: string -> string, f: string -> Vec)
    requires c !in s.callers && found == Looked(s.cache, key, texts) && |found| == |texts|
    requires missing == Missing(texts, found)
    requires v ==
      AfterFill(s, missing, key, f).(callers := s.callers[c := Filling(texts, found, Map(f, missing), |missing|)])
    ensures Run(s, [Call(c, texts)] + [Look(c, |texts|)] + [Ask(c, 0, true)] + FillSteps(c, |missing|), key, f) == v
  {
    var w := Filling(texts, found, Map(f, missing), 0);
    var u := s.(callers := s.callers[c := w]);
    CallAsks(s, c, texts, found, u, key, f);
    FillLeavesCallers(s, u.callers, missing, key, f);
    assert u.callers[c := w.(filled := |missing|)] == s.callers[c := w.(filled := |missing|)];
    CallFills(s, [Call(c, texts)] + [Look(c, |texts|)] + [Ask(c, 0, true)], u, c, texts, found, v, key, f);
  }

  lemma SaveLeavesCallers(s: State, callers: map<nat, Caller>, tried: Option<bool>)
    ensures AfterSave(s.(callers := callers), tried) == AfterSave(s, tried).(callers := callers)
  {
  }

  lemma CallEnds(s: State, past: seq<Step>, u: State, c: nat, texts: seq<string>, found: seq<Option<Vec>>,
                 tried: Option<bool>, key: string -> string, f: string -> Vec)
    requires c in u.callers && Run(s, past, key, f) == u && AllRight(texts, found, f)
    requires u.callers[c] == Filling(texts, found, Map(f, Missing(texts, found)), |Missing(texts, found)|)
    ensures Run(s, past + SaveSteps(tried) + [Return(c)], key, f) ==
      AfterSave(u, tried).(callers := u.callers[c := Returned(texts, Map(f, texts))])
  {
    var v := AfterSave(u, tried);
    CallSaves(s, past, u, tried, key, f);
    CallReturns(s, past + SaveSteps(tried), v, c, texts, found,
                v.(callers := u.callers[c := Returned(texts, Map(f, texts))]), key, f);
  }

  lemma LookedIsRight(cache: Cache, texts: seq<string>, key: string -> string, f: string -> Vec)
    requires Agrees(cache, key, f)
    ensures AllRight(texts, Looked(cache, key, texts), f)
  {
  }

  lemma CallWithFound(s: State, c: nat, texts: seq<string>, found: seq<Option<Vec>>, filled: State,
                      tried: Option<bool>, key: string -> string, f: string -> Vec)
    requires c !in s.callers && found == Looked(s.cache, key, texts) && AllRight(texts, found, f)
    requires filled == AfterFill(s, Missing(texts, found), key, f) && filled.callers == s.callers
    ensures Run(s, CallSteps(c, texts, |Missing(texts, found)|, tried), key, f) ==
      AfterSave(filled, tried).(callers := s.callers[c := Returned(texts, Map(f, texts))])
  {
    var n := |Missing(texts, found)|;
    var past := [Call(c, texts)] + [Look(c, |texts|)] + [Ask(c, 0, true)] + FillSteps(c, n);
    var callers := s.callers[c := Filling(texts, found, Map(f, Missing(texts, found)), n)];
    CallRecords(s, c, texts, found, Missing(texts, found), filled.(callers := callers), key, f);
    CallEnds(s, past, filled.(callers := callers), c, texts, found, tried, key, f);
    SaveLeavesCallers(filled, callers, tried);
    assert callers[c := Returned(texts, Map(f, texts))] == s.callers[c := Returned(texts, Map(f, texts))];
  }

  // Such a call is a run of the state machine, and this is where it ends.
  lemma CallRuns(s: State, c: nat, texts: seq<string>, tried: Option<bool>, key: string -> string, f: string -> Vec)
    requires c !in s.callers && Agrees(s.cache, key, f)
    ensures var missing := Missing(texts, Looked(s.cache, key, texts));
      Run(s, CallSteps(c, texts, |missing|, tried), key, f) ==
        AfterSave(AfterFill(s, missing, key, f), tried).(callers := s.callers[c := Returned(texts, Map(f, texts))])
  {
    var found := Looked(s.cache, key, texts);
    LookedIsRight(s.cache, texts, key, f);
    CallWithFound(s, c, texts, found, AfterFill(s, Missing(texts, found), key, f), tried, key, f);
  }

  // ---- The cache itself ---------------------------------------------------

  class DiskCache {
    const inner: Batched
    const key: string -> string
    // Which attempts to write the file fail.
    const saveFails: nat -> bool
    var cache: Cache
    var dirty: bool
    var lastSaved: nat
    // The file: None when it is absent or cannot be decoded.
    var disk: Option<Cache>
    var saves: nat

    // Nothing right is ever lost from the file: what is not dirty is on disk,
    // and what is on disk is still in the cache.
    ghost predicate Valid()
      reads this
    {
      && inner.budget.maxItems > 0 && IsInjective(key)
      && Agrees(cache, key, inner.Answer)
      && (!dirty ==> cache == Loaded(disk))
      && Loaded(disk).Keys <= cache.Keys
    }

    // A file this embedder did not write is not detected, so its vectors are
    // required to be right.
    constructor (inner: Batched, key: string -> string, disk: Option<Cache>, saveFails: nat -> bool)
      requires inner.budget.maxItems > 0 && IsInjective(key) && Agrees(Loaded(disk), key, inner.Answer)
      ensures Valid() && this.inner == inner && this.key == key && this.disk == disk && cache == Loaded(disk)
      ensures lastSaved == 0
      ensures forall s: State :: s.disk == disk ==>
        State(cache, dirty, lastSaved, disk, map[]) == Next(s, Restart(true), key, inner.Answer)
    {
      this.inner, this.key, this.saveFails := inner, key, saveFails;
      this.cache, this.disk := if disk.Some? then disk.value else map[], disk;
      this.dirty, this.lastSaved, this.saves := false, 0, 0;
    }

    // The first critical section.
    method Lookup(texts: seq<string>, out: array<Vec>) returns (missIdx: seq<nat>, missText: seq<string>)
      requires out.Length == |texts|
      modifies out
      ensures AreMisses(texts, missIdx, missText) && missText == Missing(texts, Looked(cache, key, texts))
      ensures forall k :: 0 <= k < |texts| ==>
        k in missIdx || (key(texts[k]) in cache && out[k] == cache[key(texts[k])])
    {
      missIdx, missText := [], [];
      ghost var found := Looked(cache, key, texts);
      for i := 0 to |texts|
        invariant AreMisses(texts, missIdx, missText) && missText == Missing(texts[..i], found[..i])
        invariant forall k :: 0 <= k < i ==> k in missIdx || (key(texts[k]) in cache && out[k] == cache[key(texts[k])])
      {
        MissingOneMore(texts, found, i);
        if key(texts[i]) in cache {
          out[i] := cache[key(texts[i])];
        } else {
          missIdx := missIdx + [i];
          missText := missText + [texts[i]];
        }
      }
      assert texts[..|texts|] == texts && found[..|texts|] == found;
    }

    // The second critical section.
    method Fill(texts: seq<string>, out: array<Vec>, missIdx: seq<nat>, missText: seq<string>, vecs: seq<Vec>)
      returns (shouldSave: bool)
      requires Valid() && out.Length == |texts| && AreMisses(texts, missIdx, missText)
      requires vecs == Map(inner.Answer, missText)
      requires forall k :: 0 <= k < |texts| ==> k in missIdx || out[k] == inner.Answer(texts[k])
      modifies out, this`cache, this`dirty
      ensures Valid() && dirty && cache == Filled(old(cache), key, missText, vecs)
      ensures shouldSave <==> |cache| - lastSaved >= 500
      ensures forall k :: 0 <= k < |texts| ==> out[k] == inner.Answer(texts[k])
    {
      ghost var was := cache;
      for j := 0 to |vecs|
        invariant cache == Filled(was, key, missText[..j], vecs[..j])
        invariant ArePlaced(texts, out[..], missIdx, j, inner.Answer)
      {
        FilledInTwo(was, key, missText, vecs, j);
        PlaceOneMore(texts, out[..], missIdx, missText, j, vecs[j], inner.Answer);
        out[missIdx[j]] := vecs[j];
        cache := cache[key(missText[j]) := vecs[j]];
      }
      assert missText[..|vecs|] == missText && vecs[..|vecs|] == vecs;
      FilledAgrees(was, key, inner.Answer, missText);
      dirty := true;
      return |cache| - lastSaved >= AUTOSAVE_EVERY;
    }

    // Writes the cache to the file unless nothing changed; a failure leaves the
    // file as it was and the cache marked for the next attempt.
    method Save() returns (ok: bool)
      requires Valid()
      modifies this`dirty, this`lastSaved, this`disk, this`saves
      ensures Valid()
      ensures if old(dirty) && ok then disk == Some(cache) && !dirty && lastSaved == |cache|
              else disk == old(disk) && dirty == old(dirty) && lastSaved == old(lastSaved)
      ensures ok ==> Loaded(disk) == cache
      ensures forall callers ::
        State(cache, dirty, lastSaved, disk, callers) ==
          Next(State(cache, old(dirty), old(lastSaved), old(disk), callers), Step.Save(ok), key, inner.Answer)
    {
      if !dirty {
        return true;
      }
      var failed := saveFails(saves);
      saves := saves + 1;
      if failed {
        return false;
      }
      disk := Some(cache);
      dirty := false;
      lastSaved := |cache|;
      return true;
    }

    // Has the misses embedded and recorded, and now and then saved.
    method Complete(texts: seq<string>, out: array<Vec>, missIdx: seq<nat>, missText: seq<string>)
      returns (err: Option<EmbedError>, ghost tried: Option<bool>, ghost sent: nat)
      requires Valid() && out.Length == |texts| && AreMisses(texts, missIdx, missText)
      requires forall k :: 0 <= k < |texts| ==> k in missIdx || out[k] == inner.Answer(texts[k])
      modifies out, this`cache, this`dirty, this`lastSaved, this`disk, this`saves, inner.inner`requests
      ensures Valid()
      ensures missText == [] ==> err.None? && sent == 0
      ensures var parts := Requests(missText);
        sent <= |parts| && inner.inner.requests == old(inner.inner.requests) + parts[..sent] &&
          (err.None? ==> sent == |parts|)
      ensures EndedWith(inner.inner.fails, |old(inner.inner.requests)|, sent, err.None?)
      ensures err.Some? ==> cache == old(cache) && disk == old(disk)
      ensures err.None? ==> cache == Filled(old(cache), key, missText, Map(inner.Answer, missText))
      ensures err.None? ==> forall callers ::
        State(cache, dirty, lastSaved, disk, callers) ==
          AfterSave(AfterFill(State(old(cache), old(dirty), old(lastSaved), old(disk), callers), missText, key,
                              inner.Answer), tried)
      ensures err.None? ==> forall k :: 0 <= k < |texts| ==> out[k] == inner.Answer(texts[k])
      ensures err.None? && tried != Some(false) && |old(cache)| - old(lastSaved) < 500 ==> |cache| - lastSaved < 500
    {
      tried, sent := None, 0;
      if |missText| > 0 {
        var vecs;
        vecs, sent := inner.Embed(missText);
        if vecs.Err? {
          return Some(vecs.error), tried, sent;
        }
        assert vecs.value == Map(inner.Answer, missText);
        var shouldSave := Fill(texts, out, missIdx, missText, vecs.value);
        if shouldSave {
          var ok := Save();
          tried := Some(ok);
        }
      }
      return None, tried, sent;
    }

    // The requests the batcher makes for these texts.
    ghost function Requests(texts: seq<string>): (parts: seq<seq<string>>)
      ensures texts == [] ==> parts == []
    {
      Batches(Truncated(texts, inner.maxItemChars), inner.budget)
    }

    // A call with no other caller in between is a run of the state machine. It
    // is pointwise right, sends only the misses, records every vector, and
    // leaves fewer than 500 of them unsaved unless saving failed. It fails
    // exactly when a request does, and then it has recorded nothing.
    method Embed(texts: seq<string>)
      returns (r: Result<seq<Vec>, EmbedError>, ghost tried: Option<bool>, ghost sent: nat)
      requires Valid()
      modifies this`cache, this`dirty, this`lastSaved, this`disk, this`saves, inner.inner`requests
      ensures Valid()
      ensures r.Ok? ==> r.value == Map(inner.Answer, texts) && forall t :: t in texts ==> key(t) in cache
      ensures r.Ok? ==> var missing := Missing(texts, Looked(old(cache), key, texts));
        cache == Filled(old(cache), key, missing, Map(inner.Answer, missing))
      ensures var parts := Requests(Missing(texts, Looked(old(cache), key, texts)));
        sent <= |parts| && inner.inner.requests == old(inner.inner.requests) + parts[..sent] &&
          (r.Ok? ==> sent == |parts|)
      ensures EndedWith(inner.inner.fails, |old(inner.inner.requests)|, sent, r.Ok?)
      ensures r.Err? ==> cache == old(cache) && disk == old(disk)
      ensures r.Ok? ==> forall c, callers :: c !in callers ==>
        State(cache, dirty, lastSaved, disk, callers[c := Returned(texts, r.value)]) ==
          Run(State(old(cache), old(dirty), old(lastSaved), old(disk), callers),
              CallSteps(c, texts, |Missing(texts, Looked(old(cache), key, texts))|, tried), key, inner.Answer)
      ensures r.Ok? && tried != Some(false) && |old(cache)| - old(lastSaved) < 500 ==> |cache| - lastSaved < 500
    {
      var out := new Vec[|texts|](_ => []);
      var missIdx, missText := Lookup(texts, out);
      FilledHasAll(cache, key, inner.Answer, texts);
      var err;
      ghost var was := State(cache, dirty, lastSaved, disk, map[]);
      err, tried, sent := Complete(texts, out, missIdx, missText);
      if err.Some? {
        return Err(err.value), tried, sent;
      }
      assert out[..] == Map(inner.Answer, texts);
      forall c, callers: map<nat, Caller> | c !in callers
        ensures State(cache, dirty, lastSaved, disk, callers[c := Returned(texts, out[..])]) ==
          Run(was.(callers := callers), CallSteps(c, texts, |missText|, tried), key, inner.Answer)
      {
        CallRuns(was.(callers := callers), c, texts, tried, key, inner.Answer);
      }
      return Ok(out[..]), tried, sent;
    }
  }

  lemma {:induction false} MissingAppend(texts: seq<string>, found: seq<Option<Vec>>, t: string, x: Option<Vec>)
    requires |found| == |texts|
    ensures Missing(texts + [t], found + [x]) == Missing(texts, found) + if x.None? then [t] else []
  {
    if texts == [] {
      assert texts + [t] == [t] && found + [x] == [x];
    } else {
      assert (texts + [t])[1..] == texts[1..] + [t] && (found + [x])[1..] == found[1..] + [x];
      MissingAppend(texts[1..], found[1..], t, x);
    }
  }

  lemma MissingOneMore(texts: seq<string>, found: seq<Option<Vec>>, i: nat)
    requires |found| == |texts| && i < |texts|
    ensures Missing(texts[..i + 1], found[..i + 1]) == Missing(texts[..i], found[..i]) +
      if found[i].None? then [texts[i]] else []
  {
    assert texts[..i + 1] == texts[..i] + [texts[i]] && found[..i + 1] == found[..i] + [found[i]];
    MissingAppend(texts[..i], found[..i], texts[i], found[i]);
  }
}
