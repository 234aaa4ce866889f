// internal/importer: bulk import into the store, and its promise that merging
// namespaces on the way in can be undone by a later split.
module Importer {
  import opened Common
  import opened Text
  import opened Supersession
  import opened MemoryStore
  import Confidence
  import Renamespace

  // The portable shape every export is read into. No tier means untyped.
  datatype Record = Record(
    id: Id,
    ns: string,
    tier: Option<Tier>,
    content: string,
    tags: seq<string>,
    metadata: map<string, Meta>,
    importance: real,
    createdAt: Option<Time>,
    updatedAt: Option<Time>,
    expiresAt: Option<Time>)

  datatype Options = Options(
    defaultNamespace: string,
    forceNamespace: string,
    source: string,
    defaultImportance: real,
    confidence: Option<real>,
    skipExisting: bool,
    dryRun: bool,
    batchSize: int,
    minContentLen: int,
    minImportance: real)

  // What the importer asks of the rest of the system: the content-derived id of
  // (source, namespace, content), the heuristics that strip and recognise
  // runtime framing, the redaction of secrets, and the embedder's verdict.
  datatype Host = Host(
    deriveId: (string, string, string) -> Id,
    strip: string -> string,
    isNoise: string -> bool,
    redact: string -> string,
    redactMeta: map<string, Meta> -> map<string, Meta>,
    canEmbed: seq<string> -> bool,
    today: string,
    now: Time)

  const DEFAULT_BATCH_SIZE := 64
  const CONFIDENCE_SEED_IMPORTED := 0.25

  // ---- Finalizing ---------------------------------------------------------

  function ResolveNamespace(ns: string, fallback: string): string {
    if ns != "" then ns else if fallback != "" then fallback else "default"
  }

  function Destination(r: Record, opts: Options): string {
    if opts.forceNamespace != "" then opts.forceNamespace else ResolveNamespace(r.ns, opts.defaultNamespace)
  }

  function AppendUnique(tags: seq<string>, tag: string): seq<string> {
    if tag in tags then tags else tags + [tag]
  }

  function ProvenanceTag(opts: Options, host: Host): string {
    "import:" + opts.source + ":" + host.today
  }

  function FinalMetadata(r: Record, opts: Options): map<string, Meta> {
    var stamped := if opts.source != "" then r.metadata["import_source" := Meta.Text(opts.source)] else r.metadata;
    if Destination(r, opts) != r.ns && r.ns != "" then stamped[Renamespace.SOURCE_NAMESPACE_KEY := Meta.Text(r.ns)]
    else stamped
  }

  function Finalized(r: Record, opts: Options, host: Host): Record {
    var ns := Destination(r, opts);
    r.(ns := ns,
       tags := if opts.source != "" then AppendUnique(r.tags, ProvenanceTag(opts, host)) else r.tags,
       metadata := FinalMetadata(r, opts),
       importance :=
         if r.importance == 0.0 && opts.defaultImportance > 0.0 then opts.defaultImportance else r.importance,
       id := if r.id == "" then host.deriveId(opts.source, ns, r.content) else r.id)
  }

  function FinalizedAll(recs: seq<Record>, opts: Options, host: Host): seq<Record> {
    seq(|recs|, i requires 0 <= i < |recs| => Finalized(recs[i], opts, host))
  }

  function CountIn(recs: seq<Record>, ns: string): nat {
    if recs == [] then 0
    else CountIn(recs[..|recs| - 1], ns) + if recs[|recs| - 1].ns == ns then 1 else 0
  }

  ghost predicate IsTallied(hist: map<string, nat>, recs: seq<Record>, ns: string) {
    if ns in hist then hist[ns] == CountIn(recs, ns) > 0 else CountIn(recs, ns) == 0
  }

  // How many of the records are bound for each namespace.
  ghost predicate IsHistogram(hist: map<string, nat>, recs: seq<Record>) {
    forall ns {:trigger IsTallied(hist, recs, ns)} :: IsTallied(hist, recs, ns)
  }

  function Tally(hist: map<string, nat>, ns: string): map<string, nat> {
    hist[ns := (if ns in hist then hist[ns] else 0) + 1]
  }

  lemma TallyOneMore(hist: map<string, nat>, recs: seq<Record>, r: Record)
    requires IsHistogram(hist, recs)
    ensures IsHistogram(Tally(hist, r.ns), recs + [r])
  {
    var more, now := recs + [r], Tally(hist, r.ns);
    assert more[..|recs|] == recs;
    forall ns
      ensures IsTallied(now, more, ns)
    {
      assert IsTallied(hist, recs, ns);
    }
  }

  // Settles every record's namespace, provenance, importance and id in place.
  method FinalizeRecords(recs: array<Record>, opts: Options, host: Host) returns (hist: map<string, nat>)
    modifies recs
    ensures recs[..] == FinalizedAll(old(recs[..]), opts, host)
    ensures IsHistogram(hist, recs[..])
  {
    ghost var was := recs[..];
    hist := map[];
    for i := 0 to recs.Length
      invariant recs[..i] == FinalizedAll(was[..i], opts, host) && recs[i..] == was[i..]
      invariant IsHistogram(hist, recs[..i])
    {
      var r := recs[i];
      ghost var done, tallied := recs[..i], hist;
      assert r == recs[i..][0] == was[i];
      var ns := ResolveNamespace(r.ns, opts.defaultNamespace);
      if opts.forceNamespace != "" {
        ns := opts.forceNamespace;
      }
      hist := Tally(hist, ns);
      var tags, metadata, importance, id := r.tags, r.metadata, r.importance, r.id;
      if opts.source != "" {
        tags := AppendUnique(tags, ProvenanceTag(opts, host));
        metadata := metadata["import_source" := Meta.Text(opts.source)];
      }
      if ns != r.ns && r.ns != "" {
        metadata := metadata[Renamespace.SOURCE_NAMESPACE_KEY := Meta.Text(r.ns)];
      }
      if importance == 0.0 && opts.defaultImportance > 0.0 {
        importance := opts.defaultImportance;
      }
      if id == "" {
        id := host.deriveId(opts.source, ns, r.content);
      }
      recs[i] := r.(ns := ns, tags := tags, metadata := metadata, importance := importance, id := id);
      assert recs[i] == Finalized(was[i], opts, host);
      TallyOneMore(tallied, done, recs[i]);
      assert recs[..i + 1] == done + [recs[i]] && was[..i + 1] == was[..i] + [was[i]];
      assert recs[i + 1..] == was[i + 1..];
    }
    assert recs[..recs.Length] == recs[..] && was[..recs.Length] == was;
  }

  // ---- Writing ------------------------------------------------------------

  function EffectiveTier(r: Record): Tier {
    if r.tier.Some? then r.tier.value else Episodic
  }

  // The row a finalized record is stored as.
  function ToRow(r: Record, opts: Options, host: Host): Row {
    var created := if r.createdAt.Some? then r.createdAt.value else host.now;
    var updated := if r.updatedAt.Some? then r.updatedAt.value else created;
    var tier := EffectiveTier(r);
    var expires :=
      if r.expiresAt.Some? then r.expiresAt
      else if DefaultTTL(tier) > 0 then Some(created + DefaultTTL(tier)) else None;
    var confidence := if opts.confidence.Some? then opts.confidence.value else CONFIDENCE_SEED_IMPORTED;
    Row(r.ns, tier, host.redact(r.content), host.redactMeta(r.metadata), r.tags, Confidence.Clamp01(r.importance),
        created, updated, updated, 0, expires, None, None, if tier.IsLongTerm() then Some(confidence) else None)
  }

  // ---- Writing, as a run of calls -----------------------------------------

  // What the backend does while an import runs: others delete rows before each
  // call, and some calls fail.
  datatype Backend = Backend(deletes: nat -> set<Id>, fails: nat -> bool)

  // The table, and the number of the next call.
  datatype Feed = Feed(rows: Table, call: nat)

  ghost function After(f: Feed, b: Backend, n: nat): Feed {
    Feed(f.rows - Gone(b.deletes, f.call, f.call + n), f.call + n)
  }

  predicate IsPresent(rows: Table, r: Record) {
    r.id in rows && rows[r.id].ns == r.ns
  }

  predicate IsFree(rows: Table, r: Record) {
    r.id in rows ==> rows[r.id].ns == r.ns
  }

  lemma AfterJoin(f: Feed, b: Backend, n: nat, m: nat)
    ensures After(After(f, b, n), b, m) == After(f, b, n + m)
    ensures After(f, b, 0) == f && After(f, b, n + 1).rows == After(f, b, n).rows - b.deletes(f.call + n)
  {
    LostJoin(f.rows, b.deletes, f.call, f.call + n, f.call + n + m);
    FoundAt(f.rows, b.deletes, f.call, f.call + n);
    FoundAt(f.rows, b.deletes, f.call, f.call);
  }

  // A record to write, one already stored, one that could not be looked up.
  datatype Verdict = New | Known | Unsure

  // Records by their verdicts.
  datatype Screening = Screening(pending: seq<Record>, duplicates: nat, errs: seq<Id>)

  function Sorted(s: Screening, r: Record, v: Verdict): Screening {
    match v
    case New => s.(pending := s.pending + [r])
    case Known => s.(duplicates := s.duplicates + 1)
    case Unsure => s.(errs := s.errs + [r.id])
  }

  // The lookup of the i-th record.
  ghost function VerdictOn(f: Feed, b: Backend, i: nat, r: Record, opts: Options): Verdict {
    if !opts.skipExisting then New
    else if b.fails(f.call + i) then Unsure
    else if IsPresent(After(f, b, i + 1).rows, r) then Known
    else New
  }

  ghost function Screened(f: Feed, b: Backend, recs: seq<Record>, opts: Options): (s: Screening)
    ensures |s.pending| + s.duplicates + |s.errs| == |recs|
  {
    if recs == [] then Screening([], 0, [])
    else
      var n := |recs| - 1;
      Sorted(Screened(f, b, recs[..n], opts), recs[n], VerdictOn(f, b, n, recs[n], opts))
  }

  ghost function AfterScreen(f: Feed, b: Backend, n: nat, opts: Options): Feed {
    if opts.skipExisting then After(f, b, n) else f
  }

  // How far writing has come, and what it has counted.
  datatype Progress = Progress(feed: Feed, ok: bool, imported: nat, duplicates: nat, errs: seq<Id>)

  ghost function Upserting(p: Progress, b: Backend, r: Record, opts: Options, host: Host): Progress {
    var was := p.feed.rows - b.deletes(p.feed.call);
    if b.fails(p.feed.call) || !IsFree(was, r) then p.(feed := Feed(was, p.feed.call + 1), errs := p.errs + [r.id])
    else p.(feed := Feed(was[r.id := Upserted(was, r.id, ToRow(r, opts, host))], p.feed.call + 1),
            imported := p.imported + 1)
  }

  ghost function UpsertAll(p: Progress, b: Backend, recs: seq<Record>, opts: Options, host: Host): Progress {
    if recs == [] then p
    else Upserting(UpsertAll(p, b, recs[..|recs| - 1], opts, host), b, recs[|recs| - 1], opts, host)
  }

  function Contents(recs: seq<Record>): (texts: seq<string>)
    ensures |texts| == |recs| && forall i :: 0 <= i < |recs| ==> texts[i] == recs[i].content
  {
    seq(|recs|, i requires 0 <= i < |recs| => recs[i].content)
  }

  // One batch: what is pending is embedded in one go, or none of it is written.
  ghost function WriteBatch(f: Feed, b: Backend, recs: seq<Record>, opts: Options, host: Host): Progress {
    var s := Screened(f, b, recs, opts);
    var p := Progress(AfterScreen(f, b, |recs|, opts), true, 0, s.duplicates, s.errs);
    if s.pending == [] then p
    else if !host.canEmbed(Contents(s.pending)) then p.(ok := false)
    else UpsertAll(p, b, s.pending, opts, host)
  }

  function Plus(p: Progress, q: Progress): Progress {
    Progress(q.feed, q.ok, p.imported + q.imported, p.duplicates + q.duplicates, p.errs + q.errs)
  }

  // Batches of n, each looking at what the ones before it wrote, until one
  // cannot be embedded.
  ghost function AfterBatches(p: Progress, b: Backend, recs: seq<Record>, n: nat, opts: Options, host: Host): Progress
    requires n > 0
    decreases |recs|
  {
    if recs == [] || !p.ok then p
    else
      var k := Min(n, |recs|);
      AfterBatches(Plus(p, WriteBatch(p.feed, b, recs[..k], opts, host)), b, recs[k..], n, opts, host)
  }

  function Start(f: Feed): Progress {
    Progress(f, true, 0, 0, [])
  }

  // ---- What importing may do ----------------------------------------------

  // The row of a record that carries this id, but for the creation time, which
  // a row that is replaced keeps.
  ghost predicate IsRowOf(recs: seq<Record>, opts: Options, host: Host, id: Id, row: Row) {
    exists i :: 0 <= i < |recs| && recs[i].id == id && row == ToRow(recs[i], opts, host).(createdAt := row.createdAt)
  }

  // A creation time that is a record's own, or that of the row it replaced.
  ghost predicate IsDated(was: Table, recs: seq<Record>, opts: Options, host: Host, id: Id, created: Time) {
    || (id in was && created == was[id].createdAt)
    || (exists i :: 0 <= i < |recs| && recs[i].id == id && created == ToRow(recs[i], opts, host).createdAt)
  }

  // What importing these records may do to one id, when others delete `gone`:
  // nothing, or give it the row of a record that carries it. A row that nobody
  // deletes never moves to another namespace, keeps its creation time, and is
  // left as it was if existing records are skipped.
  ghost predicate IsImported(was: Table, now: Table, recs: seq<Record>, opts: Options, host: Host, gone: set<Id>,
                             id: Id) {
    if id !in now then id !in was || id in gone
    else
      || (id in was && now[id] == was[id])
      || (IsRowOf(recs, opts, host, id, now[id]) && IsDated(was, recs, opts, host, id, now[id].createdAt) &&
          (id in was && id !in gone ==>
             !opts.skipExisting && was[id].ns == now[id].ns && was[id].createdAt == now[id].createdAt))
  }

  ghost predicate OnlyImports(was: Table, now: Table, recs: seq<Record>, opts: Options, host: Host, gone: set<Id>) {
    forall id {:trigger IsImported(was, now, recs, opts, host, gone, id)} ::
      IsImported(was, now, recs, opts, host, gone, id)
  }

  lemma ImportsNothing(was: Table, recs: seq<Record>, opts: Options, host: Host, gone: set<Id>)
    ensures OnlyImports(was, was - gone, recs, opts, host, gone)
  {
  }

  lemma ImportsLess(was: Table, now: Table, recs: seq<Record>, opts: Options, host: Host, gone: set<Id>, more: set<Id>)
    requires OnlyImports(was, now, recs, opts, host, gone)
    ensures OnlyImports(was, now - more, recs, opts, host, gone + more)
  {
    forall id
      ensures IsImported(was, now - more, recs, opts, host, gone + more, id)
    {
      assert IsImported(was, now, recs, opts, host, gone, id);
    }
  }

  // A record that was not found: no row of its namespace has its id, unless
  // it was deleted.
  ghost predicate IsUnseen(was: Table, gone: set<Id>, r: Record, opts: Options) {
    opts.skipExisting && r.id in was && r.id !in gone ==> was[r.id].ns != r.ns
  }

  lemma ImportsOneMore(was: Table, now: Table, recs: seq<Record>, opts: Options, host: Host, gone: set<Id>, r: Record)
    requires OnlyImports(was, now, recs, opts, host, gone) && r in recs && IsUnseen(was, gone, r, opts)
    requires IsFree(now, r)
    ensures OnlyImports(was, now[r.id := Upserted(now, r.id, ToRow(r, opts, host))], recs, opts, host, gone)
  {
    var row := Upserted(now, r.id, ToRow(r, opts, host));
    forall id {:trigger IsImported(was, now[r.id := row], recs, opts, host, gone, id)}
      ensures IsImported(was, now[r.id := row], recs, opts, host, gone, id)
    {
      assert IsImported(was, now, recs, opts, host, gone, id);
      var i :| 0 <= i < |recs| && recs[i] == r;
      assert IsRowOf(recs, opts, host, r.id, row);
      assert r.id !in now ==> IsDated(was, recs, opts, host, r.id, row.createdAt);
    }
  }

  lemma UnseenThen(was: Table, now: Table, recs: seq<Record>, opts: Options, host: Host, gone: set<Id>, r: Record)
    requires OnlyImports(was, now, recs, opts, host, gone) && !IsPresent(now, r)
    ensures IsUnseen(was, gone, r, opts)
  {
    assert IsImported(was, now, recs, opts, host, gone, r.id);
  }

  predicate Agree(r: Record, s: Record) {
    r.id == s.id ==> r.ns == s.ns
  }

  // No id is claimed by two namespaces.
  ghost predicate AreCompatible(rows: Table, recs: seq<Record>) {
    && (forall i {:trigger IsFree(rows, recs[i])} :: 0 <= i < |recs| ==> IsFree(rows, recs[i]))
    && (forall i, j {:trigger Agree(recs[i], recs[j])} ::
        0 <= i < |recs| && 0 <= j < |recs| ==> Agree(recs[i], recs[j]))
  }

  lemma ConflictIsIncompatible(was: Table, now: Table, recs: seq<Record>, r: Record, opts: Options, host: Host,
                               gone: set<Id>)
    requires OnlyImports(was, now, recs, opts, host, gone) && r in recs && !IsFree(now, r)
    ensures !AreCompatible(was, recs)
  {
    assert IsImported(was, now, recs, opts, host, gone, r.id);
    var j :| 0 <= j < |recs| && recs[j] == r;
    if IsRowOf(recs, opts, host, r.id, now[r.id]) {
      var i :| 0 <= i < |recs| && recs[i].id == r.id &&
        now[r.id] == ToRow(recs[i], opts, host).(createdAt := now[r.id].createdAt);
      assert !Agree(recs[i], recs[j]);
    } else {
      assert !IsFree(was, recs[j]);
    }
  }

  // ---- What writing keeps -------------------------------------------------

  // A stage of an import that began with the table `was` at the call `from`:
  // only imports happened, and every error is a failed call's or comes of an
  // id that two namespaces claim.
  ghost predicate IsStage(was: Table, from: nat, p: Progress, b: Backend, all: seq<Record>, opts: Options, host: Host) {
    && from <= p.feed.call
    && OnlyImports(was, p.feed.rows, all, opts, host, Gone(b.deletes, from, p.feed.call))
    && (p.errs != [] ==> AnyFails(b.fails, from, p.feed.call) || !AreCompatible(was, all))
  }

  lemma StageLooks(was: Table, from: nat, f: Feed, b: Backend, all: seq<Record>, opts: Options, host: Host, n: nat)
    requires from <= f.call && OnlyImports(was, f.rows, all, opts, host, Gone(b.deletes, from, f.call))
    ensures OnlyImports(was, After(f, b, n).rows, all, opts, host, Gone(b.deletes, from, f.call + n))
  {
    GoneJoin(b.deletes, from, f.call, f.call + n);
    ImportsLess(was, f.rows, all, opts, host, Gone(b.deletes, from, f.call), Gone(b.deletes, f.call, f.call + n));
  }

  lemma LookStage(was: Table, from: nat, f: Feed, b: Backend, i: nat, r: Record, all: seq<Record>, opts: Options,
                  host: Host)
    requires from <= f.call && OnlyImports(was, f.rows, all, opts, host, Gone(b.deletes, from, f.call))
    ensures VerdictOn(f, b, i, r, opts) == New ==> IsUnseen(was, Gone(b.deletes, from, f.call + i + 1), r, opts)
  {
    StageLooks(was, from, f, b, all, opts, host, i + 1);
    if opts.skipExisting && VerdictOn(f, b, i, r, opts) == New {
      UnseenThen(was, After(f, b, i + 1).rows, all, opts, host, Gone(b.deletes, from, f.call + i + 1), r);
    }
  }

  lemma {:induction false} ScreenStage(was: Table, from: nat, f: Feed, b: Backend, recs: seq<Record>,
                                       all: seq<Record>, opts: Options, host: Host)
    requires from <= f.call && OnlyImports(was, f.rows, all, opts, host, Gone(b.deletes, from, f.call))
    ensures forall r :: r in Screened(f, b, recs, opts).pending ==>
      r in recs && IsUnseen(was, Gone(b.deletes, from, AfterScreen(f, b, |recs|, opts).call), r, opts)
    ensures Screened(f, b, recs, opts).errs != [] ==> AnyFails(b.fails, f.call, AfterScreen(f, b, |recs|, opts).call)
  {
    if recs != [] {
      var n := |recs| - 1;
      assert recs == recs[..n] + [recs[n]];
      ScreenStage(was, from, f, b, recs[..n], all, opts, host);
      GoneJoin(b.deletes, from, f.call + n, f.call + n + 1);
      LookStage(was, from, f, b, n, recs[n], all, opts, host);
    }
  }

  lemma UpsertStage(was: Table, from: nat, p: Progress, b: Backend, r: Record, all: seq<Record>, opts: Options,
                    host: Host)
    requires IsStage(was, from, p, b, all, opts, host) && r in all
    requires IsUnseen(was, Gone(b.deletes, from, p.feed.call + 1), r, opts)
    ensures IsStage(was, from, Upserting(p, b, r, opts, host), b, all, opts, host)
  {
    var now, gone := p.feed.rows - b.deletes(p.feed.call), Gone(b.deletes, from, p.feed.call + 1);
    ImportsLess(was, p.feed.rows, all, opts, host, Gone(b.deletes, from, p.feed.call), b.deletes(p.feed.call));
    if IsFree(now, r) {
      ImportsOneMore(was, now, all, opts, host, gone, r);
    } else {
      ConflictIsIncompatible(was, now, all, r, opts, host, gone);
    }
  }

  lemma {:induction false} UpsertsTally(p: Progress, b: Backend, recs: seq<Record>, opts: Options, host: Host)
    ensures var q := UpsertAll(p, b, recs, opts, host);
      && q.feed.call == p.feed.call + |recs| && q.ok == p.ok && q.duplicates == p.duplicates
      && q.imported + |q.errs| == p.imported + |p.errs| + |recs|
  {
    if recs != [] {
      UpsertsTally(p, b, recs[..|recs| - 1], opts, host);
    }
  }

  lemma {:induction false} UpsertsStage(was: Table, from: nat, p: Progress, b: Backend, recs: seq<Record>,
                                        all: seq<Record>, opts: Options, host: Host)
    requires IsStage(was, from, p, b, all, opts, host)
    requires forall r :: r in recs ==> r in all && IsUnseen(was, Gone(b.deletes, from, p.feed.call), r, opts)
    ensures IsStage(was, from, UpsertAll(p, b, recs, opts, host), b, all, opts, host)
  {
    if recs != [] {
      var n := |recs| - 1;
      assert forall r :: r in recs[..n] ==> r in recs;
      assert recs[n] in recs;
      UpsertsStage(was, from, p, b, recs[..n], all, opts, host);
      UpsertsTally(p, b, recs[..n], opts, host);
      GoneJoin(b.deletes, from, p.feed.call, p.feed.call + n + 1);
      UpsertStage(was, from, UpsertAll(p, b, recs[..n], opts, host), b, recs[n], all, opts, host);
    }
  }

  lemma BatchStage(was: Table, from: nat, f: Feed, b: Backend, recs: seq<Record>, all: seq<Record>, opts: Options,
                   host: Host)
    requires from <= f.call && OnlyImports(was, f.rows, all, opts, host, Gone(b.deletes, from, f.call))
    requires forall r :: r in recs ==> r in all
    ensures IsStage(was, from, WriteBatch(f, b, recs, opts, host), b, all, opts, host)
  {
    var s, f1 := Screened(f, b, recs, opts), AfterScreen(f, b, |recs|, opts);
    var p := Progress(f1, true, 0, s.duplicates, s.errs);
    ScreenStage(was, from, f, b, recs, all, opts, host);
    StageLooks(was, from, f, b, all, opts, host, |recs|);
    FoundAt(f.rows, b.deletes, f.call, f.call);
    assert IsStage(was, from, p, b, all, opts, host);
    UpsertsStage(was, from, p, b, s.pending, all, opts, host);
  }

  lemma BatchTally(f: Feed, b: Backend, recs: seq<Record>, opts: Options, host: Host)
    ensures var q := WriteBatch(f, b, recs, opts, host);
      && f.call <= q.feed.call
      && (if q.ok then q.imported + q.duplicates + |q.errs| == |recs| else q.imported == 0)
  {
    var s := Screened(f, b, recs, opts);
    UpsertsTally(Progress(AfterScreen(f, b, |recs|, opts), true, 0, s.duplicates, s.errs), b, s.pending, opts, host);
  }

  // Whatever fails, an import accounts for every record it gets to, only
  // imports, and meets only errors of the store or of ids two namespaces claim.
  lemma {:induction false} BatchesStage(was: Table, from: nat, p: Progress, b: Backend, recs: seq<Record>,
                                        all: seq<Record>, n: nat, opts: Options, host: Host)
    requires n > 0 && IsStage(was, from, p, b, all, opts, host) && forall r :: r in recs ==> r in all
    ensures var q := AfterBatches(p, b, recs, n, opts, host);
      && IsStage(was, from, q, b, all, opts, host)
      && (q.ok ==> q.imported + q.duplicates + |q.errs| == p.imported + p.duplicates + |p.errs| + |recs|)
    decreases |recs|
  {
    if recs != [] && p.ok {
      var k := Min(n, |recs|);
      assert forall r :: r in recs[..k] ==> r in recs;
      assert forall r :: r in recs[k..] ==> r in recs;
      BatchStage(was, from, p.feed, b, recs[..k], all, opts, host);
      BatchTally(p.feed, b, recs[..k], opts, host);
      BatchesStage(was, from, Plus(p, WriteBatch(p.feed, b, recs[..k], opts, host)), b, recs[k..], all, n, opts, host);
    }
  }

  // ---- Writing ------------------------------------------------------------

  datatype WriteResult = WriteResult(imported: nat, duplicates: nat, errs: seq<Id>)

  ghost function BackendOf(st: Store): Backend {
    Backend(st.deletes, st.fails)
  }

  // Looks one record up, if existing ones are skipped.
  method LookUp(st: Store, r: Record, opts: Options, ghost f: Feed, ghost i: nat) returns (v: Verdict)
    requires Feed(st.rows, st.calls) == AfterScreen(f, BackendOf(st), i, opts)
    modifies st`rows, st`calls
    ensures v == VerdictOn(f, BackendOf(st), i, r, opts)
    ensures Feed(st.rows, st.calls) == AfterScreen(f, BackendOf(st), i + 1, opts)
  {
    if !opts.skipExisting {
      return New;
    }
    AfterJoin(f, BackendOf(st), i, 1);
    var found := st.Get(r.ns, r.id);
    if found.Ok? {
      return Known;
    }
    if found.error != NotFound {
      return Unsure;
    }
    return New;
  }

  method Screen(st: Store, recs: seq<Record>, opts: Options) returns (s: Screening)
    modifies st`rows, st`calls
    ensures s == Screened(Feed(old(st.rows), old(st.calls)), BackendOf(st), recs, opts)
    ensures Feed(st.rows, st.calls) == AfterScreen(Feed(old(st.rows), old(st.calls)), BackendOf(st), |recs|, opts)
  {
    s := Screening([], 0, []);
    ghost var f, b := Feed(st.rows, st.calls), BackendOf(st);
    AfterJoin(f, b, 0, 0);
    for i := 0 to |recs|
      invariant s == Screened(f, b, recs[..i], opts) && Feed(st.rows, st.calls) == AfterScreen(f, b, i, opts)
    {
      assert recs[..i + 1][..i] == recs[..i];
      var v := LookUp(st, recs[i], opts, f, i);
      s := Sorted(s, recs[i], v);
    }
    assert recs[..|recs|] == recs;
  }

  ghost function ProgressOf(st: Store, ok: bool, res: WriteResult): Progress
    reads st
  {
    Progress(Feed(st.rows, st.calls), ok, res.imported, res.duplicates, res.errs)
  }

  method UpsertOne(st: Store, r: Record, opts: Options, host: Host, res0: WriteResult) returns (res: WriteResult)
    modifies st`rows, st`calls
    ensures ProgressOf(st, true, res) == Upserting(old(ProgressOf(st, true, res0)), BackendOf(st), r, opts, host)
  {
    var saved := st.Upsert(Mem(r.id, ToRow(r, opts, host)));
    if saved != Done {
      return res0.(errs := res0.errs + [r.id]);
    }
    return res0.(imported := res0.imported + 1);
  }

  method UpsertEach(st: Store, pending: seq<Record>, opts: Options, host: Host, res0: WriteResult)
    returns (res: WriteResult)
    modifies st`rows, st`calls
    ensures ProgressOf(st, true, res) == UpsertAll(old(ProgressOf(st, true, res0)), BackendOf(st), pending, opts, host)
  {
    ghost var p := ProgressOf(st, true, res0);
    res := res0;
    for i := 0 to |pending|
      invariant ProgressOf(st, true, res) == UpsertAll(p, BackendOf(st), pending[..i], opts, host)
    {
      assert pending[..i + 1][..i] == pending[..i];
      res := UpsertOne(st, pending[i], opts, host, res);
    }
    assert pending[..|pending|] == pending;
  }

  // Writes one batch; an embedder that refuses its texts leaves it unwritten.
  method Write(st: Store, recs: seq<Record>, opts: Options, host: Host) returns (res: WriteResult, ok: bool)
    modifies st`rows, st`calls
    ensures ProgressOf(st, ok, res) == WriteBatch(Feed(old(st.rows), old(st.calls)), BackendOf(st), recs, opts, host)
  {
    var s := Screen(st, recs, opts);
    res := WriteResult(0, s.duplicates, s.errs);
    if |s.pending| == 0 {
      return res, true;
    }
    if !host.canEmbed(Contents(s.pending)) {
      return res, false;
    }
    res := UpsertEach(st, s.pending, opts, host, res);
    return res, true;
  }

  // ---- What comes to be in the table --------------------------------------

  ghost predicate ArePresent(rows: Table, recs: seq<Record>) {
    forall r {:trigger IsPresent(rows, r)} :: r in recs ==> IsPresent(rows, r)
  }

  // Others delete no row of this id.
  ghost predicate IsSpared(r: Record, b: Backend) {
    forall k :: r.id !in b.deletes(k)
  }

  ghost predicate AreSpared(recs: seq<Record>, b: Backend) {
    forall r {:trigger IsSpared(r, b)} :: r in recs ==> IsSpared(r, b)
  }

  lemma {:induction false} SparedStay(rows: Table, b: Backend, lo: nat, hi: nat, r: Record)
    requires IsSpared(r, b)
    ensures r.id !in Gone(b.deletes, lo, hi)
    ensures IsPresent(rows, r) ==> IsPresent(rows - Gone(b.deletes, lo, hi), r)
    decreases hi
  {
    if lo < hi {
      SparedStay(rows, b, lo, hi - 1, r);
    }
  }

  lemma UpsertMakesPresent(p: Progress, b: Backend, r: Record, opts: Options, host: Host, s: Record)
    requires s.id !in b.deletes(p.feed.call) && (r == s || IsPresent(p.feed.rows, s))
    ensures var q := Upserting(p, b, r, opts, host); q.errs == p.errs ==> IsPresent(q.feed.rows, s)
  {
    assert |p.errs + [r.id]| > |p.errs|;
  }

  lemma {:induction false} UpsertsMakePresent(p: Progress, b: Backend, recs: seq<Record>, opts: Options, host: Host,
                                              s: Record)
    requires IsSpared(s, b)
    requires s in recs || IsPresent(p.feed.rows, s)
    ensures var q := UpsertAll(p, b, recs, opts, host); q.errs == p.errs ==> IsPresent(q.feed.rows, s)
  {
    if recs != [] {
      var n := |recs| - 1;
      assert recs == recs[..n] + [recs[n]];
      var mid, q := UpsertAll(p, b, recs[..n], opts, host), UpsertAll(p, b, recs, opts, host);
      UpsertsCount(p, b, recs[..n], opts, host);
      if q.errs == p.errs {
        assert |mid.errs| <= |q.errs|;
        if s in recs[..n] || IsPresent(p.feed.rows, s) {
          UpsertsMakePresent(p, b, recs[..n], opts, host, s);
        }
        UpsertMakesPresent(mid, b, recs[n], opts, host, s);
      }
    }
  }

  lemma {:induction false} UpsertsCount(p: Progress, b: Backend, recs: seq<Record>, opts: Options, host: Host)
    ensures p.errs <= UpsertAll(p, b, recs, opts, host).errs
  {
    if recs != [] {
      UpsertsCount(p, b, recs[..|recs| - 1], opts, host);
    }
  }

  lemma {:induction false} ScreenedOrPresent(f: Feed, b: Backend, recs: seq<Record>, opts: Options, r: Record)
    requires r in recs && Screened(f, b, recs, opts).errs == []
    ensures r in Screened(f, b, recs, opts).pending || IsPresent(f.rows, r)
  {
    var n := |recs| - 1;
    assert recs == recs[..n] + [recs[n]];
    if r in recs[..n] {
      ScreenedOrPresent(f, b, recs[..n], opts, r);
    }
  }

  lemma ScreenKeepsPresent(f: Feed, b: Backend, n: nat, opts: Options, r: Record)
    requires IsSpared(r, b) && IsPresent(f.rows, r)
    ensures IsPresent(AfterScreen(f, b, n, opts).rows, r)
  {
    SparedStay(f.rows, b, f.call, f.call + n, r);
  }

  lemma PendingMakePresent(p: Progress, b: Backend, pending: seq<Record>, opts: Options, host: Host, r: Record)
    requires IsSpared(r, b) && p.errs == [] && (r in pending || IsPresent(p.feed.rows, r))
    ensures var q := UpsertAll(p, b, pending, opts, host); q.errs == [] ==> IsPresent(q.feed.rows, r)
    ensures pending == [] ==> IsPresent(p.feed.rows, r)
  {
    UpsertsMakePresent(p, b, pending, opts, host, r);
  }

  lemma BatchMakesPresent(f: Feed, b: Backend, recs: seq<Record>, opts: Options, host: Host, r: Record)
    requires IsSpared(r, b) && (r in recs || IsPresent(f.rows, r))
    ensures var q := WriteBatch(f, b, recs, opts, host); q.ok && q.errs == [] ==> IsPresent(q.feed.rows, r)
  {
    var s := Screened(f, b, recs, opts);
    var p := Progress(AfterScreen(f, b, |recs|, opts), true, 0, s.duplicates, s.errs);
    UpsertsCount(p, b, s.pending, opts, host);
    if s.errs == [] {
      if r in recs {
        ScreenedOrPresent(f, b, recs, opts, r);
      }
      if IsPresent(f.rows, r) {
        ScreenKeepsPresent(f, b, |recs|, opts, r);
      }
      PendingMakePresent(p, b, s.pending, opts, host, r);
    }
  }

  lemma {:induction false} BatchesKeepErrors(p: Progress, b: Backend, recs: seq<Record>, n: nat, opts: Options,
                                             host: Host)
    requires n > 0
    ensures var q := AfterBatches(p, b, recs, n, opts, host); |p.errs| <= |q.errs| && (q.ok ==> p.ok)
    decreases |recs|
  {
    if recs != [] && p.ok {
      var k := Min(n, |recs|);
      BatchesKeepErrors(Plus(p, WriteBatch(p.feed, b, recs[..k], opts, host)), b, recs[k..], n, opts, host);
    }
  }

  lemma {:induction false} ImportMakesPresent(p: Progress, b: Backend, recs: seq<Record>, n: nat, opts: Options,
                                              host: Host, r: Record)
    requires n > 0 && IsSpared(r, b) && (r in recs || IsPresent(p.feed.rows, r))
    ensures var q := AfterBatches(p, b, recs, n, opts, host); q.ok && q.errs == [] ==> IsPresent(q.feed.rows, r)
    decreases |recs|
  {
    if recs != [] && p.ok {
      var k := Min(n, |recs|);
      var batch := WriteBatch(p.feed, b, recs[..k], opts, host);
      assert recs == recs[..k] + recs[k..];
      BatchesKeepErrors(Plus(p, batch), b, recs[k..], n, opts, host);
      if batch.ok && batch.errs == [] {
        if r in recs[..k] || IsPresent(p.feed.rows, r) {
          BatchMakesPresent(p.feed, b, recs[..k], opts, host, r);
        }
        ImportMakesPresent(Plus(p, batch), b, recs[k..], n, opts, host, r);
      }
    }
  }

  // ---- A whole import -----------------------------------------------------

  predicate Passes(r: Record, opts: Options, host: Host) {
    && !host.isNoise(r.content)
    && ByteLength(TrimSpace(r.content)) >= Max(1, opts.minContentLen)
    && r.importance >= opts.minImportance
  }

  function Stripped(r: Record, host: Host): Record {
    r.(content := host.strip(r.content))
  }

  // The records that pass the quality gates, stripped of runtime framing.
  function Clean(recs: seq<Record>, opts: Options, host: Host): seq<Record> {
    if recs == [] then []
    else
      var last := Stripped(recs[|recs| - 1], host);
      Clean(recs[..|recs| - 1], opts, host) + if Passes(last, opts, host) then [last] else []
  }

  // The records of an import, as it writes them.
  function Prepared(recs: seq<Record>, opts: Options, host: Host): seq<Record> {
    FinalizedAll(Clean(recs, opts, host), opts, host)
  }

  function BatchSize(opts: Options): nat {
    if opts.batchSize <= 0 then DEFAULT_BATCH_SIZE else opts.batchSize
  }

  datatype Report = Report(
    total: nat,
    imported: nat,
    skipped: nat,
    duplicates: nat,
    namespaces: map<string, nat>,
    errors: seq<Id>)

  // ---- What becomes of a record -------------------------------------------

  // The gates leave a record out when nothing but framing, or next to nothing,
  // is left of it, or when it does not matter enough.
  ghost predicate IsLeftOut(r: Record, opts: Options, host: Host) {
    var text := host.strip(r.content);
    || host.isNoise(text)
    || ByteLength(TrimSpace(text)) < 1
    || ByteLength(TrimSpace(text)) < opts.minContentLen
    || r.importance < opts.minImportance
  }

  ghost function LeftOut(recs: seq<Record>, opts: Options, host: Host): set<nat> {
    set i: nat | i < |recs| && IsLeftOut(recs[i], opts, host)
  }

  // Where a record goes: to the forced namespace, else to its own, else to the
  // default one, under its own id or one derived from what it says there.
  ghost predicate IsAddressOf(r: Record, id: Id, ns: string, opts: Options, host: Host) {
    && (opts.forceNamespace != "" ==> ns == opts.forceNamespace)
    && (opts.forceNamespace == "" && r.ns != "" ==> ns == r.ns)
    && (opts.forceNamespace == "" && r.ns == "" && opts.defaultNamespace != "" ==> ns == opts.defaultNamespace)
    && (opts.forceNamespace == "" && r.ns == "" && opts.defaultNamespace == "" ==> ns == "default")
    && (r.id != "" ==> id == r.id)
    && (r.id == "" ==> id == host.deriveId(opts.source, ns, host.strip(r.content)))
  }

  // The tags, and after them where and when they were imported from, once.
  ghost predicate IsTagged(was: seq<string>, now: seq<string>, opts: Options, host: Host) {
    var tag := "import:" + opts.source + ":" + host.today;
    if opts.source == "" || tag in was then now == was else now == was + [tag]
  }

  // What one key of the metadata holds: the source of the import, the
  // namespace it took the record out of, or what it held before.
  ghost predicate IsStamped(r: Record, ns: string, now: map<string, Meta>, key: string, opts: Options) {
    if key == "import_source_namespace" && r.ns != "" && ns != r.ns then key in now && now[key] == Meta.Text(r.ns)
    else if key == "import_source" && opts.source != "" then key in now && now[key] == Meta.Text(opts.source)
    else if key in r.metadata then key in now && now[key] == r.metadata[key]
    else key !in now
  }

  // A record as it is written, by the record as it was read.
  ghost predicate IsReadied(r: Record, f: Record, opts: Options, host: Host) {
    && IsAddressOf(r, f.id, f.ns, opts, host)
    && f.content == host.strip(r.content)
    && IsTagged(r.tags, f.tags, opts, host)
    && (forall key {:trigger IsStamped(r, f.ns, f.metadata, key, opts)} :: IsStamped(r, f.ns, f.metadata, key, opts))
    && (r.importance != 0.0 || opts.defaultImportance <= 0.0 ==> f.importance == r.importance)
    && (r.importance == 0.0 && opts.defaultImportance > 0.0 ==> f.importance == opts.defaultImportance)
    && f.tier == r.tier && f.createdAt == r.createdAt && f.updatedAt == r.updatedAt && f.expiresAt == r.expiresAt
  }

  // The times of a stored record: what it brought along, or else now; and
  // three days for a working memory, thirty for an episodic or untyped one, no
  // end for a durable one.
  ghost predicate IsTimed(r: Record, row: Row, created: Time, host: Host) {
    && created == (if r.createdAt.Some? then r.createdAt.value else host.now)
    && (r.updatedAt.Some? ==> row.updatedAt == r.updatedAt.value)
    && (r.updatedAt.None? ==> row.updatedAt == created)
    && row.accessedAt == row.updatedAt && row.accessCount == 0
    && (r.expiresAt.Some? ==> row.expiresAt == r.expiresAt)
    && (r.expiresAt.None? ==>
          match row.tier
          case Working => row.expiresAt == Some(created + 259_200_000_000_000)
          case Episodic => row.expiresAt == Some(created + 2_592_000_000_000_000)
          case _ => row.expiresAt == None)
  }

  // The row of a record that is written, but for the time of its creation.
  ghost predicate IsStoredAs(f: Record, row: Row, created: Time, opts: Options, host: Host) {
    && row.ns == f.ns && row.tags == f.tags
    && row.content == host.redact(f.content) && row.metadata == host.redactMeta(f.metadata)
    && (f.tier.Some? ==> row.tier == f.tier.value) && (f.tier.None? ==> row.tier == Episodic)
    && (0.0 <= f.importance <= 1.0 ==> row.importance == f.importance)
    && (f.importance < 0.0 ==> row.importance == 0.0) && (f.importance > 1.0 ==> row.importance == 1.0)
    && IsTimed(f, row, created, host)
    && row.supersededBy == None && row.validTo == None
    && (match row.tier
        case Semantic => row.confidence == Some(if opts.confidence.Some? then opts.confidence.value else 0.25)
        case Procedural => row.confidence == Some(if opts.confidence.Some? then opts.confidence.value else 0.25)
        case _ => row.confidence == None)
  }

  lemma StampsAre(r: Record, opts: Options, key: string)
    ensures IsStamped(r, Destination(r, opts), FinalMetadata(r, opts), key, opts)
  {
  }

  lemma ReadiedIs(r: Record, opts: Options, host: Host)
    ensures IsReadied(r, Finalized(Stripped(r, host), opts, host), opts, host)
  {
    var s, f := Stripped(r, host), Finalized(Stripped(r, host), opts, host);
    forall key
      ensures IsStamped(r, f.ns, f.metadata, key, opts)
    {
      StampsAre(s, opts, key);
      assert IsStamped(s, f.ns, f.metadata, key, opts);
    }
  }

  lemma StoredIs(f: Record, row: Row, opts: Options, host: Host)
    requires row == ToRow(f, opts, host).(createdAt := row.createdAt)
    ensures IsStoredAs(f, row, ToRow(f, opts, host).createdAt, opts, host)
  {
  }

  // The positions of the records that are let through, in order.
  ghost predicate AreLetThrough(kept: seq<nat>, recs: seq<Record>, opts: Options, host: Host) {
    && (forall i, j :: 0 <= i < j < |kept| ==> kept[i] < kept[j])
    && (forall i: nat {:trigger i in kept} :: i in kept <==> i < |recs| && !IsLeftOut(recs[i], opts, host))
  }

  ghost predicate IsReadiedAt(kept: seq<nat>, recs: seq<Record>, final: seq<Record>, j: nat, opts: Options, host: Host)
    requires j < |kept| == |final| && kept[j] < |recs|
  {
    IsReadied(recs[kept[j]], final[j], opts, host)
  }

  ghost predicate AreReadied(kept: seq<nat>, recs: seq<Record>, final: seq<Record>, opts: Options, host: Host) {
    && |final| == |kept|
    && (forall j {:trigger kept[j]} :: 0 <= j < |kept| ==> kept[j] < |recs|)
    && forall j: nat {:trigger IsReadiedAt(kept, recs, final, j, opts, host)} :: j < |kept| ==>
         IsReadiedAt(kept, recs, final, j, opts, host)
  }

  lemma LeftOutOneMore(recs: seq<Record>, opts: Options, host: Host)
    requires recs != []
    ensures |LeftOut(recs, opts, host)| ==
      |LeftOut(recs[..|recs| - 1], opts, host)| + if IsLeftOut(recs[|recs| - 1], opts, host) then 1 else 0
  {
    var n, init := |recs| - 1, recs[..|recs| - 1];
    var less, more := LeftOut(init, opts, host), LeftOut(recs, opts, host);
    forall i: nat
      ensures i in more <==> i in less || (i == n && IsLeftOut(recs[n], opts, host))
    {
      assert i < n ==> init[i] == recs[i];
    }
    assert more == less + (if IsLeftOut(recs[n], opts, host) then {n} else {}) && n !in less;
  }

  lemma PositionsOneMore(kept: seq<nat>, n: nat)
    requires (forall i, j :: 0 <= i < j < |kept| ==> kept[i] < kept[j]) && forall i :: i in kept ==> i < n
    ensures var more := kept + [n];
      (forall i, j :: 0 <= i < j < |more| ==> more[i] < more[j]) && forall i :: i in more <==> i in kept || i == n
  {
    assert forall j :: 0 <= j < |kept| ==> kept[j] in kept;
    assert (kept + [n])[|kept|] == n;
  }

  lemma LetThroughOneMore(kept: seq<nat>, recs: seq<Record>, opts: Options, host: Host)
    requires recs != [] && AreLetThrough(kept, recs[..|recs| - 1], opts, host)
    ensures var n := |recs| - 1;
      AreLetThrough(if IsLeftOut(recs[n], opts, host) then kept else kept + [n], recs, opts, host)
  {
    var n, init := |recs| - 1, recs[..|recs| - 1];
    PositionsOneMore(kept, n);
    var more := if IsLeftOut(recs[n], opts, host) then kept else kept + [n];
    forall i: nat
      ensures i in more <==> i < |recs| && !IsLeftOut(recs[i], opts, host)
    {
      assert i < n ==> init[i] == recs[i];
      assert i in kept <==> i < n && !IsLeftOut(init[i], opts, host);
    }
  }

  lemma ReadiedOneMore(kept: seq<nat>, recs: seq<Record>, final: seq<Record>, f: Record, opts: Options, host: Host)
    requires recs != [] && AreReadied(kept, recs[..|recs| - 1], final, opts, host)
    requires IsReadied(recs[|recs| - 1], f, opts, host)
    ensures AreReadied(kept, recs, final, opts, host)
    ensures AreReadied(kept + [|recs| - 1], recs, final + [f], opts, host)
  {
    var init, kept1, final1 := recs[..|recs| - 1], kept + [|recs| - 1], final + [f];
    assert forall j :: 0 <= j < |kept| ==> kept1[j] == kept[j];
    forall j: nat | j < |kept|
      ensures IsReadiedAt(kept, recs, final, j, opts, host) && IsReadiedAt(kept1, recs, final1, j, opts, host)
    {
      assert IsReadiedAt(kept, init, final, j, opts, host);
    }
  }

  lemma PreparedOneMore(recs: seq<Record>, opts: Options, host: Host)
    requires recs != []
    ensures var r, init := recs[|recs| - 1], Prepared(recs[..|recs| - 1], opts, host);
      Prepared(recs, opts, host) ==
        if IsLeftOut(r, opts, host) then init else init + [Finalized(Stripped(r, host), opts, host)]
  {
  }

  // What is written is what the gates let through, in order, each record
  // readied; the others are the ones left out.
  lemma {:induction false} PreparedAre(recs: seq<Record>, opts: Options, host: Host) returns (kept: seq<nat>)
    ensures AreLetThrough(kept, recs, opts, host) && AreReadied(kept, recs, Prepared(recs, opts, host), opts, host)
    ensures |LeftOut(recs, opts, host)| + |kept| == |recs|
  {
    if recs == [] {
      return [];
    }
    var n, init := |recs| - 1, recs[..|recs| - 1];
    kept := PreparedAre(init, opts, host);
    LeftOutOneMore(recs, opts, host);
    PreparedOneMore(recs, opts, host);
    LetThroughOneMore(kept, recs, opts, host);
    ReadiedIs(recs[n], opts, host);
    ReadiedOneMore(kept, recs, Prepared(init, opts, host), Finalized(Stripped(recs[n], host), opts, host), opts, host);
    if !IsLeftOut(recs[n], opts, host) {
      kept := kept + [n];
    }
  }

  // A record that others do not delete is in the table, under its address.
  ghost predicate IsLanded(now: Table, r: Record, id: Id, ns: string, opts: Options, host: Host, b: Backend) {
    IsAddressOf(r, id, ns, opts, host) && (forall k :: id !in b.deletes(k)) ==> id in now && now[id].ns == ns
  }

  // So is every record but those left out.
  ghost predicate AreLanded(now: Table, recs: seq<Record>, opts: Options, host: Host, b: Backend) {
    forall i, id, ns {:trigger IsLanded(now, recs[i], id, ns, opts, host, b)} ::
      0 <= i < |recs| && !IsLeftOut(recs[i], opts, host) ==> IsLanded(now, recs[i], id, ns, opts, host, b)
  }

  // After an import without errors no record that passes the gates is missing.
  lemma LetThroughLand(f: Feed, b: Backend, recs: seq<Record>, n: nat, opts: Options, host: Host)
    requires n > 0
    ensures var q := AfterBatches(Start(f), b, Prepared(recs, opts, host), n, opts, host);
      q.ok && q.errs == [] ==> AreLanded(q.feed.rows, recs, opts, host, b)
  {
    var final := Prepared(recs, opts, host);
    var q := AfterBatches(Start(f), b, final, n, opts, host);
    var kept := PreparedAre(recs, opts, host);
    forall i: int, id: Id, ns: string |
      q.ok && q.errs == [] && 0 <= i < |recs| && !IsLeftOut(recs[i], opts, host)
      ensures IsLanded(q.feed.rows, recs[i], id, ns, opts, host, b)
    {
      assert i in kept;
      var j: nat :| j < |kept| && kept[j] == i;
      assert IsReadiedAt(kept, recs, final, j, opts, host);
      if IsAddressOf(recs[i], id, ns, opts, host) && (forall k :: id !in b.deletes(k)) {
        assert final[j].ns == ns && final[j].id == id;
        ImportMakesPresent(Start(f), b, final, n, opts, host, final[j]);
      }
    }
  }

  // A row that is one of these records, readied and stored.
  ghost predicate IsRecordAt(recs: seq<Record>, i: int, f: Record, id: Id, row: Row, created: Time, opts: Options,
                             host: Host) {
    && 0 <= i < |recs| && !IsLeftOut(recs[i], opts, host)
    && IsReadied(recs[i], f, opts, host) && f.id == id && IsStoredAs(f, row, created, opts, host)
  }

  ghost predicate IsOneOf(recs: seq<Record>, id: Id, row: Row, opts: Options, host: Host) {
    exists i, f, created :: IsRecordAt(recs, i, f, id, row, created, opts, host)
  }

  // The creation time of one of these records, readied.
  ghost predicate IsMadeAt(recs: seq<Record>, i: int, f: Record, id: Id, created: Time, opts: Options, host: Host) {
    && 0 <= i < |recs| && !IsLeftOut(recs[i], opts, host)
    && IsReadied(recs[i], f, opts, host) && f.id == id
    && created == if f.createdAt.Some? then f.createdAt.value else host.now
  }

  lemma ReadiedFrom(kept: seq<nat>, recs: seq<Record>, j: nat, opts: Options, host: Host) returns (i: nat)
    requires AreLetThrough(kept, recs, opts, host) && AreReadied(kept, recs, Prepared(recs, opts, host), opts, host)
    requires j < |Prepared(recs, opts, host)|
    ensures i < |recs| && !IsLeftOut(recs[i], opts, host)
    ensures IsReadied(recs[i], Prepared(recs, opts, host)[j], opts, host)
  {
    i := kept[j];
    assert i in kept && IsReadiedAt(kept, recs, Prepared(recs, opts, host), j, opts, host);
  }

  // Every row that an import wrote is a record that passed the gates, created
  // when one of them says, or when the row it replaced was.
  lemma WrittenAreRecords(was: Table, now: Table, recs: seq<Record>, opts: Options, host: Host, gone: set<Id>, id: Id)
    requires OnlyImports(was, now, Prepared(recs, opts, host), opts, host, gone)
    requires id in now && (id in was ==> now[id] != was[id])
    ensures IsOneOf(recs, id, now[id], opts, host)
    ensures (id in was && now[id].createdAt == was[id].createdAt) ||
      exists i, f :: IsMadeAt(recs, i, f, id, now[id].createdAt, opts, host)
  {
    var final := Prepared(recs, opts, host);
    var kept := PreparedAre(recs, opts, host);
    assert IsImported(was, now, final, opts, host, gone, id);
    var j := RowFrom(final, opts, host, id, now[id]);
    var i := ReadiedFrom(kept, recs, j, opts, host);
    StoredIs(final[j], now[id], opts, host);
    assert IsRecordAt(recs, i, final[j], id, now[id], ToRow(final[j], opts, host).createdAt, opts, host);
    if !(id in was && now[id].createdAt == was[id].createdAt) {
      j := DateFrom(was, final, opts, host, id, now[id].createdAt);
      i := ReadiedFrom(kept, recs, j, opts, host);
      assert IsMadeAt(recs, i, final[j], id, now[id].createdAt, opts, host);
    }
  }

  lemma RowFrom(recs: seq<Record>, opts: Options, host: Host, id: Id, row: Row) returns (j: nat)
    requires IsRowOf(recs, opts, host, id, row)
    ensures j < |recs| && recs[j].id == id && row == ToRow(recs[j], opts, host).(createdAt := row.createdAt)
  {
    j :| j < |recs| && recs[j].id == id && row == ToRow(recs[j], opts, host).(createdAt := row.createdAt);
  }

  lemma DateFrom(was: Table, recs: seq<Record>, opts: Options, host: Host, id: Id, created: Time) returns (j: nat)
    requires IsDated(was, recs, opts, host, id, created) && !(id in was && created == was[id].createdAt)
    ensures j < |recs| && recs[j].id == id && created == ToRow(recs[j], opts, host).createdAt
  {
    j :| j < |recs| && recs[j].id == id && created == ToRow(recs[j], opts, host).createdAt;
  }

  method Gate(recs: seq<Record>, opts: Options, host: Host) returns (clean: seq<Record>, skipped: nat)
    ensures clean == Clean(recs, opts, host) && |clean| + skipped == |recs|
  {
    clean, skipped := [], 0;
    for i := 0 to |recs|
      invariant clean == Clean(recs[..i], opts, host) && |clean| + skipped == i
    {
      assert recs[..i + 1][..i] == recs[..i];
      var r := recs[i].(content := host.strip(recs[i].content));
      if host.isNoise(r.content) {
        skipped := skipped + 1;
        continue;
      }
      if ByteLength(TrimSpace(r.content)) < Max(1, opts.minContentLen) {
        skipped := skipped + 1;
        continue;
      }
      if r.importance < opts.minImportance {
        skipped := skipped + 1;
        continue;
      }
      clean := clean + [r];
    }
    assert recs[..|recs|] == recs;
  }

  // Every record is accounted for, the histogram says where the records land
  // whether or not they are written, the only rows touched are those of the
  // records, and an error stops it exactly at the batch whose texts cannot be
  // embedded.
  method Import(st: Store, recs: seq<Record>, opts: Options, host: Host) returns (rep: Report, err: Outcome)
    modifies st`rows, st`calls
    ensures err == Done || err == Failed
    ensures var final := Prepared(recs, opts, host);
      && rep.total == |recs| && rep.skipped == |recs| - |final| && IsHistogram(rep.namespaces, final)
      && (opts.dryRun ==>
            && st.rows == old(st.rows) && st.calls == old(st.calls) && err == Done
            && rep.imported == rep.duplicates == 0 && rep.errors == [])
      && (!opts.dryRun ==>
            && Progress(Feed(st.rows, st.calls), err == Done, rep.imported, rep.duplicates, rep.errors) ==
                 AfterBatches(Start(Feed(old(st.rows), old(st.calls))), BackendOf(st), final,
                              if opts.batchSize <= 0 then 64 else opts.batchSize, opts, host)
            && (err == Done ==> rep.total == rep.imported + rep.skipped + rep.duplicates + |rep.errors|))
      && OnlyImports(old(st.rows), st.rows, final, opts, host, st.Lost(old(st.calls)))
      && (rep.errors != [] ==> st.FailedSince(old(st.calls)) || !AreCompatible(old(st.rows), final))
    ensures rep.skipped == |LeftOut(recs, opts, host)|
    ensures !opts.dryRun && err == Done && rep.errors == [] ==> AreLanded(st.rows, recs, opts, host, BackendOf(st))
  {
    ghost var kept := PreparedAre(recs, opts, host);
    LetThroughLand(Feed(st.rows, st.calls), BackendOf(st), recs, BatchSize(opts), opts, host);
    var clean, skipped := Gate(recs, opts, host);
    var final := new Record[|clean|](i requires 0 <= i < |clean| => clean[i]);
    assert final[..] == clean;
    var hist := FinalizeRecords(final, opts, host);
    rep := Report(|recs|, 0, skipped, 0, hist, []);
    ghost var was, from := st.rows, st.calls;
    FoundAt(was, st.deletes, from, from);
    ImportsNothing(was, final[..], opts, host, {});
    if opts.dryRun {
      return rep, Done;
    }
    BatchesStage(was, from, Start(Feed(was, from)), BackendOf(st), final[..], final[..], BatchSize(opts), opts, host);
    rep, err := WriteBatches(st, final[..], rep, opts, host);
  }

  lemma BatchesStep(p: Progress, b: Backend, recs: seq<Record>, start: nat, end: nat, n: nat, opts: Options, host: Host)
    requires n > 0 && p.ok && start < |recs| && end == Min(start + n, |recs|)
    ensures AfterBatches(p, b, recs[start..], n, opts, host) ==
      AfterBatches(Plus(p, WriteBatch(p.feed, b, recs[start..end], opts, host)), b, recs[end..], n, opts, host)
  {
    assert recs[start..][..end - start] == recs[start..end] && recs[start..][end - start..] == recs[end..];
  }

  // The report as a progress of the calls made so far.
  ghost function ReportedBy(st: Store, ok: bool, rep: Report): Progress
    reads st
  {
    Progress(Feed(st.rows, st.calls), ok, rep.imported, rep.duplicates, rep.errors)
  }

  method WriteNext(st: Store, recs: seq<Record>, rep0: Report, opts: Options, host: Host)
    returns (rep: Report, ok: bool)
    modifies st`rows, st`calls
    ensures rep == rep0.(imported := rep.imported, duplicates := rep.duplicates, errors := rep.errors)
    ensures var p := old(ReportedBy(st, true, rep0));
      ReportedBy(st, ok, rep) == Plus(p, WriteBatch(p.feed, BackendOf(st), recs, opts, host))
  {
    var res;
    res, ok := Write(st, recs, opts, host);
    rep := rep0.(imported := rep0.imported + res.imported, duplicates := rep0.duplicates + res.duplicates,
                 errors := rep0.errors + res.errs);
  }

  method WriteBatches(st: Store, final: seq<Record>, rep0: Report, opts: Options, host: Host)
    returns (rep: Report, err: Outcome)
    requires rep0.imported == rep0.duplicates == 0 && rep0.errors == []
    modifies st`rows, st`calls
    ensures err == Done || err == Failed
    ensures rep == rep0.(imported := rep.imported, duplicates := rep.duplicates, errors := rep.errors)
    ensures ReportedBy(st, err == Done, rep) ==
      AfterBatches(Start(Feed(old(st.rows), old(st.calls))), BackendOf(st), final, BatchSize(opts), opts, host)
  {
    var n := BatchSize(opts);
    ghost var b, p := BackendOf(st), Start(Feed(st.rows, st.calls));
    ghost var all := AfterBatches(p, b, final, n, opts, host);
    rep := rep0;
    var start := 0;
    while start < |final|
      invariant 0 <= start <= |final|
      invariant rep == rep0.(imported := rep.imported, duplicates := rep.duplicates, errors := rep.errors)
      invariant p == ReportedBy(st, true, rep) && AfterBatches(p, b, final[start..], n, opts, host) == all
    {
      var end := Min(start + n, |final|);
      BatchesStep(p, b, final, start, end, n, opts, host);
      p := Plus(p, WriteBatch(p.feed, b, final[start..end], opts, host));
      var ok;
      rep, ok := WriteNext(st, final[start..end], rep, opts, host);
      if !ok {
        return rep, Failed;
      }
      start := end;
    }
    return rep, Done;
  }

  // ---- Importing again ----------------------------------------------------

  ghost predicate AreKept(rows: Table, recs: seq<Record>, b: Backend) {
    ArePresent(rows, recs) && AreSpared(recs, b)
  }

  lemma KeptParts(rows: Table, recs: seq<Record>, k: nat, b: Backend)
    requires k <= |recs| && AreKept(rows, recs, b)
    ensures AreKept(rows, recs[..k], b) && AreKept(rows, recs[k..], b)
  {
    assert forall r :: r in recs[..k] ==> r in recs;
    assert forall r :: r in recs[k..] ==> r in recs;
  }

  lemma {:induction false} PresentAreSkipped(f: Feed, b: Backend, recs: seq<Record>, opts: Options)
    requires opts.skipExisting && AreKept(f.rows, recs, b)
    ensures Screened(f, b, recs, opts).pending == []
  {
    if recs != [] {
      var n := |recs| - 1;
      KeptParts(f.rows, recs, n, b);
      assert recs[n] in recs && IsPresent(f.rows, recs[n]) && IsSpared(recs[n], b);
      PresentAreSkipped(f, b, recs[..n], opts);
      SparedStay(f.rows, b, f.call, f.call + n + 1, recs[n]);
    }
  }

  lemma KeptAfter(f: Feed, b: Backend, recs: seq<Record>, n: nat)
    requires AreKept(f.rows, recs, b)
    ensures AreKept(After(f, b, n).rows, recs, b)
  {
    forall r | r in recs
      ensures IsPresent(After(f, b, n).rows, r)
    {
      assert IsPresent(f.rows, r) && IsSpared(r, b);
      SparedStay(f.rows, b, f.call, f.call + n, r);
    }
  }

  lemma SkipBatch(p: Progress, b: Backend, recs: seq<Record>, k: nat, n: nat, opts: Options, host: Host)
    returns (next: Progress)
    requires n > 0 && recs != [] && k == Min(n, |recs|) && p.ok && opts.skipExisting && AreKept(p.feed.rows, recs, b)
    ensures next.ok && next.imported == p.imported && next.feed == After(p.feed, b, k)
    ensures AreKept(next.feed.rows, recs[k..], b)
    ensures AfterBatches(p, b, recs, n, opts, host) == AfterBatches(next, b, recs[k..], n, opts, host)
  {
    KeptParts(p.feed.rows, recs, k, b);
    PresentAreSkipped(p.feed, b, recs[..k], opts);
    KeptAfter(p.feed, b, recs[k..], k);
    next := Plus(p, WriteBatch(p.feed, b, recs[..k], opts, host));
  }

  lemma AfterRest(f: Feed, b: Backend, recs: seq<Record>, k: nat)
    requires k <= |recs|
    ensures After(After(f, b, k), b, |recs[k..]|) == After(f, b, |recs|)
  {
    AfterJoin(f, b, k, |recs| - k);
  }

  lemma {:induction false} PresentAreKept(p: Progress, b: Backend, recs: seq<Record>, n: nat, opts: Options, host: Host)
    requires n > 0 && p.ok && opts.skipExisting && AreKept(p.feed.rows, recs, b)
    ensures var q := AfterBatches(p, b, recs, n, opts, host);
      q.ok && q.imported == p.imported && q.feed == After(p.feed, b, |recs|)
    decreases |recs|
  {
    if recs == [] {
      AfterJoin(p.feed, b, 0, 0);
    } else {
      var k := Min(n, |recs|);
      var next := SkipBatch(p, b, recs, k, n, opts, host);
      PresentAreKept(next, b, recs[k..], n, opts, host);
      AfterRest(p.feed, b, recs, k);
    }
  }

  // Two runs of the importer, on any two days, that derive ids and recognise
  // framing alike.
  ghost predicate ReadsAlike(host: Host, later: Host) {
    later.deriveId == host.deriveId && later.strip == host.strip && later.isNoise == host.isNoise
  }

  lemma {:induction false} SameClean(recs: seq<Record>, opts: Options, host: Host, later: Host)
    requires ReadsAlike(host, later)
    ensures Clean(recs, opts.(skipExisting := true), later) == Clean(recs, opts, host)
  {
    if recs != [] {
      SameClean(recs[..|recs| - 1], opts, host, later);
    }
  }

  // A later import prepares the same ids for the same namespaces.
  lemma SameKeys(recs: seq<Record>, opts: Options, host: Host, later: Host)
    requires ReadsAlike(host, later)
    ensures var first, second := Prepared(recs, opts, host), Prepared(recs, opts.(skipExisting := true), later);
      |second| == |first| && forall i :: 0 <= i < |first| ==> second[i].id == first[i].id && second[i].ns == first[i].ns
  {
    SameClean(recs, opts, host, later);
  }

  lemma KeptByKeys(rows: Table, first: seq<Record>, second: seq<Record>, b: Backend)
    requires |second| == |first| && forall i :: 0 <= i < |first| ==>
      second[i].id == first[i].id && second[i].ns == first[i].ns
    requires AreKept(rows, first, b)
    ensures AreKept(rows, second, b)
  {
    forall r | r in second
      ensures IsPresent(rows, r) && IsSpared(r, b)
    {
      var i :| 0 <= i < |second| && second[i] == r;
      assert first[i] in first;
      assert IsPresent(rows, first[i]) && IsSpared(first[i], b);
    }
  }

  // After an import without errors, importing the same records again with
  // existing ones skipped writes nothing, on whatever day, in batches of any
  // two sizes and whatever calls then fail, unless others delete some of them.
  lemma ReimportChangesNothing(f: Feed, b: Backend, recs: seq<Record>, n: nat, again: nat, opts: Options, host: Host,
                               later: Host)
    requires n > 0 && again > 0 && ReadsAlike(host, later) && AreSpared(Prepared(recs, opts, host), b)
    ensures var skipping := opts.(skipExisting := true);
      var q := AfterBatches(Start(f), b, Prepared(recs, opts, host), n, opts, host);
      q.ok && q.errs == [] ==>
        var second := Prepared(recs, skipping, later);
        var q2 := AfterBatches(Start(q.feed), b, second, again, skipping, later);
        q2.ok && q2.imported == 0 && q2.feed == After(q.feed, b, |second|)
  {
    var first, second := Prepared(recs, opts, host), Prepared(recs, opts.(skipExisting := true), later);
    var q := AfterBatches(Start(f), b, first, n, opts, host);
    if q.ok && q.errs == [] {
      forall r | r in first
        ensures IsPresent(q.feed.rows, r)
      {
        assert IsSpared(r, b);
        ImportMakesPresent(Start(f), b, first, n, opts, host, r);
      }
      SameKeys(recs, opts, host, later);
      KeptByKeys(q.feed.rows, first, second, b);
      PresentAreKept(Start(q.feed), b, second, again, opts.(skipExisting := true), later);
    }
  }
}
