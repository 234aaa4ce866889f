// internal/importer, internal/memory and internal/maintenance together: how long
// what was imported lasts.
module ImportLifetimes {
  import opened Common
  import opened MemoryStore
  import opened Importer
  import Sweeper

  // An untyped record ages out: a purge that meets no error leaves it only
  // before the thirtieth day after it was created, or if a recall slid its
  // expiry past the purge; and before that day it goes only if others delete
  // it.
  lemma UntypedImportsAgeOut(r: Record, opts: Options, host: Host, was: Table, now: Table, others: Sweeper.Others,
                             from: nat, to: nat, at: Time, removed: seq<Removal>)
    requires r.tier.None? && r.expiresAt.None? && r.id in was && was[r.id] == ToRow(r, opts, host)
    requires Sweeper.IsPurging(was, now, others, from, to, at, removed) && ExpiredIds(now, at) == {}
    ensures var created := if r.createdAt.Some? then r.createdAt.value else host.now;
      var expiry := SlidTo(others.slides, r.id, Some(created + 30 * 24 * HOUR), from, to);
      && expiry.Some? && (r.id in now ==> expiry.value > at)
      && (at < created + 30 * 24 * HOUR ==> r.id in now || r.id in Gone(others.deletes, from, to))
  {
    var created := if r.createdAt.Some? then r.createdAt.value else host.now;
    assert DefaultTTL(Episodic) == 30 * 24 * HOUR && was[r.id].expiresAt == Some(created + 30 * 24 * HOUR);
    Sweeper.LeftIsSlid(was, now, others, from, to, at, removed, r.id, created + 30 * 24 * HOUR);
    if at < created + 30 * 24 * HOUR {
      Sweeper.FreshIsLeft(was, now, others, from, to, at, removed, r.id);
    }
  }

  // A durable record is stored untrusted: nothing but importance, a pin or a
  // recent update keeps the sweep from demoting it.
  lemma ImportsMustEarnTrust(r: Record, opts: Options, host: Host, olderThan: Time, now: Time)
    requires EffectiveTier(r).IsLongTerm() && opts.confidence.None? && r.expiresAt.None?
    ensures var row := ToRow(r, opts, host);
      Confidence.IsDemotable(row, r.ns, olderThan, now) <==>
        r.importance < 0.75 && row.updatedAt < olderThan && Confidence.PINNED_TAG !in r.tags &&
          Confidence.HANDOFF_TAG !in r.tags
  {
    Confidence.BelowFloor(ToRow(r, opts, host), now);
  }
}
