// internal/embed/cache.go and prefixed.go: a least-recently-used cache in front
// of the batcher, and the document prefix in front of that.
module Caching {
  import opened Common
  import opened Batching
  import opened RecentUse

  datatype Entry = Entry(key: string, vec: Vec)

  // The entries without the one for k, in their order.
  function Without(entries: seq<Entry>, k: string): (rest: seq<Entry>)
    ensures forall e :: e in rest <==> e in entries && e.key != k
    ensures |rest| <= |entries|
  {
    if entries == [] then []
    else (if entries[0].key == k then [] else [entries[0]]) + Without(entries[1..], k)
  }

  ghost predicate OneEach(entries: seq<Entry>) {
    forall i, j :: 0 <= i < j < |entries| ==> entries[i].key != entries[j].key
  }

  lemma {:induction false} WithoutKeepsOneEach(entries: seq<Entry>, k: string)
    requires OneEach(entries)
    ensures OneEach(Without(entries, k))
    ensures (exists e :: e in entries && e.key == k) ==> |Without(entries, k)| < |entries|
  {
    if entries != [] {
      var rest := entries[1..];
      WithoutKeepsOneEach(rest, k);
      forall e | e in Without(rest, k)
        ensures e.key != entries[0].key
      {
        assert e in rest;
      }
    }
  }

  // The keys, most recently used first.
  function KeyOrder(entries: seq<Entry>): (order: seq<string>)
    ensures |order| == |entries| && forall i :: 0 <= i < |order| ==> order[i] == entries[i].key
  {
    seq(|entries|, i requires 0 <= i < |entries| => entries[i].key)
  }

  lemma KeyOrderJoin(a: seq<Entry>, b: seq<Entry>)
    ensures KeyOrder(a + b) == KeyOrder(a) + KeyOrder(b)
  {
  }

  lemma {:induction false} WithoutOrder(entries: seq<Entry>, k: string)
    ensures KeyOrder(Without(entries, k)) == Dropped(KeyOrder(entries), k)
  {
    if entries == [] {
      assert KeyOrder(entries) == [];
    } else {
      var head := if entries[0].key == k then [] else [entries[0]];
      WithoutOrder(entries[1..], k);
      KeyOrderJoin(head, Without(entries[1..], k));
      assert KeyOrder(entries)[1..] == KeyOrder(entries[1..]);
      assert KeyOrder(head) == if entries[0].key == k then [] else [entries[0].key];
    }
  }

  // The entry for k, or what is left of them with it in front.
  lemma FrontOrder(entries: seq<Entry>, capacity: nat, e: Entry)
    ensures var all := [e] + Without(entries, e.key);
      KeyOrder(if |all| <= capacity then all else all[..capacity]) == Used(KeyOrder(entries), capacity, e.key)
  {
    var all := [e] + Without(entries, e.key);
    WithoutOrder(entries, e.key);
    KeyOrderJoin([e], Without(entries, e.key));
    assert KeyOrder([e]) == [e.key];
    assert KeyOrder(all) == [e.key] + Dropped(KeyOrder(entries), e.key);
  }

  lemma TouchKeeps(entries: seq<Entry>, capacity: nat, i: nat)
    requires OneEach(entries) && |entries| <= capacity && i < |entries|
    ensures var e := entries[i];
      var now := [e] + Without(entries, e.key);
      && OneEach(now) && |now| <= capacity && e in entries
      && KeyOrder(now) == Used(KeyOrder(entries), capacity, e.key)
  {
    assert entries[i] in entries;
    WithoutKeepsOneEach(entries, entries[i].key);
    FrontOrder(entries, capacity, entries[i]);
  }

  lemma AddKeeps(entries: seq<Entry>, capacity: nat, e: Entry)
    requires OneEach(entries)
    ensures var all := [e] + Without(entries, e.key);
      var now := if |all| <= capacity then all else all[..capacity];
      OneEach(now) && KeyOrder(now) == Used(KeyOrder(entries), capacity, e.key)
  {
    WithoutKeepsOneEach(entries, e.key);
    FrontOrder(entries, capacity, e);
  }

  lemma NotAmong(entries: seq<Entry>, k: string)
    requires forall j :: 0 <= j < |entries| ==> entries[j].key != k
    ensures k !in KeyOrder(entries) && forall e :: e in entries ==> e.key != k
  {
  }

  // A cache of at most `capacity` entries, most recently used first.
  class Lru {
    const capacity: nat
    var entries: seq<Entry>

    ghost predicate Valid()
      reads this
    {
      0 < capacity && |entries| <= capacity && OneEach(entries)
    }

    constructor (capacity: nat)
      requires capacity > 0
      ensures Valid() && this.capacity == capacity && entries == []
    {
      this.capacity, this.entries := capacity, [];
    }

    // A hit moves its entry to the front; a miss changes nothing.
    method Get(k: string) returns (v: Option<Vec>)
      requires Valid()
      modifies this`entries
      ensures Valid()
      ensures match v
        case Some(vec) =>
          && Entry(k, vec) in old(entries) && entries == [Entry(k, vec)] + Without(old(entries), k)
          && KeyOrder(entries) == Used(old(KeyOrder(entries)), capacity, k)
        case None => entries == old(entries) && k !in KeyOrder(entries) && forall e :: e in entries ==> e.key != k
    {
      v := None;
      for i := 0 to |entries|
        invariant entries == old(entries) && forall j :: 0 <= j < i ==> entries[j].key != k
      {
        if entries[i].key == k {
          var e := entries[i];
          TouchKeeps(entries, capacity, i);
          entries := [e] + Without(entries, k);
          return Some(e.vec);
        }
      }
      NotAmong(entries, k);
    }

    // The entry comes to the front; if that makes one too many, the least
    // recently used one goes.
    method Add(k: string, v: Vec)
      requires Valid()
      modifies this`entries
      ensures Valid()
      ensures var all := [Entry(k, v)] + Without(old(entries), k);
        entries == if |all| <= capacity then all else all[..capacity]
      ensures KeyOrder(entries) == Used(old(KeyOrder(entries)), capacity, k)
    {
      AddKeeps(entries, capacity, Entry(k, v));
      entries := [Entry(k, v)] + Without(entries, k);
      if |entries| > capacity {
        entries := entries[..capacity];
      }
    }
  }

  // ---- The cache ----------------------------------------------------------

  ghost predicate IsInjective(key: string -> string) {
    forall a, b {:trigger key(a), key(b)} :: key(a) == key(b) ==> a == b
  }

  ghost function Keys(entries: seq<Entry>): set<string> {
    set e | e in entries :: e.key
  }

  // Every entry holds what the batcher answers for the text of its key.
  ghost predicate IsSound(entries: seq<Entry>, key: string -> string, answer: string -> Vec) {
    forall e, t {:trigger e in entries, key(t)} :: e in entries && key(t) == e.key ==> e.vec == answer(t)
  }

  // The texts the cache has no entry for, in order and with repetitions.
  ghost function Misses(texts: seq<string>, keys: set<string>, key: string -> string): seq<string> {
    if texts == [] then []
    else
      var last := texts[|texts| - 1];
      Misses(texts[..|texts| - 1], keys, key) + if key(last) in keys then [] else [last]
  }

  // A text is sent to the batcher once for each time it occurs, or not at all:
  // a call that repeats a text the cache lacks embeds it repeatedly.
  lemma {:induction false} MissCount(texts: seq<string>, keys: set<string>, key: string -> string, t: string)
    ensures multiset(Misses(texts, keys, key))[t] == if key(t) in keys then 0 else multiset(texts)[t]
  {
    if texts != [] {
      var init, last := texts[..|texts| - 1], texts[|texts| - 1];
      MissCount(init, keys, key, t);
      assert texts == init + [last];
    }
  }

  lemma HitKeepsCache(was: seq<Entry>, k: string, vec: Vec, key: string -> string, answer: string -> Vec)
    requires IsSound(was, key, answer) && Entry(k, vec) in was
    ensures var now := [Entry(k, vec)] + Without(was, k);
      IsSound(now, key, answer) && Keys(now) == Keys(was)
  {
    var now := [Entry(k, vec)] + Without(was, k);
    assert forall e :: e in now ==> e in was;
    forall x | x in Keys(was)
      ensures x in Keys(now)
    {
      var e :| e in was && e.key == x;
      assert x != k ==> e in now;
      assert Entry(k, vec) in now;
    }
  }

  lemma FillKeepsSound(was: seq<Entry>, now: seq<Entry>, t: string, key: string -> string, answer: string -> Vec)
    requires IsSound(was, key, answer) && IsInjective(key)
    requires now <= [Entry(key(t), answer(t))] + Without(was, key(t))
    ensures IsSound(now, key, answer)
  {
    forall e, u | e in now && key(u) == e.key
      ensures e.vec == answer(u)
    {
      assert e == Entry(key(t), answer(t)) || e in was;
      assert key(u) == key(t) ==> u == t;
    }
  }

  lemma OneMoreText(texts: seq<string>, i: nat, keys: set<string>, key: string -> string)
    requires i < |texts|
    ensures Misses(texts[..i + 1], keys, key) == Misses(texts[..i], keys, key) +
      if key(texts[i]) in keys then [] else [texts[i]]
  {
    assert texts[..i + 1][..i] == texts[..i];
  }

  class Cached {
    const inner: Batched
    const cache: Lru
    const key: string -> string

    // What this layer answers for one text: exactly what the batcher does.
    ghost const answer: string -> Vec

    ghost predicate Valid()
      reads this, cache
    {
      && cache.Valid() && inner.budget.maxItems > 0 && IsInjective(key)
      && (forall t {:trigger answer(t)} :: answer(t) == inner.Answer(t))
      && IsSound(cache.entries, key, answer)
    }

    constructor (inner: Batched, size: nat, key: string -> string)
      requires size > 0 && inner.budget.maxItems > 0 && IsInjective(key)
      ensures Valid() && this.inner == inner && fresh(cache)
    {
      this.inner, this.key := inner, key;
      this.cache := new Lru(size);
      this.answer := (t: string) => inner.Answer(t);
    }

    // Looks one text up; a hit is a use of it.
    method Find(t: string) returns (v: Option<Vec>)
      requires Valid()
      modifies cache`entries
      ensures Valid() && Keys(cache.entries) == Keys(old(cache.entries))
      ensures v.Some? <==> key(t) in Keys(cache.entries)
      ensures v.Some? ==> v.value == answer(t)
    {
      ghost var was := cache.entries;
      v := cache.Get(key(t));
      if v.Some? {
        HitKeepsCache(was, key(t), v.value, key, answer);
      }
    }

    method Lookup(texts: seq<string>, out: array<Vec>) returns (missIdx: seq<nat>, missText: seq<string>)
      requires Valid() && out.Length == |texts|
      modifies out, cache`entries
      ensures Valid() && missText == Misses(texts, Keys(old(cache.entries)), key)
      ensures Keys(cache.entries) == Keys(old(cache.entries))
      ensures AreMisses(texts, missIdx, missText)
      ensures forall k :: 0 <= k < |texts| ==> k in missIdx || out[k] == answer(texts[k])
    {
      ghost var keys := Keys(cache.entries);
      missIdx, missText := [], [];
      for i := 0 to |texts|
        invariant Valid() && Keys(cache.entries) == keys
        invariant missText == Misses(texts[..i], keys, key) && AreMisses(texts, missIdx, missText)
        invariant forall k :: 0 <= k < i ==> k in missIdx || out[k] == answer(texts[k])
      {
        OneMoreText(texts, i, keys, key);
        var v := Find(texts[i]);
        if v.Some? {
          out[i] := v.value;
          continue;
        }
        missIdx := missIdx + [i];
        missText := missText + [texts[i]];
      }
      assert texts[..|texts|] == texts;
    }

    method Record(t: string, v: Vec)
      requires Valid() && v == answer(t)
      modifies cache`entries
      ensures Valid() && key(t) in Keys(cache.entries)
    {
      ghost var was := cache.entries;
      cache.Add(key(t), v);
      FillKeepsSound(was, cache.entries, t, key, answer);
      assert cache.entries[0].key == key(t);
    }

    method Fill(texts: seq<string>, out: array<Vec>, missIdx: seq<nat>, missText: seq<string>, vecs: seq<Vec>)
      requires Valid() && out.Length == |texts| && AreMisses(texts, missIdx, missText)
      requires |vecs| == |missText| && forall j :: 0 <= j < |vecs| ==> vecs[j] == answer(missText[j])
      requires forall k :: 0 <= k < |texts| ==> k in missIdx || out[k] == answer(texts[k])
      modifies out, cache`entries
      ensures Valid() && forall k :: 0 <= k < |texts| ==> out[k] == answer(texts[k])
    {
      for j := 0 to |vecs|
        invariant Valid() && ArePlaced(texts, out[..], missIdx, j, answer)
      {
        var i, v := missIdx[j], vecs[j];
        PlaceOneMore(texts, out[..], missIdx, missText, j, v, answer);
        out[i] := v;
        Record(missText[j], v);
      }
    }

    // Answers every text as the batcher would, sending it only the misses. It
    // fails exactly when a request does, and then it has recorded nothing.
    method Embed(texts: seq<string>) returns (r: Result<seq<Vec>, EmbedError>, ghost sent: nat)
      requires Valid()
      modifies cache`entries, inner.inner`requests
      ensures Valid()
      ensures r.Ok? ==> |r.value| == |texts| && forall i :: 0 <= i < |texts| ==> r.value[i] == answer(texts[i])
      ensures var parts := Requests(Misses(texts, Keys(old(cache.entries)), key));
        sent <= |parts| && inner.inner.requests == old(inner.inner.requests) + parts[..sent] &&
          (r.Ok? ==> sent == |parts|)
      ensures EndedWith(inner.inner.fails, |old(inner.inner.requests)|, sent, r.Ok?)
      ensures r.Err? ==> Keys(cache.entries) == Keys(old(cache.entries))
    {
      var out := new Vec[|texts|](_ => []);
      var missIdx, missText := Lookup(texts, out);
      sent := 0;
      if |missText| > 0 {
        var vecs;
        vecs, sent := inner.Embed(missText);
        if vecs.Err? {
          return Err(vecs.error), sent;
        }
        Fill(texts, out, missIdx, missText, vecs.value);
      }
      return Ok(out[..]), sent;
    }

    // The requests the batcher makes for these texts.
    ghost function Requests(texts: seq<string>): (parts: seq<seq<string>>)
      ensures texts == [] ==> parts == []
    {
      Batches(Truncated(texts, inner.maxItemChars), inner.budget)
    }
  }

  method NewCached(inner: Batched, size: int, key: string -> string) returns (r: Option<Cached>)
    requires inner.budget.maxItems > 0 && IsInjective(key)
    ensures r.Some? <==> size > 0
    ensures r.Some? ==> fresh(r.value) && r.value.Valid() && r.value.inner == inner
  {
    if size <= 0 {
      return None;
    }
    var c := new Cached(inner, size, key);
    return Some(c);
  }

  ghost predicate AreMisses(texts: seq<string>, missIdx: seq<nat>, missText: seq<string>) {
    |missIdx| == |missText| && forall j :: 0 <= j < |missIdx| ==>
      missIdx[j] < |texts| && missText[j] == texts[missIdx[j]]
  }

  // Every text is answered but the misses from the j-th on.
  ghost predicate ArePlaced(texts: seq<string>, out: seq<Vec>, missIdx: seq<nat>, j: nat, answer: string -> Vec) {
    && |out| == |texts| && j <= |missIdx|
    && forall k :: 0 <= k < |texts| ==> k in missIdx[j..] || out[k] == answer(texts[k])
  }

  lemma PlaceOneMore(texts: seq<string>, out: seq<Vec>, missIdx: seq<nat>, missText: seq<string>, j: nat, v: Vec,
                     answer: string -> Vec)
    requires AreMisses(texts, missIdx, missText) && ArePlaced(texts, out, missIdx, j, answer)
    requires j < |missIdx| && v == answer(missText[j])
    ensures ArePlaced(texts, out[missIdx[j] := v], missIdx, j + 1, answer)
  {
    assert missIdx[j..] == [missIdx[j]] + missIdx[j + 1..];
  }

  // ---- The document prefix ------------------------------------------------

  // The whole stack: with an empty prefix it is the cache itself.
  datatype Pipeline = Plain(cached: Cached) | Prefixed(cached: Cached, prefix: string)

  function WithDocumentPrefix(cached: Cached, prefix: string): (p: Pipeline)
    ensures p.cached == cached && DocumentPrefix(p) == prefix
  {
    if prefix == "" then Plain(cached) else Prefixed(cached, prefix)
  }

  function DocumentPrefix(p: Pipeline): string {
    if p.Plain? then "" else p.prefix
  }

  // The texts the callers' texts stand for: documents get the prefix, recall
  // queries do not, and what is over-long is cut off after that.
  function Inputs(prefix: string, query: bool, texts: seq<string>): (inputs: seq<string>)
    ensures |inputs| == |texts|
  {
    seq(|texts|, i requires 0 <= i < |texts| => if query then texts[i] else prefix + texts[i])
  }

  // The stack refines a plain function of each text: the endpoint's, of the
  // prefixed and truncated text, whatever has been cached or evicted before;
  // it fails exactly when a request it makes does.
  method EmbedAll(p: Pipeline, query: bool, texts: seq<string>)
    returns (r: Result<seq<Vec>, EmbedError>, ghost sent: nat)
    requires p.cached.Valid()
    modifies p.cached.cache`entries, p.cached.inner.inner`requests
    ensures p.cached.Valid()
    ensures var b, inputs := p.cached.inner, Inputs(DocumentPrefix(p), query, texts);
      && (r.Ok? ==>
            && |r.value| == |texts|
            && forall i :: 0 <= i < |texts| ==> r.value[i] == b.inner.f(
                 TruncateRunes(if query then texts[i] else DocumentPrefix(p) + texts[i], b.maxItemChars)))
      && (var parts := p.cached.Requests(Misses(inputs, Keys(old(p.cached.cache.entries)), p.cached.key));
          sent <= |parts| && b.inner.requests == old(b.inner.requests) + parts[..sent] && (r.Ok? ==> sent == |parts|))
      && EndedWith(b.inner.fails, |old(b.inner.requests)|, sent, r.Ok?)
  {
    if p.Plain? || query {
      assert forall t: string :: "" + t == t;
      assert Inputs(DocumentPrefix(p), query, texts) == texts;
      r, sent := p.cached.Embed(texts);
      return;
    }
    var inputs := seq(|texts|, i requires 0 <= i < |texts| => p.prefix + texts[i]);
    assert Inputs(DocumentPrefix(p), query, texts) == inputs;
    r, sent := p.cached.Embed(inputs);
  }

  method EmbedQueryOne(p: Pipeline, text: string) returns (r: Result<Vec, EmbedError>, ghost sent: nat)
    requires p.cached.Valid()
    modifies p.cached.cache`entries, p.cached.inner.inner`requests
    ensures p.cached.Valid()
    ensures r.Ok? ==> r.value == p.cached.inner.Answer(text)
    ensures EndedWith(p.cached.inner.inner.fails, |old(p.cached.inner.inner.requests)|, sent, r.Ok?)
    ensures p.cached.key(text) in Keys(old(p.cached.cache.entries)) ==> r.Ok? && sent == 0
  {
    var vecs;
    vecs, sent := EmbedAll(p, true, [text]);
    assert Inputs(DocumentPrefix(p), true, [text]) == [text] && [text][..0] == [];
    return if vecs.Err? then Err(vecs.error) else Ok(vecs.value[0]), sent;
  }
}
