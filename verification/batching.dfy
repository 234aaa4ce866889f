// internal/embed/batched.go: splitting an embedding call into requests the
// endpoint accepts.
module Batching {
  import opened Common
  import opened Text

  type Vec = seq<real>

  datatype EmbedError = EmbedError

  // The pointwise map an embedder is meant to compute.
  function Map(f: string -> Vec, texts: seq<string>): (vecs: seq<Vec>)
    ensures |vecs| == |texts| && forall i :: 0 <= i < |texts| ==> vecs[i] == f(texts[i])
  {
    seq(|texts|, i requires 0 <= i < |texts| => f(texts[i]))
  }

  // The remote endpoint: a function of each text alone, some of whose requests
  // fail; it keeps the requests it was sent.
  class Endpoint {
    const f: string -> Vec
    const fails: nat -> bool
    var requests: seq<seq<string>>

    constructor (f: string -> Vec, fails: nat -> bool)
      ensures this.f == f && this.fails == fails && requests == []
    {
      this.f, this.fails, this.requests := f, fails, [];
    }

    method Embed(texts: seq<string>) returns (r: Result<seq<Vec>, EmbedError>)
      modifies this`requests
      ensures requests == old(requests) + [texts]
      ensures r == if fails(|old(requests)|) then Err(EmbedError) else Ok(Map(f, texts))
    {
      r := if fails(|requests|) then Err(EmbedError) else Ok(Map(f, texts));
      requests := requests + [texts];
    }
  }

  // ---- Truncation ---------------------------------------------------------

  // Caps s to n code points; n <= 0 disables it. A text of at most n bytes is
  // let through without counting.
  function TruncateRunes(s: string, n: int): string {
    if n <= 0 || ByteLength(s) <= n then s
    else if |s| <= n then s
    else s[..n]
  }

  lemma {:induction false} BytesCoverRunes(s: string)
    ensures |s| <= ByteLength(s)
  {
    if s != "" {
      BytesCoverRunes(s[1..]);
    }
  }

  // The byte count is a safe shortcut: the result is the longest prefix of at
  // most n code points, and truncating again changes nothing.
  lemma TruncateIsPrefix(s: string, n: int)
    ensures TruncateRunes(s, n) == if n <= 0 then s else s[..Min(n, |s|)]
    ensures TruncateRunes(TruncateRunes(s, n), n) == TruncateRunes(s, n)
  {
    BytesCoverRunes(s);
    BytesCoverRunes(TruncateRunes(s, n));
  }

  function Truncated(texts: seq<string>, n: int): (ts: seq<string>)
    ensures |ts| == |texts| && forall i :: 0 <= i < |texts| ==> ts[i] == TruncateRunes(texts[i], n)
  {
    seq(|texts|, i requires 0 <= i < |texts| => TruncateRunes(texts[i], n))
  }

  // ---- What a request may hold --------------------------------------------

  datatype Budget = Budget(maxItems: nat, maxChars: int)

  function Bytes(part: seq<string>): nat {
    if part == [] then 0 else Bytes(part[..|part| - 1]) + ByteLength(part[|part| - 1])
  }

  // At most maxItems texts and, unless there is only one, at most maxChars
  // bytes; maxChars <= 0 disables the second bound.
  predicate Fits(part: seq<string>, b: Budget) {
    0 < |part| <= b.maxItems && (|part| == 1 || b.maxChars <= 0 || Bytes(part) <= b.maxChars)
  }

  lemma {:induction false} BytesAppend(a: seq<string>, b: seq<string>)
    ensures Bytes(a + b) == Bytes(a) + Bytes(b)
  {
    if b == [] {
      assert a + b == a;
    } else {
      assert (a + b)[..|a + b| - 1] == a + b[..|b| - 1];
      BytesAppend(a, b[..|b| - 1]);
    }
  }

  // Any stretch of a request that fits is a request that fits.
  lemma StretchFits(part: seq<string>, lo: nat, hi: nat, b: Budget)
    requires Fits(part, b) && lo < hi <= |part|
    ensures Fits(part[lo..hi], b)
  {
    BytesAppend(part[..lo], part[lo..]);
    BytesAppend(part[lo..hi], part[hi..]);
    assert part == part[..lo] + part[lo..] && part[lo..] == part[lo..hi] + part[hi..];
  }

  // ---- The greedy split ---------------------------------------------------

  // From a prefix of k texts, how far it extends while every prefix fits.
  function Longest(texts: seq<string>, k: nat, b: Budget): (n: nat)
    requires k <= |texts|
    ensures k <= n <= |texts|
    decreases |texts| - k
  {
    if k < |texts| && Fits(texts[..k + 1], b) then Longest(texts, k + 1, b) else k
  }

  function Batches(texts: seq<string>, b: Budget): seq<seq<string>>
    decreases |texts|
  {
    if texts == [] then []
    else
      var n := Longest(texts, 1, b);
      [texts[..n]] + Batches(texts[n..], b)
  }

  function Concat(parts: seq<seq<string>>): seq<string> {
    if parts == [] then [] else parts[0] + Concat(parts[1..])
  }

  // An order-preserving split of the texts into requests that fit.
  ghost predicate IsSplitting(parts: seq<seq<string>>, texts: seq<string>, b: Budget) {
    Concat(parts) == texts && forall i :: 0 <= i < |parts| ==> Fits(parts[i], b)
  }

  lemma {:induction false} LongestFits(texts: seq<string>, k: nat, b: Budget)
    requires 0 < k <= |texts| && Fits(texts[..k], b)
    ensures Fits(texts[..Longest(texts, k, b)], b)
    decreases |texts| - k
  {
    if k < |texts| && Fits(texts[..k + 1], b) {
      LongestFits(texts, k + 1, b);
    }
  }

  // The first request is the longest prefix that fits.
  lemma {:induction false} LongestIsLongest(texts: seq<string>, k: nat, m: nat, b: Budget)
    requires k <= m <= |texts| && Fits(texts[..m], b)
    ensures m <= Longest(texts, k, b)
    decreases |texts| - k
  {
    if k < m {
      StretchFits(texts[..m], 0, k + 1, b);
      assert texts[..m][0..k + 1] == texts[..k + 1];
      LongestIsLongest(texts, k + 1, m, b);
    }
  }

  lemma {:induction false} BatchesSplit(texts: seq<string>, b: Budget)
    requires b.maxItems > 0
    ensures IsSplitting(Batches(texts, b), texts, b)
    decreases |texts|
  {
    if texts != [] {
      assert Fits(texts[..1], b);
      LongestFits(texts, 1, b);
      var n := Longest(texts, 1, b);
      BatchesSplit(texts[n..], b);
      var rest := Batches(texts[n..], b);
      assert ([texts[..n]] + rest)[1..] == rest;
    }
  }

  // Greedy stays ahead: dropping d texts from the front of what any splitting
  // covers leaves greedy no more requests than that splitting has.
  lemma {:induction false} GreedyStaysAhead(texts: seq<string>, d: nat, parts: seq<seq<string>>, b: Budget)
    requires b.maxItems > 0 && IsSplitting(parts, texts, b) && d <= |texts|
    ensures |Batches(texts[d..], b)| <= |parts|
    decreases |parts|
  {
    if parts != [] && d < |texts| {
      var first, rest, left := parts[0], Concat(parts[1..]), texts[d..];
      var a := |first|;
      assert texts[a..] == rest && IsSplitting(parts[1..], rest, b);
      if a <= d {
        assert left == rest[d - a..];
        GreedyStaysAhead(rest, d - a, parts[1..], b);
      } else {
        StretchFits(first, d, a, b);
        assert first[d..a] == left[..a - d];
        var n := Longest(left, 1, b);
        LongestIsLongest(left, 1, a - d, b);
        assert left[n..] == rest[d + n - a..];
        GreedyStaysAhead(rest, d + n - a, parts[1..], b);
      }
    }
  }

  function Joined(part: seq<string>): string {
    if part == [] then "" else Joined(part[..|part| - 1]) + part[|part| - 1]
  }

  lemma {:induction false} EncodeJoin(s: string, t: string)
    ensures |Encode(s + t)| == |Encode(s)| + |Encode(t)|
  {
    if s == "" {
      assert s + t == t;
    } else {
      assert (s + t)[1..] == s[1..] + t;
      EncodeJoin(s[1..], t);
    }
  }

  lemma {:induction false} BytesAreEncoded(part: seq<string>)
    ensures Bytes(part) == |Encode(Joined(part))|
  {
    if part != [] {
      var n := |part| - 1;
      BytesAreEncoded(part[..n]);
      EncodingDecodes(part[n]);
      EncodeJoin(Joined(part[..n]), part[n]);
    }
  }

  // A request of so many texts at most that, if there is more than one, come
  // to no more than so many bytes of UTF-8, where that is bounded.
  ghost predicate IsRequest(part: seq<string>, items: nat, bytes: int) {
    && 1 <= |part| <= items
    && (|part| > 1 && bytes > 0 ==> |Encode(Joined(part))| <= bytes)
  }

  ghost predicate AreRequests(parts: seq<seq<string>>, texts: seq<string>, items: nat, bytes: int) {
    Concat(parts) == texts && forall i :: 0 <= i < |parts| ==> IsRequest(parts[i], items, bytes)
  }

  lemma RequestsSplit(parts: seq<seq<string>>, texts: seq<string>, b: Budget)
    ensures AreRequests(parts, texts, b.maxItems, b.maxChars) <==> IsSplitting(parts, texts, b)
  {
    forall i | 0 <= i < |parts|
      ensures IsRequest(parts[i], b.maxItems, b.maxChars) <==> Fits(parts[i], b)
    {
      BytesAreEncoded(parts[i]);
    }
  }

  // No order-preserving split of the texts into requests has fewer of them.
  lemma GreedyIsOptimal(texts: seq<string>, parts: seq<seq<string>>, items: nat, bytes: int)
    requires items > 0 && AreRequests(parts, texts, items, bytes)
    ensures var greedy := Batches(texts, Budget(items, bytes));
      AreRequests(greedy, texts, items, bytes) && |greedy| <= |parts|
  {
    var b := Budget(items, bytes);
    RequestsSplit(parts, texts, b);
    RequestsSplit(Batches(texts, b), texts, b);
    BatchesSplit(texts, b);
    GreedyStaysAhead(texts, 0, parts, b);
    assert texts[0..] == texts;
  }

  // ---- The batcher --------------------------------------------------------

  // How a call ended that made `sent` requests, the first numbered `from`: none
  // of them failed, or the last one did and no earlier one.
  ghost predicate EndedWith(fails: nat -> bool, from: nat, sent: nat, ok: bool) {
    if ok then forall k :: from <= k < from + sent ==> !fails(k)
    else sent > 0 && fails(from + sent - 1) && forall k :: from <= k < from + sent - 1 ==> !fails(k)
  }

  // Part way through a sub-batch: ts[i..j] has been taken, chars bytes of it.
  ghost predicate IsGathering(ts: seq<string>, i: nat, j: nat, sub: seq<string>, chars: nat, b: Budget) {
    && i <= j <= |ts| && sub == ts[i..j] && chars == Bytes(sub)
    && (i < j ==> Fits(sub, b) && Longest(ts[i..], j - i, b) == Longest(ts[i..], 1, b))
  }

  predicate HasRoom(sub: seq<string>, chars: nat, t: string, b: Budget) {
    |sub| < b.maxItems && (|sub| == 0 || b.maxChars <= 0 || chars + ByteLength(t) <= b.maxChars)
  }

  lemma GatherOneMore(ts: seq<string>, i: nat, j: nat, sub: seq<string>, chars: nat, b: Budget)
    requires IsGathering(ts, i, j, sub, chars, b) && j < |ts| && HasRoom(sub, chars, ts[j], b)
    ensures IsGathering(ts, i, j + 1, sub + [ts[j]], chars + ByteLength(ts[j]), b)
  {
    var more := sub + [ts[j]];
    assert ts[i..j + 1] == more && more[..|sub|] == sub && ts[i..][..j + 1 - i] == more;
    assert Bytes(more) == Bytes(sub) + ByteLength(ts[j]);
  }

  lemma GatherStops(ts: seq<string>, i: nat, j: nat, sub: seq<string>, chars: nat, b: Budget)
    requires IsGathering(ts, i, j, sub, chars, b) && i < j
    requires j == |ts| || !HasRoom(sub, chars, ts[j], b)
    ensures j - i == Longest(ts[i..], 1, b)
  {
    if j < |ts| {
      var more := sub + [ts[j]];
      assert ts[i..][..j + 1 - i] == more && more[..|sub|] == sub;
    }
  }

  // Where a call stands: every request before the i-th text has been sent.
  ghost predicate IsSending(ts: seq<string>, parts: seq<seq<string>>, sent: nat, i: nat, b: Budget) {
    i <= |ts| && sent <= |parts| && Batches(ts[i..], b) == parts[sent..]
  }

  lemma SendOneMore(ts: seq<string>, parts: seq<seq<string>>, sent: nat, i: nat, j: nat, b: Budget)
    requires IsSending(ts, parts, sent, i, b) && i < j <= |ts| && j - i == Longest(ts[i..], 1, b)
    ensures sent < |parts| && parts[sent] == ts[i..j] && IsSending(ts, parts, sent + 1, j, b)
    ensures parts[..sent + 1] == parts[..sent] + [ts[i..j]]
  {
    assert ts[i..][..j - i] == ts[i..j] && ts[i..][j - i..] == ts[j..];
    assert parts[sent..] == [ts[i..j]] + Batches(ts[j..], b);
    assert parts[sent..][0] == parts[sent] && parts[sent..][1..] == parts[sent + 1..];
  }

  // Part way through a call: the requests before the i-th text were sent, and
  // none of them failed.
  ghost predicate IsUnderway(ts: seq<string>, parts: seq<seq<string>>, sent: nat, i: nat, b: Budget,
                             was: seq<seq<string>>, requests: seq<seq<string>>, fails: nat -> bool) {
    && IsSending(ts, parts, sent, i, b)
    && requests == was + parts[..sent] && EndedWith(fails, |was|, sent, true)
  }

  lemma SendNext(ts: seq<string>, parts: seq<seq<string>>, sent: nat, i: nat, j: nat, b: Budget,
                 was: seq<seq<string>>, requests: seq<seq<string>>, fails: nat -> bool)
    requires IsUnderway(ts, parts, sent, i, b, was, requests, fails) && i < j <= |ts| && j - i == Longest(ts[i..], 1, b)
    ensures sent < |parts| && requests + [ts[i..j]] == was + parts[..sent + 1]
    ensures if fails(|requests|) then EndedWith(fails, |was|, sent + 1, false)
            else IsUnderway(ts, parts, sent + 1, j, b, was, requests + [ts[i..j]], fails)
  {
    SendOneMore(ts, parts, sent, i, j, b);
    assert |requests| == |was| + sent;
  }

  class Batched {
    const inner: Endpoint
    const budget: Budget
    const maxItemChars: int

    constructor (inner: Endpoint, maxItems: int, maxChars: int, maxItemChars: int)
      ensures this.inner == inner && this.maxItemChars == maxItemChars
      ensures budget == Budget(if maxItems <= 0 then 16 else maxItems, maxChars)
    {
      this.inner, this.maxItemChars := inner, maxItemChars;
      this.budget := Budget(if maxItems <= 0 then 16 else maxItems, maxChars);
    }

    // What this layer answers for one text.
    function Answer(text: string): Vec {
      inner.f(TruncateRunes(text, maxItemChars))
    }

    // One sub-batch: the texts from i on that still fit together.
    method Gather(texts: seq<string>, i: nat) returns (j: nat, sub: seq<string>)
      requires i < |texts| && budget.maxItems > 0
      ensures i < j <= |texts| && sub == Truncated(texts, maxItemChars)[i..j]
      ensures j - i == Longest(Truncated(texts, maxItemChars)[i..], 1, budget)
    {
      ghost var ts := Truncated(texts, maxItemChars);
      var chars: nat := 0;
      j, sub := i, [];
      while j < |texts| && |sub| < budget.maxItems
        invariant IsGathering(ts, i, j, sub, chars, budget)
      {
        var t := TruncateRunes(texts[j], maxItemChars);
        if |sub| > 0 && budget.maxChars > 0 && chars + ByteLength(t) > budget.maxChars {
          break;
        }
        GatherOneMore(ts, i, j, sub, chars, budget);
        sub := sub + [t];
        chars := chars + ByteLength(t);
        j := j + 1;
      }
      GatherStops(ts, i, j, sub, chars, budget);
    }

    // Answers every text in order, with the requests of the greedy split; it
    // fails exactly when one of them does, and that is the last one it makes.
    method Embed(texts: seq<string>) returns (r: Result<seq<Vec>, EmbedError>, ghost sent: nat)
      requires budget.maxItems > 0
      modifies inner`requests
      ensures r.Ok? ==> |r.value| == |texts| && forall i :: 0 <= i < |texts| ==> r.value[i] == Answer(texts[i])
      ensures var parts := Batches(Truncated(texts, maxItemChars), budget);
        sent <= |parts| && inner.requests == old(inner.requests) + parts[..sent] && (r.Ok? ==> sent == |parts|)
      ensures EndedWith(inner.fails, |old(inner.requests)|, sent, r.Ok?)
    {
      ghost var ts := Truncated(texts, maxItemChars);
      ghost var parts, was := Batches(ts, budget), inner.requests;
      var out := new Vec[|texts|](_ => []);
      var i := 0;
      sent := 0;
      assert ts[0..] == ts && parts[0..] == parts;
      while i < |texts|
        invariant IsUnderway(ts, parts, sent, i, budget, was, inner.requests, inner.fails)
        invariant forall k :: 0 <= k < i ==> out[k] == Answer(texts[k])
      {
        var j, sub := Gather(texts, i);
        SendNext(ts, parts, sent, i, j, budget, was, inner.requests, inner.fails);
        var v := inner.Embed(sub);
        sent := sent + 1;
        if v.Err? {
          return Err(v.error), sent;
        }
        forall k | i <= k < j {
          out[k] := v.value[k - i];
        }
        i := j;
      }
      return Ok(out[..]), sent;
    }
  }
}
