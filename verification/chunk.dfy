// internal/chunk: the overlapping text splitter.
//
// A split walks two cursors over the text. `start` may rewind behind the last
// cut (the overlap); `floor`, the last cut, keeps the backwards separator scan
// from finding the same cut twice.
module Chunk {
  import opened Common
  import opened Text

  datatype Config = Config(size: int, overlap: int, minContent: int, maxChunks: int)

  datatype SplitResult = SplitResult(chunks: seq<string>, truncated: bool)

  // The runes text[start..cut] one chunk is taken from, before trimming.
  datatype Window = Window(start: int, cut: int)

  const SEPARATORS: seq<string> := ["\n\n", "\n", ". ", "? ", "! ", "; ", " "]

  // ---- What a boundary is -------------------------------------------------

  ghost predicate OccursAt(runes: string, i: int, sep: string) {
    0 <= i <= |runes| - |sep| && runes[i..i + |sep|] == sep
  }

  // Cutting after an occurrence of sep is allowed at `cut`: the occurrence
  // begins after the window's first rune, ends inside the window, and the cut
  // lands past the previous one.
  ghost predicate Eligible(runes: string, start: int, end: int, floor: int, sep: string, cut: int) {
    && start + |sep| < cut <= end
    && floor < cut
    && OccursAt(runes, cut - |sep|, sep)
  }

  ghost predicate NoneEligible(runes: string, start: int, end: int, floor: int, sep: string) {
    forall cut :: !Eligible(runes, start, end, floor, sep, cut)
  }

  // The latest eligible cut of the strongest separator that has one.
  ghost predicate IsBoundaryOf(runes: string, start: int, end: int, floor: int, k: nat, cut: int)
    requires k < |SEPARATORS|
  {
    && Eligible(runes, start, end, floor, SEPARATORS[k], cut)
    && (forall later :: cut < later ==> !Eligible(runes, start, end, floor, SEPARATORS[k], later))
    && (forall j :: 0 <= j < k ==> NoneEligible(runes, start, end, floor, SEPARATORS[j]))
  }

  ghost predicate IsHardCut(runes: string, start: int, end: int, floor: int, cut: int) {
    cut == end && forall j :: 0 <= j < |SEPARATORS| ==> NoneEligible(runes, start, end, floor, SEPARATORS[j])
  }

  ghost predicate IsBoundary(runes: string, start: int, end: int, floor: int, cut: int) {
    || IsHardCut(runes, start, end, floor, cut)
    || exists k: nat | k < |SEPARATORS| :: IsBoundaryOf(runes, start, end, floor, k, cut)
  }

  // The cut is a function of the window and the floor.
  lemma BoundaryIsUnique(runes: string, start: int, end: int, floor: int, c1: int, c2: int)
    requires IsBoundary(runes, start, end, floor, c1)
    requires IsBoundary(runes, start, end, floor, c2)
    ensures c1 == c2
  {
    if !IsHardCut(runes, start, end, floor, c1) && !IsHardCut(runes, start, end, floor, c2) {
      var k1: nat :| k1 < |SEPARATORS| && IsBoundaryOf(runes, start, end, floor, k1, c1);
      var k2: nat :| k2 < |SEPARATORS| && IsBoundaryOf(runes, start, end, floor, k2, c2);
      assert !(k1 < k2) && !(k2 < k1);
    }
  }

  // The preference among boundaries, by the texts they cut after: a paragraph
  // before anything else, then a line, then the end of a sentence, then of a
  // clause; and a word is cut through only where no space could be cut after.
  lemma BoundaryPreference(runes: string, start: int, end: int, floor: int, cut: int, other: int)
    requires 0 <= start < end <= |runes| && IsBoundary(runes, start, end, floor, cut)
    ensures Eligible(runes, start, end, floor, "\n\n", other) ==> OccursAt(runes, cut - 2, "\n\n")
    ensures Eligible(runes, start, end, floor, "\n", other) ==> EndsLine(runes, cut)
    ensures (exists c :: c in ".?!" && Eligible(runes, start, end, floor, [c, ' '], other)) ==>
      EndsLine(runes, cut) || EndsSentence(runes, cut)
    ensures Eligible(runes, start, end, floor, "; ", other) ==>
      EndsLine(runes, cut) || EndsSentence(runes, cut) || OccursAt(runes, cut - 2, "; ")
    ensures Eligible(runes, start, end, floor, " ", other) ==> EndsLine(runes, cut) || OccursAt(runes, cut - 1, " ")
  {
    if IsHardCut(runes, start, end, floor, cut) {
      forall j | 0 <= j < |SEPARATORS|
        ensures !Eligible(runes, start, end, floor, SEPARATORS[j], other)
      {
        assert NoneEligible(runes, start, end, floor, SEPARATORS[j]);
      }
      SeparatorsAre();
    } else {
      var k: nat :| k < |SEPARATORS| && IsBoundaryOf(runes, start, end, floor, k, cut);
      forall j | 0 <= j < k
        ensures !Eligible(runes, start, end, floor, SEPARATORS[j], other)
      {
        assert NoneEligible(runes, start, end, floor, SEPARATORS[j]);
      }
      SeparatorsAre();
      LastRune(runes, cut, SEPARATORS[k]);
    }
  }

  ghost predicate EndsLine(runes: string, cut: int) {
    OccursAt(runes, cut - 1, "\n")
  }

  ghost predicate EndsSentence(runes: string, cut: int) {
    OccursAt(runes, cut - 2, ". ") || OccursAt(runes, cut - 2, "? ") || OccursAt(runes, cut - 2, "! ")
  }

  lemma SeparatorsAre()
    ensures |SEPARATORS| == 7 && SEPARATORS[0] == "\n\n" && SEPARATORS[1] == "\n" && SEPARATORS[2] == ['.', ' ']
    ensures SEPARATORS[3] == ['?', ' '] && SEPARATORS[4] == ['!', ' '] && SEPARATORS[5] == "; " && SEPARATORS[6] == " "
  {
  }

  lemma LastRune(runes: string, cut: int, sep: string)
    requires sep != "" && OccursAt(runes, cut - |sep|, sep)
    ensures OccursAt(runes, cut - 1, [sep[|sep| - 1]])
  {
    assert runes[cut - |sep|..cut][|sep| - 1] == sep[|sep| - 1];
  }

  method HasAt(runes: string, i: int, sep: string) returns (b: bool)
    ensures b == OccursAt(runes, i, sep)
  {
    if i < 0 || i + |sep| > |runes| {
      return false;
    }
    for j := 0 to |sep|
      invariant forall h :: 0 <= h < j ==> runes[i + h] == sep[h]
    {
      if runes[i + j] != sep[j] {
        assert runes[i..i + |sep|][j] != sep[j];
        return false;
      }
    }
    return true;
  }

  method Boundary(runes: string, start: int, end: int, floor: int) returns (cut: int)
    requires 0 <= start < end <= |runes| && floor < end
    ensures IsBoundary(runes, start, end, floor, cut)
    ensures start < cut <= end && floor < cut
  {
    for k := 0 to |SEPARATORS|
      invariant forall j :: 0 <= j < k ==> NoneEligible(runes, start, end, floor, SEPARATORS[j])
    {
      var sep := SEPARATORS[k];
      var lo := Max(start, floor - |sep|);
      var i := end - |sep|;
      while i > lo
        invariant i <= end - |sep|
        invariant forall later :: i + |sep| < later ==> !Eligible(runes, start, end, floor, sep, later)
      {
        var found := HasAt(runes, i, sep);
        if found {
          assert IsBoundaryOf(runes, start, end, floor, k, i + |sep|);
          return i + |sep|;
        }
        i := i - 1;
      }
    }
    return end;
  }

  // ---- What a split is ----------------------------------------------------

  // The overlap in force: negative counts as none, and one that would rewind
  // as far as a whole chunk is halved.
  function EffectiveOverlap(cfg: Config): (overlap: int)
    requires 0 < cfg.size
    ensures 0 <= overlap < cfg.size
  {
    var overlap := Max(cfg.overlap, 0);
    if overlap >= cfg.size then cfg.size / 2 else overlap
  }

  function NextStart(w: Window, overlap: int): int {
    if w.cut - overlap <= w.start then w.cut else w.cut - overlap
  }

  // A window no longer than the overlap: the next one cannot rewind.
  predicate IsShort(w: Window, overlap: int) {
    w.cut - w.start <= overlap
  }

  function Floor(ws: seq<Window>): int {
    if ws == [] then 0 else ws[|ws| - 1].cut
  }

  // w is the window that follows ws over the text: it starts where the overlap
  // rewinds to, and it ends at the end of the text if that is in reach, else
  // at the boundary its start and the previous cut call for.
  ghost predicate IsNext(text: string, size: int, overlap: int, ws: seq<Window>, w: Window) {
    && w.start == (if ws == [] then 0 else NextStart(ws[|ws| - 1], overlap))
    && 0 <= w.start < w.cut <= |text|
    && Floor(ws) < w.cut <= w.start + size
    && if |text| <= w.start + size then w.cut == |text|
       else w.cut < |text| && IsBoundary(text, w.start, w.start + size, Floor(ws), w.cut)
  }

  ghost predicate AreWindows(text: string, size: int, overlap: int, ws: seq<Window>) {
    ws == [] || (
      && AreWindows(text, size, overlap, ws[..|ws| - 1])
      && IsNext(text, size, overlap, ws[..|ws| - 1], ws[|ws| - 1]))
  }

  // The whole walk: it ends at the end of the text unless the cap stopped it.
  ghost predicate IsSplit(text: string, size: int, overlap: int, ws: seq<Window>, truncated: bool) {
    && 0 <= overlap < size
    && |ws| > 0
    && AreWindows(text, size, overlap, ws)
    && (ws[|ws| - 1].cut == |text| <==> !truncated)
  }

  // The trimmed text of each window, windows holding only white space left out.
  function Texts(text: string, ws: seq<Window>): (chunks: seq<string>) {
    if ws == [] then []
    else Texts(text, ws[..|ws| - 1]) + TextOf(text, ws[|ws| - 1])
  }

  function TextOf(text: string, w: Window): seq<string> {
    if !(0 <= w.start <= w.cut <= |text|) then []
    else
      var s := TrimSpace(text[w.start..w.cut]);
      if s != "" then [s] else []
  }

  // Each window was begun while there was room for one more chunk.
  ghost predicate BegunWithin(text: string, ws: seq<Window>, cap: int) {
    cap > 0 ==> forall i {:trigger ws[..i]} :: 0 <= i < |ws| ==> |Texts(text, ws[..i])| < cap
  }

  // What a split returns: the chunks of its walk, which stops short of the end
  // of the text only for the cap, and then with exactly that many chunks.
  ghost predicate IsResult(text: string, cfg: Config, ws: seq<Window>, r: SplitResult)
    requires 0 < cfg.size
  {
    && IsSplit(text, cfg.size, EffectiveOverlap(cfg), ws, r.truncated)
    && r.chunks == Texts(text, ws) && BegunWithin(text, ws, cfg.maxChunks)
    && (r.truncated ==> cfg.maxChunks > 0 && |r.chunks| == cfg.maxChunks)
  }

  // Some chunk holds this piece of the text.
  ghost predicate IsHeld(chunks: seq<string>, piece: string) {
    exists c :: c in chunks && Contains(c, piece)
  }

  // A fact of the text that begins and ends on a non-space rune.
  predicate IsBareFact(text: string, overlap: int, a: int, b: int) {
    IsFact(overlap, a, b) && b <= |text| && !IsSpace(text[a]) && !IsSpace(text[b - 1])
  }

  // Every such fact that straddles no short cut is whole in a chunk.
  ghost predicate AreFactsHeld(text: string, overlap: int, ws: seq<Window>, chunks: seq<string>) {
    forall a, b {:trigger text[a..b]} :: IsBareFact(text, overlap, a, b) && !StraddlesShort(overlap, ws, a, b) ==>
      IsHeld(chunks, text[a..b])
  }

  // Every non-space rune is in a chunk.
  ghost predicate AreRunesHeld(text: string, chunks: seq<string>) {
    forall k {:trigger text[k]} :: 0 <= k < |text| && !IsSpace(text[k]) ==> IsHeld(chunks, text[k..k + 1])
  }

  // All of the text is in the chunks: every rune, and every fact that is no
  // longer than the overlap, or than half the size if that is no more than the
  // overlap.
  ghost predicate IsComplete(text: string, size: int, overlap: int, ws: seq<Window>, chunks: seq<string>) {
    AreRunesHeld(text, chunks) && AreFactsHeld(text, if overlap < size then overlap else size / 2, ws, chunks)
  }

  // Part way through a walk: these windows were cut, these chunks came of them,
  // and the next window starts here.
  ghost predicate IsWalking(text: string, cfg: Config, overlap: int, ws: seq<Window>, out: seq<string>, start: int,
                            prevCut: int)
  {
    && 0 <= overlap < cfg.size
    && 0 <= start < |text| && prevCut == Floor(ws) && prevCut < start + cfg.size
    && start == (if ws == [] then 0 else NextStart(ws[|ws| - 1], overlap))
    && AreWindows(text, cfg.size, overlap, ws) && (ws != [] ==> prevCut < |text|)
    && out == Texts(text, ws) && BegunWithin(text, ws, cfg.maxChunks)
    && (cfg.maxChunks > 0 ==> |out| <= cfg.maxChunks)
  }

  // The cap stops a walk before its next window.
  lemma WalkStops(text: string, cfg: Config, overlap: int, ws: seq<Window>, out: seq<string>, start: int, prevCut: int)
    requires cfg.size > 0 && overlap == EffectiveOverlap(cfg)
    requires IsWalking(text, cfg, overlap, ws, out, start, prevCut) && cfg.maxChunks > 0 && |out| >= cfg.maxChunks
    ensures IsResult(text, cfg, ws, SplitResult(out, true))
  {
  }

  // The next window reaches the end of the text.
  lemma WalkEnds(text: string, cfg: Config, overlap: int, ws: seq<Window>, out: seq<string>, start: int, prevCut: int)
    returns (all: seq<Window>)
    requires cfg.size > 0 && overlap == EffectiveOverlap(cfg)
    requires IsWalking(text, cfg, overlap, ws, out, start, prevCut) && start + cfg.size >= |text|
    requires cfg.maxChunks > 0 ==> |out| < cfg.maxChunks
    ensures var r := SplitResult(out + TextOf(text, Window(start, |text|)), false);
      IsResult(text, cfg, all, r) && IsComplete(text, cfg.size, cfg.overlap, all, r.chunks)
  {
    var w := Window(start, |text|);
    BegunOneMore(text, ws, w, cfg.maxChunks);
    all := Append(text, cfg.size, overlap, ws, w, start + cfg.size);
    AllIsHeld(text, cfg.size, cfg.overlap, overlap, all);
  }

  // The next window is cut at a boundary short of the end.
  lemma WalkGoesOn(text: string, cfg: Config, overlap: int, ws: seq<Window>, out: seq<string>, start: int,
                   prevCut: int, cut: int)
    returns (all: seq<Window>)
    requires IsWalking(text, cfg, overlap, ws, out, start, prevCut) && start + cfg.size < |text|
    requires cfg.maxChunks > 0 ==> |out| < cfg.maxChunks
    requires start < cut <= start + cfg.size && prevCut < cut
    requires IsBoundary(text, start, start + cfg.size, prevCut, cut)
    ensures var next := if cut - overlap <= start then cut else cut - overlap;
      IsWalking(text, cfg, overlap, all, out + TextOf(text, Window(start, cut)), next, cut)
  {
    BegunOneMore(text, ws, Window(start, cut), cfg.maxChunks);
    all := Append(text, cfg.size, overlap, ws, Window(start, cut), start + cfg.size);
  }

  // A text longer than the minimum is walked, and unless the cap stops the walk
  // its chunks hold all of it. Any other text has no chunks.
  method Split(text: string, cfg: Config) returns (r: SplitResult, ghost ws: seq<Window>)
    ensures cfg.size <= 0 || |text| <= Max(cfg.minContent, 0) ==> r == SplitResult([], false)
    ensures cfg.size > 0 && |text| > Max(cfg.minContent, 0) ==> IsResult(text, cfg, ws, r)
    ensures cfg.size > 0 && |text| > Max(cfg.minContent, 0) && !r.truncated ==>
      IsComplete(text, cfg.size, cfg.overlap, ws, r.chunks)
    ensures cfg.maxChunks > 0 ==> |r.chunks| <= cfg.maxChunks
  {
    ws := [];
    if cfg.size <= 0 {
      return SplitResult([], false), ws;
    }
    if cfg.minContent > 0 && |text| <= cfg.minContent {
      return SplitResult([], false), ws;
    }
    if |text| == 0 {
      return SplitResult([], false), ws;
    }
    var overlap := Max(cfg.overlap, 0);
    if overlap >= cfg.size {
      overlap := cfg.size / 2;
    }

    var out: seq<string> := [];
    var prevCut := 0;
    var start := 0;
    while start < |text|
      invariant IsWalking(text, cfg, overlap, ws, out, start, prevCut)
      decreases |text| - start
    {
      if cfg.maxChunks > 0 && |out| >= cfg.maxChunks {
        WalkStops(text, cfg, overlap, ws, out, start, prevCut);
        return SplitResult(out, true), ws;
      }
      var end := start + cfg.size;
      if end >= |text| {
        ws := WalkEnds(text, cfg, overlap, ws, out, start, prevCut);
        out := AppendTrimmed(text, out, Window(start, |text|));
        return SplitResult(out, false), ws;
      }
      var cut := Boundary(text, start, end, prevCut);
      ws := WalkGoesOn(text, cfg, overlap, ws, out, start, prevCut, cut);
      out := AppendTrimmed(text, out, Window(start, cut));
      var next := cut - overlap;
      if next <= start {
        next := cut;
      }
      prevCut := cut;
      start := next;
    }
    assert false;
  }

  lemma BegunOneMore(text: string, ws: seq<Window>, w: Window, cap: int)
    requires BegunWithin(text, ws, cap) && (cap > 0 ==> |Texts(text, ws)| < cap)
    ensures BegunWithin(text, ws + [w], cap)
  {
    assert (ws + [w])[..|ws|] == ws;
    assert forall i :: 0 <= i < |ws| ==> (ws + [w])[..i] == ws[..i];
  }

  // Appends the trimmed window unless nothing but white space is in it.
  method AppendTrimmed(text: string, out: seq<string>, w: Window) returns (more: seq<string>)
    requires 0 <= w.start < w.cut <= |text|
    ensures more == out + TextOf(text, w)
    ensures |out| <= |more| <= |out| + 1
  {
    var s := TrimSpace(text[w.start..w.cut]);
    if s != "" {
      return out + [s];
    }
    return out;
  }

  lemma Append(text: string, size: int, overlap: int, ws: seq<Window>, w: Window, end: int) returns (all: seq<Window>)
    requires AreWindows(text, size, overlap, ws)
    requires w.start == if ws == [] then 0 else NextStart(ws[|ws| - 1], overlap)
    requires 0 <= w.start < w.cut <= |text| && Floor(ws) < w.cut <= end == w.start + size
    requires if end >= |text| then w.cut == |text|
      else w.cut < |text| && IsBoundary(text, w.start, end, Floor(ws), w.cut)
    ensures all == ws + [w]
    ensures AreWindows(text, size, overlap, all)
    ensures Texts(text, all) == Texts(text, ws) + TextOf(text, w)
  {
    all := ws + [w];
    assert all[..|all| - 1] == ws;
  }

  // ---- What a split guarantees -------------------------------------------

  lemma {:induction false} WindowAt(text: string, size: int, overlap: int, ws: seq<Window>, i: nat)
    requires AreWindows(text, size, overlap, ws) && i < |ws|
    ensures AreWindows(text, size, overlap, ws[..i]) && IsNext(text, size, overlap, ws[..i], ws[i])
  {
    var init := ws[..|ws| - 1];
    if i < |init| {
      WindowAt(text, size, overlap, init, i);
      assert init[..i] == ws[..i];
    }
  }

  // Both cursors strictly advance, so no window contains another one, and no
  // window leaves a gap before it.
  lemma {:induction false} BothCursorsAdvance(text: string, size: int, overlap: int, ws: seq<Window>, i: nat, j: nat)
    requires AreWindows(text, size, overlap, ws) && 0 <= overlap && i < j < |ws|
    ensures ws[i].start < ws[j].start <= ws[j - 1].cut
    ensures ws[i].cut < ws[j].cut
    decreases j
  {
    WindowAt(text, size, overlap, ws, j);
    WindowAt(text, size, overlap, ws, j - 1);
    if i + 1 < j {
      BothCursorsAdvance(text, size, overlap, ws, i, j - 1);
    }
  }

  // The walk is determined by the text and the configuration.
  lemma {:induction false} WalkIsUnique(text: string, size: int, overlap: int, ws: seq<Window>, vs: seq<Window>)
    requires AreWindows(text, size, overlap, ws) && AreWindows(text, size, overlap, vs)
    ensures forall i :: 0 <= i < |ws| && i < |vs| ==> ws[i] == vs[i]
  {
    if |ws| < |vs| {
      WalkIsUnique(text, size, overlap, ws, vs[..|vs| - 1]);
    } else if ws != [] && vs != [] {
      var w, v := ws[|ws| - 1], vs[|vs| - 1];
      if |vs| < |ws| {
        WalkIsUnique(text, size, overlap, ws[..|ws| - 1], vs);
      } else {
        WalkIsUnique(text, size, overlap, ws[..|ws| - 1], vs[..|vs| - 1]);
        assert ws[..|ws| - 1] == vs[..|vs| - 1];
        if w.cut < |text| {
          BoundaryIsUnique(text, w.start, w.start + size, Floor(ws[..|ws| - 1]), w.cut, v.cut);
        }
      }
    }
  }

  lemma NoLongerWalk(text: string, cfg: Config, ws: seq<Window>, r: SplitResult, vs: seq<Window>, q: SplitResult)
    requires 0 < cfg.size && IsResult(text, cfg, ws, r) && IsResult(text, cfg, vs, q)
    ensures |vs| <= |ws|
  {
    WalkIsUnique(text, cfg.size, EffectiveOverlap(cfg), ws, vs);
    if |ws| < |vs| {
      assert vs[..|ws|] == ws;
      WindowAt(text, cfg.size, EffectiveOverlap(cfg), vs, |ws|);
    }
  }

  // So the result, whether it was cut short included, is determined by the text
  // and the configuration.
  lemma ResultIsUnique(text: string, cfg: Config, ws: seq<Window>, r: SplitResult, vs: seq<Window>, q: SplitResult)
    requires 0 < cfg.size && IsResult(text, cfg, ws, r) && IsResult(text, cfg, vs, q)
    ensures r == q && ws == vs
  {
    NoLongerWalk(text, cfg, ws, r, vs, q);
    NoLongerWalk(text, cfg, vs, q, ws, r);
    WalkIsUnique(text, cfg.size, EffectiveOverlap(cfg), ws, vs);
    assert ws == vs;
  }

  // The spans the package promises to keep whole: no longer than the overlap
  // (or a single rune).
  predicate IsFact(overlap: int, a: int, b: int) {
    0 <= a < b && b - a <= Max(overlap, 1)
  }

  ghost predicate InSomeWindow(ws: seq<Window>, a: int, b: int) {
    exists i :: 0 <= i < |ws| && ws[i].start <= a && b <= ws[i].cut
  }

  // The span straddles the cut of a short window, where no overlap is kept.
  ghost predicate StraddlesShort(overlap: int, ws: seq<Window>, a: int, b: int) {
    exists j :: 0 <= j < |ws| - 1 && IsShort(ws[j], overlap) && a < ws[j].cut < b
  }

  // The package's promise, with its exact exception: a span no longer than the
  // overlap lies whole in some window if and only if it does not straddle the
  // cut of a window that is itself no longer than the overlap.
  lemma {:induction false} FactInWindow(text: string, size: int, overlap: int, ws: seq<Window>, truncated: bool,
                                        a: int, b: int)
    requires IsSplit(text, size, overlap, ws, truncated)
    requires IsFact(overlap, a, b) && b <= ws[|ws| - 1].cut
    ensures InSomeWindow(ws, a, b) <==> !StraddlesShort(overlap, ws, a, b)
  {
    if StraddlesShort(overlap, ws, a, b) {
      var j :| 0 <= j < |ws| - 1 && IsShort(ws[j], overlap) && a < ws[j].cut < b;
      WindowAt(text, size, overlap, ws, j + 1);
      forall i | 0 <= i < |ws|
        ensures !(ws[i].start <= a && b <= ws[i].cut)
      {
        if i < j {
          BothCursorsAdvance(text, size, overlap, ws, i, j);
        } else if j + 1 < i {
          BothCursorsAdvance(text, size, overlap, ws, j + 1, i);
        }
      }
    } else {
      // the first window whose cut reaches the end of the span
      var i := 0;
      while ws[i].cut < b
        invariant i < |ws|
        invariant i > 0 ==> ws[i - 1].cut < b
        decreases |ws| - i
      {
        i := i + 1;
      }
      WindowAt(text, size, overlap, ws, i);
      assert i > 0 && a < ws[i - 1].cut ==> !IsShort(ws[i - 1], overlap);
    }
  }

  lemma {:induction false} WindowTextIsChunk(text: string, ws: seq<Window>, i: nat)
    requires i < |ws|
    ensures forall c :: c in TextOf(text, ws[i]) ==> c in Texts(text, ws)
  {
    if i < |ws| - 1 {
      WindowTextIsChunk(text, ws[..|ws| - 1], i);
    }
  }

  lemma InThree(text: string, i: int, a: int, b: int, j: int)
    requires 0 <= i <= a <= b <= j <= |text|
    ensures text[i..j] == text[i..a] + text[a..b] + text[b..j]
  {
  }

  lemma FactInText(text: string, w: Window, a: int, b: int) returns (c: string)
    requires 0 <= w.start <= a < b <= w.cut <= |text|
    requires !IsSpace(text[a]) && !IsSpace(text[b - 1])
    ensures TextOf(text, w) == [c] && Contains(c, text[a..b])
  {
    var p, m, q := text[w.start..a], text[a..b], text[b..w.cut];
    c := TrimLeft(p) + m + TrimRight(q);
    InThree(text, w.start, a, b, w.cut);
    TrimAround(p, m, q);
    assert Splits(c, TrimLeft(p), m, TrimRight(q));
  }

  // The same promise on the chunks that are returned: a short enough fact that
  // begins and ends with a non-space rune, in the part of the text the walk
  // covered, survives whole in one of them unless it straddles such a cut.
  lemma FactSurvives(text: string, size: int, overlap: int, ws: seq<Window>, truncated: bool, a: int, b: int)
    requires IsSplit(text, size, overlap, ws, truncated)
    requires IsFact(overlap, a, b) && b <= ws[|ws| - 1].cut <= |text|
    requires !IsSpace(text[a]) && !IsSpace(text[b - 1])
    requires !StraddlesShort(overlap, ws, a, b)
    ensures exists c :: c in Texts(text, ws) && Contains(c, text[a..b])
  {
    FactInWindow(text, size, overlap, ws, truncated, a, b);
    var i :| 0 <= i < |ws| && ws[i].start <= a && b <= ws[i].cut;
    WindowAt(text, size, overlap, ws, i);
    var c := FactInText(text, ws[i], a, b);
    WindowTextIsChunk(text, ws, i);
  }

  // A walk to the end of the text loses no fact and no rune. A negative overlap
  // counts as none.
  lemma AllIsHeld(text: string, size: int, given: int, overlap: int, ws: seq<Window>)
    requires IsSplit(text, size, overlap, ws, false)
    requires overlap == if given < size then Max(given, 0) else size / 2
    ensures IsComplete(text, size, given, ws, Texts(text, ws))
  {
    forall a, b | IsBareFact(text, overlap, a, b) && !StraddlesShort(overlap, ws, a, b)
      ensures IsHeld(Texts(text, ws), text[a..b])
    {
      FactSurvives(text, size, overlap, ws, false, a, b);
    }
    forall k | 0 <= k < |text| && !IsSpace(text[k])
      ensures IsHeld(Texts(text, ws), text[k..k + 1])
    {
      FactSurvives(text, size, overlap, ws, false, k, k + 1);
    }
  }

  // Nothing is lost of what the walk covered, all of the text unless it was
  // cut short: every non-space rune is in some chunk.
  lemma NothingIsDropped(text: string, size: int, overlap: int, ws: seq<Window>, truncated: bool, k: int)
    requires IsSplit(text, size, overlap, ws, truncated)
    requires 0 <= k < ws[|ws| - 1].cut <= |text| && !IsSpace(text[k])
    ensures exists c :: c in Texts(text, ws) && text[k] in c
  {
    FactSurvives(text, size, overlap, ws, truncated, k, k + 1);
    var c :| c in Texts(text, ws) && Contains(c, text[k..k + 1]);
    var p, q :| Splits(c, p, text[k..k + 1], q);
    assert c[|p|] == text[k];
  }

  lemma PieceFits(text: string, w: Window, c: string)
    requires c in TextOf(text, w)
    ensures 0 < |c| <= w.cut - w.start && Contains(text, c)
    ensures !IsSpace(c[0]) && !IsSpace(c[|c| - 1])
  {
    var piece := text[w.start..w.cut];
    TrimIsSlice(piece);
    TrimBaresEnds(piece);
    var p, q :| Splits(piece, p, c, q);
    var before, after := text[..w.start] + p, q + text[w.cut..];
    assert text == text[..w.start] + piece + text[w.cut..] == before + c + after;
    assert Splits(text, before, c, after);
  }

  // Every chunk is a piece of the text, within the size limit, that begins and
  // ends on a non-space rune.
  lemma {:induction false} ChunksFit(text: string, size: int, overlap: int, ws: seq<Window>, c: string)
    requires AreWindows(text, size, overlap, ws) && c in Texts(text, ws)
    ensures 0 < |c| <= size && Contains(text, c)
    ensures !IsSpace(c[0]) && !IsSpace(c[|c| - 1])
  {
    var init, w := ws[..|ws| - 1], ws[|ws| - 1];
    if c in Texts(text, init) {
      ChunksFit(text, size, overlap, init, c);
    } else {
      PieceFits(text, w, c);
    }
  }

  lemma OccursFirst(runes: string, i: int, sep: string)
    ensures sep != [] && OccursAt(runes, i, sep) ==> 0 <= i < |runes| && runes[i] == sep[0]
  {
    if sep != [] && OccursAt(runes, i, sep) {
      assert runes[i..i + |sep|][0] == sep[0];
    }
  }

  // The exception is real. With size 7 and overlap 3 this text is cut after
  // "a ", a window of two runes; the three-rune fact "a b" is then in no chunk.
  lemma ShortWindowLosesFact() returns (text: string, ws: seq<Window>)
    ensures text == "a bcdefgh" && IsSplit(text, 7, 3, ws, false)
    ensures IsFact(3, 0, 3) && text[0..3] == "a b"
    ensures forall c :: c in Texts(text, ws) ==> !Contains(c, "a b")
  {
    text := "a bcdefgh";
    ws := [Window(0, 2), Window(2, 9)];
    assert IsBoundary(text, 0, 7, 0, 2) by {
      forall j, cut | 0 <= j < 6
        ensures !Eligible(text, 0, 7, 0, SEPARATORS[j], cut)
      {
        OccursFirst(text, cut - |SEPARATORS[j]|, SEPARATORS[j]);
      }
      forall cut | 2 < cut
        ensures !Eligible(text, 0, 7, 0, " ", cut)
      {
        OccursFirst(text, cut - 1, " ");
      }
      assert text[1..2] == " ";
      assert IsBoundaryOf(text, 0, 7, 0, 6, 2);
    }
    assert ws[..1] == [Window(0, 2)] && ws[..1][..0] == [];
    assert IsNext(text, 7, 3, ws[..1], ws[1]);
    assert IsNext(text, 7, 3, ws[..1][..0], ws[..1][0]);
    assert AreWindows(text, 7, 3, ws[..1]);
    assert text[0..2] == "a " && "a "[..1] == "a";
    assert TextOf(text, ws[0]) == ["a"];
    assert text[2..9] == "bcdefgh";
    assert TextOf(text, ws[1]) == ["bcdefgh"];
    assert Texts(text, ws) == Texts(text, ws[..1]) + ["bcdefgh"];
    assert Texts(text, ws[..1]) == Texts(text, []) + ["a"];
    assert Texts(text, ws) == ["a", "bcdefgh"];
    forall c, p, q | c in Texts(text, ws)
      ensures !Splits(c, p, "a b", q)
    {
      SplitsAt(c, p, "a b", q, 1);
    }
  }
}
