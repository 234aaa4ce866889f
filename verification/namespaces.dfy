// internal/httputil: the canonical form of a namespace.
module Namespaces {
  import opened Text

  // ---- Segments -----------------------------------------------------------

  function Flush(cur: string): seq<string> {
    if cur == "" then [] else [cur]
  }

  // The non-empty segments between slashes, with cur read so far.
  function SegmentsFrom(cur: string, s: string): seq<string>
    decreases |s|
  {
    if s == "" then Flush(cur)
    else if s[0] == '/' then Flush(cur) + SegmentsFrom("", s[1..])
    else SegmentsFrom(cur + [s[0]], s[1..])
  }

  function Segments(s: string): seq<string> {
    SegmentsFrom("", s)
  }

  function Join(segs: seq<string>): string {
    if segs == [] then ""
    else if |segs| == 1 then segs[0]
    else segs[0] + "/" + Join(segs[1..])
  }

  // The canonical form by definition: the non-empty segments of the text with
  // white space trimmed off its two ends, joined by single slashes.
  function Canonical(s: string): string {
    Join(Segments(TrimSpace(s)))
  }

  // ---- The algorithm ------------------------------------------------------

  function TrimLeftSlashes(s: string): string {
    if s != "" && s[0] == '/' then TrimLeftSlashes(s[1..]) else s
  }

  function TrimRightSlashes(s: string): string {
    if s != "" && s[|s| - 1] == '/' then TrimRightSlashes(s[..|s| - 1]) else s
  }

  predicate HasDoubleSlash(s: string) {
    exists i :: 0 <= i < |s| - 1 && s[i] == '/' && s[i + 1] == '/'
  }

  // Replaces every "//", left to right and without overlaps, by "/".
  function HalveSlashes(s: string): string {
    if |s| >= 2 && s[0] == '/' && s[1] == '/' then "/" + HalveSlashes(s[2..])
    else if s == "" then ""
    else [s[0]] + HalveSlashes(s[1..])
  }

  predicate HasBareEnds(s: string) {
    s != "" ==> s[0] != '/' && s[|s| - 1] != '/'
  }

  lemma {:induction false} TrimLeftKeepsSegments(s: string)
    ensures Segments(TrimLeftSlashes(s)) == Segments(s)
    ensures TrimLeftSlashes(s) != "" ==> TrimLeftSlashes(s)[0] != '/'
  {
    if s != "" && s[0] == '/' {
      TrimLeftKeepsSegments(s[1..]);
    }
  }

  lemma {:induction false} SegmentsDropLast(cur: string, s: string)
    ensures SegmentsFrom(cur, s + "/") == SegmentsFrom(cur, s)
    decreases |s|
  {
    if s == "" {
      assert (s + "/")[1..] == "";
      assert SegmentsFrom("", "") == [];
    } else {
      assert (s + "/")[1..] == s[1..] + "/";
      SegmentsDropLast(if s[0] == '/' then "" else cur + [s[0]], s[1..]);
    }
  }

  lemma {:induction false} TrimRightKeepsSegments(s: string)
    ensures Segments(TrimRightSlashes(s)) == Segments(s)
    ensures TrimRightSlashes(s) != "" ==> s != "" && TrimRightSlashes(s)[0] == s[0]
    ensures TrimRightSlashes(s) != "" ==> TrimRightSlashes(s)[|TrimRightSlashes(s)| - 1] != '/'
  {
    if s != "" && s[|s| - 1] == '/' {
      var init := s[..|s| - 1];
      assert s == init + "/";
      SegmentsDropLast("", init);
      TrimRightKeepsSegments(init);
    }
  }

  lemma {:induction false} HalveKeepsSegments(cur: string, s: string)
    ensures SegmentsFrom(cur, HalveSlashes(s)) == SegmentsFrom(cur, s)
    decreases |s|
  {
    if |s| >= 2 && s[0] == '/' && s[1] == '/' {
      HalveKeepsSegments("", s[2..]);
      assert s[1..][1..] == s[2..];
      assert ("/" + HalveSlashes(s[2..]))[1..] == HalveSlashes(s[2..]);
    } else if s != "" {
      var t := HalveSlashes(s[1..]);
      assert ([s[0]] + t)[1..] == t;
      HalveKeepsSegments(if s[0] == '/' then "" else cur + [s[0]], s[1..]);
    }
  }

  lemma {:induction false} HalveKeepsEnds(s: string)
    ensures |HalveSlashes(s)| <= |s|
    ensures s != "" ==> HalveSlashes(s) != "" && HalveSlashes(s)[0] == s[0]
    ensures s != "" ==> HalveSlashes(s)[|HalveSlashes(s)| - 1] == s[|s| - 1]
    ensures HasDoubleSlash(s) ==> |HalveSlashes(s)| < |s|
  {
    if |s| >= 2 && s[0] == '/' && s[1] == '/' {
      HalveKeepsEnds(s[2..]);
    } else if s != "" {
      HalveKeepsEnds(s[1..]);
      if HasDoubleSlash(s) {
        var i :| 0 <= i < |s| - 1 && s[i] == '/' && s[i + 1] == '/';
        assert s[1..][i - 1] == '/' && s[1..][i] == '/';
      }
    }
  }

  method NormalizeNamespace(ns0: string) returns (ns: string)
    ensures ns == Canonical(ns0)
  {
    ns := TrimSpace(ns0);
    TrimLeftKeepsSegments(ns);
    TrimRightKeepsSegments(TrimLeftSlashes(ns));
    ns := TrimRightSlashes(TrimLeftSlashes(ns));
    while HasDoubleSlash(ns)
      invariant Segments(ns) == Segments(TrimSpace(ns0)) && HasBareEnds(ns)
      decreases |ns|
    {
      HalveKeepsSegments("", ns);
      HalveKeepsEnds(ns);
      ns := HalveSlashes(ns);
    }
    JoinSegments(ns);
  }

  // ---- What is canonical --------------------------------------------------

  lemma {:induction false} JoinSegmentsFrom(cur: string, s: string)
    requires cur != "" && !HasDoubleSlash(s) && (s != "" ==> s[|s| - 1] != '/')
    ensures Join(SegmentsFrom(cur, s)) == cur + s
    decreases |s|
  {
    if s == "" {
    } else if s[0] == '/' {
      var rest := s[2..];
      assert s[1] != '/';
      assert s[1..][1..] == rest;
      assert SegmentsFrom("", s[1..]) == SegmentsFrom([s[1]], rest) by {
        assert "" + [s[1..][0]] == [s[1]];
      }
      JoinSegmentsFrom([s[1]], rest);
      FirstSegment([s[1]], rest);
      assert cur + s == cur + "/" + ([s[1]] + rest);
    } else {
      JoinSegmentsFrom(cur + [s[0]], s[1..]);
      assert cur + [s[0]] + s[1..] == cur + s;
    }
  }

  lemma {:induction false} FirstSegment(cur: string, s: string)
    requires cur != ""
    ensures |SegmentsFrom(cur, s)| >= 1
    decreases |s|
  {
    if s != "" && s[0] != '/' {
      FirstSegment(cur + [s[0]], s[1..]);
    }
  }

  // A text of single slashes with none at its ends is its own join.
  lemma JoinSegments(s: string)
    requires !HasDoubleSlash(s) && HasBareEnds(s)
    ensures Join(Segments(s)) == s
  {
    if s != "" {
      assert "" + [s[0]] == [s[0]];
      JoinSegmentsFrom([s[0]], s[1..]);
    }
  }

  lemma {:induction false} JoinIsNoLonger(cur: string, s: string)
    ensures |Join(SegmentsFrom(cur, s))| <= |cur| + |s|
    decreases |s|
  {
    if s != "" {
      if s[0] == '/' {
        JoinIsNoLonger("", s[1..]);
        var rest := SegmentsFrom("", s[1..]);
        assert Flush(cur) + rest == if cur == "" then rest else [cur] + rest;
      } else {
        JoinIsNoLonger(cur + [s[0]], s[1..]);
      }
    }
  }

  ghost predicate AreSegments(segs: seq<string>) {
    forall i :: 0 <= i < |segs| ==> segs[i] != "" && '/' !in segs[i]
  }

  lemma {:induction false} SegmentsAreSegments(cur: string, s: string)
    requires '/' !in cur
    ensures AreSegments(SegmentsFrom(cur, s))
    decreases |s|
  {
    if s != "" {
      SegmentsAreSegments(if s[0] == '/' then "" else cur + [s[0]], s[1..]);
    }
  }

  lemma {:induction false} ReadSegment(cur: string, seg: string, rest: string)
    requires '/' !in seg
    ensures SegmentsFrom(cur, seg + rest) == SegmentsFrom(cur + seg, rest)
    decreases |seg|
  {
    if seg == "" {
      assert seg + rest == rest && cur + seg == cur;
    } else {
      assert seg[0] in seg;
      assert (seg + rest)[1..] == seg[1..] + rest;
      ReadSegment(cur + [seg[0]], seg[1..], rest);
      assert cur + [seg[0]] + seg[1..] == cur + seg;
    }
  }

  lemma {:induction false} SegmentsOfJoin(segs: seq<string>)
    requires AreSegments(segs)
    ensures Segments(Join(segs)) == segs
  {
    if segs == [] {
    } else if |segs| == 1 {
      assert segs[0] + "" == segs[0] && "" + segs[0] == segs[0];
      ReadSegment("", segs[0], "");
    } else {
      var rest := "/" + Join(segs[1..]);
      assert Join(segs) == segs[0] + rest && "" + segs[0] == segs[0];
      ReadSegment("", segs[0], rest);
      assert rest[1..] == Join(segs[1..]);
      SegmentsOfJoin(segs[1..]);
    }
  }

  lemma TrimIsNoLonger(s: string)
    ensures |TrimSpace(s)| <= |s| && (|TrimSpace(s)| == |s| ==> TrimSpace(s) == s)
  {
    TrimLeftIsSuffix(s);
    TrimRightIsPrefix(TrimLeft(s));
  }

  // The text with white space and then slashes stripped off its two ends.
  function Stripped(s: string): string {
    TrimRightSlashes(TrimLeftSlashes(TrimSpace(s)))
  }

  lemma StrippedIsBare(s: string)
    ensures HasBareEnds(Stripped(s)) && Segments(Stripped(s)) == Segments(TrimSpace(s))
  {
    TrimLeftKeepsSegments(TrimSpace(s));
    TrimRightKeepsSegments(TrimLeftSlashes(TrimSpace(s)));
  }

  // Collapsing the slashes inside a text keeps its two ends.
  lemma {:induction false} JoinKeepsEnds(u: string)
    requires HasBareEnds(u)
    ensures var c := Join(Segments(u));
      (c == "" <==> u == "") && (u != "" ==> c[0] == u[0] && c[|c| - 1] == u[|u| - 1])
    decreases |u|
  {
    if HasDoubleSlash(u) {
      HalveKeepsSegments("", u);
      HalveKeepsEnds(u);
      JoinKeepsEnds(HalveSlashes(u));
    } else {
      JoinSegments(u);
    }
  }

  lemma TrimmedAlready(s: string)
    ensures TrimSpace(s) == s <==> (s != "" ==> !IsSpace(s[0]) && !IsSpace(s[|s| - 1]))
  {
    TrimBaresEnds(s);
  }

  // Normalizing twice is normalizing once exactly when stripping white space
  // and then slashes off the ends of the text leaves no white space there:
  // white space is trimmed first, so slashes can hide it.
  lemma NormalizeIsIdempotent(s: string)
    ensures Canonical(Canonical(s)) == Canonical(s) <==> TrimSpace(Stripped(s)) == Stripped(s)
  {
    var c := Canonical(s);
    StrippedIsBare(s);
    JoinKeepsEnds(Stripped(s));
    TrimmedAlready(c);
    TrimmedAlready(Stripped(s));
    SegmentsAreSegments("", TrimSpace(s));
    SegmentsOfJoin(Segments(TrimSpace(s)));
    JoinIsNoLonger("", TrimSpace(c));
    TrimIsNoLonger(c);
  }

  lemma NormalizeExposesSpace()
    ensures Canonical("/ a /") == " a " && Canonical(" a ") == "a"
  {
    assert TrimSpace("/ a /") == "/ a /";
    assert "/ a /"[1..] == " a " + "/" && "/"[1..] == "" && "" + " a " == " a ";
    ReadSegment("", " a ", "/");
    assert Segments("/ a /") == [" a "] + SegmentsFrom("", "");
    ReadSegment("", "a", "");
    assert "a" + "" == "a" && "" + "a" == "a";
    assert " a "[1..] == "a " && "a "[..1] == "a";
    assert TrimSpace(" a ") == "a";
    assert "a"[1..] == "";
  }

  // ---- Validation ---------------------------------------------------------

  predicate IsValidNamespace(ns: string) {
    ns != "" && ByteLength(ns) <= 256 && '\0' !in ns
  }

  // A namespace that can be addressed as it stands: of 1 to 256 bytes of
  // UTF-8, no NUL among them, with neither white space nor a slash at either
  // end and no slash after another.
  ghost predicate IsPlain(ns: string) {
    && 1 <= |Encode(ns)| <= 256 && '\0' !in ns
    && ns != "" && !IsSpace(ns[0]) && !IsSpace(ns[|ns| - 1]) && ns[0] != '/' && ns[|ns| - 1] != '/'
    && forall i :: 0 <= i < |ns| - 1 && ns[i] == '/' ==> ns[i + 1] != '/'
  }

  lemma CanonicalIsBare(ns: string)
    requires Canonical(ns) == ns
    ensures TrimSpace(ns) == ns && HasBareEnds(ns) && !HasDoubleSlash(ns)
  {
    TrimIsNoLonger(ns);
    JoinIsNoLonger("", TrimSpace(ns));
    if ns != "" && ns[0] == '/' {
      assert Segments(ns) == SegmentsFrom("", ns[1..]);
      JoinIsNoLonger("", ns[1..]);
    } else if ns != "" && ns[|ns| - 1] == '/' {
      var init := ns[..|ns| - 1];
      assert ns == init + "/";
      SegmentsDropLast("", init);
      JoinIsNoLonger("", init);
    }
    if HasDoubleSlash(ns) {
      HalveKeepsSegments("", ns);
      HalveKeepsEnds(ns);
      JoinIsNoLonger("", HalveSlashes(ns));
    }
  }

  // The namespaces that are valid and their own canonical form.
  lemma PlainIsCanonical(ns: string)
    ensures IsPlain(ns) <==> Canonical(ns) == ns && IsValidNamespace(ns)
  {
    EncodingDecodes(ns);
    TrimmedAlready(ns);
    if IsPlain(ns) {
      JoinSegments(ns);
    } else if Canonical(ns) == ns {
      CanonicalIsBare(ns);
    }
  }
}
