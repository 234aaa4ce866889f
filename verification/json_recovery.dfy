// internal/llm: recovering the JSON object from a model's reply.
//
// A reply is fence-trimmed and then scanned for the first balanced object by a
// scanner that knows about strings and escapes. The scanner is stated as an
// automaton over prefixes; the JSON texts it must recover are stated apart from
// it, as syntax trees of RFC 8259 with every layout the grammar allows.
module JsonRecovery {
  import opened Common
  import opened Text
  import opened JsonText

  // ---- The scanner --------------------------------------------------------

  datatype Scan = Scan(depth: int, inStr: bool, esc: bool)

  const START := Scan(0, false, false)

  function Step(st: Scan, c: char): Scan {
    if st.inStr then
      if st.esc then st.(esc := false)
      else if c == '\\' then st.(esc := true)
      else if c == '\"' then st.(inStr := false)
      else st
    else if c == '\"' then st.(inStr := true)
    else if c == '{' then st.(depth := st.depth + 1)
    else if c == '}' then st.(depth := st.depth - 1)
    else st
  }

  function Run(st: Scan, s: string): Scan {
    if s == [] then st else Step(Run(st, s[..|s| - 1]), s[|s| - 1])
  }

  // The scan of s has come back to depth zero.
  ghost predicate Closed(s: string) {
    s != [] && Run(START, s).depth == 0
  }

  // t is the first balanced object of s: it starts at the first opening brace
  // and ends where the scan first closes.
  ghost predicate IsFirstObject(s: string, p: string, t: string, q: string) {
    && s == p + t + q
    && '{' !in p
    && t != [] && t[0] == '{'
    && Closed(t)
    && forall k :: 0 < k < |t| ==> !Closed(t[..k])
  }

  ghost predicate HasNoObject(s: string) {
    forall p, t, q :: !IsFirstObject(s, p, t, q)
  }

  // What the scanner returns: the first balanced object, or "" if there is none.
  ghost predicate IsExtract(s: string, r: string) {
    if r == "" then HasNoObject(s) else exists p, q :: IsFirstObject(s, p, r, q)
  }

  method IndexByte(s: string, c: char) returns (i: int)
    ensures -1 <= i < |s|
    ensures i < 0 ==> c !in s
    ensures i >= 0 ==> s[i] == c && c !in s[..i]
  {
    for j := 0 to |s|
      invariant c !in s[..j]
    {
      if s[j] == c {
        return j;
      }
    }
    return -1;
  }

  method ExtractJSON(s: string) returns (r: string)
    ensures IsExtract(s, r)
  {
    var start := IndexByte(s, '{');
    if start < 0 {
      return "";
    }
    var depth, inStr, esc := 0, false, false;
    for i := start to |s|
      invariant Scan(depth, inStr, esc) == Run(START, s[start..i])
      invariant if i == start then depth == 0 && !inStr else depth >= 1
      invariant StaysOpen(s, start, i)
    {
      var c := s[i];
      ScanNext(s, start, i);
      if inStr {
        if esc {
          esc := false;
        } else if c == '\\' {
          esc := true;
        } else if c == '\"' {
          inStr := false;
        }
        continue;
      }
      if c == '\"' {
        inStr := true;
      } else if c == '{' {
        depth := depth + 1;
      } else if c == '}' {
        depth := depth - 1;
        if depth == 0 {
          FirstClose(s, start, i);
          return s[start..i + 1];
        }
      }
    }
    NeverCloses(s, start);
    r := "";
  }

  ghost predicate StaysOpen(s: string, start: nat, end: nat)
    requires start <= end <= |s|
  {
    forall k {:trigger s[start..k]} :: start < k <= end ==> !Closed(s[start..k])
  }

  lemma ScanNext(s: string, start: nat, i: nat)
    requires start <= i < |s|
    ensures Run(START, s[start..i + 1]) == Step(Run(START, s[start..i]), s[i])
  {
    assert s[start..i + 1][..i - start] == s[start..i];
  }

  lemma FirstClose(s: string, start: nat, i: nat)
    requires start <= i < |s| && s[start] == '{' && '{' !in s[..start]
    requires StaysOpen(s, start, i) && Run(START, s[start..i + 1]).depth == 0
    ensures IsFirstObject(s, s[..start], s[start..i + 1], s[i + 1..])
  {
    var t := s[start..i + 1];
    forall k | 0 < k < |t|
      ensures !Closed(t[..k])
    {
      assert t[..k] == s[start..start + k];
    }
  }

  lemma NeverCloses(s: string, start: nat)
    requires start < |s| && s[start] == '{' && '{' !in s[..start] && StaysOpen(s, start, |s|)
    ensures HasNoObject(s)
  {
    forall p, t, q
      ensures !IsFirstObject(s, p, t, q)
    {
      FirstBraceIsSole(s, start, p, t, q);
    }
  }

  lemma FirstBraceIsSole(s: string, start: nat, p: string, t: string, q: string)
    requires start < |s| && s[start] == '{' && '{' !in s[..start]
    ensures IsFirstObject(s, p, t, q) ==> |p| == start && t == s[start..start + |t|]
  {
    if IsFirstObject(s, p, t, q) {
      assert s[|p|] == '{';
      assert forall k :: 0 <= k < start ==> s[k] == s[..start][k];
      assert forall k :: 0 <= k < |p| ==> s[k] == p[k];
    }
  }

  // The first object is unique, so the contract of ExtractJSON determines its
  // result.
  lemma FirstObjectIsUnique(s: string, p1: string, t1: string, q1: string, p2: string, t2: string, q2: string)
    requires IsFirstObject(s, p1, t1, q1) && IsFirstObject(s, p2, t2, q2)
    ensures p1 == p2 && t1 == t2 && q1 == q2
  {
    assert s[|p1|] == '{' && p1 == s[..|p1|];
    FirstBraceIsSole(s, |p1|, p2, t2, q2);
    assert p2 == s[..|p2|];
    assert t1 == s[|p1|..|p1| + |t1|];
    var m := Min(|t1|, |t2|);
    assert t1[..m] == s[|p1|..|p1| + m] == t2[..m];
    assert t1[..|t1|] == t1 && t2[..|t2|] == t2;
    assert q1 == s[|p1| + |t1|..] && q2 == s[|p2| + |t2|..];
  }

  // Extracting from an extract changes nothing.
  lemma ExtractIsIdempotent(s: string, r: string)
    requires IsExtract(s, r) && r != ""
    ensures IsExtract(r, r)
  {
    var p, q :| IsFirstObject(s, p, r, q);
    assert IsFirstObject(r, "", r, "");
  }

  // ---- Fences -------------------------------------------------------------

  function TrimFence(content: string): string {
    var s := TrimSpace(content);
    var s1 := TrimPrefix(s, "```json");
    var s2 := TrimPrefix(s1, "```");
    var s3 := TrimSuffix(s2, "```");
    TrimSpace(s3)
  }

  lemma PrefixBefore(p: string, m: string, q: string, prefix: string)
    requires m != [] && m[0] !in prefix && '{' !in p
    ensures TrimPrefix(p + m + q, prefix) == TrimPrefix(p, prefix) + m + q
    ensures '{' !in TrimPrefix(p, prefix)
  {
    var s := p + m + q;
    if |prefix| <= |p| {
      assert s[..|prefix|] == p[..|prefix|];
      assert s[|prefix|..] == p[|prefix|..] + m + q;
    } else {
      assert s[|p|] == m[0];
      assert prefix[|p|] in prefix;
    }
  }

  lemma SuffixAfter(p: string, m: string, q: string, suffix: string)
    requires m != [] && m[|m| - 1] !in suffix
    ensures TrimSuffix(p + m + q, suffix) == p + m + TrimSuffix(q, suffix)
  {
    var s := p + m + q;
    var n := |s| - |suffix|;
    if |suffix| <= |q| {
      assert s[n..] == q[|q| - |suffix|..];
      assert s[..n] == p + m + q[..|q| - |suffix|];
    } else if 0 <= n {
      assert s[n..][|p| + |m| - 1 - n] == m[|m| - 1];
    }
  }

  lemma SpaceAround(p: string, m: string, q: string)
    requires m != [] && m[0] == '{' && m[|m| - 1] == '}' && '{' !in p
    ensures TrimSpace(p + m + q) == TrimLeft(p) + m + TrimRight(q)
    ensures '{' !in TrimLeft(p)
  {
    TrimAround(p, m, q);
    TrimLeftIsSuffix(p);
  }

  // Fence trimming eats from the prose on either side and never reaches into
  // the text between an opening and a closing brace.
  lemma FenceAround(p: string, m: string, q: string) returns (p': string, q': string)
    requires m != [] && m[0] == '{' && m[|m| - 1] == '}'
    requires '{' !in p
    ensures TrimFence(p + m + q) == p' + m + q' && '{' !in p'
  {
    SpaceAround(p, m, q);
    p', q' := TrimLeft(p), TrimRight(q);
    PrefixBefore(p', m, q', "```json");
    p' := TrimPrefix(p', "```json");
    PrefixBefore(p', m, q', "```");
    p' := TrimPrefix(p', "```");
    SuffixAfter(p', m, q', "```");
    q' := TrimSuffix(q', "```");
    SpaceAround(p', m, q');
    p', q' := TrimLeft(p'), TrimRight(q');
  }

  lemma StripPrefix(prefix: string, s: string)
    ensures TrimPrefix(prefix + s, prefix) == s
  {
    assert (prefix + s)[..|prefix|] == prefix && (prefix + s)[|prefix|..] == s;
  }

  lemma StripSuffix(s: string, suffix: string)
    ensures TrimSuffix(s + suffix, suffix) == s
  {
    assert (s + suffix)[|s|..] == suffix && (s + suffix)[..|s|] == s;
  }

  // The opening fence goes whole, with its language or without.
  lemma StripFence(open: string, body: string)
    requires open in ["```json", "```"] && body != "" && body[0] != '`' && body[0] != 'j'
    ensures TrimPrefix(TrimPrefix(open + body, "```json"), "```") == body
  {
    if open == "```" {
      assert (open + body)[3] == body[0] && "```json"[3] == 'j';
      StripPrefix(open, body);
    } else {
      StripPrefix(open, body);
      assert "```"[0] == '`';
    }
  }

  // A fenced object, with any white space inside and outside the fence, is
  // unwrapped exactly.
  lemma FencedObjectUnwraps(before: string, open: string, inner: string, m: string, inner2: string, after: string)
    requires IsBlank(before) && IsBlank(inner) && IsBlank(inner2) && IsBlank(after) && open in ["```json", "```"]
    requires m != [] && m[0] == '{' && m[|m| - 1] == '}'
    ensures TrimFence(before + (open + (inner + m + inner2) + "```") + after) == m
  {
    var body := inner + m + inner2;
    var fenced := open + body + "```";
    assert fenced[0] == open[0] && fenced[|fenced| - 1] == "```"[2];
    TrimBlanksAround(before, fenced, after);
    assert fenced == open + (body + "```");
    assert (body + "```")[0] == if inner == "" then m[0] else inner[0];
    StripFence(open, body + "```");
    StripSuffix(body, "```");
    TrimBlanksAround(inner, m, inner2);
  }

  // ---- Scanning printed JSON ----------------------------------------------

  // Scanning s from st arrives at `end` and stays at depth one or more throughout.
  ghost predicate Runs(st: Scan, s: string, end: Scan) {
    && Run(st, s) == end
    && forall k :: 0 <= k <= |s| ==> Run(st, s[..k]).depth >= 1
  }

  function At(d: int): Scan {
    Scan(d, false, false)
  }

  function Inside(d: int): Scan {
    Scan(d, true, false)
  }

  lemma {:induction false} RunConcat(st: Scan, a: string, b: string)
    ensures Run(st, a + b) == Run(Run(st, a), b)
  {
    if b == [] {
      assert a + b == a;
    } else {
      assert (a + b)[..|a + b| - 1] == a + b[..|b| - 1];
      RunConcat(st, a, b[..|b| - 1]);
    }
  }

  lemma RunsConcat(st: Scan, a: string, mid: Scan, b: string, end: Scan)
    requires Runs(st, a, mid) && Runs(mid, b, end)
    ensures Runs(st, a + b, end)
  {
    RunConcat(st, a, b);
    forall k | 0 <= k <= |a + b|
      ensures Run(st, (a + b)[..k]).depth >= 1
    {
      if k <= |a| {
        assert (a + b)[..k] == a[..k];
      } else {
        assert (a + b)[..k] == a + b[..k - |a|];
        RunConcat(st, a, b[..k - |a|]);
      }
    }
  }

  lemma RunsOne(st: Scan, c: char)
    requires st.depth >= 1 && Step(st, c).depth >= 1
    ensures Runs(st, [c], Step(st, c))
  {
    assert [c][..1] == [c] && [c][..0] == [];
  }

  // A text the scanner does not react to in state st.
  lemma {:induction false} RunsInert(st: Scan, s: string)
    requires st.depth >= 1
    requires forall c :: c in s ==> Step(st, c) == st
    ensures Runs(st, s, st)
  {
    if s != [] {
      var init, c := s[..|s| - 1], s[|s| - 1];
      RunsInert(st, init);
      RunsOne(st, c);
      RunsConcat(st, init, st, [c], st);
      assert init + [c] == s;
    }
  }

  lemma RunsEscape(d: int, c: char)
    requires d >= 1
    ensures Runs(Inside(d), ['\\', c], Inside(d))
  {
    RunsOne(Inside(d), '\\');
    RunsOne(Scan(d, true, true), c);
    RunsConcat(Inside(d), ['\\'], Scan(d, true, true), [c], Inside(d));
    assert ['\\'] + [c] == ['\\', c];
  }

  lemma RunsHex(d: int, digits: string)
    requires d >= 1 && ValidUnit(Hex(digits))
    ensures Runs(Inside(d), PrintUnit(Hex(digits)), Inside(d))
  {
    RunsEscape(d, 'u');
    RunsDigits(d, digits);
    RunsConcat(Inside(d), "\\u", Inside(d), digits, Inside(d));
  }

  lemma RunsDigits(d: int, digits: string)
    requires d >= 1 && ValidUnit(Hex(digits))
    ensures Runs(Inside(d), digits, Inside(d))
  {
    forall c | c in digits
      ensures Step(Inside(d), c) == Inside(d)
    {
    }
    RunsInert(Inside(d), digits);
  }

  lemma RunsUnit(d: int, u: Unit)
    requires d >= 1 && ValidUnit(u)
    ensures Runs(Inside(d), PrintUnit(u), Inside(d))
  {
    match u
    case Plain(c) =>
      RunsOne(Inside(d), c);
    case Escape(c) =>
      RunsEscape(d, c);
    case Hex(digits) =>
      RunsHex(d, digits);
  }

  lemma {:induction false} RunsUnits(d: int, us: seq<Unit>)
    requires d >= 1 && ValidUnits(us)
    ensures Runs(Inside(d), PrintUnits(us), Inside(d))
  {
    if us == [] {
      RunsInert(Inside(d), "");
    } else {
      RunsUnit(d, us[0]);
      RunsUnits(d, us[1..]);
      RunsConcat(Inside(d), PrintUnit(us[0]), Inside(d), PrintUnits(us[1..]), Inside(d));
    }
  }

  lemma RunsQuote(d: int, us: seq<Unit>)
    requires d >= 1 && ValidUnits(us)
    ensures Runs(At(d), Quote(us), At(d))
  {
    RunsOne(At(d), '\"');
    RunsUnits(d, us);
    RunsOne(Inside(d), '\"');
    RunsConcat(At(d), "\"", Inside(d), PrintUnits(us), Inside(d));
    RunsConcat(At(d), "\"" + PrintUnits(us), Inside(d), "\"", At(d));
  }

  lemma RunsBracketed(d: int, body: string)
    requires d >= 1 && Runs(At(d), body, At(d))
    ensures Runs(At(d), "[" + body + "]", At(d))
  {
    RunsOne(At(d), '[');
    RunsOne(At(d), ']');
    RunsConcat(At(d), "[", At(d), body, At(d));
    RunsConcat(At(d), "[" + body, At(d), "]", At(d));
  }

  lemma RunsBraced(d: int, body: string)
    requires d >= 1 && Runs(At(d + 1), body, At(d + 1))
    ensures Runs(At(d), "{" + body + "}", At(d))
  {
    RunsOne(At(d), '{');
    RunsOne(At(d + 1), '}');
    RunsConcat(At(d), "{", At(d + 1), body, At(d + 1));
    RunsConcat(At(d), "{" + body, At(d + 1), "}", At(d));
  }

  // Any JSON value inside an open object leaves the scanner where it was.
  lemma {:induction false} RunsValue(d: int, v: Json)
    requires d >= 1 && Valid(v)
    ensures Runs(At(d), Print(v), At(d))
    decreases v
  {
    match v
    case Literal(text) =>
      RunsInert(At(d), text);
    case Number(text) =>
      RunsInert(At(d), text);
    case Str(units) =>
      RunsQuote(d, units);
    case Arr(items) =>
      RunsItems(d, items, "");
      RunsBracketed(d, PrintItems(items, ""));
    case Obj(members) =>
      RunsMembers(d + 1, members, "");
      RunsBraced(d, PrintMembers(members, ""));
  }

  lemma {:induction false} RunsItems(d: int, items: Items, comma: string)
    requires d >= 1 && ValidItems(items) && comma in ["", ","]
    ensures Runs(At(d), PrintItems(items, comma), At(d))
    decreases items
  {
    match items
    case NoItems(ws) =>
      RunsInert(At(d), ws);
    case Item(before, value, after, rest) =>
      RunsInert(At(d), comma + before);
      RunsValue(d, value);
      RunsInert(At(d), after);
      RunsItems(d, rest, ",");
      RunsConcat(At(d), comma + before, At(d), Print(value), At(d));
      RunsConcat(At(d), comma + before + Print(value), At(d), after, At(d));
      RunsConcat(At(d), comma + before + Print(value) + after, At(d), PrintItems(rest, ","), At(d));
  }

  lemma {:induction false} RunsMembers(d: int, members: Members, comma: string)
    requires d >= 1 && ValidMembers(members) && comma in ["", ","]
    ensures Runs(At(d), PrintMembers(members, comma), At(d))
    decreases members
  {
    match members
    case NoMembers(ws) =>
      RunsInert(At(d), ws);
    case Member(before, name, gap, gap2, value, after, rest) =>
      RunsInert(At(d), comma + before);
      RunsQuote(d, name);
      RunsInert(At(d), gap);
      RunsInert(At(d), ":");
      RunsInert(At(d), gap2);
      RunsValue(d, value);
      RunsInert(At(d), after);
      RunsMembers(d, rest, ",");
      var s := comma + before;
      RunsConcat(At(d), s, At(d), Quote(name), At(d));
      s := s + Quote(name);
      RunsConcat(At(d), s, At(d), gap, At(d));
      s := s + gap;
      RunsConcat(At(d), s, At(d), ":", At(d));
      s := s + ":";
      RunsConcat(At(d), s, At(d), gap2, At(d));
      s := s + gap2;
      RunsConcat(At(d), s, At(d), Print(value), At(d));
      s := s + Print(value);
      RunsConcat(At(d), s, At(d), after, At(d));
      s := s + after;
      RunsConcat(At(d), s, At(d), PrintMembers(rest, ","), At(d));
  }

  // The scan of a printed object closes on its last brace and not before.
  lemma ObjectCloses(members: Members)
    requires ValidMembers(members)
    ensures var t := Print(Obj(members)); Closed(t) && forall k :: 0 < k < |t| ==> !Closed(t[..k])
  {
    var body := PrintMembers(members, "");
    var t := Print(Obj(members));
    forall k | 0 < k < |t|
      ensures !Closed(t[..k])
    {
      assert t[..k] == "{" + body[..k - 1];
      PrefixIsOpen(members, k - 1);
    }
    LastBraceCloses(members);
  }

  lemma LastBraceCloses(members: Members)
    requires ValidMembers(members)
    ensures Closed(Print(Obj(members)))
  {
    var body, t := PrintMembers(members, ""), Print(Obj(members));
    RunsMembers(1, members, "");
    assert Run(START, "{") == At(1) by {
      assert "{"[..0] == "";
    }
    assert t[..|t| - 1] == "{" + body;
    RunConcat(START, "{", body);
  }

  lemma PrefixIsOpen(members: Members, k: nat)
    requires ValidMembers(members) && k <= |PrintMembers(members, "")|
    ensures !Closed("{" + PrintMembers(members, "")[..k])
  {
    RunsMembers(1, members, "");
    assert Run(START, "{") == At(1) by {
      assert "{"[..0] == "";
    }
    RunConcat(START, "{", PrintMembers(members, "")[..k]);
  }

  lemma PrintedIsFirst(p: string, members: Members, q: string)
    requires ValidMembers(members) && '{' !in p
    ensures IsFirstObject(p + Print(Obj(members)) + q, p, Print(Obj(members)), q)
  {
    ObjectCloses(members);
  }

  lemma FencedIsFirst(p: string, members: Members, q: string) returns (p': string, q': string)
    requires ValidMembers(members) && '{' !in p
    ensures IsFirstObject(TrimFence(p + Print(Obj(members)) + q), p', Print(Obj(members)), q')
  {
    var t := Print(Obj(members));
    p', q' := FenceAround(p, t, q);
    PrintedIsFirst(p', members, q');
  }

  // Whatever prose and fences surround a printed JSON object, as long as no
  // opening brace comes before it, the scanner recovers exactly that object.
  lemma RecoversPrinted(p: string, members: Members, q: string, r: string)
    requires ValidMembers(members) && '{' !in p
    requires IsExtract(TrimFence(p + Print(Obj(members)) + q), r)
    ensures r == Print(Obj(members))
  {
    var s, t := TrimFence(p + Print(Obj(members)) + q), Print(Obj(members));
    var p', q' := FencedIsFirst(p, members, q);
    if r != "" {
      var p2, q2 :| IsFirstObject(s, p2, r, q2);
      FirstObjectIsUnique(s, p', t, q', p2, r, q2);
    }
  }

  // ---- Decoding a reply ---------------------------------------------------

  // The text as it stands if it decodes, else the first object in it.
  ghost predicate IsLooseDecoding<T>(s: string, decode: string -> Option<T>, v: Option<T>) {
    if decode(s).Some? then v == decode(s)
    else exists r :: IsExtract(s, r) && v == if r == "" then None else decode(r)
  }

  method UnmarshalLoose<T>(content: string, decode: string -> Option<T>) returns (v: Option<T>)
    ensures IsLooseDecoding(TrimFence(content), decode, v)
  {
    var trimmed := TrimFence(content);
    v := decode(trimmed);
    if v.Some? {
      return v;
    }
    var obj := ExtractJSON(trimmed);
    if obj != "" {
      v := decode(obj);
    }
  }

  // A decoder into a struct: of the texts that hold a brace it accepts only a
  // single object with white space around it, and reads what is in the object.
  ghost predicate ReadsOneObject<T(!new)>(decode: string -> Option<T>) {
    forall s {:trigger IsReadAsObject(decode, s)} :: IsReadAsObject(decode, s)
  }

  ghost predicate IsReadAsObject<T(!new)>(decode: string -> Option<T>, s: string) {
    '{' in s && decode(s).Some? ==>
      exists ws, ms, ws2 :: WrapsObject(s, ws, ms, ws2) && decode(s) == decode(Print(Obj(ms)))
  }

  ghost predicate WrapsObject(s: string, ws: string, members: Members, ws2: string) {
    IsWs(ws) && ValidMembers(members) && s == ws + Print(Obj(members)) + ws2
  }

  lemma DirectDecodingAgrees<T(!new)>(s: string, p: string, members: Members, q: string, decode: string -> Option<T>)
    requires IsFirstObject(s, p, Print(Obj(members)), q)
    requires ReadsOneObject(decode) && decode(s).Some?
    ensures decode(s) == decode(Print(Obj(members)))
  {
    assert s[|p|] == '{';
    assert IsReadAsObject(decode, s);
    var ws, ms, ws2 :| WrapsObject(s, ws, ms, ws2) && decode(s) == decode(Print(Obj(ms)));
    PrintedIsFirst(ws, ms, ws2);
    FirstObjectIsUnique(s, p, Print(Obj(members)), q, ws, Print(Obj(ms)), ws2);
  }

  // A reply holding a printed object decodes to that object, by whichever of
  // the two attempts succeeds first.
  lemma LooseDecodingIsExact<T(!new)>(p: string, members: Members, q: string, s: string, decode: string -> Option<T>,
                                      v: Option<T>)
    requires ValidMembers(members) && '{' !in p
    requires s == TrimFence(p + Print(Obj(members)) + q)
    requires ReadsOneObject(decode)
    requires IsLooseDecoding(s, decode, v)
    ensures v == decode(Print(Obj(members)))
  {
    var p', q' := FencedIsFirst(p, members, q);
    if decode(s).Some? {
      DirectDecodingAgrees(s, p', members, q', decode);
    } else {
      var r :| IsExtract(s, r) && v == if r == "" then None else decode(r);
      RecoversPrinted(p, members, q, r);
    }
  }
}
