// The string operations the system takes from its standard library: trimming
// white space, prefixes and suffixes, and substring containment. Strings are
// sequences of code points.
module Text {
  import opened Common

  // The code points Go's unicode.IsSpace accepts.
  predicate IsSpace(c: char) {
    var n := c as int;
    || 0x09 <= n <= 0x0D
    || n == 0x20 || n == 0x85 || n == 0xA0 || n == 0x1680
    || 0x2000 <= n <= 0x200A
    || n == 0x2028 || n == 0x2029 || n == 0x202F || n == 0x205F || n == 0x3000
  }

  // The code points of the Unicode property White_Space.
  const WHITE_SPACE: set<int> := {
    9, 10, 11, 12, 13, 32, 133, 160, 5760, 8192, 8193, 8194, 8195, 8196, 8197, 8198, 8199, 8200, 8201, 8202, 8232,
    8233, 8239, 8287, 12288}

  lemma SpacesAre(c: char)
    ensures IsSpace(c) <==> c as int in WHITE_SPACE
  {
  }

  predicate IsBlank(s: string) {
    forall i | 0 <= i < |s| :: IsSpace(s[i])
  }

  // The length of s in UTF-8.
  function ByteLength(s: string): nat {
    if s == "" then 0
    else
      var n := s[0] as int;
      (if n < 0x80 then 1 else if n < 0x800 then 2 else if n < 0x10000 then 3 else 4) + ByteLength(s[1..])
  }

  // ---- UTF-8 (RFC 3629, section 3) ----------------------------------------

  type Byte = x: int | 0 <= x < 0x100

  function Points(s: string): seq<int> {
    seq(|s|, i requires 0 <= i < |s| => s[i] as int)
  }

  // A trailing byte holds six bits, the low ones of n.
  function Trailing(n: nat): Byte {
    0x80 + n % 0x40
  }

  function EncodeOne(c: char): seq<Byte> {
    var n := c as nat;
    if n < 0x80 then [n]
    else if n < 0x800 then [0xC0 + n / 0x40, Trailing(n)]
    else if n < 0x10000 then [0xE0 + n / 0x1000, Trailing(n / 0x40), Trailing(n)]
    else [0xF0 + n / 0x40000, Trailing(n / 0x1000), Trailing(n / 0x40), Trailing(n)]
  }

  function Encode(s: string): seq<Byte> {
    if s == "" then [] else EncodeOne(s[0]) + Encode(s[1..])
  }

  // How many bytes the first one announces; none if it cannot come first.
  function Width(lead: Byte): nat {
    if lead < 0x80 then 1
    else if lead < 0xC0 then 0
    else if lead < 0xE0 then 2
    else if lead < 0xF0 then 3
    else if lead < 0xF8 then 4
    else 0
  }

  predicate AreTrailing(bytes: seq<Byte>) {
    forall i | 0 <= i < |bytes| :: 0x80 <= bytes[i] < 0xC0
  }

  function Low(b: Byte): int {
    b as int - 0x80
  }

  function AtLeast(least: int, n: int): Option<int> {
    if n < least then None else Some(n)
  }

  // The code point of one encoded character; bytes that do not encode one in
  // the shortest way have none.
  function DecodeOne(b: seq<Byte>): Option<int>
    requires b != [] && |b| == Width(b[0])
  {
    var lead := b[0] as int;
    if !AreTrailing(b[1..]) then None
    else if |b| == 1 then Some(lead)
    else if |b| == 2 then AtLeast(0x80, (lead - 0xC0) * 0x40 + Low(b[1]))
    else if |b| == 3 then AtLeast(0x800, ((lead - 0xE0) * 0x40 + Low(b[1])) * 0x40 + Low(b[2]))
    else AtLeast(0x10000, (((lead - 0xF0) * 0x40 + Low(b[1])) * 0x40 + Low(b[2])) * 0x40 + Low(b[3]))
  }

  function Decode(b: seq<Byte>): Option<seq<int>> {
    if b == [] then Some([])
    else
      var w := Width(b[0]);
      if w == 0 || |b| < w then None
      else
        var first, rest := DecodeOne(b[..w]), Decode(b[w..]);
        if first.None? || rest.None? then None else Some([first.value] + rest.value)
  }

  lemma Sixes(n: nat)
    ensures n == n / 0x40 * 0x40 + n % 0x40
    ensures n / 0x40 == n / 0x1000 * 0x40 + n / 0x40 % 0x40
    ensures n / 0x1000 == n / 0x40000 * 0x40 + n / 0x1000 % 0x40
  {
    assert n / 0x40 / 0x40 == n / 0x1000;
    assert n / 0x1000 / 0x40 == n / 0x40000;
  }

  lemma DecodesOne(c: char)
    ensures var b := EncodeOne(c); b != [] && |b| == Width(b[0]) && DecodeOne(b) == Some(c as int)
    ensures |EncodeOne(c)| == ByteLength([c])
  {
    Sixes(c as nat);
    assert [c][1..] == "";
  }

  lemma DecodesFirst(first: seq<Byte>, rest: seq<Byte>, n: int)
    requires first != [] && |first| == Width(first[0]) && DecodeOne(first) == Some(n) && Decode(rest).Some?
    ensures Decode(first + rest) == Some([n] + Decode(rest).value)
  {
    assert (first + rest)[..|first|] == first && (first + rest)[|first|..] == rest;
  }

  // The length of a text is that of its encoding, which decodes back.
  lemma {:induction false} EncodingDecodes(s: string)
    ensures |Encode(s)| == ByteLength(s) && Decode(Encode(s)) == Some(Points(s))
  {
    if s == "" {
      assert Points(s) == [];
    } else {
      DecodesOne(s[0]);
      EncodingDecodes(s[1..]);
      DecodesFirst(EncodeOne(s[0]), Encode(s[1..]), s[0] as int);
      assert [s[0]][1..] == "";
      assert Points(s) == [s[0] as int] + Points(s[1..]);
    }
  }

  // ---- Trimming -----------------------------------------------------------

  function TrimLeft(s: string): string {
    if s != [] && IsSpace(s[0]) then TrimLeft(s[1..]) else s
  }

  function TrimRight(s: string): string {
    if s != [] && IsSpace(s[|s| - 1]) then TrimRight(s[..|s| - 1]) else s
  }

  function TrimSpace(s: string): string {
    TrimRight(TrimLeft(s))
  }

  function TrimPrefix(s: string, prefix: string): string {
    if prefix <= s then s[|prefix|..] else s
  }

  predicate HasSuffix(s: string, suffix: string) {
    |suffix| <= |s| && s[|s| - |suffix|..] == suffix
  }

  function TrimSuffix(s: string, suffix: string): string {
    if HasSuffix(s, suffix) then s[..|s| - |suffix|] else s
  }

  ghost predicate Splits(s: string, p: string, t: string, q: string) {
    s == p + t + q
  }

  ghost predicate Contains(s: string, t: string) {
    exists p, q :: Splits(s, p, t, q)
  }

  lemma SplitsAt(s: string, p: string, t: string, q: string, k: nat)
    ensures Splits(s, p, t, q) && k < |t| ==> |p| + k < |s| && s[|p| + k] == t[k]
  {
  }

  lemma {:induction false} TrimLeftBefore(p: string, m: string)
    requires m != [] && !IsSpace(m[0])
    ensures TrimLeft(p + m) == TrimLeft(p) + m
  {
    if p == [] {
      assert p + m == m;
    } else {
      assert (p + m)[1..] == p[1..] + m;
      if IsSpace(p[0]) {
        TrimLeftBefore(p[1..], m);
      }
    }
  }

  lemma {:induction false} TrimRightAfter(m: string, q: string)
    requires m != [] && !IsSpace(m[|m| - 1])
    ensures TrimRight(m + q) == m + TrimRight(q)
  {
    if q == [] {
      assert m + q == m;
    } else {
      assert (m + q)[..|m + q| - 1] == m + q[..|q| - 1];
      if IsSpace(q[|q| - 1]) {
        TrimRightAfter(m, q[..|q| - 1]);
      }
    }
  }

  // Trimming works on the two ends of a text independently: whatever lies
  // between two non-space characters comes through unchanged.
  lemma TrimAround(p: string, m: string, q: string)
    requires m != [] && !IsSpace(m[0]) && !IsSpace(m[|m| - 1])
    ensures TrimSpace(p + m + q) == TrimLeft(p) + m + TrimRight(q)
  {
    var left, pm := TrimLeft(p), TrimLeft(p) + m;
    calc {
      TrimSpace(p + m + q);
      { assert p + m + q == p + (m + q); TrimLeftBefore(p, m + q); }
      TrimRight(left + (m + q));
      { assert left + (m + q) == pm + q; assert pm[|pm| - 1] == m[|m| - 1]; }
      TrimRight(pm + q);
      { TrimRightAfter(pm, q); }
      pm + TrimRight(q);
    }
  }

  lemma {:induction false} TrimLeftIsSuffix(s: string)
    ensures |TrimLeft(s)| <= |s| && TrimLeft(s) == s[|s| - |TrimLeft(s)|..]
  {
    if s != [] && IsSpace(s[0]) {
      TrimLeftIsSuffix(s[1..]);
    }
  }

  lemma {:induction false} TrimRightIsPrefix(s: string)
    ensures |TrimRight(s)| <= |s| && TrimRight(s) == s[..|TrimRight(s)|]
  {
    if s != [] && IsSpace(s[|s| - 1]) {
      TrimRightIsPrefix(s[..|s| - 1]);
    }
  }

  lemma TrimIsSlice(s: string)
    ensures |TrimSpace(s)| <= |s| && Contains(s, TrimSpace(s))
  {
    TrimLeftIsSuffix(s);
    TrimRightIsPrefix(TrimLeft(s));
    var left, c := TrimLeft(s), TrimSpace(s);
    var p, q := s[..|s| - |left|], left[|c|..];
    assert s == p + left == p + (c + q);
    assert Splits(s, p, c, q);
  }

  lemma {:induction false} TrimLeftHead(s: string)
    ensures TrimLeft(s) != "" ==> !IsSpace(TrimLeft(s)[0])
  {
    if s != [] && IsSpace(s[0]) {
      TrimLeftHead(s[1..]);
    }
  }

  lemma {:induction false} TrimRightEnds(s: string)
    ensures TrimRight(s) != "" ==> !IsSpace(TrimRight(s)[|TrimRight(s)| - 1]) && TrimRight(s)[0] == s[0]
  {
    if s != [] && IsSpace(s[|s| - 1]) {
      TrimRightEnds(s[..|s| - 1]);
    }
  }

  lemma TrimBaresEnds(s: string)
    ensures TrimSpace(s) != "" ==> !IsSpace(TrimSpace(s)[0]) && !IsSpace(TrimSpace(s)[|TrimSpace(s)| - 1])
  {
    TrimLeftHead(s);
    TrimRightIsPrefix(TrimLeft(s));
    TrimRightEnds(TrimLeft(s));
  }

  lemma TrimIsIdempotent(s: string)
    ensures TrimSpace(TrimSpace(s)) == TrimSpace(s)
  {
    TrimBaresEnds(s);
  }

  lemma {:induction false} TrimBlank(s: string)
    requires IsBlank(s)
    ensures TrimLeft(s) == "" && TrimRight(s) == ""
    decreases |s|
  {
    if s != "" {
      TrimBlank(s[1..]);
      TrimBlank(s[..|s| - 1]);
    }
  }

  // White space around a text that has none at its ends is trimmed off whole.
  lemma TrimBlanksAround(p: string, m: string, q: string)
    requires IsBlank(p) && IsBlank(q) && m != [] && !IsSpace(m[0]) && !IsSpace(m[|m| - 1])
    ensures TrimSpace(p + m + q) == m
  {
    TrimAround(p, m, q);
    TrimBlank(p);
    TrimBlank(q);
    assert "" + m + "" == m;
  }
}
