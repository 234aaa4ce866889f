// JSON texts as syntax trees (sections 2 to 7 of RFC 8259), with the white
// space of every layout kept in the tree.
module JsonText {

  // One character of a string: unescaped, a two-character escape, or \uXXXX.
  datatype Unit = Plain(c: char) | Escape(c: char) | Hex(digits: string)

  datatype Json =
    | Literal(text: string)
    | Number(text: string)
    | Str(units: seq<Unit>)
    | Arr(items: Items)
    | Obj(members: Members)

  datatype Items =
    | NoItems(ws: string)
    | Item(before: string, value: Json, after: string, rest: Items)

  datatype Members =
    | NoMembers(ws: string)
    | Member(before: string, name: seq<Unit>, gap: string, gap2: string, value: Json, after: string, rest: Members)

  predicate IsWs(s: string) {
    forall c :: c in s ==> c in " \t\n\r"
  }

  predicate ValidUnit(u: Unit) {
    match u
    case Plain(c) => c != '\"' && c != '\\' && c as int >= 0x20
    case Escape(c) => c in "\"\\/bfnrt"
    case Hex(digits) => |digits| == 4 && forall c :: c in digits ==> c in "0123456789abcdefABCDEF"
  }

  predicate ValidUnits(us: seq<Unit>) {
    forall u :: u in us ==> ValidUnit(u)
  }

  // Numbers are any text over the characters a number can hold.
  predicate Valid(v: Json) {
    match v
    case Literal(text) => text in ["true", "false", "null"]
    case Number(text) => text != "" && forall c :: c in text ==> c in "+-.0123456789eE"
    case Str(units) => ValidUnits(units)
    case Arr(items) => ValidItems(items)
    case Obj(members) => ValidMembers(members)
  }

  predicate ValidItems(items: Items) {
    match items
    case NoItems(ws) => IsWs(ws)
    case Item(before, value, after, rest) => IsWs(before) && Valid(value) && IsWs(after) && ValidItems(rest)
  }

  predicate ValidMembers(members: Members) {
    match members
    case NoMembers(ws) => IsWs(ws)
    case Member(before, name, gap, gap2, value, after, rest) =>
      && IsWs(before) && ValidUnits(name) && IsWs(gap) && IsWs(gap2)
      && Valid(value) && IsWs(after) && ValidMembers(rest)
  }

  function PrintUnit(u: Unit): string {
    match u
    case Plain(c) => [c]
    case Escape(c) => ['\\', c]
    case Hex(digits) => "\\u" + digits
  }

  function PrintUnits(us: seq<Unit>): string {
    if us == [] then "" else PrintUnit(us[0]) + PrintUnits(us[1..])
  }

  function Quote(us: seq<Unit>): string {
    "\"" + PrintUnits(us) + "\""
  }

  function Print(v: Json): string {
    match v
    case Literal(text) => text
    case Number(text) => text
    case Str(units) => Quote(units)
    case Arr(items) => "[" + PrintItems(items, "") + "]"
    case Obj(members) => "{" + PrintMembers(members, "") + "}"
  }

  function PrintItems(items: Items, comma: string): string {
    match items
    case NoItems(ws) => ws
    case Item(before, value, after, rest) =>
      comma + before + Print(value) + after + PrintItems(rest, ",")
  }

  function PrintMembers(members: Members, comma: string): string {
    match members
    case NoMembers(ws) => ws
    case Member(before, name, gap, gap2, value, after, rest) =>
      comma + before + Quote(name) + gap + ":" + gap2 + Print(value) + after + PrintMembers(rest, ",")
  }
}
