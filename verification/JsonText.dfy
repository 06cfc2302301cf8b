/** JSON trees, the escape table shared by the printer and the parser, and the compact text of a tree.
    Numbers, booleans and null are raw tokens, as the parser itself leaves them (`Unparsed`). */
module JsonText {

  datatype Json =
    | Str(text: string)
    | Raw(token: string)
    | Arr(items: seq<Json>)
    | Obj(members: seq<Member>)

  datatype Member = Member(key: string, value: Json)

  /** Pairs of (replacement, special character), read two at a time. */
  const ESCAPE_TABLE: string := "\"\"\\\\b\U{0008}f\U{000C}n\nr\rt\t"

  /** The letter printed after the backslash, or NUL when `c` is printed as it is. */
  function Escape(c: char): char {
    match c
    case '\"' => '\"'
    case '\\' => '\\'
    case '\U{0008}' => 'b'
    case '\U{000C}' => 'f'
    case '\n' => 'n'
    case '\r' => 'r'
    case '\t' => 't'
    case _ => '\0'
  }

  /** The character meant by `c` after a backslash. */
  function Unescape(c: char): char {
    match c
    case 'b' => '\U{0008}'
    case 'f' => '\U{000C}'
    case 'n' => '\n'
    case 'r' => '\r'
    case 't' => '\t'
    case _ => c
  }

  predicate IsEscaped(c: char) { Escape(c) != '\0' }

  predicate IsSpace(c: char) { c == ' ' || c == '\t' || c == '\r' || c == '\n' }

  predicate IsQuote(c: char) { c == '\'' || c == '\"' }

  predicate IsLetterOrNumber(c: char) {
    '0' <= c <= '9' || 'a' <= c <= 'z' || 'A' <= c <= 'Z' || c == '-' || c == '.'
  }

  // ---- compact text ----

  function PrintChar(c: char): (r: string)
    ensures 1 <= |r| <= 2
  {
    if IsEscaped(c) then ['\\', Escape(c)] else [c]
  }

  function PrintBody(x: string): string {
    if x == "" then "" else PrintChar(x[0]) + PrintBody(x[1..])
  }

  function Quoted(x: string): string { "\"" + PrintBody(x) + "\"" }

  function Print(t: Json): string
    decreases t, 1
  {
    match t
    case Str(x) => Quoted(x)
    case Raw(x) => x
    case Arr(items) => "[" + PrintItems(items) + "]"
    case Obj(members) => "{" + PrintMembers(members) + "}"
  }

  function PrintItems(items: seq<Json>): string
    decreases items, 0
  {
    if items == [] then ""
    else if |items| == 1 then Print(items[0])
    else Print(items[0]) + "," + PrintItems(items[1..])
  }

  function PrintMembers(members: seq<Member>): string
    decreases members, 0
  {
    if members == [] then ""
    else if |members| == 1 then PrintMember(members[0])
    else PrintMember(members[0]) + "," + PrintMembers(members[1..])
  }

  function PrintMember(m: Member): string
    decreases m, 2
  {
    Quoted(m.key) + ":" + Print(m.value)
  }

  // ---- which trees can be printed and read back ----

  predicate IsToken(x: string) { forall i | 0 <= i < |x| :: IsLetterOrNumber(x[i]) }

  /** Raw tokens use only the characters of an unquoted token, and no array consists of one empty
      token (which would print as an empty array). */
  predicate Printable(t: Json)
    decreases t, 1
  {
    match t
    case Str(_) => true
    case Raw(x) => IsToken(x)
    case Arr(items) => items != [Raw("")] && AllPrintable(items)
    case Obj(members) => AllPrintableMembers(members)
  }

  predicate AllPrintable(items: seq<Json>)
    decreases items, 0
  {
    items == [] || (Printable(items[0]) && AllPrintable(items[1..]))
  }

  predicate AllPrintableMembers(members: seq<Member>)
    decreases members, 0
  {
    members == [] || (Printable(members[0].value) && AllPrintableMembers(members[1..]))
  }

  // ---- objects as the parser builds them ----

  /** Position of the first member with this key, or the number of members. */
  function Find(members: seq<Member>, key: string): (i: nat)
    ensures i <= |members|
    ensures i < |members| ==> members[i].key == key
    ensures forall j | 0 <= j < i :: members[j].key != key
  {
    if members == [] || members[0].key == key then 0 else 1 + Find(members[1..], key)
  }

  /** `JsonObject::set`: replaces the value under an existing key, appends otherwise. */
  function Put(members: seq<Member>, key: string, value: Json): seq<Member> {
    var i := Find(members, key);
    if i < |members| then members[i := Member(members[i].key, value)] else members + [Member(key, value)]
  }

  function NewCells(members: seq<Member>, key: string): nat {
    if Find(members, key) < |members| then 0 else 1
  }

  /** The tree with repeated keys merged the way `Put` merges them. */
  function Normal(t: Json): Json
    decreases t, 1
  {
    match t
    case Arr(items) => Arr(NormalItems(items, []))
    case Obj(members) => Obj(NormalMembers(members, []))
    case _ => t
  }

  function NormalItems(items: seq<Json>, acc: seq<Json>): seq<Json>
    decreases items, 0
  {
    if items == [] then acc else NormalItems(items[1..], acc + [Normal(items[0])])
  }

  function NormalMembers(members: seq<Member>, acc: seq<Member>): seq<Member>
    decreases members, 0
  {
    if members == [] then acc
    else NormalMembers(members[1..], Put(acc, members[0].key, Normal(members[0].value)))
  }

  predicate UniqueKeys(members: seq<Member>) {
    forall i, j | 0 <= i < j < |members| :: members[i].key != members[j].key
  }

  /** No object in the tree repeats a key. */
  predicate DistinctKeys(t: Json) {
    match t
    case Arr(items) => forall i | 0 <= i < |items| :: DistinctKeys(items[i])
    case Obj(members) => UniqueKeys(members) && forall i | 0 <= i < |members| :: DistinctKeys(members[i].value)
    case _ => true
  }

  // ---- what the parser needs ----

  function Max(a: nat, b: nat): nat { if a < b then b else a }

  /** Nesting limit `parseAnythingTo` needs; a scalar already needs one. */
  function Depth(t: Json): (d: nat)
    ensures d >= 1
    decreases t, 1
  {
    match t
    case Arr(items) => 1 + DepthItems(items)
    case Obj(members) => 1 + DepthMembers(members)
    case _ => 1
  }

  function DepthItems(items: seq<Json>): nat
    decreases items, 0
  {
    if items == [] then 0 else Max(Depth(items[0]), DepthItems(items[1..]))
  }

  function DepthMembers(members: seq<Member>): nat
    decreases members, 0
  {
    if members == [] then 0 else Max(Depth(members[0].value), DepthMembers(members[1..]))
  }

  /** Allocations made in the `JsonBuffer`: one per array or object, one per list node. */
  function Cells(t: Json): nat
    decreases t, 1
  {
    match t
    case Arr(items) => 1 + CellsItems(items)
    case Obj(members) => 1 + CellsMembers(members, [])
    case _ => 0
  }

  function CellsItems(items: seq<Json>): nat
    decreases items, 0
  {
    if items == [] then 0 else Cells(items[0]) + 1 + CellsItems(items[1..])
  }

  function CellsMembers(members: seq<Member>, acc: seq<Member>): nat
    decreases members, 0
  {
    if members == [] then 0
    else Cells(members[0].value) + NewCells(acc, members[0].key) +
         CellsMembers(members[1..], Put(acc, members[0].key, Normal(members[0].value)))
  }
}
