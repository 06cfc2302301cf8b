/** `printTo` followed by `parseArray`/`parseObject`, and the other way round. */
module JsonCompact {
  import opened JsonText
  import opened JsonReader
  import opened JsonSpread
  import opened JsonDocument

  /** The writer behind `printTo`: every character as it is. */
  const PLAIN: Step<()> := (s: (), c: char) => (s, Chunk("", c, ""))

  lemma {:induction false} PlainRun(text: string, rest: string)
    ensures Run(PLAIN, (), text, rest) == text + rest
  {
    if text == "" {
      assert text + rest == rest;
    } else {
      PlainRun(text[1..], rest);
      assert Run(PLAIN, (), text, rest) == "" + ([text[0]] + ("" + (text[1..] + rest)));
    }
  }

  lemma {:induction false} PlainInject(x: string, rest: string)
    ensures var ch := Chunks(PLAIN, (), PrintBody(x));
      SpreadBody(x, ch) && Inject(x, ch, rest) == x + rest
  {
    if x == "" {
      assert x + rest == rest;
    } else {
      PlainInject(x[1..], rest);
      assert x + rest == "" + ([x[0]] + ("" + (x[1..] + rest)));
      if IsEscaped(x[0]) { PlainEscape(x); } else { PlainChar(x); }
    }
  }

  lemma PlainEscape(x: string)
    requires x != "" && IsEscaped(x[0])
    ensures Chunks(PLAIN, (), PrintBody(x)) ==
      [Chunk("", '\\', ""), Chunk("", Escape(x[0]), "")] + Chunks(PLAIN, (), PrintBody(x[1..]))
  {
    hide PrintBody, Chunks;
    var more := PrintBody(x[1..]);
    PrintBodyEscape(x);
    ChunksOne(PLAIN, (), '\\', [Escape(x[0])] + more);
    ChunksOne(PLAIN, (), Escape(x[0]), more);
  }

  lemma PlainChar(x: string)
    requires x != "" && !IsEscaped(x[0])
    ensures Chunks(PLAIN, (), PrintBody(x)) == [Chunk("", x[0], "")] + Chunks(PLAIN, (), PrintBody(x[1..]))
  {
    hide PrintBody, Chunks;
    PrintBodyPlain(x);
    ChunksOne(PLAIN, (), x[0], PrintBody(x[1..]));
  }

  lemma PlainIsGentle()
    ensures Gentle(PLAIN)
  {
  }

  lemma PlainLiteral(x: string)
    ensures LiteralOf(PLAIN, (), x).Valid() && LiteralOf(PLAIN, (), x).Content() == x
  {
    PlainIsGentle();
    LiteralValid(PLAIN, (), x);
    PlainInject(x, "");
    assert "" + (x + "") == x;
  }

  lemma {:induction false} PlainMeaning(t: Json)
    requires Printable(t)
    ensures Valid(LayoutOf(PLAIN, (), t)) && Meaning(LayoutOf(PLAIN, (), t)) == t
    decreases t, 1
  {
    PlainIsGentle();
    LayoutValid(PLAIN, (), t);
    match t
    case Str(x) => PlainLiteral(x);
    case Raw(x) => TokenValid(PLAIN, (), x);
    case Arr(items) => if items != [] { PlainItems(items); }
    case Obj(members) => if members != [] { PlainMembers(members); }
  }

  lemma {:induction false} PlainItems(items: seq<Json>)
    requires AllPrintable(items) && items != []
    ensures ValidItems(ItemsOf(PLAIN, (), items)) && MeaningItems(ItemsOf(PLAIN, (), items)) == items
    decreases items, 0
  {
    PlainIsGentle();
    ItemsValid(PLAIN, (), items);
    PlainMeaning(items[0]);
    if |items| > 1 {
      PlainItems(items[1..]);
      assert PLAIN(After(PLAIN, (), Print(items[0])), ',').0 == ();
      assert items == [items[0]] + items[1..];
    } else {
      assert items == [items[0]];
    }
  }

  lemma {:induction false} PlainMember(m: Member)
    requires Printable(m.value)
    ensures ValidMember(MemberOf(PLAIN, (), m)) && MeaningMember(MemberOf(PLAIN, (), m)) == m
    decreases m, 2
  {
    PlainIsGentle();
    MemberValid(PLAIN, (), m);
    PlainLiteral(m.key);
    PlainMeaning(m.value);
    assert PLAIN(After(PLAIN, (), Quoted(m.key)), ':').0 == ();
  }

  lemma {:induction false} PlainMembers(members: seq<Member>)
    requires AllPrintableMembers(members) && members != []
    ensures ValidMembers(MembersOf(PLAIN, (), members)) && MeaningMembers(MembersOf(PLAIN, (), members)) == members
    decreases members, 0
  {
    PlainIsGentle();
    MembersValid(PLAIN, (), members);
    PlainMember(members[0]);
    if |members| > 1 {
      PlainMembers(members[1..]);
      assert PLAIN(After(PLAIN, (), PrintMember(members[0])), ',').0 == ();
      assert members == [members[0]] + members[1..];
    } else {
      assert members == [members[0]];
    }
  }

  /** Parsing undoes printing, up to merging repeated keys: it succeeds exactly when the nesting limit and
      the memory suffice, and it uses up the whole text. */
  lemma PrintThenParse(t: Json, limit: nat, memory: nat)
    requires Printable(t) && IsDocument(t)
    ensures ReadsAll(ParseDocument(Print(t), t.Arr?, limit, memory), t, limit, memory)
  {
    PlainIsGentle();
    WriterRoundTrip(PLAIN, (), t, limit, memory);
    PlainRun(Print(t), "");
    assert Print(t) + "" == Print(t);
    PlainMeaning(t);
  }

  // ---- merging repeated keys changes exactly the trees that repeat a key ----

  lemma {:induction false} NormalItemsAt(items: seq<Json>, acc: seq<Json>)
    ensures var r := NormalItems(items, acc);
      |r| == |acc| + |items| && (forall i | 0 <= i < |acc| :: r[i] == acc[i]) &&
      (forall i | 0 <= i < |items| :: r[|acc| + i] == Normal(items[i]))
  {
    if items != [] {
      var acc' := acc + [Normal(items[0])];
      NormalItemsAt(items[1..], acc');
      var r := NormalItems(items, acc);
      forall i | 0 <= i < |items|
        ensures r[|acc| + i] == Normal(items[i])
      {
        if i > 0 { assert r[|acc'| + (i - 1)] == Normal(items[1..][i - 1]); } else { assert r[|acc|] == acc'[|acc|]; }
      }
    }
  }

  lemma PutUnique(acc: seq<Member>, key: string, value: Json)
    requires UniqueKeys(acc)
    ensures UniqueKeys(Put(acc, key, value))
  {
  }

  lemma {:induction false} NormalMembersUnique(members: seq<Member>, acc: seq<Member>)
    requires UniqueKeys(acc)
    ensures UniqueKeys(NormalMembers(members, acc))
  {
    if members != [] {
      PutUnique(acc, members[0].key, Normal(members[0].value));
      NormalMembersUnique(members[1..], Put(acc, members[0].key, Normal(members[0].value)));
    }
  }

  predicate NoSharedKey(a: seq<Member>, b: seq<Member>) {
    forall i, j | 0 <= i < |a| && 0 <= j < |b| :: a[i].key != b[j].key
  }

  lemma {:induction false} NormalMembersAt(members: seq<Member>, acc: seq<Member>)
    requires UniqueKeys(members) && NoSharedKey(acc, members)
    ensures var r := NormalMembers(members, acc);
      |r| == |acc| + |members| && (forall i | 0 <= i < |acc| :: r[i] == acc[i]) &&
      (forall i | 0 <= i < |members| :: r[|acc| + i] == Member(members[i].key, Normal(members[i].value)))
  {
    if members != [] {
      var m := Member(members[0].key, Normal(members[0].value));
      var acc' := acc + [m];
      assert Put(acc, m.key, m.value) == acc';
      forall i, j | 0 <= i < |acc'| && 0 <= j < |members[1..]|
        ensures acc'[i].key != members[1..][j].key
      {
        assert members[1..][j] == members[j + 1];
      }
      NormalMembersAt(members[1..], acc');
      var r := NormalMembers(members, acc);
      forall i | 0 <= i < |members|
        ensures r[|acc| + i] == Member(members[i].key, Normal(members[i].value))
      {
        if i > 0 {
          assert members[i] == members[1..][i - 1];
          assert r[|acc'| + (i - 1)] == Member(members[1..][i - 1].key, Normal(members[1..][i - 1].value));
        } else {
          assert r[|acc|] == acc'[|acc|];
        }
      }
    }
  }

  /** A tree survives the merge exactly when no object in it repeats a key. */
  lemma {:induction false} NormalIffDistinct(t: Json)
    ensures Normal(t) == t <==> DistinctKeys(t)
  {
    match t
    case Str(_) =>
    case Raw(_) =>
    case Arr(items) =>
      NormalItemsAt(items, []);
      var r := NormalItems(items, []);
      forall i | 0 <= i < |items| ensures (r[i] == items[i]) == DistinctKeys(items[i]) {
        assert r[0 + i] == Normal(items[i]);
        NormalIffDistinct(items[i]);
      }
      assert r == items <==> forall i | 0 <= i < |items| :: r[i] == items[i];
    case Obj(members) =>
      NormalMembersUnique(members, []);
      if UniqueKeys(members) {
        NormalMembersAt(members, []);
        var r := NormalMembers(members, []);
        forall i | 0 <= i < |members| ensures (r[i] == members[i]) == DistinctKeys(members[i].value) {
          assert r[0 + i] == Member(members[i].key, Normal(members[i].value));
          NormalIffDistinct(members[i].value);
        }
        assert r == members <==> forall i | 0 <= i < |members| :: r[i] == members[i];
      }
  }

  /** The round trip the library promises: with enough nesting and memory, the same tree comes back
      exactly when the tree repeats no key. */
  lemma RoundTrip(t: Json, limit: nat, memory: nat)
    requires Printable(t) && IsDocument(t) && Depth(t) <= limit + 1 && Cells(t) <= memory
    ensures ParseDocument(Print(t), t.Arr?, limit, memory) == Ok(t, "", memory - Cells(t)) <==> DistinctKeys(t)
  {
    PrintThenParse(t, limit, memory);
    NormalIffDistinct(t);
  }

  // ---- what the parser can return ----

  /** A value the parser may produce under these limits. */
  ghost predicate Parsable(t: Json, limit: nat, cells: int) {
    Printable(t) && DistinctKeys(t) && Depth(t) <= limit && Cells(t) <= cells
  }

  lemma {:induction false} ReadTokenIsToken(s: string)
    ensures IsToken(ReadToken(s).text)
    ensures ReadToken(s).text == "" ==> ReadToken(s).rest == s
  {
    if s != "" && IsLetterOrNumber(s[0]) {
      ReadTokenIsToken(s[1..]);
    }
  }

  ghost predicate ParsableItems(items: seq<Json>, limit: nat) {
    AllPrintable(items) && DepthItems(items) <= limit && forall i | 0 <= i < |items| :: DistinctKeys(items[i])
  }

  lemma {:induction false} ItemsAppend(items: seq<Json>, v: Json)
    ensures AllPrintable(items + [v]) == (AllPrintable(items) && Printable(v))
    ensures DepthItems(items + [v]) == Max(DepthItems(items), Depth(v))
    ensures CellsItems(items + [v]) == CellsItems(items) + Cells(v) + 1
  {
    if items == [] {
      assert items + [v] == [v];
    } else {
      ItemsAppend(items[1..], v);
      assert (items + [v])[1..] == items[1..] + [v];
    }
  }

  function SumCells(members: seq<Member>): nat {
    if members == [] then 0 else Cells(members[0].value) + 1 + SumCells(members[1..])
  }

  lemma {:induction false} CellsOfUnique(members: seq<Member>, acc: seq<Member>)
    requires UniqueKeys(members) && NoSharedKey(acc, members)
    ensures CellsMembers(members, acc) == SumCells(members)
  {
    if members != [] {
      var m := Member(members[0].key, Normal(members[0].value));
      assert Put(acc, m.key, m.value) == acc + [m];
      forall i, j | 0 <= i < |acc + [m]| && 0 <= j < |members[1..]|
        ensures (acc + [m])[i].key != members[1..][j].key
      {
        assert members[1..][j] == members[j + 1];
      }
      CellsOfUnique(members[1..], acc + [m]);
    }
  }

  ghost predicate ParsableMembers(members: seq<Member>, limit: nat) {
    AllPrintableMembers(members) && DepthMembers(members) <= limit && UniqueKeys(members) &&
    forall i | 0 <= i < |members| :: DistinctKeys(members[i].value)
  }

  lemma {:induction false} PutSums(members: seq<Member>, key: string, v: Json)
    ensures AllPrintableMembers(members) && Printable(v) ==> AllPrintableMembers(Put(members, key, v))
    ensures DepthMembers(Put(members, key, v)) <= Max(DepthMembers(members), Depth(v))
    ensures SumCells(Put(members, key, v)) <= SumCells(members) + Cells(v) + NewCells(members, key)
  {
    if members == [] {
    } else if members[0].key == key {
      assert Put(members, key, v)[1..] == members[1..];
    } else {
      PutSums(members[1..], key, v);
      assert Put(members, key, v)[1..] == Put(members[1..], key, v);
    }
  }

  lemma PutParsable(members: seq<Member>, limit: nat, key: string, v: Json, cells: int)
    requires ParsableMembers(members, limit) && Parsable(v, limit, cells)
    ensures ParsableMembers(Put(members, key, v), limit)
    ensures SumCells(Put(members, key, v)) <= SumCells(members) + cells + NewCells(members, key)
  {
    PutSums(members, key, v);
    PutUnique(members, key, v);
  }

  lemma {:induction false} ParsedValue(s: string, limit: nat, memory: nat)
    ensures var r := ParseValue(s, limit, memory);
      r.Ok? ==> r.memory <= memory && Parsable(r.value, limit, memory - r.memory) &&
                (r.value == Raw("") ==> r.rest == SkipSpaces(s))
    decreases limit, |s|, 0
  {
    if limit > 0 {
      var t := SkipSpaces(s);
      if t != "" && t[0] == '[' {
        ParsedArray(t, limit - 1, memory);
      } else if t != "" && t[0] == '{' {
        ParsedObject(t, limit - 1, memory);
      } else {
        ReadTokenIsToken(t);
      }
    }
  }

  lemma {:induction false} ParsedArray(s: string, limit: nat, memory: nat)
    ensures var r := ParseArray(s, limit, memory);
      r.Ok? ==> r.memory <= memory && Parsable(r.value, limit + 1, memory - r.memory)
    decreases limit, |s|, 2
  {
    if memory > 0 && Skip(s, '[').Some? {
      var r := Skip(s, '[').value;
      if Skip(r, ']').None? {
        ParsedItems(r, limit, memory - 1, []);
      }
    }
  }

  lemma OneEmptyToken(items: seq<Json>, v: Json)
    ensures items + [v] == [Raw("")] ==> items == [] && v == Raw("")
  {
    if items + [v] == [Raw("")] { assert (items + [v])[|items|] == v; }
  }

  lemma {:induction false} ParsedItems(s: string, limit: nat, memory: nat, acc: seq<Json>)
    requires ParsableItems(acc, limit) && (acc == [] ==> Skip(s, ']').None?)
    ensures var r := ParseItems(s, limit, memory, acc);
      r.Ok? ==> r.memory <= memory && ParsableItems(r.value.items, limit) && r.value.items != [Raw("")] &&
                CellsItems(r.value.items) <= CellsItems(acc) + memory - r.memory
    decreases limit, |s|, 1
  {
    hide ParseItems, ParseValue, SkipSpaces, Depth, Cells, Printable, DistinctKeys, DepthItems, CellsItems,
      AllPrintable;
    ItemsTurn(s, limit, memory, acc);
    ParsedValue(s, limit, memory);
    var p := ParseValue(s, limit, memory);
    if p.Ok? && p.memory > 0 {
      ItemsAppend(acc, p.value);
      OneEmptyToken(acc, p.value);
      SkipTwice(s);
      if Skip(p.rest, ']').None? && Skip(p.rest, ',').Some? {
        ParsedItems(Skip(p.rest, ',').value, limit, p.memory - 1, acc + [p.value]);
      }
    }
  }

  lemma {:induction false} ParsedObject(s: string, limit: nat, memory: nat)
    ensures var r := ParseObject(s, limit, memory);
      r.Ok? ==> r.memory <= memory && Parsable(r.value, limit + 1, memory - r.memory)
    decreases limit, |s|, 3
  {
    hide ParseMembers, SkipSpaces;
    if memory > 0 && Skip(s, '{').Some? {
      var r := Skip(s, '{').value;
      if Skip(r, '}').None? {
        ParsedMembers(r, limit, memory - 1, []);
        var q := ParseMembers(r, limit, memory - 1, []);
        if q.Ok? {
          CellsOfUnique(q.value.members, []);
        }
      }
    }
  }

  lemma {:induction false} ParsedMember(s: string, limit: nat, memory: nat)
    ensures var r := ParseMember(s, limit, memory);
      r.Ok? ==> r.memory <= memory && Parsable(r.value.value, limit, memory - r.memory)
    decreases limit, |s|, 1
  {
    var key := ReadString(s);
    if Skip(key.rest, ':').Some? {
      ParsedValue(Skip(key.rest, ':').value, limit, memory);
    }
  }

  lemma {:induction false} ParsedMembers(s: string, limit: nat, memory: nat, acc: seq<Member>)
    requires ParsableMembers(acc, limit)
    ensures var r := ParseMembers(s, limit, memory, acc);
      r.Ok? ==> r.memory <= memory && ParsableMembers(r.value.members, limit) &&
                SumCells(r.value.members) <= SumCells(acc) + memory - r.memory
    decreases limit, |s|, 2
  {
    hide ParseMembers, ParseMember, SkipSpaces, Skip, Put, NewCells, SumCells, ParsableMembers, Parsable;
    MembersTurn(s, limit, memory, acc);
    ParsedMember(s, limit, memory);
    var p := ParseMember(s, limit, memory);
    if p.Ok? {
      PutParsable(acc, limit, p.value.key, p.value.value, memory - p.memory);
      var cells := NewCells(acc, p.value.key);
      if cells <= p.memory && Skip(p.rest, '}').None? && Skip(p.rest, ',').Some? {
        ParsedMembers(Skip(p.rest, ',').value, limit, p.memory - cells, Put(acc, p.value.key, p.value.value));
      }
    }
  }

  /** Printing undoes parsing: whatever text was accepted, printing the result and parsing it again under
      the same limits gives the same tree. */
  lemma ParsePrintParse(s: string, asArray: bool, limit: nat, memory: nat)
    requires ParseDocument(s, asArray, limit, memory).Ok?
    ensures var t := ParseDocument(s, asArray, limit, memory).value;
      IsDocument(t) && t.Arr? == asArray && Printable(t) && DistinctKeys(t) && Cells(t) <= memory &&
      ParseDocument(Print(t), asArray, limit, memory) == Ok(t, "", memory - Cells(t))
  {
    if asArray { ParsedArray(s, limit, memory); } else { ParsedObject(s, limit, memory); }
    RoundTrip(ParseDocument(s, asArray, limit, memory).value, limit, memory);
  }

  // ---- escapes and repeated keys ----

  /** The seven characters that are escaped, and how; every other character is printed as it is. */
  lemma PrintedChars(c: char)
    ensures PrintChar('\"') == "\\\"" && PrintChar('\\') == "\\\\"
    ensures PrintChar(8 as char) == "\\b" && PrintChar(12 as char) == "\\f"
    ensures PrintChar(10 as char) == "\\n" && PrintChar(13 as char) == "\\r" && PrintChar(9 as char) == "\\t"
    ensures c !in ['\"', '\\', 8 as char, 9 as char, 10 as char, 12 as char, 13 as char] ==> PrintChar(c) == [c]
  {
  }

  predicate HasKey(members: seq<Member>, key: string) { exists i :: 0 <= i < |members| && members[i].key == key }

  /** Putting other keys leaves the value under a key alone. */
  lemma {:induction false} OtherKeys(members: seq<Member>, acc: seq<Member>, key: string)
    requires !HasKey(members, key)
    ensures var n, k := NormalMembers(members, acc), Find(acc, key);
      if k < |acc| then k < |n| && n[k] == acc[k] && Find(n, key) == k else !HasKey(n, key)
    decreases |members|
  {
    if members != [] {
      assert members[0].key != key;
      var acc' := Put(acc, members[0].key, Normal(members[0].value));
      assert forall i | 0 <= i < |members| - 1 :: members[1..][i] == members[i + 1];
      OtherKeys(members[1..], acc', key);
      PutOther(acc, members[0].key, Normal(members[0].value), key);
    }
  }

  lemma PutOther(acc: seq<Member>, other: string, value: Json, key: string)
    requires other != key
    ensures var r, k := Put(acc, other, value), Find(acc, key);
      if k < |acc| then k < |r| && r[k] == acc[k] && Find(r, key) == k else Find(r, key) == |r|
  {
  }

  lemma PutSame(acc: seq<Member>, key: string, value: Json)
    ensures var r, k := Put(acc, key, value), Find(acc, key);
      k < |r| && Find(r, key) == k && r[k] == Member(key, value)
  {
  }

  /** Of several pairs with one key the value of the last is kept. */
  lemma {:induction false} LastWins(members: seq<Member>, acc: seq<Member>, key: string, i: nat)
    requires i < |members| && members[i].key == key && !HasKey(members[i + 1..], key)
    ensures var n := NormalMembers(members, acc);
      Find(n, key) < |n| && n[Find(n, key)].value == Normal(members[i].value)
    decreases i
  {
    var acc' := Put(acc, members[0].key, Normal(members[0].value));
    if i == 0 {
      PutSame(acc, key, Normal(members[0].value));
      OtherKeys(members[1..], acc', key);
    } else {
      assert members[1..][i..] == members[i + 1..];
      LastWins(members[1..], acc', key, i - 1);
    }
  }
}
