/** Parsing a printed tree, whatever blanks were spread into it, gives the tree the text stands for, exactly
    when the nesting limit and the memory suffice; the proof follows the structure of the tree and states for
    each part what is left of the text. */
module JsonRoundTrip {
  import opened Wrappers
  import opened JsonText
  import opened JsonReader
  import opened JsonSpread

  /** `post` cannot be taken for a part of the value before it. */
  predicate Stops(post: string) {
    var u := SkipSpaces(post);
    (post == "" || !IsLetterOrNumber(post[0])) && (u == "" || u[0] in ",]}")
  }

  /** Outcome `r` of reading `value` in front of `post`, given whether the resources were `enough`. */
  ghost predicate Reads(r: Parsed<Json>, enough: bool, value: Json, post: string, left: int) {
    r.Ok? == enough &&
    (enough ==> r.value == value && SkipSpaces(r.rest) == SkipSpaces(post) && r.memory == left)
  }

  // ---- single steps ----

  lemma SkipChunk(s: string, k: Chunk, rest: string)
    requires SkipSpaces(s) == SkipSpaces(Spell(k, rest))
    requires IsBlank(k.before) && IsBlank(k.after) && !IsSpace(k.c) && k.c != '/'
    ensures Skip(s, k.c) == Some(SkipSpaces(rest))
    ensures forall c | c != k.c :: Skip(s, c) == None
  {
    SkipToChar(k, rest);
    SkipBlanks(k.after, rest);
  }

  lemma StopsAt(k: Chunk, rest: string)
    requires IsBlank(k.before) && k.c in ",]}"
    ensures Stops(Spell(k, rest))
  {
    SkipToChar(k, rest);
    assert k.before != "" ==> Spell(k, rest)[0] == k.before[0];
    assert k.before == "" ==> Spell(k, rest)[0] == k.c;
  }

  lemma {:induction false} ReadTokenChunks(ch: seq<Chunk>, post: string)
    requires ch != [] && WholeToken(ch) && ch[0].before == "" && Stops(post)
    ensures ReadToken(Text(ch, post)) == Scanned(Plain(ch), ch[|ch| - 1].after + post)
  {
    var rest := ch[0].after + Text(ch[1..], post);
    assert Text(ch, post) == [ch[0].c] + rest;
    assert Plain(ch)[0] == ch[0].c;
    if |ch| == 1 {
      assert rest == ch[0].after + post;
      assert ch[0].after != "" ==> rest[0] == ch[0].after[0];
      assert ReadToken(rest) == Scanned("", rest);
      assert Plain(ch) == [ch[0].c] + "";
    } else {
      assert rest == Text(ch[1..], post);
      assert Plain(ch) == [ch[0].c] + Plain(ch[1..]);
      assert forall i | 0 <= i < |ch| - 1 :: ch[1..][i] == ch[i + 1];
      assert forall i | 0 <= i < |ch| - 1 :: Plain(ch[1..])[i] == Plain(ch)[i + 1];
      ReadTokenChunks(ch[1..], post);
    }
  }

  lemma ReadTokenAt(ch: seq<Chunk>, post: string)
    requires WholeToken(ch) && Stops(post) && ch != []
    ensures var s := SkipSpaces(Text(ch, post));
      s != "" && s[0] == ch[0].c && IsLetterOrNumber(s[0]) &&
      ReadToken(s) == Scanned(Plain(ch), ch[|ch| - 1].after + post)
  {
    var rest := Text(ch[1..], post);
    assert Plain(ch)[0] == ch[0].c;
    SkipToChar(ch[0], rest);
    var bare := [Chunk("", ch[0].c, ch[0].after)] + ch[1..];
    assert Plain(bare) == Plain(ch);
    assert bare[1..] == ch[1..];
    assert Text(bare, post) == [ch[0].c] + (ch[0].after + rest);
    ReadTokenChunks(bare, post);
  }

  lemma TokenValue(ch: seq<Chunk>, post: string, limit: nat, memory: nat)
    requires WholeToken(ch) && Stops(post) && limit > 0
    ensures Reads(ParseValue(Text(ch, post), limit, memory), true, Raw(Plain(ch)), post, memory)
  {
    if ch == [] {
      SkipTwice(post);
      var u := SkipSpaces(post);
      assert ReadToken(u) == Scanned("", u);
    } else {
      ReadTokenAt(ch, post);
      SkipBlanks(ch[|ch| - 1].after, post);
    }
  }

  lemma StringValue(x: Literal, post: string, limit: nat, memory: nat)
    requires x.Valid() && limit > 0
    ensures Reads(ParseValue(x.Spelling(post), limit, memory), true, Str(x.Content()), post, memory)
  {
    ReadLiteral(x, post);
    SkipBlanks(x.close.after, post);
  }

  /** The first visible character of a value, or of what follows an empty token. */
  lemma FirstChar(l: Layout, rest: string)
    requires Valid(l)
    ensures l == RawAt([]) || Skip(SkipSpaces(Spelled(l, rest)), ']') == None
  {
    SkipTwice(Spelled(l, rest));
    match l
    case StrAt(x) => SkipToChar(x.open, Text(x.body, Spell(x.close, rest)));
    case RawAt(ch) =>
      if ch != [] {
        assert Plain(ch)[0] == ch[0].c;
        SkipToChar(ch[0], Text(ch[1..], rest));
      }
    case EmptyArrAt(open, close) => SkipToChar(open, Spell(close, rest));
    case ArrAt(open, items) => SkipToChar(open, SpelledItems(items, rest));
    case EmptyObjAt(open, close) => SkipToChar(open, Spell(close, rest));
    case ObjAt(open, members) => SkipToChar(open, SpelledMembers(members, rest));
  }

  /** A list of items does not start with its closing bracket. */
  lemma ItemsOpen(l: ItemsAt, rest: string)
    requires ValidItems(l) && (l.MoreItems? || l.value != RawAt([]))
    ensures Skip(SkipSpaces(SpelledItems(l, rest)), ']') == None
  {
    match l
    case LastItem(v, close) => FirstChar(v, Spell(close, rest));
    case MoreItems(v, comma, more) =>
      var tail := Spell(comma, SpelledItems(more, rest));
      FirstChar(v, tail);
      if v == RawAt([]) {
        SkipTwice(tail);
        SkipToChar(comma, SpelledItems(more, rest));
      }
  }

  lemma MembersOpen(l: MembersAt, rest: string)
    requires ValidMembers(l)
    ensures Skip(SkipSpaces(SpelledMembers(l, rest)), '}') == None
  {
    match l
    case LastMember(m, close) => ReadLiteral(m.key, Spell(m.colon, Spelled(m.value, Spell(close, rest))));
    case MoreMembers(m, comma, more) =>
      ReadLiteral(m.key, Spell(m.colon, Spelled(m.value, Spell(comma, SpelledMembers(more, rest)))));
  }

  // ---- one turn of the two loops ----

  lemma OpenArray(open: Chunk, body: string, limit: nat, memory: nat)
    requires Mark(open, '[')
    ensures var s := SkipSpaces(Spell(open, body));
      var r := SkipSpaces(body);
      s != "" && s[0] == '[' && SkipSpaces(s) == s &&
      ParseArray(s, limit, memory) ==
      if memory == 0 then Fail
      else match Skip(r, ']')
           case Some(rest) => Ok(Arr([]), rest, memory - 1)
           case None => ParseItems(r, limit, memory - 1, [])
  {
    SkipToChar(open, body);
    var s := SkipSpaces(Spell(open, body));
    SkipChunk(s, open, body);
  }

  lemma OpenObject(open: Chunk, body: string, limit: nat, memory: nat)
    requires Mark(open, '{')
    ensures var s := SkipSpaces(Spell(open, body));
      var r := SkipSpaces(body);
      s != "" && s[0] == '{' && SkipSpaces(s) == s &&
      ParseObject(s, limit, memory) ==
      if memory == 0 then Fail
      else match Skip(r, '}')
           case Some(rest) => Ok(Obj([]), rest, memory - 1)
           case None => ParseMembers(r, limit, memory - 1, [])
  {
    SkipToChar(open, body);
    var s := SkipSpaces(Spell(open, body));
    SkipChunk(s, open, body);
  }

  lemma ItemStuck(s: string, limit: nat, memory: nat, acc: seq<Json>)
    ensures ParseValue(s, limit, memory).Fail? ==> ParseItems(s, limit, memory, acc).Fail?
  {
  }

  lemma MemberStuck(s: string, limit: nat, memory: nat, acc: seq<Member>)
    ensures ParseMember(s, limit, memory).Fail? ==> ParseMembers(s, limit, memory, acc).Fail?
  {
  }

  lemma ItemDone(s: string, k: Chunk, post: string, limit: nat, memory: nat, acc: seq<Json>)
    requires var r := ParseValue(s, limit, memory); r.Ok? && SkipSpaces(r.rest) == SkipSpaces(Spell(k, post))
    requires Mark(k, ']')
    ensures var r := ParseValue(s, limit, memory);
      ParseItems(s, limit, memory, acc) ==
      if r.memory == 0 then Fail else Ok(Arr(acc + [r.value]), SkipSpaces(post), r.memory - 1)
  {
    SkipChunk(ParseValue(s, limit, memory).rest, k, post);
  }

  lemma ItemNext(s: string, k: Chunk, tail: string, limit: nat, memory: nat, acc: seq<Json>)
    requires var r := ParseValue(s, limit, memory); r.Ok? && SkipSpaces(r.rest) == SkipSpaces(Spell(k, tail))
    requires Mark(k, ',')
    ensures var r := ParseValue(s, limit, memory);
      ParseItems(s, limit, memory, acc) ==
      if r.memory == 0 then Fail else ParseItems(SkipSpaces(tail), limit, r.memory - 1, acc + [r.value])
  {
    SkipChunk(ParseValue(s, limit, memory).rest, k, tail);
  }

  lemma MemberDone(s: string, k: Chunk, post: string, limit: nat, memory: nat, acc: seq<Member>)
    requires var r := ParseMember(s, limit, memory); r.Ok? && SkipSpaces(r.rest) == SkipSpaces(Spell(k, post))
    requires Mark(k, '}')
    ensures var r := ParseMember(s, limit, memory);
      ParseMembers(s, limit, memory, acc) ==
      if r.memory < NewCells(acc, r.value.key) then Fail
      else Ok(Obj(Put(acc, r.value.key, r.value.value)), SkipSpaces(post), r.memory - NewCells(acc, r.value.key))
  {
    SkipChunk(ParseMember(s, limit, memory).rest, k, post);
  }

  lemma MemberNext(s: string, k: Chunk, tail: string, limit: nat, memory: nat, acc: seq<Member>)
    requires var r := ParseMember(s, limit, memory); r.Ok? && SkipSpaces(r.rest) == SkipSpaces(Spell(k, tail))
    requires Mark(k, ',')
    ensures var r := ParseMember(s, limit, memory);
      ParseMembers(s, limit, memory, acc) ==
      if r.memory < NewCells(acc, r.value.key) then Fail
      else ParseMembers(SkipSpaces(tail), limit, r.memory - NewCells(acc, r.value.key),
                        Put(acc, r.value.key, r.value.value))
  {
    SkipChunk(ParseMember(s, limit, memory).rest, k, tail);
  }

  lemma ItemsCons(e0: Json, e1: seq<Json>, acc: seq<Json>)
    ensures CellsItems([e0] + e1) == Cells(e0) + 1 + CellsItems(e1)
    ensures NormalItems([e0] + e1, acc) == NormalItems(e1, acc + [Normal(e0)])
    ensures DepthItems([e0] + e1) == Max(Depth(e0), DepthItems(e1))
  {
    assert ([e0] + e1)[1..] == e1;
  }

  lemma MembersCons(e0: Member, e1: seq<Member>, acc: seq<Member>)
    ensures var acc' := Put(acc, e0.key, Normal(e0.value));
      CellsMembers([e0] + e1, acc) == Cells(e0.value) + NewCells(acc, e0.key) + CellsMembers(e1, acc') &&
      NormalMembers([e0] + e1, acc) == NormalMembers(e1, acc')
    ensures DepthMembers([e0] + e1) == Max(Depth(e0.value), DepthMembers(e1))
  {
    assert ([e0] + e1)[1..] == e1;
  }

  // ---- the theorem, by structure of the tree ----

  /** Reading the text of `l` at any place. */
  ghost predicate ValueRead(l: Layout, post: string, limit: nat, memory: nat)
    requires Valid(l)
  {
    var e := Meaning(l);
    Reads(ParseValue(Spelled(l, post), limit, memory),
          Depth(e) <= limit && Cells(e) <= memory, Normal(e), post, memory - Cells(e))
  }

  lemma {:induction false} ReadValue(l: Layout, post: string, limit: nat, memory: nat)
    requires Valid(l) && Stops(post)
    ensures ValueRead(l, post, limit, memory)
    decreases l, 1
  {
    hide ValueRead, ArrayRead, ObjectRead;
    if limit == 0 {
      NoLimit(l, post, memory);
    } else {
      match l
      case StrAt(x) => StringRead(l, post, limit, memory);
      case RawAt(ch) => TokenRead(l, post, limit, memory);
      case EmptyArrAt(open, close) =>
        ReadArray(l, post, limit - 1, memory);
        ArrayValue(l, post, limit, memory);
      case ArrAt(open, items) =>
        ReadArray(l, post, limit - 1, memory);
        ArrayValue(l, post, limit, memory);
      case EmptyObjAt(open, close) =>
        ReadObject(l, post, limit - 1, memory);
        ObjectValue(l, post, limit, memory);
      case ObjAt(open, members) =>
        ReadObject(l, post, limit - 1, memory);
        ObjectValue(l, post, limit, memory);
    }
  }

  lemma NoLimit(l: Layout, post: string, memory: nat)
    requires Valid(l)
    ensures ValueRead(l, post, 0, memory)
  {
    hide ParseArray, ParseObject, ParseScalar, Spelled;
  }

  lemma StringRead(l: Layout, post: string, limit: nat, memory: nat)
    requires Valid(l) && l.StrAt? && limit > 0 && Stops(post)
    ensures ValueRead(l, post, limit, memory)
  {
    StringValue(l.literal, post, limit, memory);
  }

  lemma TokenRead(l: Layout, post: string, limit: nat, memory: nat)
    requires Valid(l) && l.RawAt? && limit > 0 && Stops(post)
    ensures ValueRead(l, post, limit, memory)
  {
    TokenValue(l.token, post, limit, memory);
  }

  lemma ArrayValue(l: Layout, post: string, limit: nat, memory: nat)
    requires Valid(l) && limit > 0 && ArrayRead(l, post, limit - 1, memory)
    ensures ValueRead(l, post, limit, memory)
  {
    hide ParseArray, ParseObject, ParseScalar, Spelled, Meaning, Depth, Cells, Normal, SkipSpaces;
  }

  lemma ObjectValue(l: Layout, post: string, limit: nat, memory: nat)
    requires Valid(l) && limit > 0 && ObjectRead(l, post, limit - 1, memory)
    ensures ValueRead(l, post, limit, memory)
  {
    hide ParseArray, ParseObject, ParseScalar, Spelled, Meaning, Depth, Cells, Normal, SkipSpaces;
  }

  ghost predicate ArrayRead(l: Layout, post: string, limit: nat, memory: nat)
    requires Valid(l)
  {
    var e := Meaning(l);
    var s := SkipSpaces(Spelled(l, post));
    var r := ParseArray(s, limit, memory);
    s != "" && s[0] == '[' && SkipSpaces(s) == s &&
    Reads(r, Depth(e) <= limit + 1 && Cells(e) <= memory, Normal(e), post, memory - Cells(e)) &&
    (r.Ok? ==> r.rest == SkipSpaces(post))
  }

  lemma {:induction false} ReadArray(l: Layout, post: string, limit: nat, memory: nat)
    requires Valid(l) && (l.ArrAt? || l.EmptyArrAt?)
    ensures ArrayRead(l, post, limit, memory)
    decreases l, 0
  {
    hide ParseItems, ParseArray, SkipSpaces;
    SkipTwice(post);
    match l
    case EmptyArrAt(open, close) =>
      OpenArray(open, Spell(close, post), limit, memory);
      SkipTwice(Spell(close, post));
      SkipChunk(SkipSpaces(Spell(close, post)), close, post);
    case ArrAt(open, items) =>
      OpenArray(open, SpelledItems(items, post), limit, memory);
      ItemsOpen(items, post);
      if memory > 0 {
        ReadItems(items, post, limit, memory - 1, []);
      }
  }

  lemma {:induction false} ReadItem(l: Layout, post: string, limit: nat, memory: nat)
    requires Valid(l) && Stops(post)
    ensures var e := Meaning(l);
      Reads(ParseValue(SkipSpaces(Spelled(l, post)), limit, memory),
            Depth(e) <= limit && Cells(e) <= memory, Normal(e), post, memory - Cells(e))
    decreases l, 2
  {
    ReadValue(l, post, limit, memory);
    SkipTwice(Spelled(l, post));
  }

  ghost predicate ItemsRead(l: ItemsAt, post: string, limit: nat, memory: nat, acc: seq<Json>)
    requires ValidItems(l)
  {
    var e := MeaningItems(l);
    var r := ParseItems(SkipSpaces(SpelledItems(l, post)), limit, memory, acc);
    Reads(r, DepthItems(e) <= limit && CellsItems(e) <= memory,
          Arr(NormalItems(e, acc)), post, memory - CellsItems(e)) &&
    (r.Ok? ==> r.rest == SkipSpaces(post))
  }

  lemma {:induction false} ReadItems(l: ItemsAt, post: string, limit: nat, memory: nat, acc: seq<Json>)
    requires ValidItems(l)
    ensures ItemsRead(l, post, limit, memory, acc)
    decreases l, 0
  {
    hide ParseItems, ParseValue, SkipSpaces, Depth, Cells, Normal;
    var s := SkipSpaces(SpelledItems(l, post));
    SkipTwice(post);
    ItemStuck(s, limit, memory, acc);
    match l
    case LastItem(v, close) =>
      StopsAt(close, post);
      ReadItem(v, Spell(close, post), limit, memory);
      ItemsCons(Meaning(v), [], acc);
      assert [Meaning(v)] + [] == [Meaning(v)];
      if ParseValue(s, limit, memory).Ok? {
        ItemDone(s, close, post, limit, memory, acc);
      }
    case MoreItems(v, comma, rest) =>
      var tail := SpelledItems(rest, post);
      StopsAt(comma, tail);
      ReadItem(v, Spell(comma, tail), limit, memory);
      ItemsCons(Meaning(v), MeaningItems(rest), acc);
      var r := ParseValue(s, limit, memory);
      if r.Ok? {
        ItemNext(s, comma, tail, limit, memory, acc);
        if r.memory > 0 {
          ReadItems(rest, post, limit, r.memory - 1, acc + [r.value]);
        }
      }
  }

  ghost predicate ObjectRead(l: Layout, post: string, limit: nat, memory: nat)
    requires Valid(l)
  {
    var e := Meaning(l);
    var s := SkipSpaces(Spelled(l, post));
    var r := ParseObject(s, limit, memory);
    s != "" && s[0] == '{' && SkipSpaces(s) == s &&
    Reads(r, Depth(e) <= limit + 1 && Cells(e) <= memory, Normal(e), post, memory - Cells(e)) &&
    (r.Ok? ==> r.rest == SkipSpaces(post))
  }

  lemma {:induction false} ReadObject(l: Layout, post: string, limit: nat, memory: nat)
    requires Valid(l) && (l.ObjAt? || l.EmptyObjAt?)
    ensures ObjectRead(l, post, limit, memory)
    decreases l, 0
  {
    hide ParseMembers, ParseObject, SkipSpaces;
    SkipTwice(post);
    match l
    case EmptyObjAt(open, close) =>
      OpenObject(open, Spell(close, post), limit, memory);
      SkipTwice(Spell(close, post));
      SkipChunk(SkipSpaces(Spell(close, post)), close, post);
    case ObjAt(open, members) =>
      OpenObject(open, SpelledMembers(members, post), limit, memory);
      MembersOpen(members, post);
      if memory > 0 {
        ReadMembers(members, post, limit, memory - 1, []);
      }
  }

  lemma {:induction false} ReadMember(l: MemberAt, post: string, limit: nat, memory: nat)
    requires ValidMember(l) && Stops(post)
    ensures var e := MeaningMember(l);
      var r := ParseMember(SkipSpaces(SpelledMember(l, post)), limit, memory);
      r.Ok? == (Depth(e.value) <= limit && Cells(e.value) <= memory) &&
      (r.Ok? ==> r.value == Member(e.key, Normal(e.value)) && SkipSpaces(r.rest) == SkipSpaces(post) &&
                 r.memory == memory - Cells(e.value))
    decreases l, 0
  {
    var tail := Spelled(l.value, post);
    ReadLiteral(l.key, Spell(l.colon, tail));
    var after := l.key.close.after;
    SkipBlanks(after, Spell(l.colon, tail));
    SkipChunk(after + Spell(l.colon, tail), l.colon, tail);
    ReadItem(l.value, post, limit, memory);
  }

  ghost predicate MembersRead(l: MembersAt, post: string, limit: nat, memory: nat, acc: seq<Member>)
    requires ValidMembers(l)
  {
    var e := MeaningMembers(l);
    var r := ParseMembers(SkipSpaces(SpelledMembers(l, post)), limit, memory, acc);
    Reads(r, DepthMembers(e) <= limit && CellsMembers(e, acc) <= memory,
          Obj(NormalMembers(e, acc)), post, memory - CellsMembers(e, acc)) &&
    (r.Ok? ==> r.rest == SkipSpaces(post))
  }

  lemma {:induction false} ReadMembers(l: MembersAt, post: string, limit: nat, memory: nat, acc: seq<Member>)
    requires ValidMembers(l)
    ensures MembersRead(l, post, limit, memory, acc)
    decreases l, 0
  {
    hide ParseMembers, ParseMember, SkipSpaces, Depth, Cells, Normal, Put;
    var s := SkipSpaces(SpelledMembers(l, post));
    SkipTwice(post);
    MemberStuck(s, limit, memory, acc);
    match l
    case LastMember(m, close) =>
      StopsAt(close, post);
      ReadMember(m, Spell(close, post), limit, memory);
      MembersCons(MeaningMember(m), [], acc);
      assert [MeaningMember(m)] + [] == [MeaningMember(m)];
      if ParseMember(s, limit, memory).Ok? {
        MemberDone(s, close, post, limit, memory, acc);
      }
    case MoreMembers(m, comma, rest) =>
      var tail := SpelledMembers(rest, post);
      StopsAt(comma, tail);
      ReadMember(m, Spell(comma, tail), limit, memory);
      MembersCons(MeaningMember(m), MeaningMembers(rest), acc);
      var r := ParseMember(s, limit, memory);
      if r.Ok? {
        MemberNext(s, comma, tail, limit, memory, acc);
        var cells := NewCells(acc, r.value.key);
        if cells <= r.memory {
          ReadMembers(rest, post, limit, r.memory - cells, Put(acc, r.value.key, r.value.value));
        }
      }
  }
}
