/** Which texts the parser accepts and what it makes of them: exactly those of the grammar. */
module JsonLanguage {
  import opened Wrappers
  import opened JsonText
  import opened JsonReader
  import opened Alphabet
  import opened JsonGrammar
  import D = JsonDocument
  import JsonSpread
  import RT = JsonRoundTrip

  /** A value as it is written. `inside` and `after` follow an opening bracket or a separator, `before` is in
      front of one or of a closing bracket. */
  datatype Form =
    | Scalar(word: Word)
    | NoItems(inside: Space)
    | Array(after: Space, items: Items)
    | NoPairs(inside: Space)
    | Object(after: Space, pairs: Pairs)

  datatype Items =
    | LastItem(value: Form, before: Space)
    | MoreItems(value: Form, before: Space, after: Space, rest: Items)

  datatype Pair = Pair(key: Word, before: Space, after: Space, value: Form)

  datatype Pairs = LastPair(pair: Pair, before: Space) | MorePairs(pair: Pair, before: Space, after: Space, rest: Pairs)

  /** Brackets around nothing are no element, not an empty token. */
  predicate Good(v: Form) {
    match v
    case Scalar(w) => GoodWord(w)
    case NoItems(sp) => GoodSpace(sp)
    case Array(sp, items) => GoodSpace(sp) && GoodItems(items) && (items.MoreItems? || items.value != Scalar(Token("")))
    case NoPairs(sp) => GoodSpace(sp)
    case Object(sp, pairs) => GoodSpace(sp) && GoodPairs(pairs)
  }

  predicate GoodItems(l: Items) {
    Good(l.value) && GoodSpace(l.before) && (l.MoreItems? ==> GoodSpace(l.after) && GoodItems(l.rest))
  }

  predicate GoodPair(p: Pair) { GoodWord(p.key) && GoodSpace(p.before) && GoodSpace(p.after) && Good(p.value) }

  predicate GoodPairs(l: Pairs) {
    GoodPair(l.pair) && GoodSpace(l.before) && (l.MorePairs? ==> GoodSpace(l.after) && GoodPairs(l.rest))
  }

  /** The text of a value followed by `post`. */
  function Spell(v: Form, post: string): string {
    match v
    case Scalar(w) => SpellWord(w, post)
    case NoItems(sp) => ['['] + FillAll(sp, [']'] + post)
    case Array(sp, items) => ['['] + FillAll(sp, SpellItems(items, post))
    case NoPairs(sp) => ['{'] + FillAll(sp, ['}'] + post)
    case Object(sp, pairs) => ['{'] + FillAll(sp, SpellPairs(pairs, post))
  }

  function SpellItems(l: Items, post: string): string {
    match l
    case LastItem(v, before) => Spell(v, FillAll(before, [']'] + post))
    case MoreItems(v, before, after, rest) => Spell(v, FillAll(before, [','] + FillAll(after, SpellItems(rest, post))))
  }

  function SpellPair(p: Pair, post: string): string {
    SpellWord(p.key, FillAll(p.before, [':'] + FillAll(p.after, Spell(p.value, post))))
  }

  function SpellPairs(l: Pairs, post: string): string {
    match l
    case LastPair(p, before) => SpellPair(p, FillAll(before, ['}'] + post))
    case MorePairs(p, before, after, rest) =>
      SpellPair(p, FillAll(before, [','] + FillAll(after, SpellPairs(rest, post))))
  }

  /** The tree a text stands for, before repeated keys are merged. */
  function Mean(v: Form): Json {
    match v
    case Scalar(w) => if w.Quoted? then Str(MeanWord(w)) else Raw(MeanWord(w))
    case NoItems(_) => Arr([])
    case Array(_, items) => Arr(MeanItems(items))
    case NoPairs(_) => Obj([])
    case Object(_, pairs) => Obj(MeanPairs(pairs))
  }

  function MeanItems(l: Items): seq<Json> {
    match l
    case LastItem(v, _) => [Mean(v)]
    case MoreItems(v, _, _, rest) => [Mean(v)] + MeanItems(rest)
  }

  function MeanPair(p: Pair): Member { Member(MeanWord(p.key), Mean(p.value)) }

  function MeanPairs(l: Pairs): seq<Member> {
    match l
    case LastPair(p, _) => [MeanPair(p)]
    case MorePairs(p, _, _, rest) => [MeanPair(p)] + MeanPairs(rest)
  }

  // ---- what follows a value ----

  /** What may follow a value. */
  predicate Ends(post: string) {
    var u := SkipSpaces(post);
    Delimits(post) && (u == "" || u[0] in ",]}")
  }

  lemma FillFirst(sp: Space, rest: string)
    requires GoodSpace(sp) && sp != []
    ensures var s := FillAll(sp, rest); s != "" && s[0] in " \t\r\n/"
  {
    assert GoodFiller(sp[0]);
  }

  lemma BlankDelimits(c: char)
    requires c in " \t\r\n/,]}:"
    ensures !TokenChar(c)
  {
    Digits(c);
    Lower(c);
    Upper(c);
  }

  /** A mark with white space and comments in front of it. */
  lemma MarkAt(sp: Space, c: char, rest: string)
    requires GoodSpace(sp) && c in ",]}:"
    ensures var s := FillAll(sp, [c] + rest);
      SkipSpaces(s) == [c] + rest && Delimits(s) && Delimits([c] + rest) && (c != ':' ==> Ends(s))
  {
    hide TokenChar;
    SkipFillers(sp, [c] + rest);
    BlankDelimits(c);
    if sp != [] {
      FillFirst(sp, [c] + rest);
      BlankDelimits(FillAll(sp, [c] + rest)[0]);
    }
  }

  lemma SkipAt(s: string, c: char, rest: string)
    requires SkipSpaces(s) == [c] + rest
    ensures Skip(s, c) == Some(SkipSpaces(rest))
    ensures forall d | d != c :: Skip(s, d) == None
  {
    assert ([c] + rest)[1..] == rest;
  }

  /** A word in front of a mark. */
  lemma WordAt(w: Word, post: string)
    requires GoodWord(w) && Delimits(post) && Delimits(SkipSpaces(post))
    ensures var s := SkipSpaces(SpellWord(w, post));
      ReadString(s).text == MeanWord(w) && SkipSpaces(ReadString(s).rest) == SkipSpaces(post) &&
      (s != "" && IsQuote(s[0]) <==> w.Quoted?) &&
      (w != Token("") ==> s != "" && s[0] !in "[]{},:") && (w == Token("") ==> s == SkipSpaces(post))
  {
    hide ReadString, MeanWord, TokenChar;
    JsonSpread.SkipTwice(post);
    if w == Token("") {
      assert SpellWord(w, post) == post && SpellWord(w, SkipSpaces(post)) == SkipSpaces(post);
      WordRead(w, SkipSpaces(post));
    } else {
      WordRead(w, post);
      WordFirst(w, post);
    }
  }

  lemma WordFirst(w: Word, post: string)
    requires GoodWord(w) && w != Token("")
    ensures var s := SpellWord(w, post);
      s != "" && SkipSpaces(s) == s && (IsQuote(s[0]) <==> w.Quoted?) && s[0] !in "[]{},:"
  {
    hide TokenChar;
    match w
    case Quoted(_, _) =>
    case Token(x) => TokenFirst(x[0]);
  }

  lemma TokenFirst(c: char)
    requires TokenChar(c)
    ensures !IsSpace(c) && !IsQuote(c) && c != '/' && c !in "[]{},:"
  {
    TokenChars(c);
    hide TokenChar;
  }

  lemma ValueSkips(s: string, limit: nat, memory: nat)
    ensures ParseValue(SkipSpaces(s), limit, memory) == ParseValue(s, limit, memory)
  {
    hide ParseValue, SkipSpaces, ParseScalar, ParseArray, ParseObject;
    JsonSpread.SkipTwice(s);
    ValueTurn(s, limit, memory);
    ValueTurn(SkipSpaces(s), limit, memory);
  }

  // ---- every text of the grammar is read as what it means ----

  ghost predicate ValueRead(v: Form, post: string, limit: nat, memory: nat) {
    var e := Mean(v);
    RT.Reads(ParseValue(Spell(v, post), limit, memory),
             Depth(e) <= limit && Cells(e) <= memory, Normal(e), post, memory - Cells(e))
  }

  lemma ScalarRead(w: Word, post: string, limit: nat, memory: nat)
    requires GoodWord(w) && Ends(post) && limit > 0
    ensures ValueRead(Scalar(w), post, limit, memory)
  {
    hide ReadString, SkipSpaces, MeanWord, TokenChar, SpellWord;
    var u := SkipSpaces(post);
    if u != "" { BlankDelimits(u[0]); }
    WordAt(w, post);
    ValueTurn(SpellWord(w, post), limit, memory);
  }

  lemma NoLimit(v: Form, post: string, memory: nat)
    ensures ValueRead(v, post, 0, memory)
  {
    hide ParseArray, ParseObject, ParseScalar, Spell, SkipSpaces;
  }

  ghost predicate ArrayRead(v: Form, post: string, limit: nat, memory: nat) {
    var e := Mean(v);
    ParseArray(Spell(v, post), limit, memory) ==
    if Depth(e) <= limit + 1 && Cells(e) <= memory then Ok(Normal(e), SkipSpaces(post), memory - Cells(e)) else Fail
  }

  ghost predicate ObjectRead(v: Form, post: string, limit: nat, memory: nat) {
    var e := Mean(v);
    ParseObject(Spell(v, post), limit, memory) ==
    if Depth(e) <= limit + 1 && Cells(e) <= memory then Ok(Normal(e), SkipSpaces(post), memory - Cells(e)) else Fail
  }

  lemma ArrayValue(v: Form, post: string, limit: nat, memory: nat)
    requires (v.NoItems? || v.Array?) && limit > 0 && ArrayRead(v, post, limit - 1, memory)
    ensures ValueRead(v, post, limit, memory)
  {
    var s := Spell(v, post);
    assert s != "" && s[0] == '[';
    NotSkipped(s);
    hide ParseArray, ParseObject, ParseScalar, Spell, Mean, Depth, Cells, Normal, SkipSpaces, ParseValue;
    JsonSpread.SkipTwice(post);
    ValueTurn(s, limit, memory);
  }

  lemma NotSkipped(s: string)
    requires s != "" && s[0] in "[{"
    ensures SkipSpaces(s) == s
  {
  }

  lemma ObjectValue(v: Form, post: string, limit: nat, memory: nat)
    requires (v.NoPairs? || v.Object?) && limit > 0 && ObjectRead(v, post, limit - 1, memory)
    ensures ValueRead(v, post, limit, memory)
  {
    var s := Spell(v, post);
    assert s != "" && s[0] == '{';
    NotSkipped(s);
    hide ParseArray, ParseObject, ParseScalar, Spell, Mean, Depth, Cells, Normal, SkipSpaces, ParseValue;
    JsonSpread.SkipTwice(post);
    ValueTurn(s, limit, memory);
  }

  /** Wherever it stands, a value of the grammar is read as what it means, exactly when limit and memory suffice. */
  lemma {:induction false} ReadForm(v: Form, post: string, limit: nat, memory: nat)
    requires Good(v) && Ends(post)
    ensures ValueRead(v, post, limit, memory)
    decreases v, 1
  {
    hide ValueRead, ArrayRead, ObjectRead, Ends;
    if limit == 0 {
      NoLimit(v, post, memory);
    } else {
      match v
      case Scalar(w) => ScalarRead(w, post, limit, memory);
      case NoItems(_) =>
        ReadArrayForm(v, post, limit - 1, memory);
        ArrayValue(v, post, limit, memory);
      case Array(_, _) =>
        ReadArrayForm(v, post, limit - 1, memory);
        ArrayValue(v, post, limit, memory);
      case NoPairs(_) =>
        ReadObjectForm(v, post, limit - 1, memory);
        ObjectValue(v, post, limit, memory);
      case Object(_, _) =>
        ReadObjectForm(v, post, limit - 1, memory);
        ObjectValue(v, post, limit, memory);
    }
  }

  /** Behind an opening bracket. */
  lemma Opened(c: char, sp: Space, rest: string)
    requires GoodSpace(sp) && c in "[{"
    ensures Skip([c] + FillAll(sp, rest), c) == Some(SkipSpaces(rest))
  {
    var s := [c] + FillAll(sp, rest);
    NotSkipped(s);
    SkipAt(s, c, FillAll(sp, rest));
    SkipFillers(sp, rest);
  }

  lemma {:induction false} ReadArrayForm(v: Form, post: string, limit: nat, memory: nat)
    requires Good(v) && (v.NoItems? || v.Array?)
    ensures ArrayRead(v, post, limit, memory)
    decreases v, 0
  {
    hide ParseArray, ParseItems, SkipSpaces, Skip, GoodItems, SpellItems, MeanItems, Depth, Cells;
    ArrayTurn(Spell(v, post), limit, memory);
    match v
    case NoItems(sp) =>
      Opened('[', sp, [']'] + post);
      MarkAt([], ']', post);
      JsonSpread.SkipTwice([']'] + post);
      SkipAt([']'] + post, ']', post);
      EmptyNeeds();
    case Array(sp, items) =>
      Opened('[', sp, SpellItems(items, post));
      ItemsFirst(items, post);
      ArrayNeeds(MeanItems(items));
      if memory > 0 { ReadItemForms(items, post, limit, memory - 1, []); }
  }

  lemma EmptyNeeds()
    ensures Depth(Arr([])) == 1 == Depth(Obj([])) && Cells(Arr([])) == 1 == Cells(Obj([]))
    ensures Normal(Arr([])) == Arr([]) && Normal(Obj([])) == Obj([])
  {
  }

  lemma ArrayNeeds(es: seq<Json>)
    ensures Depth(Arr(es)) == 1 + DepthItems(es) && Cells(Arr(es)) == 1 + CellsItems(es)
    ensures Normal(Arr(es)) == Arr(NormalItems(es, []))
  {
  }

  lemma ObjectNeeds(es: seq<Member>)
    ensures Depth(Obj(es)) == 1 + DepthMembers(es) && Cells(Obj(es)) == 1 + CellsMembers(es, [])
    ensures Normal(Obj(es)) == Obj(NormalMembers(es, []))
  {
  }

  /** A list of elements does not begin with its closing bracket. */
  lemma ItemsFirst(l: Items, post: string)
    requires GoodItems(l) && (l.MoreItems? || l.value != Scalar(Token("")))
    ensures Skip(SkipSpaces(SpellItems(l, post)), ']') == None
  {
    hide SkipSpaces;
    var c := if l.MoreItems? then ',' else ']';
    var tail := if l.MoreItems? then FillAll(l.after, SpellItems(l.rest, post)) else post;
    var more := FillAll(l.before, [c] + tail);
    MarkAt(l.before, c, tail);
    JsonSpread.SkipTwice(SpellItems(l, post));
    match l.value
    case Scalar(w) => WordAt(w, more);
    case _ => NotSkipped(Spell(l.value, more));
  }

  lemma PairsFirst(l: Pairs, post: string)
    requires GoodPairs(l)
    ensures Skip(SkipSpaces(SpellPairs(l, post)), '}') == None
  {
    hide SkipSpaces;
    var p := l.pair;
    var c := if l.MorePairs? then ',' else '}';
    var tail := if l.MorePairs? then FillAll(l.after, SpellPairs(l.rest, post)) else post;
    var value := FillAll(p.after, Spell(p.value, FillAll(l.before, [c] + tail)));
    MarkAt(p.before, ':', value);
    JsonSpread.SkipTwice(SpellPairs(l, post));
    WordAt(p.key, FillAll(p.before, [':'] + value));
  }

  ghost predicate ItemsRead(l: Items, post: string, limit: nat, memory: nat, acc: seq<Json>) {
    var e := MeanItems(l);
    ParseItems(SkipSpaces(SpellItems(l, post)), limit, memory, acc) ==
    if DepthItems(e) <= limit && CellsItems(e) <= memory
    then Ok(Arr(NormalItems(e, acc)), SkipSpaces(post), memory - CellsItems(e)) else Fail
  }

  lemma {:induction false} ReadItemForms(l: Items, post: string, limit: nat, memory: nat, acc: seq<Json>)
    requires GoodItems(l)
    ensures ItemsRead(l, post, limit, memory, acc)
    decreases l, 0
  {
    hide ParseItems, ParseValue, SkipSpaces, Skip, Spell, Depth, Cells, Normal, Ends;
    var s := SkipSpaces(SpellItems(l, post));
    ItemsTurn(s, limit, memory, acc);
    match l
    case LastItem(v, before) =>
      var more := FillAll(before, [']'] + post);
      MarkAt(before, ']', post);
      ReadForm(v, more, limit, memory);
      ValueSkips(Spell(v, more), limit, memory);
      RT.ItemsCons(Mean(v), [], acc);
      assert [Mean(v)] + [] == [Mean(v)];
      var r := ParseValue(s, limit, memory);
      if r.Ok? { SkipAt(r.rest, ']', post); }
    case MoreItems(v, before, after, rest) =>
      var tail := FillAll(after, SpellItems(rest, post));
      var more := FillAll(before, [','] + tail);
      MarkAt(before, ',', tail);
      ReadForm(v, more, limit, memory);
      ValueSkips(Spell(v, more), limit, memory);
      RT.ItemsCons(Mean(v), MeanItems(rest), acc);
      var r := ParseValue(s, limit, memory);
      if r.Ok? {
        SkipAt(r.rest, ',', tail);
        SkipFillers(after, SpellItems(rest, post));
        if r.memory > 0 { ReadItemForms(rest, post, limit, r.memory - 1, acc + [r.value]); }
      }
  }

  lemma {:induction false} ReadObjectForm(v: Form, post: string, limit: nat, memory: nat)
    requires Good(v) && (v.NoPairs? || v.Object?)
    ensures ObjectRead(v, post, limit, memory)
    decreases v, 0
  {
    hide ParseObject, ParseMembers, SkipSpaces, Skip, GoodPairs, SpellPairs, MeanPairs, Depth, Cells;
    ObjectTurn(Spell(v, post), limit, memory);
    match v
    case NoPairs(sp) =>
      Opened('{', sp, ['}'] + post);
      MarkAt([], '}', post);
      JsonSpread.SkipTwice(['}'] + post);
      SkipAt(['}'] + post, '}', post);
      EmptyNeeds();
    case Object(sp, pairs) =>
      Opened('{', sp, SpellPairs(pairs, post));
      PairsFirst(pairs, post);
      ObjectNeeds(MeanPairs(pairs));
      if memory > 0 { ReadPairForms(pairs, post, limit, memory - 1, []); }
  }

  ghost predicate PairRead(p: Pair, post: string, limit: nat, memory: nat) {
    var e := MeanPair(p);
    var r := ParseMember(SkipSpaces(SpellPair(p, post)), limit, memory);
    r.Ok? == (Depth(e.value) <= limit && Cells(e.value) <= memory) &&
    (r.Ok? ==> r.value == Member(e.key, Normal(e.value)) && SkipSpaces(r.rest) == SkipSpaces(post) &&
               r.memory == memory - Cells(e.value))
  }

  lemma {:induction false} ReadPairForm(p: Pair, post: string, limit: nat, memory: nat)
    requires GoodPair(p) && Ends(post)
    ensures PairRead(p, post, limit, memory)
    decreases p, 0
  {
    hide ParseMember, ParseValue, SkipSpaces, Skip, Spell, Depth, Cells, Normal, Ends, ReadString, MeanWord;
    var value := Spell(p.value, post);
    var tail := FillAll(p.after, value);
    var s := SkipSpaces(SpellPair(p, post));
    MarkAt(p.before, ':', tail);
    WordAt(p.key, FillAll(p.before, [':'] + tail));
    MemberTurn(s, limit, memory);
    SkipAt(ReadString(s).rest, ':', tail);
    SkipFillers(p.after, value);
    ReadForm(p.value, post, limit, memory);
    ValueSkips(value, limit, memory);
  }

  ghost predicate PairsRead(l: Pairs, post: string, limit: nat, memory: nat, acc: seq<Member>) {
    var e := MeanPairs(l);
    ParseMembers(SkipSpaces(SpellPairs(l, post)), limit, memory, acc) ==
    if DepthMembers(e) <= limit && CellsMembers(e, acc) <= memory
    then Ok(Obj(NormalMembers(e, acc)), SkipSpaces(post), memory - CellsMembers(e, acc)) else Fail
  }

  lemma {:induction false} ReadPairForms(l: Pairs, post: string, limit: nat, memory: nat, acc: seq<Member>)
    requires GoodPairs(l)
    ensures PairsRead(l, post, limit, memory, acc)
    decreases l, 0
  {
    hide ParseMembers, ParseMember, SkipSpaces, Skip, SpellPair, Depth, Cells, Normal, Ends, Put, NewCells;
    var s := SkipSpaces(SpellPairs(l, post));
    MembersTurn(s, limit, memory, acc);
    match l
    case LastPair(p, before) =>
      var more := FillAll(before, ['}'] + post);
      MarkAt(before, '}', post);
      ReadPairForm(p, more, limit, memory);
      RT.MembersCons(MeanPair(p), [], acc);
      assert [MeanPair(p)] + [] == [MeanPair(p)];
      var r := ParseMember(s, limit, memory);
      if r.Ok? { SkipAt(r.rest, '}', post); }
    case MorePairs(p, before, after, rest) =>
      var tail := FillAll(after, SpellPairs(rest, post));
      var more := FillAll(before, [','] + tail);
      MarkAt(before, ',', tail);
      ReadPairForm(p, more, limit, memory);
      RT.MembersCons(MeanPair(p), MeanPairs(rest), acc);
      var r := ParseMember(s, limit, memory);
      if r.Ok? {
        SkipAt(r.rest, ',', tail);
        SkipFillers(after, SpellPairs(rest, post));
        var cells := NewCells(acc, r.value.key);
        if cells <= r.memory {
          ReadPairForms(rest, post, limit, r.memory - cells, Put(acc, r.value.key, r.value.value));
        }
      }
  }

  // ---- and nothing else is accepted ----

  /** The form of a value in front of something else, and what follows it. */
  lemma {:induction false} FormOf(s: string, limit: nat, memory: nat) returns (v: Form, post: string)
    requires SkipSpaces(s) == s && ParseValue(s, limit, memory).Ok?
    requires SkipSpaces(ParseValue(s, limit, memory).rest) != ""
    ensures Good(v) && s == Spell(v, post) && SkipSpaces(post) == SkipSpaces(ParseValue(s, limit, memory).rest)
    decreases limit, |s|, 0
  {
    hide ParseArray, ParseObject, ReadString, SkipSpaces, SpellWord, MeanWord;
    ValueTurn(s, limit, memory);
    EmptyStays();
    if s != "" && s[0] == '[' {
      v, post := ArrayOf(s, limit - 1, memory);
      JsonSpread.SkipTwice(post);
    } else if s != "" && s[0] == '{' {
      v, post := ObjectOf(s, limit - 1, memory);
      JsonSpread.SkipTwice(post);
    } else {
      var w := WordOf(s);
      v, post := Scalar(w), ReadString(s).rest;
    }
  }

  lemma EmptyStays()
    ensures SkipSpaces("") == ""
  {
  }

  lemma Behind(s: string, c: char)
    requires Skip(s, c).Some?
    ensures var u := SkipSpaces(s); u != "" && u == [c] + u[1..] && Skip(s, c).value == SkipSpaces(u[1..])
  {
  }

  lemma {:induction false} ArrayOf(s: string, limit: nat, memory: nat) returns (v: Form, post: string)
    requires s != "" && s[0] == '[' && ParseArray(s, limit, memory).Ok?
    ensures Good(v) && (v.NoItems? || v.Array?) && s == Spell(v, post)
    ensures SkipSpaces(post) == ParseArray(s, limit, memory).rest
    decreases limit, |s|, 2
  {
    hide ParseArray, ParseItems, SkipSpaces, Skip, SpellItems, GoodItems;
    ArrayTurn(s, limit, memory);
    NotSkipped(s);
    Behind(s, '[');
    var r := SkipSpaces(s[1..]);
    JsonSpread.SkipTwice(s[1..]);
    if Skip(r, ']').Some? {
      Behind(r, ']');
      var sp := SkippedIsSpace(s[1..]);
      v, post := NoItems(sp), r[1..];
    } else {
      var items;
      items, post := ItemsOf(r, limit, memory - 1, []);
      var sp := SkippedIsSpace(s[1..]);
      v := Array(sp, items);
      if items == LastItem(Scalar(Token("")), items.before) { NotClosed(r, items.before, post); }
    }
  }

  lemma NotClosed(r: string, before: Space, post: string)
    requires SkipSpaces(r) == r && Skip(r, ']') == None && GoodItems(LastItem(Scalar(Token("")), before))
    ensures r != SpellItems(LastItem(Scalar(Token("")), before), post)
  {
    hide SkipSpaces;
    MarkAt(before, ']', post);
    if r == SpellItems(LastItem(Scalar(Token("")), before), post) {
      var more := FillAll(before, [']'] + post);
      assert SpellItems(LastItem(Scalar(Token("")), before), post) == "" + more == more;
      SkipAt(r, ']', post);
    }
  }

  lemma {:induction false} ItemsOf(s: string, limit: nat, memory: nat, acc: seq<Json>) returns (l: Items, post: string)
    requires SkipSpaces(s) == s && ParseItems(s, limit, memory, acc).Ok?
    ensures s != "" && GoodItems(l) && s == SpellItems(l, post)
    ensures SkipSpaces(post) == ParseItems(s, limit, memory, acc).rest
    decreases limit, |s|, 1
  {
    hide ParseValue, ParseItems, SkipSpaces, Skip, Spell, Good;
    ItemsTurn(s, limit, memory, acc);
    var r := ParseValue(s, limit, memory);
    var c := if Skip(r.rest, ']').Some? then ']' else ',';
    Behind(r.rest, c);
    var v, q := FormOf(s, limit, memory);
    var u := SkipSpaces(q);
    var before := SkippedIsSpace(q);
    if c == ']' {
      l, post := LastItem(v, before), u[1..];
    } else {
      JsonSpread.SkipTwice(u[1..]);
      var more;
      more, post := ItemsOf(SkipSpaces(u[1..]), limit, r.memory - 1, acc + [r.value]);
      var after := SkippedIsSpace(u[1..]);
      l := MoreItems(v, before, after, more);
    }
  }

  lemma {:induction false} ObjectOf(s: string, limit: nat, memory: nat) returns (v: Form, post: string)
    requires s != "" && s[0] == '{' && ParseObject(s, limit, memory).Ok?
    ensures Good(v) && (v.NoPairs? || v.Object?) && s == Spell(v, post)
    ensures SkipSpaces(post) == ParseObject(s, limit, memory).rest
    decreases limit, |s|, 3
  {
    hide ParseObject, ParseMembers, SkipSpaces, Skip, SpellPairs, GoodPairs;
    ObjectTurn(s, limit, memory);
    NotSkipped(s);
    Behind(s, '{');
    var r := SkipSpaces(s[1..]);
    JsonSpread.SkipTwice(s[1..]);
    if Skip(r, '}').Some? {
      Behind(r, '}');
      var sp := SkippedIsSpace(s[1..]);
      v, post := NoPairs(sp), r[1..];
    } else {
      var pairs;
      pairs, post := PairsOf(r, limit, memory - 1, []);
      var sp := SkippedIsSpace(s[1..]);
      v := Object(sp, pairs);
    }
  }

  lemma {:induction false} PairOf(s: string, limit: nat, memory: nat) returns (p: Pair, post: string)
    requires SkipSpaces(s) == s && ParseMember(s, limit, memory).Ok?
    requires SkipSpaces(ParseMember(s, limit, memory).rest) != ""
    ensures s != "" && GoodPair(p) && s == SpellPair(p, post)
    ensures SkipSpaces(post) == SkipSpaces(ParseMember(s, limit, memory).rest)
    decreases limit, |s|, 1
  {
    hide ParseValue, ParseMember, ReadString, SkipSpaces, Skip, Spell, SpellWord, Good, MeanWord;
    MemberTurn(s, limit, memory);
    EmptyStays();
    var key := ReadString(s);
    Behind(key.rest, ':');
    var w := WordOf(s);
    var u := SkipSpaces(key.rest);
    var before := SkippedIsSpace(key.rest);
    JsonSpread.SkipTwice(u[1..]);
    ValueNotEmpty(SkipSpaces(u[1..]), limit, memory);
    var v;
    v, post := FormOf(SkipSpaces(u[1..]), limit, memory);
    var after := SkippedIsSpace(u[1..]);
    p := Pair(w, before, after, v);
  }

  /** A value in front of something is not read from nothing. */
  lemma ValueNotEmpty(s: string, limit: nat, memory: nat)
    ensures var r := ParseValue(s, limit, memory); r.Ok? && SkipSpaces(r.rest) != "" ==> s != ""
  {
  }

  lemma {:induction false} PairsOf(s: string, limit: nat, memory: nat, acc: seq<Member>)
    returns (l: Pairs, post: string)
    requires SkipSpaces(s) == s && ParseMembers(s, limit, memory, acc).Ok?
    ensures s != "" && GoodPairs(l) && s == SpellPairs(l, post)
    ensures SkipSpaces(post) == ParseMembers(s, limit, memory, acc).rest
    decreases limit, |s|, 2
  {
    hide ParseMember, ParseMembers, SkipSpaces, Skip, SpellPair, GoodPair, Put, NewCells;
    MembersTurn(s, limit, memory, acc);
    var r := ParseMember(s, limit, memory);
    var c := if Skip(r.rest, '}').Some? then '}' else ',';
    Behind(r.rest, c);
    var p, q := PairOf(s, limit, memory);
    var u := SkipSpaces(q);
    var before := SkippedIsSpace(q);
    if c == '}' {
      l, post := LastPair(p, before), u[1..];
    } else {
      JsonSpread.SkipTwice(u[1..]);
      var more;
      more, post := PairsOf(SkipSpaces(u[1..]), limit, r.memory - NewCells(acc, r.value.key),
                            Put(acc, r.value.key, r.value.value));
      var after := SkippedIsSpace(u[1..]);
      l := MorePairs(p, before, after, more);
    }
  }

  // ---- documents ----

  /** `s` is white space, one array or object of the grammar, and `post`. */
  ghost predicate Written(s: string, asArray: bool, lead: Space, v: Form, post: string) {
    GoodSpace(lead) && Good(v) && s == FillAll(lead, Spell(v, post)) &&
    (if asArray then v.NoItems? || v.Array? else v.NoPairs? || v.Object?)
  }

  /** A nesting limit of one less than the depth and one allocation per cell are enough. */
  predicate Affordable(v: Form, limit: nat, memory: nat) { Depth(Mean(v)) <= limit + 1 && Cells(Mean(v)) <= memory }

  /** Whatever is written by the grammar parses to what it means, with repeated keys merged, exactly when limit and
      memory suffice; what is left is what follows it, without white space in front. */
  lemma ReadDocument(s: string, asArray: bool, lead: Space, v: Form, post: string, limit: nat, memory: nat)
    requires Written(s, asArray, lead, v, post)
    ensures D.ParseDocument(s, asArray, limit, memory) ==
      if Affordable(v, limit, memory) then Ok(Normal(Mean(v)), SkipSpaces(post), memory - Cells(Mean(v))) else Fail
  {
    var t := Spell(v, post);
    NotSkipped(t);
    SkipFillers(lead, t);
    hide ParseArray, ParseObject, Spell, SkipSpaces, Mean, Depth, Cells, Normal;
    D.ParseSkips(s, asArray, limit, memory);
    if asArray { ReadArrayForm(v, post, limit, memory); } else { ReadObjectForm(v, post, limit, memory); }
  }

  ghost predicate Readable(s: string, asArray: bool, limit: nat, memory: nat) {
    exists lead, v, post :: Written(s, asArray, lead, v, post) && Affordable(v, limit, memory)
  }

  /** The parser accepts a text exactly if it begins with an array or object of the grammar that limit and memory
      suffice for. */
  lemma AcceptsIff(s: string, asArray: bool, limit: nat, memory: nat)
    ensures D.ParseDocument(s, asArray, limit, memory).Ok? <==> Readable(s, asArray, limit, memory)
  {
    hide ParseArray, ParseObject, Spell, SkipSpaces, Affordable, Written;
    if D.ParseDocument(s, asArray, limit, memory).Ok? {
      var lead, v, post := DocumentOf(s, asArray, limit, memory);
      ReadDocument(s, asArray, lead, v, post, limit, memory);
      assert Written(s, asArray, lead, v, post) && Affordable(v, limit, memory);
    }
    if lead, v, post :| Written(s, asArray, lead, v, post) && Affordable(v, limit, memory) {
      ReadDocument(s, asArray, lead, v, post, limit, memory);
    }
  }

  lemma DocumentOf(s: string, asArray: bool, limit: nat, memory: nat) returns (lead: Space, v: Form, post: string)
    requires D.ParseDocument(s, asArray, limit, memory).Ok?
    ensures Written(s, asArray, lead, v, post)
  {
    hide SkipSpaces, Spell, ParseItems, ParseMembers;
    var t := SkipSpaces(s);
    D.ParseSkips(s, asArray, limit, memory);
    JsonSpread.SkipTwice(s);
    lead := SkippedIsSpace(s);
    if asArray { v, post := ArrayOf(t, limit, memory); } else { v, post := ObjectOf(t, limit, memory); }
  }

  // ---- single texts ----

  /** Between brackets, characters of a token are one token. */
  lemma TokenAlone(x: string, limit: nat, memory: nat)
    requires x != "" && forall i | 0 <= i < |x| :: TokenChar(x[i])
    ensures ParseArray("[" + x + "]", limit, memory) ==
      if limit >= 1 && memory >= 2 then Ok(Arr([Raw(x)]), "", memory - 2) else Fail
  {
    hide TokenChar, ParseArray;
    OneWord(Token(x), limit, memory);
    assert "[" + x + "]" == ['['] + (x + ([']'] + ""));
  }

  /** Brackets around one value. */
  lemma AroundText(v: Form, post: string)
    requires Good(v) && v != Scalar(Token(""))
    ensures var a := Array([], LastItem(v, [])); Good(a) && Spell(a, post) == ['['] + Spell(v, [']'] + post)
    ensures Mean(Array([], LastItem(v, []))) == Arr([Mean(v)])
  {
    var items := LastItem(v, []);
    FillNone([']'] + post);
    FillNone(SpellItems(items, post));
    assert GoodItems(items) && SpellItems(items, post) == Spell(v, FillAll([], [']'] + post));
    assert MeanItems(items) == [Mean(v)];
  }

  lemma FillNone(rest: string)
    ensures FillAll([], rest) == rest
  {
  }

  lemma OneWord(w: Word, limit: nat, memory: nat)
    requires GoodWord(w) && w != Token("")
    ensures var e := if w.Quoted? then Str(MeanWord(w)) else Raw(MeanWord(w));
      ParseArray(['['] + SpellWord(w, [']'] + ""), limit, memory) ==
      if limit >= 1 && memory >= 2 then Ok(Arr([e]), "", memory - 2) else Fail
  {
    hide ParseArray, TokenChar, SpellWord, MeanWord;
    var v := Array([], LastItem(Scalar(w), []));
    AroundText(Scalar(w), "");
    ReadArrayForm(v, "", limit, memory);
    OneNeeds(Mean(Scalar(w)));
    EmptyStays();
  }

  lemma OneNeeds(e: Json)
    requires e.Str? || e.Raw?
    ensures Depth(Arr([e])) == 2 && Cells(Arr([e])) == 2 && Normal(Arr([e])) == Arr([e])
  {
    RT.ItemsCons(e, [], []);
    assert [e] + [] == [e] && [] + [e] == [e];
  }

  /** At any other character a token ends; if that is not white space, a comment, a comma or the bracket, the
      array is refused. */
  lemma TokenCut(x: string, c: char, rest: string, limit: nat, memory: nat)
    requires x != "" && (forall i | 0 <= i < |x| :: TokenChar(x[i])) && !TokenChar(c) && c !in " \t\r\n/,]"
    ensures ParseArray("[" + (x + ([c] + rest)), limit, memory) == Fail
  {
    hide TokenChar;
    var s, t := "[" + (x + ([c] + rest)), x + ([c] + rest);
    assert s[0] == '[' && s[1..] == t && t[0] == x[0];
    TokenFirst(x[0]);
    CutToken(x, c, rest);
    assert SkipSpaces(t) == t && Skip(t, ']') == None;
    var r := ReadString(t);
    assert r == Scanned(x, [c] + rest);
    assert SkipSpaces(r.rest) == r.rest;
    ArrayTurn(s, limit, memory);
    if memory > 0 {
      ItemsTurn(t, limit, memory - 1, []);
      ValueTurn(t, limit, memory - 1);
    }
  }

  /** A quoted text, in either kind of quotes, is read up to the same quote. */
  lemma QuotedAlone(quote: char, x: string, limit: nat, memory: nat)
    requires (quote == '\'' || quote == '\"') && quote !in x && '\\' !in x
    ensures ParseArray("[" + [quote] + x + [quote] + "]", limit, memory) ==
      if limit >= 1 && memory >= 2 then Ok(Arr([Str(x)]), "", memory - 2) else Fail
  {
    hide ParseArray;
    var w := Quoted(quote, PlainPieces(x));
    PlainPiecesAre(x, [quote] + ([']'] + ""));
    OneWord(w, limit, memory);
    assert "[" + [quote] + x + [quote] + "]" == ['['] + ([quote] + (x + ([quote] + ([']'] + ""))));
  }

  function PlainPieces(x: string): (ps: seq<Piece>)
    ensures |ps| == |x| && forall i | 0 <= i < |x| :: ps[i] == Plain(x[i])
  {
    seq(|x|, i requires 0 <= i < |x| => Plain(x[i]))
  }

  lemma {:induction false} PlainPiecesAre(x: string, rest: string)
    ensures SpellPieces(PlainPieces(x), rest) == x + rest && MeanPieces(PlainPieces(x)) == x
    decreases |x|
  {
    if x == "" {
      assert x + rest == rest;
    } else {
      PlainPiecesAre(x[1..], rest);
      assert PlainPieces(x)[1..] == PlainPieces(x[1..]);
      assert x == [x[0]] + x[1..];
    }
  }

  // ---- how deep ----

  /** `n` empty arrays, one inside the other. */
  function Nested(n: nat): string
    requires n > 0
  {
    if n == 1 then "[]" else "[" + Nested(n - 1) + "]"
  }

  function NestedForm(n: nat): (v: Form)
    requires n > 0
    ensures v.NoItems? || v.Array?
  {
    if n == 1 then NoItems([]) else Array([], LastItem(NestedForm(n - 1), []))
  }

  lemma AroundOne(v: Form, post: string)
    requires Good(v) && (v.NoItems? || v.Array?)
    ensures var a := Array([], LastItem(v, [])); Good(a) && Spell(a, post) == ['['] + Spell(v, [']'] + post)
    ensures var a, e := Mean(Array([], LastItem(v, []))), Mean(v);
      Depth(a) == 1 + Depth(e) && Cells(a) == 2 + Cells(e) && (Normal(e) == e ==> Normal(a) == a)
  {
    hide Good, Spell, Depth, Cells, Normal;
    var e := Mean(v);
    AroundText(v, post);
    ArrayNeeds([e]);
    RT.ItemsCons(e, [], []);
    assert [e] + [] == [e] && [] + [e] == [e];
  }

  lemma {:induction false} NestedIs(n: nat, post: string)
    requires n > 0
    ensures Good(NestedForm(n)) && Spell(NestedForm(n), post) == Nested(n) + post
    ensures var e := Mean(NestedForm(n)); Depth(e) == n && Cells(e) == 2 * n - 1 && Normal(e) == e
  {
    if n > 1 {
      NestedIs(n - 1, [']'] + post);
      AroundOne(NestedForm(n - 1), post);
      assert "[" + Nested(n - 1) + "]" + post == ['['] + (Nested(n - 1) + ([']'] + post));
    } else {
      EmptyNeeds();
      assert "[]" + post == ['['] + ([']'] + post);
    }
  }

  /** `n` nested arrays need a limit of `n - 1`, and 2n - 1 allocations: one for each array, and one for each
      that is an element. */
  lemma NestingLimit(n: nat, limit: nat, memory: nat)
    requires n > 0
    ensures ParseArray(Nested(n), limit, memory).Ok? <==> n <= limit + 1 && 2 * n - 1 <= memory
  {
    hide ParseArray, Nested;
    NestedIs(n, "");
    assert Nested(n) + "" == Nested(n);
    ReadArrayForm(NestedForm(n), "", limit, memory);
  }
}
