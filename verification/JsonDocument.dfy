/** A writer takes the compact text one character at a time and may put blanks around it. For every writer that
    is gentle with tokens and escapes, its output parses to the tree that it stands for. */
module JsonDocument {
  import opened JsonText
  import opened JsonReader
  import opened JsonSpread
  import opened JsonRoundTrip

  type Step<!S> = (S, char) -> (S, Chunk)

  /** The letters that may follow a backslash. */
  predicate IsEscapeLetter(c: char) { c in "\"\\bfnrt" }

  /** The writer leaves characters alone, adds only blanks, and none between a backslash and its letter
      or between two characters of a token. */
  ghost predicate Gentle<S(!new)>(step: Step<S>) {
    forall s: S, c: char :: GentleWith(step, s, c)
  }

  ghost predicate GentleWith<S>(step: Step<S>, s: S, c: char) {
    var (s', k) := step(s, c);
    Mark(k, c) &&
    (c == '\\' || IsLetterOrNumber(c) ==> k.after == "") &&
    forall d {:trigger step(s', d)} |
      (c == '\\' && IsEscapeLetter(d)) || (IsLetterOrNumber(c) && IsLetterOrNumber(d)) ::
      step(s', d).1.before == ""
  }

  /** Output for `text`, followed by `rest`. */
  function Run<S>(step: Step<S>, s: S, text: string, rest: string): string {
    if text == "" then rest
    else Spell(step(s, text[0]).1, Run(step, step(s, text[0]).0, text[1..], rest))
  }

  function After<S>(step: Step<S>, s: S, text: string): S {
    if text == "" then s else After(step, step(s, text[0]).0, text[1..])
  }

  function Chunks<S>(step: Step<S>, s: S, text: string): (r: seq<Chunk>)
    ensures |r| == |text|
  {
    if text == "" then [] else [step(s, text[0]).1] + Chunks(step, step(s, text[0]).0, text[1..])
  }

  lemma {:induction false} RunConcat<S>(step: Step<S>, s: S, a: string, b: string, rest: string)
    ensures Run(step, s, a + b, rest) == Run(step, s, a, Run(step, After(step, s, a), b, rest))
    ensures After(step, s, a + b) == After(step, After(step, s, a), b)
  {
    if a == "" {
      assert a + b == b;
    } else {
      RunConcat(step, step(s, a[0]).0, a[1..], b, rest);
      assert (a + b)[1..] == a[1..] + b;
    }
  }

  lemma {:induction false} RunChunks<S>(step: Step<S>, s: S, text: string, rest: string)
    ensures Run(step, s, text, rest) == Text(Chunks(step, s, text), rest)
  {
    if text != "" {
      RunChunks(step, step(s, text[0]).0, text[1..], rest);
      assert Chunks(step, s, text)[1..] == Chunks(step, step(s, text[0]).0, text[1..]);
    }
  }

  // ---- the layout a writer gives to a tree ----

  function LiteralOf<S>(step: Step<S>, s: S, x: string): Literal {
    var (s1, open) := step(s, '\"');
    Literal(x, open, Chunks(step, s1, PrintBody(x)), step(After(step, s1, PrintBody(x)), '\"').1)
  }

  function LayoutOf<S>(step: Step<S>, s: S, t: Json): Layout
    decreases t, 1
  {
    match t
    case Str(x) => StrAt(LiteralOf(step, s, x))
    case Raw(x) => RawAt(Chunks(step, s, x))
    case Arr(items) =>
      var (s1, open) := step(s, '[');
      if items == [] then EmptyArrAt(open, step(s1, ']').1) else ArrAt(open, ItemsOf(step, s1, items))
    case Obj(members) =>
      var (s1, open) := step(s, '{');
      if members == [] then EmptyObjAt(open, step(s1, '}').1) else ObjAt(open, MembersOf(step, s1, members))
  }

  function ItemsOf<S>(step: Step<S>, s: S, items: seq<Json>): ItemsAt
    requires items != []
    decreases items, 0
  {
    var s1 := After(step, s, Print(items[0]));
    if |items| == 1 then LastItem(LayoutOf(step, s, items[0]), step(s1, ']').1)
    else
      var (s2, comma) := step(s1, ',');
      MoreItems(LayoutOf(step, s, items[0]), comma, ItemsOf(step, s2, items[1..]))
  }

  function MemberOf<S>(step: Step<S>, s: S, m: Member): MemberAt
    decreases m, 2
  {
    var (s1, colon) := step(After(step, s, Quoted(m.key)), ':');
    MemberAt(LiteralOf(step, s, m.key), colon, LayoutOf(step, s1, m.value))
  }

  function MembersOf<S>(step: Step<S>, s: S, members: seq<Member>): MembersAt
    requires members != []
    decreases members, 0
  {
    var s1 := After(step, s, PrintMember(members[0]));
    if |members| == 1 then LastMember(MemberOf(step, s, members[0]), step(s1, '}').1)
    else
      var (s2, comma) := step(s1, ',');
      MoreMembers(MemberOf(step, s, members[0]), comma, MembersOf(step, s2, members[1..]))
  }

  // ---- the layout spells the output ----

  lemma RunOne<S>(step: Step<S>, s: S, c: char, text: string, rest: string)
    ensures Run(step, s, [c] + text, rest) == Spell(step(s, c).1, Run(step, step(s, c).0, text, rest))
    ensures After(step, s, [c] + text) == After(step, step(s, c).0, text)
  {
    assert ([c] + text)[1..] == text;
  }

  lemma RunLast<S>(step: Step<S>, s: S, text: string, c: char, rest: string)
    ensures var s' := After(step, s, text);
      Run(step, s, text + [c], rest) == Run(step, s, text, Spell(step(s', c).1, rest)) &&
      After(step, s, text + [c]) == step(s', c).0
  {
    RunConcat(step, s, text, [c], rest);
    var s' := After(step, s, text);
    assert [c] == [c] + "";
    RunOne(step, s', c, "", rest);
  }

  lemma LiteralText<S>(step: Step<S>, s: S, x: string, rest: string)
    ensures LiteralOf(step, s, x).Spelling(rest) == Run(step, s, Quoted(x), rest)
  {
    var (s1, open) := step(s, '\"');
    assert Quoted(x) == ['\"'] + (PrintBody(x) + ['\"']);
    RunOne(step, s, '\"', PrintBody(x) + ['\"'], rest);
    RunLast(step, s1, PrintBody(x), '\"', rest);
    RunChunks(step, s1, PrintBody(x), Spell(LiteralOf(step, s, x).close, rest));
  }

  lemma {:induction false} LayoutText<S>(step: Step<S>, s: S, t: Json, rest: string)
    ensures Spelled(LayoutOf(step, s, t), rest) == Run(step, s, Print(t), rest)
    decreases t, 1
  {
    match t
    case Str(x) => LiteralText(step, s, x, rest);
    case Raw(x) => RunChunks(step, s, x, rest);
    case Arr(items) =>
      var s1 := step(s, '[').0;
      assert Print(t) == ['['] + (PrintItems(items) + [']']);
      RunOne(step, s, '[', PrintItems(items) + [']'], rest);
      RunLast(step, s1, PrintItems(items), ']', rest);
      if items != [] { ItemsText(step, s1, items, rest); }
    case Obj(members) =>
      var s1 := step(s, '{').0;
      assert Print(t) == ['{'] + (PrintMembers(members) + ['}']);
      RunOne(step, s, '{', PrintMembers(members) + ['}'], rest);
      RunLast(step, s1, PrintMembers(members), '}', rest);
      if members != [] { MembersText(step, s1, members, rest); }
  }

  lemma {:induction false} ItemsText<S>(step: Step<S>, s: S, items: seq<Json>, rest: string)
    requires items != []
    ensures SpelledItems(ItemsOf(step, s, items), rest) == Run(step, s, PrintItems(items) + [']'], rest)
    decreases items, 0
  {
    var first := Print(items[0]);
    var s1 := After(step, s, first);
    if |items| == 1 {
      RunLast(step, s, first, ']', rest);
      LayoutText(step, s, items[0], Spell(step(s1, ']').1, rest));
    } else {
      var (s2, comma) := step(s1, ',');
      var more := PrintItems(items[1..]) + [']'];
      assert PrintItems(items) + [']'] == first + ([','] + more);
      RunConcat(step, s, first, [','] + more, rest);
      RunOne(step, s1, ',', more, rest);
      ItemsText(step, s2, items[1..], rest);
      LayoutText(step, s, items[0], Spell(comma, Run(step, s2, more, rest)));
    }
  }

  lemma {:induction false} MemberText<S>(step: Step<S>, s: S, m: Member, rest: string)
    ensures SpelledMember(MemberOf(step, s, m), rest) == Run(step, s, PrintMember(m), rest)
    decreases m, 2
  {
    var key := Quoted(m.key);
    var s0 := After(step, s, key);
    var (s1, colon) := step(s0, ':');
    assert PrintMember(m) == key + ([':'] + Print(m.value));
    RunConcat(step, s, key, [':'] + Print(m.value), rest);
    RunOne(step, s0, ':', Print(m.value), rest);
    LayoutText(step, s1, m.value, rest);
    LiteralText(step, s, m.key, Spell(colon, Run(step, s1, Print(m.value), rest)));
  }

  lemma {:induction false} MembersText<S>(step: Step<S>, s: S, members: seq<Member>, rest: string)
    requires members != []
    ensures SpelledMembers(MembersOf(step, s, members), rest) == Run(step, s, PrintMembers(members) + ['}'], rest)
    decreases members, 0
  {
    var first := PrintMember(members[0]);
    var s1 := After(step, s, first);
    if |members| == 1 {
      RunLast(step, s, first, '}', rest);
      MemberText(step, s, members[0], Spell(step(s1, '}').1, rest));
    } else {
      var (s2, comma) := step(s1, ',');
      var more := PrintMembers(members[1..]) + ['}'];
      assert PrintMembers(members) + ['}'] == first + ([','] + more);
      RunConcat(step, s, first, [','] + more, rest);
      RunOne(step, s1, ',', more, rest);
      MembersText(step, s2, members[1..], rest);
      MemberText(step, s, members[0], Spell(comma, Run(step, s2, more, rest)));
    }
  }

  // ---- the layout is valid ----

  lemma GentleAt<S(!new)>(step: Step<S>, s: S, c: char)
    requires Gentle(step)
    ensures Mark(step(s, c).1, c)
    ensures c == '\\' || IsLetterOrNumber(c) ==> step(s, c).1.after == ""
  {
    assert GentleWith(step, s, c);
  }

  lemma GentlePair<S(!new)>(step: Step<S>, s: S, c: char, d: char)
    requires Gentle(step)
    requires (c == '\\' && IsEscapeLetter(d)) || (IsLetterOrNumber(c) && IsLetterOrNumber(d))
    ensures step(s, c).1.after == "" && step(step(s, c).0, d).1.before == ""
  {
    assert GentleWith(step, s, c);
    var q := step(step(s, c).0, d);
  }

  lemma BodyCons(x: string, k: Chunk, ch: seq<Chunk>)
    requires x != "" && !IsEscaped(x[0]) && Mark(k, x[0]) && AllBlank(ch) && SpreadBody(x[1..], ch)
    ensures AllBlank([k] + ch) && SpreadBody(x, [k] + ch)
  {
    assert ([k] + ch)[1..] == ch;
  }

  lemma BodyConsEscape(x: string, k1: Chunk, k2: Chunk, ch: seq<Chunk>)
    requires x != "" && IsEscaped(x[0]) && Mark(k1, '\\') && Mark(k2, Escape(x[0]))
    requires k1.after == "" && k2.before == "" && AllBlank(ch) && SpreadBody(x[1..], ch)
    ensures AllBlank([k1] + ([k2] + ch)) && SpreadBody(x, [k1] + ([k2] + ch))
  {
    var all := [k1] + ([k2] + ch);
    assert all[2..] == ch && all[1] == k2;
    assert forall i | 2 <= i < |all| :: all[i] == ch[i - 2];
  }

  lemma ChunksOne<S>(step: Step<S>, s: S, c: char, text: string)
    ensures Chunks(step, s, [c] + text) == [step(s, c).1] + Chunks(step, step(s, c).0, text)
  {
    assert ([c] + text)[1..] == text;
  }

  lemma PrintBodyEscape(x: string)
    requires x != "" && IsEscaped(x[0])
    ensures PrintBody(x) == ['\\'] + ([Escape(x[0])] + PrintBody(x[1..]))
  {
  }

  lemma PrintBodyPlain(x: string)
    requires x != "" && !IsEscaped(x[0])
    ensures PrintBody(x) == [x[0]] + PrintBody(x[1..])
  {
  }

  lemma {:induction false} BodyValid<S(!new)>(step: Step<S>, s: S, x: string)
    requires Gentle(step)
    ensures AllBlank(Chunks(step, s, PrintBody(x))) && SpreadBody(x, Chunks(step, s, PrintBody(x)))
  {
    if x != "" {
      var more := PrintBody(x[1..]);
      if IsEscaped(x[0]) {
        var d := Escape(x[0]);
        var (s1, k1) := step(s, '\\');
        var (s2, k2) := step(s1, d);
        hide PrintBody, Chunks, SpreadBody;
        PrintBodyEscape(x);
        ChunksOne(step, s, '\\', [d] + more);
        ChunksOne(step, s1, d, more);
        GentleAt(step, s, '\\');
        GentleAt(step, s1, d);
        GentlePair(step, s, '\\', d);
        BodyValid(step, s2, x[1..]);
        BodyConsEscape(x, k1, k2, Chunks(step, s2, more));
      } else {
        hide PrintBody, Chunks, SpreadBody;
        var (s1, k1) := step(s, x[0]);
        PrintBodyPlain(x);
        ChunksOne(step, s, x[0], more);
        GentleAt(step, s, x[0]);
        BodyValid(step, s1, x[1..]);
        BodyCons(x, k1, Chunks(step, s1, more));
      }
    }
  }

  lemma LiteralValid<S(!new)>(step: Step<S>, s: S, x: string)
    requires Gentle(step)
    ensures LiteralOf(step, s, x).Valid()
  {
    var s1 := step(s, '\"').0;
    GentleAt(step, s, '\"');
    BodyValid(step, s1, x);
    GentleAt(step, After(step, s1, PrintBody(x)), '\"');
  }

  lemma TokenCons(k: Chunk, ch: seq<Chunk>)
    requires Mark(k, k.c) && IsLetterOrNumber(k.c) && k.after == "" && WholeToken(ch)
    requires ch != [] ==> ch[0].before == ""
    ensures WholeToken([k] + ch) && Plain([k] + ch) == [k.c] + Plain(ch)
  {
    var all := [k] + ch;
    assert forall i | 0 < i < |all| :: all[i] == ch[i - 1];
    assert Plain(all) == [k.c] + Plain(ch);
  }

  lemma {:induction false} TokenValid<S(!new)>(step: Step<S>, s: S, x: string)
    requires Gentle(step) && IsToken(x)
    ensures WholeToken(Chunks(step, s, x)) && Plain(Chunks(step, s, x)) == x
  {
    if x != "" {
      var (s1, k) := step(s, x[0]);
      GentleAt(step, s, x[0]);
      TokenValid(step, s1, x[1..]);
      if |x| > 1 {
        GentlePair(step, s, x[0], x[1]);
      }
      TokenCons(k, Chunks(step, s1, x[1..]));
    }
  }

  lemma {:induction false} LayoutValid<S(!new)>(step: Step<S>, s: S, t: Json)
    requires Gentle(step) && Printable(t)
    ensures Valid(LayoutOf(step, s, t))
    decreases t, 1
  {
    match t
    case Str(x) => LiteralValid(step, s, x);
    case Raw(x) => TokenValid(step, s, x);
    case Arr(items) =>
      GentleAt(step, s, '[');
      var s1 := step(s, '[').0;
      if items == [] { GentleAt(step, s1, ']'); } else { ItemsValid(step, s1, items); }
    case Obj(members) =>
      GentleAt(step, s, '{');
      var s1 := step(s, '{').0;
      if members == [] { GentleAt(step, s1, '}'); } else { MembersValid(step, s1, members); }
  }

  lemma {:induction false} ItemsValid<S(!new)>(step: Step<S>, s: S, items: seq<Json>)
    requires Gentle(step) && AllPrintable(items) && items != []
    ensures var l := ItemsOf(step, s, items);
      ValidItems(l) && (items != [Raw("")] ==> l.MoreItems? || l.value != RawAt([]))
    decreases items, 0
  {
    LayoutValid(step, s, items[0]);
    var s1 := After(step, s, Print(items[0]));
    if |items| > 1 {
      GentleAt(step, s1, ',');
      ItemsValid(step, step(s1, ',').0, items[1..]);
    } else {
      GentleAt(step, s1, ']');
      assert items == [items[0]];
    }
  }

  lemma {:induction false} MemberValid<S(!new)>(step: Step<S>, s: S, m: Member)
    requires Gentle(step) && Printable(m.value)
    ensures ValidMember(MemberOf(step, s, m))
    decreases m, 2
  {
    LiteralValid(step, s, m.key);
    var s0 := After(step, s, Quoted(m.key));
    GentleAt(step, s0, ':');
    LayoutValid(step, step(s0, ':').0, m.value);
  }

  lemma {:induction false} MembersValid<S(!new)>(step: Step<S>, s: S, members: seq<Member>)
    requires Gentle(step) && AllPrintableMembers(members) && members != []
    ensures ValidMembers(MembersOf(step, s, members))
    decreases members, 0
  {
    MemberValid(step, s, members[0]);
    var s1 := After(step, s, PrintMember(members[0]));
    if |members| > 1 {
      GentleAt(step, s1, ',');
      MembersValid(step, step(s1, ',').0, members[1..]);
    } else {
      GentleAt(step, s1, '}');
    }
  }

  // ---- documents ----

  predicate IsDocument(t: Json) { t.Arr? || t.Obj? }

  /** `JsonBuffer::parseArray` or `JsonBuffer::parseObject`, whichever the caller asks for. */
  function ParseDocument(s: string, asArray: bool, limit: nat, memory: nat): Parsed<Json> {
    if asArray then ParseArray(s, limit, memory) else ParseObject(s, limit, memory)
  }

  /** Outcome of reading all of a text that stands for `t`: a nesting limit of one less than the depth
      and one allocation per cell are needed, and they are enough. */
  ghost predicate ReadsAll(r: Parsed<Json>, t: Json, limit: nat, memory: nat) {
    r == if Depth(t) <= limit + 1 && Cells(t) <= memory then Ok(Normal(t), "", memory - Cells(t)) else Fail
  }

  lemma ParseSkips(s: string, asArray: bool, limit: nat, memory: nat)
    ensures ParseDocument(SkipSpaces(s), asArray, limit, memory) == ParseDocument(s, asArray, limit, memory)
  {
    SkipTwice(s);
  }

  /** Whatever a gentle writer makes of the compact text of `t` parses to the tree it stands for. */
  lemma WriterRoundTrip<S(!new)>(step: Step<S>, s: S, t: Json, limit: nat, memory: nat)
    requires Gentle(step) && Printable(t) && IsDocument(t)
    ensures Valid(LayoutOf(step, s, t))
    ensures ReadsAll(ParseDocument(Run(step, s, Print(t), ""), t.Arr?, limit, memory),
                     Meaning(LayoutOf(step, s, t)), limit, memory)
  {
    LayoutValid(step, s, t);
    LayoutText(step, s, t, "");
    var l := LayoutOf(step, s, t);
    ParseSkips(Spelled(l, ""), t.Arr?, limit, memory);
    if t.Arr? {
      ReadArray(l, "", limit, memory);
    } else {
      ReadObject(l, "", limit, memory);
    }
  }
}
