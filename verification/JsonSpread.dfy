/** The text of a tree with blanks spread around its characters, and what the parser makes of it. Compact
    text (no blanks) and pretty text (the blanks `Prettyfier` inserts) are both instances, so that the round
    trips of both follow from one theorem. */
module JsonSpread {
  import opened JsonText
  import opened JsonReader

  /** One character of the compact text with the blanks written around it. */
  datatype Chunk = Chunk(before: string, c: char, after: string)

  predicate IsBlank(s: string) { forall i | 0 <= i < |s| :: IsSpace(s[i]) }

  predicate AllBlank(ch: seq<Chunk>) {
    forall i | 0 <= i < |ch| :: IsBlank(ch[i].before) && IsBlank(ch[i].after)
  }

  /** The text of `k` followed by `rest`. */
  function Spell(k: Chunk, rest: string): (r: string)
    ensures |r| > |rest|
  {
    k.before + ([k.c] + (k.after + rest))
  }

  /** The text of `ch` followed by `rest`. */
  function Text(ch: seq<Chunk>, rest: string): string {
    if ch == [] then rest else Spell(ch[0], Text(ch[1..], rest))
  }

  function Plain(ch: seq<Chunk>): string { seq(|ch|, i requires 0 <= i < |ch| => ch[i].c) }

  // ---- string literals ----

  /** `ch` spells the escaped form of `x`, and no blank separates a backslash from its letter. */
  predicate SpreadBody(x: string, ch: seq<Chunk>) {
    if x == "" then ch == []
    else if IsEscaped(x[0]) then
      |ch| >= 2 && ch[0].c == '\\' && ch[1].c == Escape(x[0]) && ch[0].after == "" && ch[1].before == "" &&
      SpreadBody(x[1..], ch[2..])
    else
      |ch| >= 1 && ch[0].c == x[0] && SpreadBody(x[1..], ch[1..])
  }

  /** The characters of `x` with the blanks that fell between them, followed by `rest`. */
  function Inject(x: string, ch: seq<Chunk>, rest: string): string
    requires SpreadBody(x, ch)
  {
    if x == "" then rest
    else if IsEscaped(x[0]) then ch[0].before + ([x[0]] + (ch[1].after + Inject(x[1..], ch[2..], rest)))
    else Spell(ch[0], Inject(x[1..], ch[1..], rest))
  }

  /** A quoted string: what was printed, and the chunks of its text. */
  datatype Literal = Literal(text: string, open: Chunk, body: seq<Chunk>, close: Chunk)
  {
    predicate Valid() {
      Mark(open, '\"') && Mark(close, '\"') && AllBlank(body) && SpreadBody(text, body)
    }

    function Spelling(rest: string): string { Spell(open, Text(body, Spell(close, rest))) }

    /** What a reader finds between the quotes. */
    function Content(): string
      requires Valid()
    {
      open.after + Inject(text, body, close.before)
    }
  }

  predicate Mark(k: Chunk, c: char) { k.c == c && IsBlank(k.before) && IsBlank(k.after) }

  // ---- whole trees ----

  /** A tree together with the chunks of its text. */
  datatype Layout =
    | StrAt(literal: Literal)
    | RawAt(token: seq<Chunk>)
    | EmptyArrAt(open: Chunk, close: Chunk)
    | ArrAt(open: Chunk, items: ItemsAt)
    | EmptyObjAt(open: Chunk, close: Chunk)
    | ObjAt(open: Chunk, members: MembersAt)

  datatype ItemsAt =
    | LastItem(value: Layout, close: Chunk)
    | MoreItems(value: Layout, comma: Chunk, rest: ItemsAt)

  datatype MemberAt = MemberAt(key: Literal, colon: Chunk, value: Layout)

  datatype MembersAt =
    | LastMember(member: MemberAt, close: Chunk)
    | MoreMembers(member: MemberAt, comma: Chunk, rest: MembersAt)

  /** A token is not torn apart. */
  predicate WholeToken(ch: seq<Chunk>) {
    IsToken(Plain(ch)) && AllBlank(ch) &&
    forall i | 0 <= i < |ch| :: (0 < i ==> ch[i].before == "") && (i + 1 < |ch| ==> ch[i].after == "")
  }

  predicate Valid(l: Layout) {
    match l
    case StrAt(x) => x.Valid()
    case RawAt(ch) => WholeToken(ch)
    case EmptyArrAt(open, close) => Mark(open, '[') && Mark(close, ']')
    case ArrAt(open, items) =>
      Mark(open, '[') && ValidItems(items) && (items.MoreItems? || items.value != RawAt([]))
    case EmptyObjAt(open, close) => Mark(open, '{') && Mark(close, '}')
    case ObjAt(open, members) => Mark(open, '{') && ValidMembers(members)
  }

  predicate ValidItems(l: ItemsAt) {
    match l
    case LastItem(v, close) => Valid(v) && Mark(close, ']')
    case MoreItems(v, comma, rest) => Valid(v) && Mark(comma, ',') && ValidItems(rest)
  }

  predicate ValidMember(l: MemberAt) { l.key.Valid() && Mark(l.colon, ':') && Valid(l.value) }

  predicate ValidMembers(l: MembersAt) {
    match l
    case LastMember(m, close) => ValidMember(m) && Mark(close, '}')
    case MoreMembers(m, comma, rest) => ValidMember(m) && Mark(comma, ',') && ValidMembers(rest)
  }

  /** The text of the tree followed by `rest`. */
  function Spelled(l: Layout, rest: string): string {
    match l
    case StrAt(x) => x.Spelling(rest)
    case RawAt(ch) => Text(ch, rest)
    case EmptyArrAt(open, close) => Spell(open, Spell(close, rest))
    case ArrAt(open, items) => Spell(open, SpelledItems(items, rest))
    case EmptyObjAt(open, close) => Spell(open, Spell(close, rest))
    case ObjAt(open, members) => Spell(open, SpelledMembers(members, rest))
  }

  function SpelledItems(l: ItemsAt, rest: string): string {
    match l
    case LastItem(v, close) => Spelled(v, Spell(close, rest))
    case MoreItems(v, comma, more) => Spelled(v, Spell(comma, SpelledItems(more, rest)))
  }

  function SpelledMember(l: MemberAt, rest: string): string {
    l.key.Spelling(Spell(l.colon, Spelled(l.value, rest)))
  }

  function SpelledMembers(l: MembersAt, rest: string): string {
    match l
    case LastMember(m, close) => SpelledMember(m, Spell(close, rest))
    case MoreMembers(m, comma, more) => SpelledMember(m, Spell(comma, SpelledMembers(more, rest)))
  }

  /** The tree the text stands for: blanks inside a literal belong to the string. */
  function Meaning(l: Layout): Json
    requires Valid(l)
  {
    match l
    case StrAt(x) => Str(x.Content())
    case RawAt(ch) => Raw(Plain(ch))
    case EmptyArrAt(_, _) => Arr([])
    case ArrAt(_, items) => Arr(MeaningItems(items))
    case EmptyObjAt(_, _) => Obj([])
    case ObjAt(_, members) => Obj(MeaningMembers(members))
  }

  function MeaningItems(l: ItemsAt): seq<Json>
    requires ValidItems(l)
  {
    match l
    case LastItem(v, _) => [Meaning(v)]
    case MoreItems(v, _, rest) => [Meaning(v)] + MeaningItems(rest)
  }

  function MeaningMember(l: MemberAt): Member
    requires ValidMember(l)
  {
    Member(l.key.Content(), Meaning(l.value))
  }

  function MeaningMembers(l: MembersAt): seq<Member>
    requires ValidMembers(l)
  {
    match l
    case LastMember(m, _) => [MeaningMember(m)]
    case MoreMembers(m, _, rest) => [MeaningMember(m)] + MeaningMembers(rest)
  }

  // ---- scanning lemmas ----

  lemma {:induction false} SkipBlanks(b: string, s: string)
    requires IsBlank(b)
    ensures SkipSpaces(b + s) == SkipSpaces(s)
  {
    if b == "" {
      assert b + s == s;
    } else {
      SkipBlanks(b[1..], s);
      assert (b + s)[1..] == b[1..] + s;
    }
  }

  lemma {:induction false} SkipTwice(s: string)
    ensures SkipSpaces(SkipSpaces(s)) == SkipSpaces(s)
    decreases |s|
  {
    if s == "" {
    } else if IsSpace(s[0]) {
      SkipTwice(s[1..]);
    } else if s[0] == '/' && 1 < |s| && s[1] == '*' {
      SkipTwice(SkipBlockComment(s[2..]));
    } else if s[0] == '/' && 1 < |s| && s[1] == '/' {
      SkipTwice(SkipLineComment(s[2..]));
    }
  }

  /** What reading `s` yields when `text` has been read before. */
  function Prepend(text: string, r: Scanned): Scanned { Scanned(text + r.text, r.rest) }

  lemma ReadChar(c: char, rest: string)
    requires c != '\"' && c != '\\'
    ensures ReadQuoted([c] + rest, '\"') == Prepend([c], ReadQuoted(rest, '\"'))
  {
    assert ([c] + rest)[1..] == rest;
  }

  lemma {:induction false} ReadBlanks(b: string, s: string)
    requires IsBlank(b)
    ensures ReadQuoted(b + s, '\"') == Prepend(b, ReadQuoted(s, '\"'))
  {
    hide ReadQuoted;
    var r := ReadQuoted(s, '\"');
    if b == "" {
      assert b + s == s && "" + r.text == r.text;
    } else {
      ReadBlanks(b[1..], s);
      assert b + s == [b[0]] + (b[1..] + s);
      ReadChar(b[0], b[1..] + s);
      assert [b[0]] + (b[1..] + r.text) == b + r.text;
    }
  }

  lemma UnescapeEscape(c: char)
    requires IsEscaped(c)
    ensures Unescape(Escape(c)) == c
  {
  }

  lemma ReadEscape(c: char, rest: string)
    requires IsEscaped(c)
    ensures ReadQuoted(['\\'] + ([Escape(c)] + rest), '\"') == Prepend([c], ReadQuoted(rest, '\"'))
  {
    UnescapeEscape(c);
    var s := ['\\'] + ([Escape(c)] + rest);
    assert s[1] == Escape(c) && s[2..] == rest;
  }

  lemma {:induction false} ReadBody(x: string, ch: seq<Chunk>, tail: string)
    requires SpreadBody(x, ch) && AllBlank(ch)
    ensures var r := ReadQuoted(tail, '\"');
      ReadQuoted(Text(ch, tail), '\"') == Scanned(Inject(x, ch, r.text), r.rest)
  {
    if x == "" {
    } else if IsEscaped(x[0]) {
      var rest := Text(ch[2..], tail);
      ReadBody(x[1..], ch[2..], tail);
      assert Text(ch[1..], tail) == Spell(ch[1], rest) by { assert ch[1..][1..] == ch[2..]; }
      ReadPair(ch[0], ch[1], x[0], rest);
    } else {
      ReadBody(x[1..], ch[1..], tail);
      ReadPlain(ch[0], Text(ch[1..], tail));
    }
  }

  lemma ReadPlain(k: Chunk, rest: string)
    requires IsBlank(k.before) && IsBlank(k.after) && k.c != '\"' && k.c != '\\'
    ensures var r := ReadQuoted(rest, '\"');
      ReadQuoted(Spell(k, rest), '\"') == Scanned(Spell(k, r.text), r.rest)
  {
    ReadBlanks(k.before, [k.c] + (k.after + rest));
    ReadChar(k.c, k.after + rest);
    ReadBlanks(k.after, rest);
  }

  lemma ReadPair(k0: Chunk, k1: Chunk, c: char, rest: string)
    requires IsBlank(k0.before) && IsBlank(k1.after) && k0.after == "" && k1.before == ""
    requires IsEscaped(c) && k0.c == '\\' && k1.c == Escape(c)
    ensures var r := ReadQuoted(rest, '\"');
      ReadQuoted(Spell(k0, Spell(k1, rest)), '\"') == Scanned(k0.before + ([c] + (k1.after + r.text)), r.rest)
  {
    assert Spell(k1, rest) == [k1.c] + (k1.after + rest);
    assert "" + Spell(k1, rest) == Spell(k1, rest);
    ReadBlanks(k0.before, ['\\'] + ([k1.c] + (k1.after + rest)));
    ReadEscape(c, k1.after + rest);
    ReadBlanks(k1.after, rest);
  }

  lemma ReadStop(k: Chunk, rest: string)
    requires IsBlank(k.before) && k.c == '\"'
    ensures ReadQuoted(Spell(k, rest), '\"') == Scanned(k.before, k.after + rest)
  {
    var s := [k.c] + (k.after + rest);
    ReadBlanks(k.before, s);
    assert s[1..] == k.after + rest;
    assert k.before + "" == k.before;
  }

  lemma SkipToChar(k: Chunk, rest: string)
    requires IsBlank(k.before) && !IsSpace(k.c) && k.c != '/'
    ensures SkipSpaces(Spell(k, rest)) == [k.c] + (k.after + rest)
    ensures ([k.c] + (k.after + rest))[1..] == k.after + rest
  {
    SkipBlanks(k.before, [k.c] + (k.after + rest));
  }

  /** A quoted string is read back with the blanks that fell into it, up to the blanks behind it. */
  lemma ReadLiteral(x: Literal, post: string)
    requires x.Valid()
    ensures var s := SkipSpaces(x.Spelling(post));
      s != "" && s[0] == '\"' && SkipSpaces(s) == s &&
      ReadString(s) == Scanned(x.Content(), x.close.after + post)
  {
    var tail := Spell(x.close, post);
    var body := Text(x.body, tail);
    SkipToChar(x.open, body);
    ReadBlanks(x.open.after, body);
    ReadBody(x.text, x.body, tail);
    ReadStop(x.close, post);
  }
}
