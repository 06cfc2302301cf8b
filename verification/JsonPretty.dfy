/** `Prettyfier` on top of `IndentedPrint`, and exactly when its text parses to the tree that was printed. */
module JsonPretty {
  import opened Wrappers
  import opened JsonText
  import opened JsonReader
  import opened JsonSpread
  import opened JsonDocument
  import opened JsonCompact

  const MAX_LEVEL: nat := 15

  /** Fields of the two objects; `level` has four bits. */
  datatype PrettyState = PrettyState(previousChar: char, inString: bool, level: nat, isNewLine: bool)

  const INITIAL: PrettyState := PrettyState('\0', false, 0, true)

  function Spaces(n: nat): (r: string)
    ensures |r| == n && IsBlank(r)
  {
    seq(n, _ => ' ')
  }

  /** Blanks `IndentedPrint::write` puts in front of the next character. */
  function Tabs(tab: nat, level: nat, isNewLine: bool): (r: string)
    ensures IsBlank(r) && (!isNewLine ==> r == "")
  {
    if isNewLine then Spaces(level * tab) else ""
  }

  predicate InEmptyBlock(previousChar: char) { previousChar == '{' || previousChar == '[' }

  function Indented(level: nat): nat { if level < MAX_LEVEL then level + 1 else level }

  function Unindented(level: nat): nat { if level > 0 then level - 1 else level }

  /** Output and new state of one `Prettyfier::write`. */
  function PrettyWrite(tab: nat, s: PrettyState, c: char): (PrettyState, Chunk) {
    var tabs := Tabs(tab, s.level, s.isNewLine);
    if s.inString then
      (PrettyState(c, !(c == '\"' && s.previousChar != '\\'), s.level, c == '\n'), Chunk(tabs, c, ""))
    else if c == ':' then
      (PrettyState(c, false, s.level, false), Chunk(tabs, c, " "))
    else if c == ',' then
      (PrettyState(c, false, s.level, true), Chunk(tabs, c, "\r\n"))
    else if c == '}' || c == ']' then
      if InEmptyBlock(s.previousChar) then (PrettyState(c, false, s.level, false), Chunk(tabs, c, ""))
      else
        var level := Unindented(s.level);
        (PrettyState(c, false, level, false),
         Chunk(Tabs(tab, level, s.isNewLine) + "\r\n" + Tabs(tab, level, true), c, ""))
    else if InEmptyBlock(s.previousChar) then
      var level := Indented(s.level);
      (PrettyState(c, c == '\"', level, c == '\n'),
       Chunk(Tabs(tab, level, s.isNewLine) + "\r\n" + Tabs(tab, level, true), c, ""))
    else
      (PrettyState(c, c == '\"', s.level, c == '\n'), Chunk(tabs, c, ""))
  }

  function Pretty(tab: nat): Step<PrettyState> { (s: PrettyState, c: char) => PrettyWrite(tab, s, c) }

  /** What `prettyPrintTo` writes. */
  function PrettyPrint(tab: nat, t: Json): string { Run(Pretty(tab), INITIAL, Print(t), "") }

  lemma BlankConcat(a: string, b: string)
    requires IsBlank(a) && IsBlank(b)
    ensures IsBlank(a + "\r\n" + b)
  {
  }

  lemma PrettyMark(tab: nat, s: PrettyState, c: char)
    ensures Mark(PrettyWrite(tab, s, c).1, c)
    ensures c != ':' && c != ',' ==> PrettyWrite(tab, s, c).1.after == ""
  {
    BlankConcat(Tabs(tab, Indented(s.level), s.isNewLine), Tabs(tab, Indented(s.level), true));
    BlankConcat(Tabs(tab, Unindented(s.level), s.isNewLine), Tabs(tab, Unindented(s.level), true));
  }

  lemma PrettyPair(tab: nat, s: PrettyState, c: char, d: char)
    requires (c == '\\' && IsEscapeLetter(d)) || (IsLetterOrNumber(c) && IsLetterOrNumber(d))
    ensures PrettyWrite(tab, PrettyWrite(tab, s, c).0, d).1.before == ""
  {
  }

  lemma PrettyIsGentle(tab: nat)
    ensures Gentle(Pretty(tab))
  {
    hide PrettyWrite;
    forall s: PrettyState, c: char
      ensures GentleWith(Pretty(tab), s, c)
    {
      PrettyMark(tab, s, c);
      forall d | (c == '\\' && IsEscapeLetter(d)) || (IsLetterOrNumber(c) && IsLetterOrNumber(d))
        ensures PrettyWrite(tab, PrettyWrite(tab, s, c).0, d).1.before == ""
      {
        PrettyPair(tab, s, c, d);
      }
    }
  }

  // ---- where the printer loses track of the strings ----

  /** Outside a string, as the printer believes, writing `c` after `previous` adds blanks. */
  predicate Reacts(previous: char, c: char) {
    c == ':' || c == ',' || (if c == '}' || c == ']' then !InEmptyBlock(previous) else InEmptyBlock(previous))
  }

  /** The printer walks over the inside of a string literal and its closing quote, believing itself inside
      a string or not. None if it adds blanks on the way, otherwise what it believes at the end. */
  function Walk(inside: bool, previous: char, text: string): Option<bool>
    decreases |text|
  {
    if text == "" then Some(inside)
    else
      var c := text[0];
      if inside then Walk(!(c == '\"' && previous != '\\'), c, text[1..])
      else if Reacts(previous, c) then None
      else Walk(c == '\"', c, text[1..])
  }

  /** Walks over the literals of a document in order. `onTrack` says whether the printer's belief about
      being inside a string is right; None if it ever adds blanks inside a literal. */
  function Follow(literals: seq<string>, onTrack: bool): Option<bool> {
    if literals == [] then Some(onTrack)
    else
      match Walk(onTrack, '\"', PrintBody(literals[0]) + ['\"'])
      case None => None
      case Some(inside) => Follow(literals[1..], !inside)
  }

  /** Keys and strings in document order. */
  function Literals(t: Json): seq<string>
    decreases t, 1
  {
    match t
    case Str(x) => [x]
    case Raw(_) => []
    case Arr(items) => LiteralsOfItems(items)
    case Obj(members) => LiteralsOfMembers(members)
  }

  function LiteralsOfItems(items: seq<Json>): seq<string>
    decreases items, 0
  {
    if items == [] then [] else Literals(items[0]) + LiteralsOfItems(items[1..])
  }

  function LiteralsOfMembers(members: seq<Member>): seq<string>
    decreases members, 0
  {
    if members == [] then []
    else [members[0].key] + Literals(members[0].value) + LiteralsOfMembers(members[1..])
  }

  /** No literal makes the printer lose track, or none it crosses off track is affected. */
  predicate Undisturbed(t: Json) { Follow(Literals(t), true).Some? }

  lemma {:induction false} FollowConcat(a: seq<string>, b: seq<string>, onTrack: bool)
    ensures Follow(a + b, onTrack) ==
            match Follow(a, onTrack) case None => None case Some(on) => Follow(b, on)
  {
    if a == [] {
      assert a + b == b;
    } else {
      assert (a + b)[1..] == a[1..] + b;
      match Walk(onTrack, '\"', PrintBody(a[0]) + ['\"'])
      case None =>
      case Some(inside) => FollowConcat(a[1..], b, !inside);
    }
  }

  // ---- a literal is kept exactly when no blank falls into it ----

  predicate Bare(k: Chunk) { k.before == "" && k.after == "" }

  predicate AllBare(ch: seq<Chunk>) { forall i | 0 <= i < |ch| :: Bare(ch[i]) }

  lemma BareCons(k: Chunk, ch: seq<Chunk>)
    ensures AllBare([k] + ch) == (Bare(k) && AllBare(ch))
  {
    assert ([k] + ch)[0] == k;
    assert forall i | 0 <= i < |ch| :: ch[i] == ([k] + ch)[i + 1];
  }

  lemma BareLast(ch: seq<Chunk>, k: Chunk)
    ensures AllBare(ch + [k]) == (AllBare(ch) && Bare(k))
  {
    assert (ch + [k])[|ch|] == k;
    assert forall i | 0 <= i < |ch| :: ch[i] == (ch + [k])[i];
  }

  lemma SpellLonger(k: Chunk, inner: string)
    ensures |Spell(k, inner)| == |k.before| + 1 + |k.after| + |inner|
    ensures Bare(k) ==> Spell(k, inner) == [k.c] + inner
    ensures !Bare(k) ==> |Spell(k, inner)| > 1 + |inner|
  {
  }

  lemma {:induction false} InjectLonger(x: string, ch: seq<Chunk>, rest: string)
    requires SpreadBody(x, ch)
    ensures AllBare(ch) ==> Inject(x, ch, rest) == x + rest
    ensures !AllBare(ch) ==> |Inject(x, ch, rest)| > |x| + |rest|
    ensures |Inject(x, ch, rest)| >= |x| + |rest|
  {
    if x == "" {
      assert x + rest == rest;
    } else {
      assert x + rest == [x[0]] + (x[1..] + rest);
      if IsEscaped(x[0]) {
        var inner := Inject(x[1..], ch[2..], rest);
        InjectLonger(x[1..], ch[2..], rest);
        SpellLonger(Chunk(ch[0].before, x[0], ch[1].after), inner);
        assert ch == [ch[0]] + ([ch[1]] + ch[2..]);
        hide AllBare;
        BareCons(ch[0], [ch[1]] + ch[2..]);
        BareCons(ch[1], ch[2..]);
      } else {
        var inner := Inject(x[1..], ch[1..], rest);
        InjectLonger(x[1..], ch[1..], rest);
        SpellLonger(ch[0], inner);
        assert ch == [ch[0]] + ch[1..];
        hide AllBare;
        BareCons(ch[0], ch[1..]);
      }
    }
  }

  /** Inside a literal the printer adds blanks exactly when `Walk` says so. */
  lemma {:induction false} WalkRuns(tab: nat, s: PrettyState, text: string)
    requires !s.isNewLine && '\n' !in text
    ensures var w := Walk(s.inString, s.previousChar, text);
      w.Some? == AllBare(Chunks(Pretty(tab), s, text)) &&
      (w.Some? ==> After(Pretty(tab), s, text).inString == w.value)
    decreases |text|
  {
    if text != "" {
      var (s', k) := PrettyWrite(tab, s, text[0]);
      var ch := Chunks(Pretty(tab), s, text);
      var more := Chunks(Pretty(tab), s', text[1..]);
      assert ch == [k] + more;
      BareCons(k, more);
      if Bare(k) {
        WalkRuns(tab, s', text[1..]);
      }
    }
  }

  lemma {:induction false} NoRawNewline(x: string)
    ensures '\n' !in PrintBody(x)
  {
    if x != "" { NoRawNewline(x[1..]); }
  }

  lemma {:induction false} ChunksConcat<S>(step: Step<S>, s: S, text: string, c: char)
    ensures var s' := After(step, s, text);
      Chunks(step, s, text + [c]) == Chunks(step, s, text) + [step(s', c).1] &&
      After(step, s, text + [c]) == step(s', c).0
  {
    if text == "" {
      assert text + [c] == [c] + "";
      ChunksOne(step, s, c, "");
      assert After(step, s, [c]) == After(step, step(s, c).0, [c][1..]);
    } else {
      ChunksConcat(step, step(s, text[0]).0, text[1..], c);
      assert (text + [c])[1..] == text[1..] + [c];
    }
  }

  /** A state between literals: what came last is not a backslash. */
  predicate Between(s: PrettyState, onTrack: bool) { s.previousChar != '\\' && s.inString == !onTrack }

  lemma ContentKept(l: Literal)
    requires l.Valid() && Bare(Chunk("", l.close.c, l.close.after)) && l.open.after == ""
    ensures (l.Content() == l.text) == AllBare(l.body + [l.close])
  {
    InjectLonger(l.text, l.body, l.close.before);
    BareLast(l.body, l.close);
    var inner := Inject(l.text, l.body, l.close.before);
    assert l.Content() == inner;
    assert l.text + "" == l.text;
  }

  lemma LiteralKept(tab: nat, s: PrettyState, x: string, onTrack: bool)
    requires Between(s, onTrack)
    ensures LiteralOf(Pretty(tab), s, x).Valid()
    ensures var w := Walk(onTrack, '\"', PrintBody(x) + ['\"']);
      var l := LiteralOf(Pretty(tab), s, x);
      w.Some? == (l.Content() == x) &&
      (w.Some? ==> Between(After(Pretty(tab), s, Quoted(x)), !w.value))
  {
    hide Walk, Chunks, Inject, SpreadBody, PrintBody;
    var step := Pretty(tab);
    PrettyIsGentle(tab);
    LiteralValid(step, s, x);
    var s1 := step(s, '\"').0;
    var body := PrintBody(x);
    NoRawNewline(x);
    assert s1.inString == onTrack && s1.previousChar == '\"' && !s1.isNewLine;
    WalkRuns(tab, s1, body + ['\"']);
    ChunksConcat(step, s1, body, '\"');
    ContentKept(LiteralOf(step, s, x));
    assert Quoted(x) == ['\"'] + (body + ['\"']);
    RunOne(step, s, '\"', body + ['\"'], "");
  }

  // ---- the whole tree ----

  /** A character outside the literals changes neither belief nor track. */
  lemma OutsideStep(tab: nat, s: PrettyState, c: char, onTrack: bool)
    requires Between(s, onTrack) && c != '\"' && c != '\\'
    ensures Between(PrettyWrite(tab, s, c).0, onTrack)
  {
  }

  lemma {:induction false} OutsideToken(tab: nat, s: PrettyState, x: string, onTrack: bool)
    requires Between(s, onTrack) && IsToken(x)
    ensures Between(After(Pretty(tab), s, x), onTrack)
    decreases |x|
  {
    if x != "" {
      OutsideStep(tab, s, x[0], onTrack);
      OutsideToken(tab, PrettyWrite(tab, s, x[0]).0, x[1..], onTrack);
    }
  }

  /** Following the literals of `t` tells what the printer believes afterwards and whether the text it
      wrote for `t` still means `t`. */
  ghost predicate Followed(w: Option<bool>, kept: bool, after: PrettyState) {
    w.Some? == kept && (w.Some? ==> Between(after, w.value))
  }

  lemma NothingInside()
    ensures PrintItems([]) == "" && PrintMembers([]) == ""
  {
  }

  lemma {:induction false} FollowTree(tab: nat, s: PrettyState, t: Json, onTrack: bool)
    requires Between(s, onTrack) && Printable(t)
    ensures Valid(LayoutOf(Pretty(tab), s, t))
    ensures Followed(Follow(Literals(t), onTrack), Meaning(LayoutOf(Pretty(tab), s, t)) == t,
                     After(Pretty(tab), s, Print(t)))
    decreases t, 1
  {
    var step := Pretty(tab);
    PrettyIsGentle(tab);
    LayoutValid(step, s, t);
    match t
    case Str(x) =>
      LiteralKept(tab, s, x, onTrack);
      assert [x][1..] == [];
    case Raw(x) =>
      TokenValid(step, s, x);
      OutsideToken(tab, s, x, onTrack);
    case Arr(items) => if items == [] { FollowEmpty(tab, s, t, onTrack); } else { FollowArr(tab, s, items, onTrack); }
    case Obj(members) =>
      if members == [] { FollowEmpty(tab, s, t, onTrack); } else { FollowObj(tab, s, members, onTrack); }
  }

  /** An empty array or object is two marks. */
  lemma FollowEmpty(tab: nat, s: PrettyState, t: Json, onTrack: bool)
    requires Between(s, onTrack) && (t == Arr([]) || t == Obj([]))
    ensures Followed(Follow(Literals(t), onTrack), Meaning(LayoutOf(Pretty(tab), s, t)) == t,
                     After(Pretty(tab), s, Print(t)))
  {
    hide PrettyWrite;
    var step := Pretty(tab);
    var open, close := if t.Arr? then '[' else '{', if t.Arr? then ']' else '}';
    var s1 := step(s, open).0;
    NothingInside();
    OutsideStep(tab, s, open, onTrack);
    OutsideStep(tab, s1, close, onTrack);
    assert Print(t) == [open] + [close];
    RunOne(step, s, open, [close], "");
    assert [close] == [close] + "";
    RunOne(step, s1, close, "", "");
  }

  lemma {:induction false} FollowArr(tab: nat, s: PrettyState, items: seq<Json>, onTrack: bool)
    requires Between(s, onTrack) && Printable(Arr(items)) && items != []
    ensures Valid(LayoutOf(Pretty(tab), s, Arr(items)))
    ensures Followed(Follow(Literals(Arr(items)), onTrack),
                     Meaning(LayoutOf(Pretty(tab), s, Arr(items))) == Arr(items),
                     After(Pretty(tab), s, Print(Arr(items))))
    decreases items, 2
  {
    hide PrettyWrite, PrintItems;
    var step := Pretty(tab);
    PrettyIsGentle(tab);
    LayoutValid(step, s, Arr(items));
    OutsideStep(tab, s, '[', onTrack);
    assert Print(Arr(items)) == ['['] + (PrintItems(items) + [']']);
    RunOne(step, s, '[', PrintItems(items) + [']'], "");
    FollowItems(tab, step(s, '[').0, items, onTrack);
  }

  lemma {:induction false} FollowObj(tab: nat, s: PrettyState, members: seq<Member>, onTrack: bool)
    requires Between(s, onTrack) && Printable(Obj(members)) && members != []
    ensures Valid(LayoutOf(Pretty(tab), s, Obj(members)))
    ensures Followed(Follow(Literals(Obj(members)), onTrack),
                     Meaning(LayoutOf(Pretty(tab), s, Obj(members))) == Obj(members),
                     After(Pretty(tab), s, Print(Obj(members))))
    decreases members, 2
  {
    hide PrettyWrite, PrintMembers;
    var step := Pretty(tab);
    PrettyIsGentle(tab);
    LayoutValid(step, s, Obj(members));
    OutsideStep(tab, s, '{', onTrack);
    assert Print(Obj(members)) == ['{'] + (PrintMembers(members) + ['}']);
    RunOne(step, s, '{', PrintMembers(members) + ['}'], "");
    FollowMembers(tab, step(s, '{').0, members, onTrack);
  }

  lemma {:induction false} FollowItems(tab: nat, s: PrettyState, items: seq<Json>, onTrack: bool)
    requires Between(s, onTrack) && AllPrintable(items) && items != []
    ensures ValidItems(ItemsOf(Pretty(tab), s, items))
    ensures Followed(Follow(LiteralsOfItems(items), onTrack), MeaningItems(ItemsOf(Pretty(tab), s, items)) == items,
                     After(Pretty(tab), s, PrintItems(items) + [']']))
    decreases items, 0
  {
    hide Follow, Literals, Meaning, LayoutOf, PrettyWrite, Print, After;
    var step := Pretty(tab);
    PrettyIsGentle(tab);
    ItemsValid(step, s, items);
    FollowTree(tab, s, items[0], onTrack);
    var first := Print(items[0]);
    var s1 := After(step, s, first);
    var w := Follow(Literals(items[0]), onTrack);
    FollowConcat(Literals(items[0]), LiteralsOfItems(items[1..]), onTrack);
    if |items| == 1 {
      assert items[1..] == [] && items == [items[0]];
      FollowNone(w);
      RunLast(step, s, first, ']', "");
      if w.Some? { OutsideStep(tab, s1, ']', w.value); }
    } else {
      assert items == [items[0]] + items[1..];
      var s2 := step(s1, ',').0;
      var more := PrintItems(items[1..]) + [']'];
      assert PrintItems(items) + [']'] == first + ([','] + more);
      RunConcat(step, s, first, [','] + more, "");
      RunOne(step, s1, ',', more, "");
      if w.Some? {
        OutsideStep(tab, s1, ',', w.value);
        FollowItems(tab, s2, items[1..], w.value);
      }
    }
  }

  lemma FollowNone(w: Option<bool>)
    ensures w == match w case None => None case Some(on) => Follow([], on)
  {
  }

  lemma {:induction false} FollowMember(tab: nat, s: PrettyState, m: Member, onTrack: bool)
    requires Between(s, onTrack) && Printable(m.value)
    ensures ValidMember(MemberOf(Pretty(tab), s, m))
    ensures Followed(Follow([m.key] + Literals(m.value), onTrack), MeaningMember(MemberOf(Pretty(tab), s, m)) == m,
                     After(Pretty(tab), s, PrintMember(m)))
    decreases m, 2
  {
    hide Literals, Meaning, LayoutOf, PrettyWrite, Print, After, Walk;
    var step := Pretty(tab);
    var key := Quoted(m.key);
    var s0 := After(step, s, key);
    var s1 := step(s0, ':').0;
    PrettyIsGentle(tab);
    MemberValid(step, s, m);
    LiteralKept(tab, s, m.key, onTrack);
    assert PrintMember(m) == key + ([':'] + Print(m.value));
    RunConcat(step, s, key, [':'] + Print(m.value), "");
    RunOne(step, s0, ':', Print(m.value), "");
    assert ([m.key] + Literals(m.value))[1..] == Literals(m.value);
    var w := Walk(onTrack, '\"', PrintBody(m.key) + ['\"']);
    if w.Some? {
      OutsideStep(tab, s0, ':', !w.value);
      FollowTree(tab, s1, m.value, !w.value);
    }
  }

  lemma {:induction false} FollowMembers(tab: nat, s: PrettyState, members: seq<Member>, onTrack: bool)
    requires Between(s, onTrack) && AllPrintableMembers(members) && members != []
    ensures ValidMembers(MembersOf(Pretty(tab), s, members))
    ensures Followed(Follow(LiteralsOfMembers(members), onTrack),
                     MeaningMembers(MembersOf(Pretty(tab), s, members)) == members,
                     After(Pretty(tab), s, PrintMembers(members) + ['}']))
    decreases members, 0
  {
    hide Follow, Literals, Meaning, LayoutOf, PrettyWrite, Print, After, MemberOf, PrintMember, MeaningMember;
    var step := Pretty(tab);
    PrettyIsGentle(tab);
    MembersValid(step, s, members);
    FollowMember(tab, s, members[0], onTrack);
    var first := PrintMember(members[0]);
    var s1 := After(step, s, first);
    var literals := [members[0].key] + Literals(members[0].value);
    var w := Follow(literals, onTrack);
    FollowConcat(literals, LiteralsOfMembers(members[1..]), onTrack);
    if |members| == 1 {
      assert members[1..] == [] && members == [members[0]];
      FollowNone(w);
      RunLast(step, s, first, '}', "");
      if w.Some? { OutsideStep(tab, s1, '}', w.value); }
    } else {
      assert members == [members[0]] + members[1..];
      var s2 := step(s1, ',').0;
      var more := PrintMembers(members[1..]) + ['}'];
      assert PrintMembers(members) + ['}'] == first + ([','] + more);
      RunConcat(step, s, first, [','] + more, "");
      RunOne(step, s1, ',', more, "");
      if w.Some? {
        OutsideStep(tab, s1, ',', w.value);
        FollowMembers(tab, s2, members[1..], w.value);
      }
    }
  }

  // ---- a changed literal cannot be undone by merging keys ----

  predicate SameShape(e: Json, t: Json) {
    match t
    case Str(_) => e.Str?
    case Raw(_) => e == t
    case Arr(items) => e.Arr? && |e.items| == |items| && forall i | 0 <= i < |items| :: SameShape(e.items[i], items[i])
    case Obj(members) =>
      e.Obj? && |e.members| == |members| &&
      forall i | 0 <= i < |members| :: SameShape(e.members[i].value, members[i].value)
  }

  lemma {:induction false} LayoutShape<S(!new)>(step: Step<S>, s: S, t: Json)
    requires Gentle(step) && Printable(t)
    ensures Valid(LayoutOf(step, s, t)) && SameShape(Meaning(LayoutOf(step, s, t)), t)
    decreases t, 1
  {
    LayoutValid(step, s, t);
    match t
    case Str(_) =>
    case Raw(x) => TokenValid(step, s, x);
    case Arr(items) => if items != [] { ItemsShape(step, step(s, '[').0, items); }
    case Obj(members) => if members != [] { MembersShape(step, step(s, '{').0, members); }
  }

  lemma {:induction false} ItemsShape<S(!new)>(step: Step<S>, s: S, items: seq<Json>)
    requires Gentle(step) && AllPrintable(items) && items != []
    ensures ValidItems(ItemsOf(step, s, items))
    ensures var e := MeaningItems(ItemsOf(step, s, items));
      |e| == |items| && forall i | 0 <= i < |items| :: SameShape(e[i], items[i])
    decreases items, 0
  {
    ItemsValid(step, s, items);
    LayoutShape(step, s, items[0]);
    if |items| > 1 {
      var s2 := step(After(step, s, Print(items[0])), ',').0;
      ItemsShape(step, s2, items[1..]);
      assert forall i | 0 < i < |items| :: items[i] == items[1..][i - 1];
    }
  }

  lemma {:induction false} MembersShape<S(!new)>(step: Step<S>, s: S, members: seq<Member>)
    requires Gentle(step) && AllPrintableMembers(members) && members != []
    ensures ValidMembers(MembersOf(step, s, members))
    ensures var e := MeaningMembers(MembersOf(step, s, members));
      |e| == |members| && forall i | 0 <= i < |members| :: SameShape(e[i].value, members[i].value)
    decreases members, 0
  {
    MembersValid(step, s, members);
    var s1 := step(After(step, s, Quoted(members[0].key)), ':').0;
    LayoutShape(step, s1, members[0].value);
    if |members| > 1 {
      var s2 := step(After(step, s, PrintMember(members[0])), ',').0;
      MembersShape(step, s2, members[1..]);
      assert forall i | 0 < i < |members| :: members[i] == members[1..][i - 1];
    }
  }

  lemma {:induction false} MergeShortens(members: seq<Member>, acc: seq<Member>)
    ensures |NormalMembers(members, acc)| <= |acc| + |members|
    ensures |NormalMembers(members, acc)| == |acc| + |members| ==> UniqueKeys(members) && NoSharedKey(acc, members)
  {
    if members != [] {
      var acc' := Put(acc, members[0].key, Normal(members[0].value));
      MergeShortens(members[1..], acc');
      if |NormalMembers(members, acc)| == |acc| + |members| {
        assert acc' == acc + [Member(members[0].key, Normal(members[0].value))];
        assert forall i | 0 < i < |members| :: members[i] == members[1..][i - 1];
        forall i | 0 < i < |members| ensures members[0].key != members[i].key {
          assert acc'[|acc|].key != members[1..][i - 1].key;
        }
        forall i, j | 0 <= i < |acc| && 0 < j < |members| ensures acc[i].key != members[j].key {
          assert acc'[i].key != members[1..][j - 1].key;
        }
      }
    }
  }

  lemma NormalArr(items: seq<Json>, t: Json)
    requires Normal(Arr(items)) == t
    ensures t.Arr? && |t.items| == |items| && forall i | 0 <= i < |items| :: Normal(items[i]) == t.items[i]
  {
    NormalItemsAt(items, []);
    forall i | 0 <= i < |items| ensures Normal(items[i]) == t.items[i] {
      assert NormalItems(items, [])[0 + i] == Normal(items[i]);
    }
  }

  lemma NormalObj(members: seq<Member>, t: Json)
    requires Normal(Obj(members)) == t && t.Obj? && |t.members| == |members|
    ensures forall i | 0 <= i < |members| :: Member(members[i].key, Normal(members[i].value)) == t.members[i]
  {
    MergeShortens(members, []);
    NormalMembersAt(members, []);
    forall i | 0 <= i < |members| ensures Member(members[i].key, Normal(members[i].value)) == t.members[i] {
      assert NormalMembers(members, [])[0 + i] == Member(members[i].key, Normal(members[i].value));
    }
  }

  lemma {:induction false} NormalShape(e: Json, t: Json)
    requires SameShape(e, t) && Normal(e) == t
    ensures e == t
  {
    match t
    case Str(_) =>
    case Raw(_) =>
    case Arr(items) =>
      NormalArr(e.items, t);
      forall i | 0 <= i < |items| ensures e.items[i] == items[i] {
        NormalShape(e.items[i], items[i]);
      }
    case Obj(members) =>
      NormalObj(e.members, t);
      forall i | 0 <= i < |members| ensures e.members[i] == members[i] {
        NormalShape(e.members[i].value, members[i].value);
      }
  }

  /** The pretty text parses back to the tree that was printed exactly when the printer's belief about
      being inside a string does no harm, whatever the tab size. */
  lemma PrettyRoundTrip(tab: nat, t: Json, limit: nat, memory: nat)
    requires Printable(t) && IsDocument(t) && DistinctKeys(t)
    requires Depth(t) <= limit + 1 && Cells(t) <= memory
    ensures ParseDocument(PrettyPrint(tab, t), t.Arr?, limit, memory) == Ok(t, "", memory - Cells(t))
            <==> Undisturbed(t)
  {
    PrettyIsGentle(tab);
    WriterRoundTrip(Pretty(tab), INITIAL, t, limit, memory);
    FollowTree(tab, INITIAL, t, true);
    LayoutShape(Pretty(tab), INITIAL, t);
    NormalIffDistinct(t);
    var e := Meaning(LayoutOf(Pretty(tab), INITIAL, t));
    if Normal(e) == t {
      NormalShape(e, t);
    }
  }

  // ---- which trees are safe ----

  predicate EndsInBackslash(x: string) { x != "" && x[|x| - 1] == '\\' }

  lemma WalkChar(previous: char, c: char, text: string)
    requires !(c == '\"' && previous != '\\')
    ensures Walk(true, previous, [c] + text) == Walk(true, c, text)
  {
    assert ([c] + text)[1..] == text;
  }

  lemma WalkClose(previous: char)
    ensures Walk(true, previous, ['\"']) == Some(previous == '\\')
  {
    assert ['\"'][1..] == "";
  }

  lemma NoBody()
    ensures PrintBody("") == ""
  {
  }

  lemma BodyTurn(x: string, rest: string)
    requires x != ""
    ensures var more := PrintBody(x[1..]) + rest;
      PrintBody(x) + rest == if IsEscaped(x[0]) then ['\\'] + ([Escape(x[0])] + more) else [x[0]] + more
  {
  }

  /** On track, the printer crosses a literal without adding blanks, and loses track exactly when the
      literal ends in a backslash. */
  lemma {:induction false} WalkOnTrack(x: string, previous: char)
    ensures Walk(true, previous, PrintBody(x) + ['\"']) ==
            Some(if x == "" then previous == '\\' else EndsInBackslash(x))
  {
    hide Walk, PrintBody;
    if x == "" {
      NoBody();
      assert PrintBody(x) + ['\"'] == ['\"'];
      WalkClose(previous);
    } else {
      var more := PrintBody(x[1..]) + ['\"'];
      BodyTurn(x, ['\"']);
      assert EndsInBackslash(x) == if x[1..] == "" then x[0] == '\\' else EndsInBackslash(x[1..]);
      if IsEscaped(x[0]) {
        var c := Escape(x[0]);
        WalkChar(previous, '\\', [c] + more);
        WalkChar('\\', c, more);
        WalkOnTrack(x[1..], c);
      } else {
        WalkChar(previous, x[0], more);
        WalkOnTrack(x[1..], x[0]);
      }
    }
  }

  lemma {:induction false} FollowOnTrack(literals: seq<string>)
    requires forall i | 0 <= i < |literals| :: !EndsInBackslash(literals[i])
    ensures Follow(literals, true) == Some(true)
  {
    if literals != [] {
      WalkOnTrack(literals[0], '\"');
      assert forall i | 0 <= i < |literals| - 1 :: literals[1..][i] == literals[i + 1];
      FollowOnTrack(literals[1..]);
    }
  }

  /** Trees in which no string or key ends in a backslash always survive pretty printing. */
  lemma NoTrailingBackslashIsSafe(t: Json)
    requires forall i | 0 <= i < |Literals(t)| :: !EndsInBackslash(Literals(t)[i])
    ensures Undisturbed(t)
  {
    FollowOnTrack(Literals(t));
  }

  lemma CommaIsTakenForASeparator()
    ensures Walk(false, '\"', PrintBody("a,b") + ['\"']) == None
  {
    assert "a,b"[1..] == ",b" && ",b"[1..] == "b" && "b"[1..] == "";
    assert PrintBody("a,b") == ['a'] + ([','] + (['b'] + ""));
    var text := PrintBody("a,b") + ['\"'];
    assert text == ['a'] + ([','] + ['b', '\"']);
    assert text[1..] == [','] + ['b', '\"'];
  }

  lemma TwoLiterals(x: string, y: string)
    ensures Literals(Arr([Str(x), Str(y)])) == [x, y]
    ensures Follow([x, y], true) ==
            match Walk(true, '\"', PrintBody(x) + ['\"'])
            case None => None
            case Some(inside) => Follow([y], !inside)
  {
    hide Walk, PrintBody;
    var items, last := [Str(x), Str(y)], [Str(y)];
    assert items[1..] == last && last[1..] == [];
    assert LiteralsOfItems(last) == [y] + LiteralsOfItems([]) == [y];
    assert LiteralsOfItems(items) == [x] + LiteralsOfItems(last);
    assert [x, y][1..] == [y];
  }

  lemma SmallTree(x: string, y: string)
    ensures var t := Arr([Str(x), Str(y)]);
      Printable(t) && DistinctKeys(t) && Depth(t) == 2 && Cells(t) == 3
  {
    ItemsAppend([], Str(x));
    ItemsAppend([Str(x)], Str(y));
    assert [] + [Str(x)] == [Str(x)] && [Str(x)] + [Str(y)] == [Str(x), Str(y)];
  }

  /** The array of a lone backslash and a text with a comma does not: the comma is taken for a separator
      and a line break ends up inside the string. */
  lemma TrailingBackslashLosesText()
    ensures var t := Arr([Str("\\"), Str("a,b")]);
      Printable(t) && DistinctKeys(t) && !Undisturbed(t) &&
      ParseDocument(PrettyPrint(2, t), true, 10, 100) != Ok(t, "", 100 - Cells(t))
  {
    WalkOnTrack("\\", '\"');
    CommaIsTakenForASeparator();
    hide Walk, PrintBody, Printable, DistinctKeys, Depth, Cells, PrettyPrint, ParseDocument, Literals;
    TwoLiterals("\\", "a,b");
    SmallTree("\\", "a,b");
    PrettyRoundTrip(2, Arr([Str("\\"), Str("a,b")]), 10, 100);
  }
}
