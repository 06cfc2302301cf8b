/** What the pretty text of a tree looks like: one element a line, indented by the depth at which it stands. */
module JsonIndent {
  import opened JsonText
  import opened JsonSpread
  import opened JsonDocument
  import opened JsonPretty

  /** The end of a line and the indentation of the next one. */
  function Line(tab: nat, level: nat): string { "\r\n" + Spaces(level * tab) }

  /** The pretty text of `t` standing at `level`. */
  function Laid(tab: nat, level: nat, t: Json): string
    decreases t, 1
  {
    match t
    case Str(x) => Quoted(x)
    case Raw(x) => x
    case Arr(items) =>
      if items == [] then "[]"
      else
        var inner := Indented(level);
        "[" + (Line(tab, inner) + (LaidItems(tab, inner, items) + (Line(tab, LevelBehind(level, t)) + "]")))
    case Obj(members) =>
      if members == [] then "{}"
      else
        var inner := Indented(level);
        "{" + (Line(tab, inner) + (LaidMembers(tab, inner, members) + (Line(tab, LevelBehind(level, t)) + "}")))
  }

  function LaidItems(tab: nat, level: nat, items: seq<Json>): string
    requires items != []
    decreases items, 0
  {
    if |items| == 1 then Laid(tab, level, items[0])
    else
      var next := LevelBehind(level, items[0]);
      Laid(tab, level, items[0]) + ("," + (Line(tab, next) + LaidItems(tab, next, items[1..])))
  }

  function LaidMember(tab: nat, level: nat, m: Member): string
    decreases m, 2
  {
    Quoted(m.key) + (": " + Laid(tab, level, m.value))
  }

  function LaidMembers(tab: nat, level: nat, members: seq<Member>): string
    requires members != []
    decreases members, 0
  {
    if |members| == 1 then LaidMember(tab, level, members[0])
    else
      var next := LevelBehind(level, members[0].value);
      LaidMember(tab, level, members[0]) + ("," + (Line(tab, next) + LaidMembers(tab, next, members[1..])))
  }

  /** The level behind `t`. It is the one in front unless the tree is deeper than the four bits of the level. */
  function LevelBehind(level: nat, t: Json): nat
    decreases t, 1
  {
    match t
    case Arr(items) => if items == [] then level else Unindented(LevelBehindItems(Indented(level), items))
    case Obj(members) => if members == [] then level else Unindented(LevelBehindMembers(Indented(level), members))
    case _ => level
  }

  function LevelBehindItems(level: nat, items: seq<Json>): nat
    decreases items, 0
  {
    if items == [] then level else LevelBehindItems(LevelBehind(level, items[0]), items[1..])
  }

  function LevelBehindMembers(level: nat, members: seq<Member>): nat
    decreases members, 0
  {
    if members == [] then level else LevelBehindMembers(LevelBehind(level, members[0].value), members[1..])
  }

  /** The level goes up by one, 15 at most, and down by one. */
  lemma Levels(level: nat)
    ensures level < 15 ==> Indented(level) == level + 1
    ensures Indented(15) == 15
    ensures Unindented(level + 1) == level && Unindented(0) == 0
  {
  }

  /** A tree that nests no deeper than the level can count comes back to the level it began at. */
  lemma {:induction false} LevelReturns(level: nat, t: Json)
    requires level + Depth(t) <= MAX_LEVEL + 1
    ensures LevelBehind(level, t) == level
    decreases t, 1
  {
    match t
    case Arr(items) => if items != [] { ItemsReturn(level + 1, items); }
    case Obj(members) => if members != [] { MembersReturn(level + 1, members); }
    case _ =>
  }

  lemma {:induction false} ItemsReturn(level: nat, items: seq<Json>)
    requires level + DepthItems(items) <= MAX_LEVEL + 1
    ensures LevelBehindItems(level, items) == level
    decreases items, 0
  {
    if items != [] {
      LevelReturns(level, items[0]);
      ItemsReturn(level, items[1..]);
    }
  }

  lemma {:induction false} MembersReturn(level: nat, members: seq<Member>)
    requires level + DepthMembers(members) <= MAX_LEVEL + 1
    ensures LevelBehindMembers(level, members) == level
    decreases members, 0
  {
    if members != [] {
      LevelReturns(level, members[0].value);
      MembersReturn(level, members[1..]);
    }
  }

  /** No string or key ends in a backslash, and no token is empty. */
  predicate Tidy(t: Json)
    decreases t, 1
  {
    match t
    case Str(x) => !EndsInBackslash(x)
    case Raw(x) => x != "" && IsToken(x)
    case Arr(items) => TidyItems(items)
    case Obj(members) => TidyMembers(members)
  }

  predicate TidyItems(items: seq<Json>)
    decreases items, 0
  {
    items == [] || (Tidy(items[0]) && TidyItems(items[1..]))
  }

  predicate TidyMembers(members: seq<Member>)
    decreases members, 0
  {
    members == [] || (!EndsInBackslash(members[0].key) && Tidy(members[0].value) && TidyMembers(members[1..]))
  }

  // ---- the printer in front of a value and behind it ----

  /** Outside a string; a block that was just opened is on the line of its bracket. */
  predicate Ready(s: PrettyState) { !s.inString && (InEmptyBlock(s.previousChar) ==> !s.isNewLine) }

  /** The level at which the next value stands. */
  function Start(s: PrettyState): nat { if InEmptyBlock(s.previousChar) then Indented(s.level) else s.level }

  /** What is written in front of it. */
  function Lead(tab: nat, s: PrettyState): string {
    if InEmptyBlock(s.previousChar) then Line(tab, Start(s)) else Tabs(tab, s.level, s.isNewLine)
  }

  /** Behind a value. */
  predicate Done(s: PrettyState, level: nat) {
    !s.inString && !s.isNewLine && s.level == level && !InEmptyBlock(s.previousChar)
  }

  /** The first character of a value. */
  lemma FirstOf(tab: nat, s: PrettyState, c: char)
    requires Ready(s) && c !in ":,]}\n"
    ensures var (s', k) := PrettyWrite(tab, s, c);
      k.before == Lead(tab, s) && k.c == c && k.after == "" && s' == PrettyState(c, c == '\"', Start(s), false)
  {
  }

  /** Inside a string nothing is added. */
  lemma InsideOf(tab: nat, s: PrettyState, c: char)
    requires s.inString && !s.isNewLine && c != '\n'
    ensures PrettyWrite(tab, s, c) ==
      (PrettyState(c, !(c == '\"' && s.previousChar != '\\'), s.level, false), Chunk("", c, ""))
  {
  }

  /** A character that does not close the string is passed on. */
  lemma InsideRun(tab: nat, s: PrettyState, c: char, text: string, rest: string)
    requires s.inString && !s.isNewLine && c != '\n' && !(c == '\"' && s.previousChar != '\\')
    ensures var step, s' := Pretty(tab), PrettyState(c, true, s.level, false);
      Run(step, s, [c] + text, rest) == [c] + Run(step, s', text, rest) &&
      After(step, s, [c] + text) == After(step, s', text)
  {
    hide PrettyWrite, Run, After;
    InsideOf(tab, s, c);
    RunOne(Pretty(tab), s, c, text, rest);
  }

  lemma CloseRun(tab: nat, s: PrettyState, rest: string)
    requires s.inString && !s.isNewLine && s.previousChar != '\\'
    ensures Run(Pretty(tab), s, ['\"'], rest) == ['\"'] + rest
    ensures After(Pretty(tab), s, ['\"']) == PrettyState('\"', false, s.level, false)
  {
    hide PrettyWrite, Run, After;
    InsideOf(tab, s, '\"');
    assert ['\"'] == ['\"'] + "";
    RunOne(Pretty(tab), s, '\"', "", rest);
    RunNone(tab, PrettyWrite(tab, s, '\"').0, rest);
  }

  lemma {:induction false} LiteralRun(tab: nat, s: PrettyState, x: string, rest: string)
    requires s.inString && !s.isNewLine && !EndsInBackslash(x) && (x == "" ==> s.previousChar != '\\')
    ensures Run(Pretty(tab), s, PrintBody(x) + ['\"'], rest) == PrintBody(x) + (['\"'] + rest)
    ensures After(Pretty(tab), s, PrintBody(x) + ['\"']) == PrettyState('\"', false, s.level, false)
    decreases |x|
  {
    hide PrettyWrite, Run, After;
    if x == "" {
      CloseRun(tab, s, rest);
      assert PrintBody(x) + ['\"'] == ['\"'];
    } else {
      var more := PrintBody(x[1..]) + ['\"'];
      assert EndsInBackslash(x) == if x[1..] == "" then x[0] == '\\' else EndsInBackslash(x[1..]);
      if IsEscaped(x[0]) {
        var c := Escape(x[0]);
        assert PrintBody(x) + ['\"'] == ['\\'] + ([c] + more);
        InsideRun(tab, s, '\\', [c] + more, rest);
        InsideRun(tab, PrettyState('\\', true, s.level, false), c, more, rest);
        LiteralRun(tab, PrettyState(c, true, s.level, false), x[1..], rest);
      } else {
        assert PrintBody(x) + ['\"'] == [x[0]] + more;
        InsideRun(tab, s, x[0], more, rest);
        LiteralRun(tab, PrettyState(x[0], true, s.level, false), x[1..], rest);
      }
    }
  }

  /** The text of a quoted string behind its lead. */
  lemma QuotedRun(tab: nat, s: PrettyState, x: string, rest: string)
    requires Ready(s) && !EndsInBackslash(x)
    ensures Run(Pretty(tab), s, Quoted(x), rest) == Lead(tab, s) + (Quoted(x) + rest)
    ensures Done(After(Pretty(tab), s, Quoted(x)), Start(s))
  {
    hide PrettyWrite, EndsInBackslash, Run, After, PrintBody;
    FirstOf(tab, s, '\"');
    assert Quoted(x) == ['\"'] + (PrintBody(x) + ['\"']);
    RunOne(Pretty(tab), s, '\"', PrintBody(x) + ['\"'], rest);
    LiteralRun(tab, PrettyWrite(tab, s, '\"').0, x, rest);
  }

  lemma {:induction false} TokenRun(tab: nat, s: PrettyState, x: string, rest: string)
    requires Ready(s) && x != "" && IsToken(x)
    ensures Run(Pretty(tab), s, x, rest) == Lead(tab, s) + (x + rest)
    ensures Done(After(Pretty(tab), s, x), Start(s))
    decreases |x|
  {
    hide PrettyWrite, Run, After;
    FirstOf(tab, s, x[0]);
    assert x == [x[0]] + x[1..];
    RunOne(Pretty(tab), s, x[0], x[1..], rest);
    var s1 := PrettyWrite(tab, s, x[0]).0;
    RunNone(tab, s1, rest);
    if x[1..] != "" { TokenRun(tab, s1, x[1..], rest); }
  }

  // ---- the whole tree ----

  ghost predicate TextOf(tab: nat, s: PrettyState, text: string, laid: string, level: nat, rest: string) {
    Run(Pretty(tab), s, text, rest) == Lead(tab, s) + (laid + rest) && Done(After(Pretty(tab), s, text), level)
  }

  /** An empty array or object stays on its line. */
  lemma EmptyText(tab: nat, s: PrettyState, open: char, close: char, rest: string)
    requires Ready(s) && ((open == '[' && close == ']') || (open == '{' && close == '}'))
    ensures TextOf(tab, s, [open] + [close], [open] + [close], Start(s), rest)
  {
    var s1 := PrettyWrite(tab, s, open).0;
    FirstOf(tab, s, open);
    RunOne(Pretty(tab), s, open, [close], rest);
    assert [close] == [close] + "";
    RunOne(Pretty(tab), s1, close, "", rest);
    assert Tabs(tab, s1.level, false) == "";
  }

  /** Brackets around what has been laid out one level deeper. */
  lemma BlockText(tab: nat, s: PrettyState, open: char, close: char,
                  text: string, laid: string, level: nat, rest: string)
    requires Ready(s) && ((open == '[' && close == ']') || (open == '{' && close == '}'))
    requires var s1 := PrettyWrite(tab, s, open).0;
      TextOf(tab, s1, text, laid, level, Run(Pretty(tab), After(Pretty(tab), s1, text), [close], rest))
    ensures var inner, out := Indented(Start(s)), Unindented(level);
      TextOf(tab, s, [open] + (text + [close]),
             [open] + (Line(tab, inner) + (laid + (Line(tab, out) + [close]))), out, rest)
  {
    hide PrettyWrite, Indented, Unindented, Line, Run, After;
    var step := Pretty(tab);
    var s1 := PrettyWrite(tab, s, open).0;
    var s2 := After(step, s1, text);
    var inner, end := Line(tab, Indented(Start(s))), Line(tab, Unindented(level));
    FirstOf(tab, s, open);
    CloseOf(tab, s2, level, close);
    BlockRun(tab, s, s2, open, close, text, rest);
    BlockSpelled(Lead(tab, s), inner, laid, end, open, close, rest);
  }

  lemma BlockRun(tab: nat, s: PrettyState, s2: PrettyState, open: char, close: char, text: string, rest: string)
    requires s2 == After(Pretty(tab), PrettyWrite(tab, s, open).0, text)
    ensures var step, (s1, k), (s3, end) := Pretty(tab), PrettyWrite(tab, s, open), PrettyWrite(tab, s2, close);
      Run(step, s2, [close], rest) == Spell(end, rest) && After(step, s, [open] + (text + [close])) == s3 &&
      Run(step, s, [open] + (text + [close]), rest) == Spell(k, Run(step, s1, text, Run(step, s2, [close], rest)))
  {
    hide PrettyWrite, Run, After;
    var step := Pretty(tab);
    assert [close] == [close] + "";
    RunOne(step, s2, close, "", rest);
    RunNone(tab, step(s2, close).0, rest);
    RunConcat(step, PrettyWrite(tab, s, open).0, text, [close], rest);
    RunOne(step, s, open, text + [close], rest);
  }

  lemma RunNone(tab: nat, s: PrettyState, rest: string)
    ensures Run(Pretty(tab), s, "", rest) == rest && After(Pretty(tab), s, "") == s
  {
  }

  lemma BlockSpelled(lead: string, inner: string, laid: string, end: string, open: char, close: char, rest: string)
    ensures Spell(Chunk(lead, open, ""), inner + (laid + Spell(Chunk(end, close, ""), rest))) ==
      lead + (([open] + (inner + (laid + (end + [close])))) + rest)
  {
  }

  lemma CloseOf(tab: nat, s: PrettyState, level: nat, close: char)
    requires Done(s, level) && (close == ']' || close == '}')
    ensures var (s', k) := PrettyWrite(tab, s, close);
      k == Chunk(Line(tab, Unindented(level)), close, "") && Done(s', Unindented(level))
  {
    assert Tabs(tab, Unindented(level), false) == "";
    assert "" + "\r\n" + Tabs(tab, Unindented(level), true) == Line(tab, Unindented(level));
  }

  lemma CommaOf(tab: nat, s: PrettyState, level: nat)
    requires Done(s, level)
    ensures PrettyWrite(tab, s, ',') == (PrettyState(',', false, level, true), Chunk("", ',', "\r\n"))
    ensures PrettyWrite(tab, s, ':') == (PrettyState(':', false, level, false), Chunk("", ':', " "))
  {
  }

  /** One element, a comma, and the elements on the next lines. */
  lemma CommaText(tab: nat, s: PrettyState, first: string, laid: string, level: nat,
                  more: string, laidMore: string, end: nat, rest: string)
    requires var s1 := After(Pretty(tab), s, first);
      TextOf(tab, s, first, laid, level, Run(Pretty(tab), s1, [','] + more, rest)) &&
      TextOf(tab, PrettyState(',', false, level, true), more, laidMore, end, rest)
    ensures TextOf(tab, s, first + ([','] + more), laid + ("," + (Line(tab, level) + laidMore)), end, rest)
  {
    hide PrettyWrite, Run, After, Line, Spaces;
    var step := Pretty(tab);
    var s1, s2 := After(step, s, first), PrettyState(',', false, level, true);
    CommaOf(tab, s1, level);
    RunOne(step, s1, ',', more, rest);
    RunConcat(step, s, first, [','] + more, rest);
    CommaSpelled(tab, level, laid, laidMore, rest);
  }

  lemma CommaSpelled(tab: nat, level: nat, laid: string, laidMore: string, rest: string)
    ensures laid + Spell(Chunk("", ',', "\r\n"), Spaces(level * tab) + (laidMore + rest)) ==
      laid + ("," + (Line(tab, level) + laidMore)) + rest
  {
  }

  lemma {:induction false} ValueText(tab: nat, s: PrettyState, t: Json, rest: string)
    requires Ready(s) && Tidy(t)
    ensures TextOf(tab, s, Print(t), Laid(tab, Start(s), t), LevelBehind(Start(s), t), rest)
    decreases t, 1
  {
    hide TextOf, PrettyWrite;
    match t
    case Str(x) => WordText(tab, s, t, rest);
    case Raw(x) => WordText(tab, s, t, rest);
    case Arr(items) =>
      NothingInside();
      assert Print(t) == ['['] + (PrintItems(items) + [']']);
      if items == [] {
        EmptyText(tab, s, '[', ']', rest);
        assert ['['] + ("" + [']']) == ['['] + [']'] == "[]";
      } else {
        FirstOf(tab, s, '[');
        var s1 := PrettyWrite(tab, s, '[').0;
        ItemsText(tab, s1, items, Run(Pretty(tab), After(Pretty(tab), s1, PrintItems(items)), [']'], rest));
        var level := LevelBehindItems(Start(s1), items);
        BlockText(tab, s, '[', ']', PrintItems(items), LaidItems(tab, Start(s1), items), level, rest);
      }
    case Obj(members) =>
      NothingInside();
      assert Print(t) == ['{'] + (PrintMembers(members) + ['}']);
      if members == [] {
        EmptyText(tab, s, '{', '}', rest);
        assert ['{'] + ("" + ['}']) == ['{'] + ['}'] == "{}";
      } else {
        FirstOf(tab, s, '{');
        var s1 := PrettyWrite(tab, s, '{').0;
        MembersText(tab, s1, members, Run(Pretty(tab), After(Pretty(tab), s1, PrintMembers(members)), ['}'], rest));
        var level := LevelBehindMembers(Start(s1), members);
        BlockText(tab, s, '{', '}', PrintMembers(members), LaidMembers(tab, Start(s1), members), level, rest);
      }
  }

  lemma WordText(tab: nat, s: PrettyState, t: Json, rest: string)
    requires Ready(s) && Tidy(t) && (t.Str? || t.Raw?)
    ensures TextOf(tab, s, Print(t), Laid(tab, Start(s), t), LevelBehind(Start(s), t), rest)
  {
    if t.Str? { QuotedRun(tab, s, t.text, rest); } else { TokenRun(tab, s, t.token, rest); }
  }

  lemma {:induction false} ItemsText(tab: nat, s: PrettyState, items: seq<Json>, rest: string)
    requires Ready(s) && TidyItems(items) && items != []
    ensures TextOf(tab, s, PrintItems(items), LaidItems(tab, Start(s), items), LevelBehindItems(Start(s), items), rest)
    decreases items, 0
  {
    hide TextOf, PrettyWrite, Print, Laid, LevelBehind;
    var first, level := Print(items[0]), LevelBehind(Start(s), items[0]);
    if |items| == 1 {
      ValueText(tab, s, items[0], rest);
    } else {
      var more, s2 := PrintItems(items[1..]), PrettyState(',', false, level, true);
      ValueText(tab, s, items[0], Run(Pretty(tab), After(Pretty(tab), s, first), [','] + more, rest));
      ItemsText(tab, s2, items[1..], rest);
      var laidMore, end := LaidItems(tab, level, items[1..]), LevelBehindItems(level, items[1..]);
      CommaText(tab, s, first, Laid(tab, Start(s), items[0]), level, more, laidMore, end, rest);
      assert PrintItems(items) == first + ([','] + more);
    }
  }

  lemma {:induction false} MemberText(tab: nat, s: PrettyState, m: Member, rest: string)
    requires Ready(s) && !EndsInBackslash(m.key) && Tidy(m.value)
    ensures TextOf(tab, s, PrintMember(m), LaidMember(tab, Start(s), m), LevelBehind(Start(s), m.value), rest)
    decreases m, 2
  {
    hide PrettyWrite, Print, Laid, LevelBehind, Tidy, EndsInBackslash, Run, After, Quoted;
    var step := Pretty(tab);
    var key, level := Quoted(m.key), Start(s);
    var s1, s2 := After(step, s, key), PrettyState(':', false, level, false);
    QuotedRun(tab, s, m.key, Run(step, s1, [':'] + Print(m.value), rest));
    CommaOf(tab, s1, level);
    RunOne(step, s1, ':', Print(m.value), rest);
    RunConcat(step, s, key, [':'] + Print(m.value), rest);
    ValueText(tab, s2, m.value, rest);
    assert PrintMember(m) == key + ([':'] + Print(m.value));
    var laid := Laid(tab, level, m.value);
    assert Lead(tab, s2) == "";
    assert Spell(Chunk("", ':', " "), "" + (laid + rest)) == ": " + laid + rest;
    assert key + (": " + laid + rest) == key + (": " + laid) + rest;
  }

  lemma {:induction false} MembersText(tab: nat, s: PrettyState, members: seq<Member>, rest: string)
    requires Ready(s) && TidyMembers(members) && members != []
    ensures TextOf(tab, s, PrintMembers(members), LaidMembers(tab, Start(s), members),
                   LevelBehindMembers(Start(s), members), rest)
    decreases members, 0
  {
    hide TextOf, PrettyWrite, PrintMember, LaidMember, LevelBehind;
    var first, level := PrintMember(members[0]), LevelBehind(Start(s), members[0].value);
    if |members| == 1 {
      MemberText(tab, s, members[0], rest);
    } else {
      var more, s2 := PrintMembers(members[1..]), PrettyState(',', false, level, true);
      MemberText(tab, s, members[0], Run(Pretty(tab), After(Pretty(tab), s, first), [','] + more, rest));
      MembersText(tab, s2, members[1..], rest);
      var laidMore, end := LaidMembers(tab, level, members[1..]), LevelBehindMembers(level, members[1..]);
      CommaText(tab, s, first, LaidMember(tab, Start(s), members[0]), level, more, laidMore, end, rest);
      assert PrintMembers(members) == first + ([','] + more);
    }
  }

  /** The pretty text of a tidy tree: every element of a block on a line of its own, indented by one tab more than
      its block for as long as the four bits of the level can count. */
  lemma PrettyIsLaid(tab: nat, t: Json)
    requires Tidy(t)
    ensures PrettyPrint(tab, t) == Laid(tab, 0, t)
    ensures Depth(t) <= 16 ==> LevelBehind(0, t) == 0
  {
    hide Laid, Run, Print;
    ValueText(tab, INITIAL, t, "");
    if Depth(t) <= 16 { LevelReturns(0, t); }
    assert Lead(tab, INITIAL) == "";
    assert "" + (Laid(tab, 0, t) + "") == Laid(tab, 0, t);
  }
}
