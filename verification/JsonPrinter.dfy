/** The printing objects: `JsonWriter` with the `writeTo` members, `IndentedPrint` and `Prettyfier`. */
module JsonPrinter {
  import opened Wrappers
  import opened JsonText
  import opened JsonSpread
  import opened JsonDocument
  import opened JsonPretty

  /** `Encoding::escapeChar`: the letter to print after a backslash, NUL when there is none. */
  method EscapeChar(c: char) returns (r: char)
    ensures r == Escape(c)
  {
    var p := 0;
    while p < |ESCAPE_TABLE| && ESCAPE_TABLE[p + 1] != c
      invariant p in {0, 2, 4, 6, 8, 10, 12, 14}
      invariant (p > 0 ==> c != '\"') && (p > 2 ==> c != '\\') && (p > 4 ==> c != '\U{0008}') &&
                (p > 6 ==> c != '\U{000C}') && (p > 8 ==> c != '\n') && (p > 10 ==> c != '\r') && (p > 12 ==> c != '\t')
    {
      p := p + 2;
    }
    if p == |ESCAPE_TABLE| { return '\0'; }
    return ESCAPE_TABLE[p];
  }

  lemma BodyFrom(x: string, i: nat)
    requires i < |x|
    ensures PrintBody(x[i..]) == PrintChar(x[i]) + PrintBody(x[i + 1..])
  {
    assert x[i..][1..] == x[i + 1..];
  }

  lemma Bracketed(before: string, open: char, text: string, close: char)
    ensures before + [open] + text + [close] == before + ([open] + text + [close])
  {
  }

  lemma QuotedOnto(before: string, x: string)
    ensures before + ['\"'] + PrintBody(x) + ['\"'] == before + Quoted(x)
    ensures |Quoted(x)| == 1 + |PrintBody(x)| + 1
  {
    hide PrintBody;
  }

  lemma ItemsFrom(items: seq<Json>, i: nat)
    requires i < |items|
    ensures PrintItems(items[i..]) ==
            Print(items[i]) + (if i + 1 < |items| then "," + PrintItems(items[i + 1..]) else "")
  {
    assert items[i..][1..] == items[i + 1..];
  }

  lemma MembersFrom(members: seq<Member>, i: nat)
    requires i < |members|
    ensures PrintMembers(members[i..]) ==
            PrintMember(members[i]) + (if i + 1 < |members| then "," + PrintMembers(members[i + 1..]) else "")
  {
    assert members[i..][1..] == members[i + 1..];
  }

  class JsonWriter {
    var sink: string
    var length: nat

    constructor ()
      ensures sink == "" && length == 0
    {
      sink, length := "", 0;
    }

    /** `text` has been sent to the sink and counted. */
    twostate predicate Sent(text: string)
      reads this
    {
      sink == old(sink) + text && length == old(length) + |text|
    }

    method Write(c: char)
      modifies this
      ensures Sent([c])
    {
      sink, length := sink + [c], length + 1;
    }

    method WriteRaw(s: string)
      modifies this
      ensures Sent(s)
    {
      var i := 0;
      while i < |s|
        invariant i <= |s| && Sent(s[..i])
      {
        Write(s[i]);
        assert s[..i + 1] == s[..i] + [s[i]];
        i := i + 1;
      }
      assert s[..i] == s;
    }

    method WriteChar(c: char)
      modifies this
      ensures Sent(PrintChar(c))
    {
      var specialChar := EscapeChar(c);
      if specialChar != '\0' {
        Write('\\');
        Write(specialChar);
      } else {
        Write(c);
      }
    }

    /** A missing string is written as `null`. */
    method WriteString(value: Option<string>)
      modifies this
      ensures Sent(if value.Some? then Quoted(value.value) else "null")
    {
      if value.None? {
        WriteRaw("null");
        return;
      }
      hide Quoted, PrintBody;
      QuotedOnto(sink, value.value);
      Write('\"');
      WriteBody(value.value);
      Write('\"');
    }

    /** The loop of `writeString`. */
    method WriteBody(value: string)
      modifies this
      ensures Sent(PrintBody(value))
    {
      hide PrintBody, PrintChar;
      var i := 0;
      ghost var done := "";
      assert value[0..] == value && done + PrintBody(value) == PrintBody(value);
      while i < |value|
        invariant i <= |value| && Sent(done) && done + PrintBody(value[i..]) == PrintBody(value)
      {
        BodyFrom(value, i);
        WriteChar(value[i]);
        done := done + PrintChar(value[i]);
        i := i + 1;
      }
      NoBody();
      assert value[i..] == "" && done + "" == done;
    }

    /** `JsonVariant::writeTo` on the kinds of value a tree holds. */
    method WriteTo(t: Json)
      modifies this
      ensures Sent(Print(t))
      decreases t, 1
    {
      match t
      case Str(x) => WriteString(Some(x));
      case Raw(x) => WriteRaw(x);
      case Arr(items) => WriteArray(items);
      case Obj(members) => WriteObject(members);
    }

    method WriteArray(items: seq<Json>)
      modifies this
      ensures Sent("[" + PrintItems(items) + "]")
      decreases items, 2
    {
      hide Print, PrintItems;
      Bracketed(sink, '[', PrintItems(items), ']');
      Write('[');
      WriteItems(items);
      Write(']');
    }

    /** The loop of `JsonArray::writeTo`. */
    method WriteItems(items: seq<Json>)
      modifies this
      ensures Sent(PrintItems(items))
      decreases items, 1
    {
      hide Print, PrintItems;
      NothingInside();
      var child := 0;
      ghost var done := "";
      assert items[0..] == items && done + PrintItems(items) == PrintItems(items);
      while child < |items|
        invariant child <= |items| && Sent(done) && done + PrintItems(items[child..]) == PrintItems(items)
      {
        ItemsFrom(items, child);
        WriteTo(items[child]);
        done := done + Print(items[child]);
        child := child + 1;
        if child == |items| { break; }
        Write(',');
        done := done + ",";
      }
      assert items[|items|..] == [] && done + "" == done;
    }

    method WritePair(m: Member)
      modifies this
      ensures Sent(PrintMember(m))
      decreases m, 2
    {
      WriteString(Some(m.key));
      Write(':');
      WriteTo(m.value);
    }

    method WriteObject(members: seq<Member>)
      modifies this
      ensures Sent("{" + PrintMembers(members) + "}")
      decreases members, 4
    {
      hide Print, PrintMember, PrintMembers;
      Bracketed(sink, '{', PrintMembers(members), '}');
      Write('{');
      WriteMembers(members);
      Write('}');
    }

    /** The loop of `JsonObject::writeTo`. */
    method WriteMembers(members: seq<Member>)
      modifies this
      ensures Sent(PrintMembers(members))
      decreases members, 3
    {
      hide Print, PrintMember, PrintMembers;
      NothingInside();
      var node := 0;
      ghost var done := "";
      assert members[0..] == members && done + PrintMembers(members) == PrintMembers(members);
      while node < |members|
        invariant node <= |members| && Sent(done) && done + PrintMembers(members[node..]) == PrintMembers(members)
      {
        MembersFrom(members, node);
        WritePair(members[node]);
        done := done + PrintMember(members[node]);
        node := node + 1;
        if node == |members| { break; }
        Write(',');
        done := done + ",";
      }
      assert members[|members|..] == [] && done + "" == done;
    }
  }

  class IndentedPrint {
    var level: nat
    var tabSize: nat
    var isNewLine: bool
    var out: string

    constructor ()
      ensures level == 0 && tabSize == 2 && isNewLine && out == ""
    {
      level, tabSize, isNewLine, out := 0, 2, true, "";
    }

    method WriteTabs() returns (n: nat)
      modifies this`out
      ensures out == old(out) + Spaces(level * tabSize) && n == level * tabSize
    {
      n := 0;
      while n < level * tabSize
        invariant n <= level * tabSize && out == old(out) + Spaces(n)
      {
        assert Spaces(n + 1) == Spaces(n) + [' '];
        out := out + [' '];
        n := n + 1;
      }
    }

    method Write(c: char) returns (n: nat)
      modifies this`out, this`isNewLine
      ensures out == old(out) + Tabs(tabSize, level, old(isNewLine)) + [c]
      ensures isNewLine == (c == '\n') && n == |out| - |old(out)|
    {
      n := 0;
      if isNewLine { n := WriteTabs(); }
      out := out + [c];
      n := n + 1;
      isNewLine := c == '\n';
    }

    /** `Print::println`. */
    method Println() returns (n: nat)
      modifies this`out, this`isNewLine
      ensures out == old(out) + Tabs(tabSize, level, old(isNewLine)) + "\r\n"
      ensures isNewLine && n == |out| - |old(out)|
    {
      n := Write('\r');
      var m := Write('\n');
      n := n + m;
    }

    method Indent()
      modifies this`level
      ensures level == Indented(old(level))
    {
      if level < MAX_LEVEL { level := level + 1; }
    }

    method Unindent()
      modifies this`level
      ensures level == Unindented(old(level))
    {
      if level > 0 { level := level - 1; }
    }
  }

  class Prettyfier {
    const sink: IndentedPrint
    var previousChar: char
    var inString: bool

    ghost function State(): PrettyState
      reads this, sink
    {
      PrettyState(previousChar, inString, sink.level, sink.isNewLine)
    }

    constructor (p: IndentedPrint)
      ensures sink == p && State() == PrettyState('\0', false, p.level, p.isNewLine)
    {
      sink, previousChar, inString := p, '\0', false;
    }

    method IndentIfNeeded() returns (n: nat)
      modifies sink
      ensures sink.tabSize == old(sink.tabSize) && n == |sink.out| - |old(sink.out)|
      ensures if InEmptyBlock(previousChar) then
                var level := Indented(old(sink.level));
                sink.level == level && sink.isNewLine &&
                sink.out == old(sink.out) + (Tabs(sink.tabSize, level, old(sink.isNewLine)) + "\r\n")
              else sink.level == old(sink.level) && sink.isNewLine == old(sink.isNewLine) && sink.out == old(sink.out)
    {
      if !InEmptyBlock(previousChar) { return 0; }
      sink.Indent();
      n := sink.Println();
    }

    method UnindentIfNeeded() returns (n: nat)
      modifies sink
      ensures sink.tabSize == old(sink.tabSize) && n == |sink.out| - |old(sink.out)|
      ensures if InEmptyBlock(previousChar) then
                sink.level == old(sink.level) && sink.isNewLine == old(sink.isNewLine) && sink.out == old(sink.out)
              else
                var level := Unindented(old(sink.level));
                sink.level == level && sink.isNewLine &&
                sink.out == old(sink.out) + (Tabs(sink.tabSize, level, old(sink.isNewLine)) + "\r\n")
    {
      if InEmptyBlock(previousChar) { return 0; }
      sink.Unindent();
      n := sink.Println();
    }

    /** The sink and `inString` are as `PrettyWrite` says for the character `c` outside a string. */
    twostate predicate Handled(c: char, n: int)
      reads this, sink
    {
      var (s, k) := PrettyWrite(sink.tabSize, old(State()).(inString := false), c);
      sink.tabSize == old(sink.tabSize) && n == |sink.out| - |old(sink.out)| &&
      inString == s.inString && sink.level == s.level && sink.isNewLine == s.isNewLine &&
      sink.out == old(sink.out) + Spell(k, "")
    }

    method HandleBlockOpen(c: char) returns (n: nat)
      requires !inString && (c == '{' || c == '[')
      modifies sink
      ensures Handled(c, n)
    {
      n := IndentIfNeeded();
      var m := sink.Write(c);
      n := n + m;
    }

    method HandleBlockClose(c: char) returns (n: nat)
      requires !inString && (c == '}' || c == ']')
      modifies sink
      ensures Handled(c, n)
    {
      n := UnindentIfNeeded();
      var m := sink.Write(c);
      n := n + m;
    }

    method HandleColon() returns (n: nat)
      requires !inString
      modifies sink
      ensures Handled(':', n)
    {
      n := sink.Write(':');
      var m := sink.Write(' ');
      n := n + m;
    }

    method HandleComma() returns (n: nat)
      requires !inString
      modifies sink
      ensures Handled(',', n)
    {
      n := sink.Write(',');
      var m := sink.Println();
      n := n + m;
    }

    method HandleQuoteOpen() returns (n: nat)
      requires !inString
      modifies this`inString, sink
      ensures Handled('\"', n)
    {
      inString := true;
      n := IndentIfNeeded();
      var m := sink.Write('\"');
      n := n + m;
    }

    method HandleNormalChar(c: char) returns (n: nat)
      requires !inString && c !in "{}[]:,\""
      modifies sink
      ensures Handled(c, n)
    {
      n := IndentIfNeeded();
      var m := sink.Write(c);
      n := n + m;
    }

    method HandleMarkupChar(c: char) returns (n: nat)
      requires !inString
      modifies this`inString, sink
      ensures Handled(c, n)
    {
      match c
      case '{' => n := HandleBlockOpen(c);
      case '[' => n := HandleBlockOpen(c);
      case '}' => n := HandleBlockClose(c);
      case ']' => n := HandleBlockClose(c);
      case ':' => n := HandleColon();
      case ',' => n := HandleComma();
      case '\"' => n := HandleQuoteOpen();
      case _ => n := HandleNormalChar(c);
    }

    method HandleStringChar(c: char) returns (n: nat)
      requires inString
      modifies this`inString, sink
      ensures sink.tabSize == old(sink.tabSize) && n == |sink.out| - |old(sink.out)|
      ensures var (s, k) := PrettyWrite(sink.tabSize, old(State()), c);
        inString == s.inString && sink.level == s.level && sink.isNewLine == s.isNewLine &&
        sink.out == old(sink.out) + Spell(k, "")
    {
      if c == '\"' && previousChar != '\\' { inString := false; }
      n := sink.Write(c);
    }

    method Write(c: char) returns (n: nat)
      modifies this, sink
      ensures sink.tabSize == old(sink.tabSize) && n == |sink.out| - |old(sink.out)|
      ensures var (s, k) := PrettyWrite(sink.tabSize, old(State()), c);
        State() == s && sink.out == old(sink.out) + Spell(k, "")
    {
      if inString {
        n := HandleStringChar(c);
      } else {
        n := HandleMarkupChar(c);
      }
      previousChar := c;
    }
  }

  /** `printTo`. */
  method PrintTo(t: Json) returns (text: string, bytes: nat)
    ensures text == Print(t) && bytes == |text|
  {
    var writer := new JsonWriter();
    writer.WriteTo(t);
    text, bytes := writer.sink, writer.length;
  }

  lemma RunTail(tab: nat, s: PrettyState, text: string, i: nat)
    requires i < |text|
    ensures var (s', k) := PrettyWrite(tab, s, text[i]);
      Run(Pretty(tab), s, text[i..], "") == Spell(k, "") + Run(Pretty(tab), s', text[i + 1..], "")
  {
    assert text[i..][1..] == text[i + 1..];
    var (s', k) := PrettyWrite(tab, s, text[i]);
    var rest := Run(Pretty(tab), s', text[i + 1..], "");
    assert Spell(k, rest) == Spell(k, "") + rest;
  }

  /** `prettyPrintTo`: the writer sends every character of the compact text to a `Prettyfier`. */
  method PrettyPrintTo(t: Json, indentedPrint: IndentedPrint) returns (bytes: nat)
    modifies indentedPrint
    ensures var start := PrettyState('\0', false, old(indentedPrint.level), old(indentedPrint.isNewLine));
      indentedPrint.out == old(indentedPrint.out) + Run(Pretty(indentedPrint.tabSize), start, Print(t), "")
    ensures bytes == |indentedPrint.out| - |old(indentedPrint.out)|
  {
    hide PrettyWrite, Run, Print;
    var p := new Prettyfier(indentedPrint);
    ghost var tab := indentedPrint.tabSize;
    ghost var goal := indentedPrint.out + Run(Pretty(tab), p.State(), Print(t), "");
    var text, _ := PrintTo(t);
    bytes := 0;
    var i := 0;
    assert text[0..] == text;
    while i < |text|
      invariant i <= |text| && p.sink == indentedPrint && indentedPrint.tabSize == tab
      invariant bytes == |indentedPrint.out| - |old(indentedPrint.out)|
      invariant indentedPrint.out + Run(Pretty(tab), p.State(), text[i..], "") == goal
    {
      RunTail(tab, p.State(), text, i);
      var n := p.Write(text[i]);
      bytes := bytes + n;
      i := i + 1;
    }
    assert text[i..] == "";
    RunEnd(tab, p.State());
  }

  lemma RunEnd(tab: nat, s: PrettyState)
    ensures Run(Pretty(tab), s, "", "") == ""
  {
  }
}
