/** `JsonParser` as it runs: it reads from and writes into the same character buffer. Strings are
    unescaped and NUL-terminated behind the read position; the results are pointers into the buffer. */
module JsonParser {
  import opened JsonText
  import R = JsonReader

  /** What the parser hands out: strings are buffer positions. */
  datatype Node =
    | StrNode(start: nat)
    | RawNode(start: nat)
    | ArrNode(items: seq<Node>)
    | ObjNode(members: seq<MemberNode>)

  datatype MemberNode = MemberNode(key: nat, value: Node)

  /** A NUL-terminated string `text` starts at `p`. */
  predicate TextAt(mem: string, p: nat, text: string) {
    p + |text| < |mem| && mem[p..p + |text|] == text && mem[p + |text|] == '\0' && '\0' !in text
  }

  ghost predicate Represents(mem: string, n: Node, v: Json) {
    match n
    case StrNode(p) => v.Str? && TextAt(mem, p, v.text)
    case RawNode(p) => v.Raw? && TextAt(mem, p, v.token)
    case ArrNode(ns) => v.Arr? && RepresentsItems(mem, ns, v.items)
    case ObjNode(ns) => v.Obj? && RepresentsMembers(mem, ns, v.members)
  }

  ghost predicate RepresentsItems(mem: string, ns: seq<Node>, vs: seq<Json>) {
    |ns| == |vs| && forall i | 0 <= i < |ns| :: Represents(mem, ns[i], vs[i])
  }

  ghost predicate RepresentsMembers(mem: string, ns: seq<MemberNode>, vs: seq<Member>) {
    |ns| == |vs| && forall i | 0 <= i < |ns| :: RepresentsMember(mem, ns[i], vs[i])
  }

  ghost predicate RepresentsMember(mem: string, n: MemberNode, v: Member) {
    TextAt(mem, n.key, v.key) && Represents(mem, n.value, v.value)
  }

  lemma ItemsNode(mem: string, ns: seq<Node>, vs: seq<Json>)
    ensures RepresentsItems(mem, ns, vs) ==> Represents(mem, ArrNode(ns), Arr(vs))
  {
  }

  lemma MembersNode(mem: string, ns: seq<MemberNode>, vs: seq<Member>)
    ensures RepresentsMembers(mem, ns, vs) ==> Represents(mem, ObjNode(ns), Obj(vs))
    ensures ns == [] && vs == [] ==> RepresentsMembers(mem, ns, vs)
  {
  }

  lemma TextStays(mem: string, more: string, p: nat, text: string)
    requires TextAt(mem, p, text) && mem <= more
    ensures TextAt(more, p, text)
  {
    assert more[p..p + |text|] == more[..|mem|][p..p + |text|];
  }

  /** Results keep their meaning while the parser only writes behind them. */
  lemma {:induction false} Stays(mem: string, more: string, n: Node, v: Json)
    requires Represents(mem, n, v) && mem <= more
    ensures Represents(more, n, v)
  {
    match n
    case StrNode(p) => TextStays(mem, more, p, v.text);
    case RawNode(p) => TextStays(mem, more, p, v.token);
    case ArrNode(ns) => ItemsStay(mem, more, ns, v.items);
    case ObjNode(ns) => MembersStay(mem, more, ns, v.members);
  }

  lemma {:induction false} ItemsStay(mem: string, more: string, ns: seq<Node>, vs: seq<Json>)
    requires RepresentsItems(mem, ns, vs) && mem <= more
    ensures RepresentsItems(more, ns, vs)
  {
    forall i | 0 <= i < |ns| ensures Represents(more, ns[i], vs[i]) {
      Stays(mem, more, ns[i], vs[i]);
    }
  }

  lemma {:induction false} MembersStay(mem: string, more: string, ns: seq<MemberNode>, vs: seq<Member>)
    requires RepresentsMembers(mem, ns, vs) && mem <= more
    ensures RepresentsMembers(more, ns, vs)
  {
    forall i | 0 <= i < |ns| ensures RepresentsMember(more, ns[i], vs[i]) {
      MemberStays(mem, more, ns[i], vs[i]);
    }
  }

  lemma {:induction false} MemberStays(mem: string, more: string, n: MemberNode, v: Member)
    requires RepresentsMember(mem, n, v) && mem <= more
    ensures RepresentsMember(more, n, v)
  {
    TextStays(mem, more, n.key, v.key);
    Stays(mem, more, n.value, v.value);
  }

  class Parser {
    const json: array<char>
    ghost const source: string
    var readPtr: nat
    var writePtr: nat
    var nestingLimit: nat
    var memory: nat

    /** The write position never passes the read position, and everything from the write position on is
        still the text the caller passed in. */
    ghost predicate Valid()
      reads this, json
    {
      |source| < json.Length && '\0' !in source && json[|source|] == '\0' &&
      writePtr <= readPtr <= |source| &&
      forall i | writePtr <= i < |source| :: json[i] == source[i]
    }

    ghost function Rest(): string
      reads this, json
      requires Valid()
    {
      source[readPtr..]
    }

    /** The part of the buffer that holds results. */
    ghost function Written(): string
      reads this, json
      requires Valid()
    {
      json[..writePtr]
    }

    constructor (json: array<char>, ghost source: string, nestingLimit: nat, memory: nat)
      requires |source| < json.Length && '\0' !in source
      requires json[..|source|] == source && json[|source|] == '\0'
      ensures Valid() && this.json == json && this.source == source
      ensures Rest() == source && Written() == [] && this.nestingLimit == nestingLimit && this.memory == memory
    {
      this.json := json;
      this.source := source;
      this.readPtr := 0;
      this.writePtr := 0;
      this.nestingLimit := nestingLimit;
      this.memory := memory;
    }

    method SkipBlockComment(start: nat) returns (ptr: nat)
      requires Valid() && readPtr <= start <= |source| - 2
      ensures start + 2 <= ptr <= |source| && source[ptr..] == R.SkipBlockComment(source[start + 2..])
    {
      hide R.SkipBlockComment;
      ptr := start + 2;
      while true
        invariant start + 2 <= ptr <= |source|
        invariant R.SkipBlockComment(source[ptr..]) == R.SkipBlockComment(source[start + 2..])
        decreases |source| - ptr
      {
        R.BlockCommentTurn(source, ptr);
        if json[ptr] == '\0' { return; }
        if json[ptr] == '*' && json[ptr + 1] == '/' { return ptr + 2; }
        ptr := ptr + 1;
      }
    }

    method SkipLineComment(start: nat) returns (ptr: nat)
      requires Valid() && readPtr <= start <= |source| - 2
      ensures start + 2 <= ptr <= |source| && source[ptr..] == R.SkipLineComment(source[start + 2..])
    {
      ptr := start + 2;
      while true
        invariant start + 2 <= ptr <= |source|
        invariant R.SkipLineComment(source[ptr..]) == R.SkipLineComment(source[start + 2..])
        decreases |source| - ptr
      {
        if json[ptr] == '\0' || json[ptr] == '\n' { return; }
        assert source[ptr..][1..] == source[ptr + 1..];
        ptr := ptr + 1;
      }
    }

    method SkipSpacesAndComments(start: nat) returns (ptr: nat)
      requires Valid() && readPtr <= start <= |source|
      ensures start <= ptr <= |source| && source[ptr..] == R.SkipSpaces(source[start..])
    {
      hide R.SkipSpaces, R.SkipBlockComment, R.SkipLineComment;
      ghost var goal := R.SkipSpaces(source[start..]);
      ptr := start;
      while true
        invariant start <= ptr <= |source| && R.SkipSpaces(source[ptr..]) == goal
        decreases |source| - ptr
      {
        R.SpacesTurn(source, ptr);
        var c := json[ptr];
        if c == ' ' || c == '\t' || c == '\r' || c == '\n' {
          ptr := ptr + 1;
        } else if c == '/' {
          if json[ptr + 1] == '*' {
            ptr := SkipBlockComment(ptr);
          } else if json[ptr + 1] == '/' {
            ptr := SkipLineComment(ptr);
          } else {
            return;
          }
        } else {
          return;
        }
      }
    }

    method Skip(charToSkip: char) returns (found: bool)
      requires Valid() && charToSkip != '\0'
      modifies this`readPtr
      ensures Valid() && found == R.Skip(old(Rest()), charToSkip).Some?
      ensures found ==> Rest() == R.Skip(old(Rest()), charToSkip).value && readPtr > old(readPtr)
      ensures !found ==> readPtr == old(readPtr)
    {
      hide R.SkipSpaces;
      var ptr := SkipSpacesAndComments(readPtr);
      if json[ptr] != charToSkip { return false; }
      assert source[ptr..][1..] == source[ptr + 1..];
      readPtr := SkipSpacesAndComments(ptr + 1);
      return true;
    }

    /** `Encoding::unescapeChar`: scans the table from its third pair on. */
    static method UnescapeChar(c: char) returns (r: char)
      ensures r == Unescape(c)
      ensures r == '\0' <==> c == '\0'
    {
      var p := 4;
      while p < |ESCAPE_TABLE|
        invariant p % 2 == 0 && 4 <= p <= |ESCAPE_TABLE|
        invariant forall q | 4 <= q < p && q % 2 == 0 :: ESCAPE_TABLE[q] != c
      {
        if ESCAPE_TABLE[p] == c { return ESCAPE_TABLE[p + 1]; }
        p := p + 2;
      }
      assert ESCAPE_TABLE[4] != c && ESCAPE_TABLE[6] != c && ESCAPE_TABLE[8] != c &&
             ESCAPE_TABLE[10] != c && ESCAPE_TABLE[12] != c;
      return c;
    }

    /** The text from `start` to the write position has just been written there. */
    ghost predicate Draft(start: nat, text: string, wp: nat, rp: nat)
      reads this, json
    {
      |source| < json.Length && '\0' !in source && json[|source|] == '\0' &&
      start + |text| == wp < rp && wp <= |source| &&
      json[start..wp] == text && '\0' !in text &&
      forall i | wp <= i < |source| :: json[i] == source[i]
    }

    lemma EmptyDraft(from: nat)
      requires Valid() && writePtr < from
      ensures Draft(writePtr, "", writePtr, from)
    {
    }

    lemma DraftAt(start: nat, text: string, wp: nat, rp: nat)
      requires Draft(start, text, wp, rp) && rp <= |source|
      ensures wp < rp < json.Length && json[rp] == if rp < |source| then source[rp] else '\0'
      ensures rp < |source| ==> source[rp] != '\0'
    {
    }

    lemma DraftLater(start: nat, text: string, wp: nat, rp: nat)
      requires Draft(start, text, wp, rp)
      ensures Draft(start, text, wp, rp + 1)
    {
    }

    /** Writes one character behind the read position. */
    method WriteBehind(ghost start: nat, ghost text: string, wp: nat, ghost rp: nat, c: char)
      requires Draft(start, text, wp, rp) && rp <= |source| && c != '\0'
      modifies json
      ensures Draft(start, text + [c], wp + 1, rp + 1) && json[..start] == old(json[..start])
    {
      json[wp] := c;
      assert json[start..wp + 1] == text + [c];
    }

    /** The loop for a quoted string: copies from `from` up to the quote or the end, unescaping. */
    method CopyQuoted(from: nat, stopChar: char) returns (rp: nat, wp: nat)
      requires Valid() && writePtr < from <= |source| && stopChar != '\0'
      modifies json
      ensures var r := R.ReadQuoted(source[from..], stopChar);
        Draft(writePtr, r.text, wp, rp) && rp <= |source| && source[rp..] == r.rest
      ensures json[..writePtr] == old(json[..writePtr])
    {
      hide R.ReadQuoted, Unescape, Draft;
      EmptyDraft(from);
      ghost var goal := R.ReadQuoted(source[from..], stopChar);
      ghost var text: string := "";
      rp, wp := from, writePtr;
      while true
        invariant Draft(writePtr, text, wp, rp) && rp <= |source|
        invariant json[..writePtr] == old(json[..writePtr])
        invariant var r := R.ReadQuoted(source[rp..], stopChar);
          goal.text == text + r.text && goal.rest == r.rest
        decreases |source| - rp
      {
        R.QuotedTurn(source, rp, stopChar);
        DraftAt(writePtr, text, wp, rp);
        var c := json[rp];
        if c == '\0' { break; }
        DraftLater(writePtr, text, wp, rp);
        if c == stopChar {
          rp := rp + 1;
          break;
        }
        if c == '\\' {
          rp := rp + 1;
          DraftAt(writePtr, text, wp, rp);
          c := UnescapeChar(json[rp]);
          if c == '\0' { break; }
        }
        WriteBehind(writePtr, text, wp, rp, c);
        wp, rp, text := wp + 1, rp + 1, text + [c];
      }
      assert text == goal.text;
    }

    /** The loop for an unquoted token. */
    method CopyToken(from: nat) returns (rp: nat, wp: nat)
      requires Valid() && writePtr < from <= |source|
      modifies json
      ensures var r := R.ReadToken(source[from..]);
        Draft(writePtr, r.text, wp, rp) && rp <= |source| && source[rp..] == r.rest
      ensures json[..writePtr] == old(json[..writePtr])
    {
      hide R.ReadToken, Draft;
      EmptyDraft(from);
      ghost var goal := R.ReadToken(source[from..]);
      ghost var text: string := "";
      rp, wp := from, writePtr;
      DraftAt(writePtr, text, wp, rp);
      var c := json[rp];
      while IsLetterOrNumber(c)
        invariant Draft(writePtr, text, wp, rp) && rp <= |source| && c == json[rp]
        invariant json[..writePtr] == old(json[..writePtr])
        invariant var r := R.ReadToken(source[rp..]);
          goal.text == text + r.text && goal.rest == r.rest
        decreases |source| - rp
      {
        R.TokenTurn(source, rp);
        DraftAt(writePtr, text, wp, rp);
        WriteBehind(writePtr, text, wp, rp, c);
        wp, rp, text := wp + 1, rp + 1, text + [c];
        DraftAt(writePtr, text, wp, rp);
        c := json[rp];
      }
      R.TokenTurn(source, rp);
      DraftAt(writePtr, text, wp, rp);
      assert text == goal.text;
    }

    /** Ends the text in the buffer and moves both positions behind what was read and written. */
    method Finish(ghost start: nat, ghost text: string, rp: nat, wp: nat)
      requires start == writePtr && Draft(start, text, wp, rp) && rp <= |source|
      modifies this`readPtr, this`writePtr, json
      ensures Valid() && Rest() == source[rp..] && json[..start] == old(json[..start]) && start <= writePtr
      ensures TextAt(Written(), start, text)
    {
      json[wp] := '\0';
      readPtr, writePtr := rp, wp + 1;
      assert Written()[start..start + |text|] == text;
    }

    method ParseString() returns (start: nat)
      requires Valid() && writePtr < readPtr
      modifies this`readPtr, this`writePtr, json
      ensures Valid() && start == old(writePtr) && old(Written()) <= Written()
      ensures Rest() == R.ReadString(old(Rest())).rest
      ensures TextAt(Written(), start, R.ReadString(old(Rest())).text)
    {
      hide R.ReadQuoted, R.ReadToken, Draft, TextAt;
      start := writePtr;
      ghost var text := R.ReadString(Rest()).text;
      var rp, wp;
      if IsQuote(json[readPtr]) {
        assert source[readPtr..][1..] == source[readPtr + 1..];
        rp, wp := CopyQuoted(readPtr + 1, json[readPtr]);
      } else {
        rp, wp := CopyToken(readPtr);
      }
      Finish(start, text, rp, wp);
    }

    /** `strcmp(a, b) == 0`. */
    method SameText(p: nat, q: nat, ghost a: string, ghost b: string) returns (same: bool)
      requires Valid() && TextAt(Written(), p, a) && TextAt(Written(), q, b)
      ensures same == (a == b)
    {
      var i := 0;
      while json[p + i] == json[q + i] && json[p + i] != '\0'
        invariant i <= |a| && i <= |b| && a[..i] == b[..i]
        invariant json[p..p + |a|] == a && json[p + |a|] == '\0' && json[q..q + |b|] == b && json[q + |b|] == '\0'
        decreases |a| - i
      {
        assert a[i] == json[p + i] && b[i] == json[q + i];
        i := i + 1;
      }
      assert i < |a| ==> a[i] == json[p + i];
      assert i < |b| ==> b[i] == json[q + i];
      same := json[p + i] == json[q + i];
    }

    /** `JsonObject::getNodeAt`: position of the member with this key, or the number of members. */
    method GetNodeAt(members: seq<MemberNode>, key: nat, ghost vals: seq<Member>, ghost text: string) returns (i: nat)
      requires Valid() && RepresentsMembers(Written(), members, vals) && TextAt(Written(), key, text)
      ensures i == Find(vals, text)
    {
      i := 0;
      while i < |members|
        invariant i <= |members|
        invariant forall j | 0 <= j < i :: vals[j].key != text
      {
        assert RepresentsMember(Written(), members[i], vals[i]);
        var same := SameText(members[i].key, key, vals[i].key, text);
        if same { return; }
        i := i + 1;
      }
    }

    /** `JsonObject::set`: false when a new list node was needed and could not be allocated. */
    method SetMember(members: seq<MemberNode>, key: nat, value: Node,
                     ghost vals: seq<Member>, ghost text: string, ghost v: Json)
      returns (ok: bool, updated: seq<MemberNode>)
      requires Valid() && RepresentsMembers(Written(), members, vals)
      requires TextAt(Written(), key, text) && Represents(Written(), value, v)
      modifies this`memory
      ensures Valid() && ok == (NewCells(vals, text) <= old(memory))
      ensures ok ==> memory == old(memory) - NewCells(vals, text)
      ensures ok ==> RepresentsMembers(Written(), updated, Put(vals, text, v))
    {
      var i := GetNodeAt(members, key, vals, text);
      if i < |members| {
        ok, updated := true, members[i := MemberNode(members[i].key, value)];
        assert RepresentsMember(Written(), members[i], vals[i]);
      } else if memory == 0 {
        ok, updated := false, members;
      } else {
        memory := memory - 1;
        ok, updated := true, members + [MemberNode(key, value)];
      }
    }

    /** What a parse routine owes: the outcome of reading `r` from the untouched text, a result that
        means it, and the nesting limit back where it was. */
    ghost predicate Delivers(ok: bool, node: Node, r: R.Parsed<Json>, limit: nat, before: string)
      reads this, json
    {
      Valid() && nestingLimit == limit && before <= Written() && ok == r.Ok? &&
      (ok ==> Rest() == r.rest && memory == r.memory && Represents(Written(), node, r.value))
    }

    method ParseStringTo() returns (node: Node)
      requires Valid() && writePtr < readPtr
      modifies this`readPtr, this`writePtr, json
      ensures Delivers(true, node, R.ParseScalar(old(Rest()), memory), nestingLimit, old(Written()))
    {
      var hasQuotes := IsQuote(json[readPtr]);
      var value := ParseString();
      node := if hasQuotes then StrNode(value) else RawNode(value);
    }

    method ParseAnythingTo() returns (ok: bool, node: Node)
      requires Valid() && writePtr < readPtr
      modifies this, json
      ensures Delivers(ok, node, R.ParseValue(old(Rest()), old(nestingLimit), old(memory)), old(nestingLimit),
        old(Written()))
      decreases nestingLimit, |source| - readPtr, 0
    {
      hide R.ParseValue, R.ParseArray, R.ParseObject, R.ParseScalar, R.SkipSpaces, Represents;
      R.ValueTurn(Rest(), nestingLimit, memory);
      if nestingLimit == 0 { return false, ArrNode([]); }
      nestingLimit := nestingLimit - 1;
      readPtr := SkipSpacesAndComments(readPtr);
      if json[readPtr] == '[' {
        ok, node := ParseArray();
      } else if json[readPtr] == '{' {
        ok, node := ParseObject();
      } else {
        node := ParseStringTo();
        ok := true;
      }
      nestingLimit := nestingLimit + 1;
    }

    method ParseArray() returns (ok: bool, node: Node)
      requires Valid()
      modifies this, json
      ensures Delivers(ok, node, R.ParseArray(old(Rest()), old(nestingLimit), old(memory)), old(nestingLimit),
        old(Written()))
      decreases nestingLimit, |source| - readPtr, 2
    {
      hide R.ParseArray, R.ParseItems, R.ParseValue, R.Skip, R.SkipSpaces, Represents;
      ghost var goal := R.ParseArray(Rest(), nestingLimit, memory);
      R.ArrayTurn(Rest(), nestingLimit, memory);
      ghost var before := Written();
      ghost var limit := nestingLimit;
      var items: seq<Node> := [];
      ghost var vals: seq<Json> := [];
      node := ArrNode([]);
      var created := memory > 0;
      if created { memory := memory - 1; }
      var found := Skip('[');
      if !found { return false, node; }
      found := Skip(']');
      if found {
        ItemsNode(Written(), items, vals);
        return created, node;
      }
      while true
        invariant Valid() && nestingLimit == limit && before <= Written() && writePtr < readPtr
        invariant readPtr > old(readPtr)
        invariant RepresentsItems(Written(), items, vals)
        invariant goal == if created then R.ParseItems(Rest(), limit, memory, vals) else R.Fail
        decreases |source| - readPtr
      {
        ghost var mem := Written();
        ghost var r := R.ParseValue(Rest(), limit, memory);
        R.ItemsTurn(Rest(), limit, memory, vals);
        var value;
        ok, value := ParseAnythingTo();
        if !ok { return false, node; }
        if !created || memory == 0 { return false, node; }
        memory := memory - 1;
        ItemsStay(mem, Written(), items, vals);
        items, vals := items + [value], vals + [r.value];
        found := Skip(']');
        ItemsNode(Written(), items, vals);
        if found { return true, ArrNode(items); }
        found := Skip(',');
        if !found { return false, node; }
      }
    }

    method ParsePair() returns (ok: bool, pair: MemberNode)
      requires Valid() && writePtr < readPtr
      modifies this, json
      ensures Valid() && nestingLimit == old(nestingLimit) && old(Written()) <= Written()
      ensures var r := R.ParseMember(old(Rest()), old(nestingLimit), old(memory));
        ok == r.Ok? &&
        (ok ==> Rest() == r.rest && memory == r.memory && RepresentsMember(Written(), pair, r.value))
      decreases nestingLimit, |source| - readPtr, 1
    {
      hide R.ParseMember, R.ParseValue, R.ReadString, R.Skip, R.SkipSpaces, Represents, TextAt;
      R.MemberTurn(Rest(), nestingLimit, memory);
      ghost var text := R.ReadString(Rest()).text;
      var key := ParseString();
      var value := ArrNode([]);
      ok := Skip(':');
      if ok {
        ghost var mem := Written();
        ok, value := ParseAnythingTo();
        TextStays(mem, Written(), key, text);
      }
      pair := MemberNode(key, value);
    }

    method ParseObject() returns (ok: bool, node: Node)
      requires Valid()
      modifies this, json
      ensures Delivers(ok, node, R.ParseObject(old(Rest()), old(nestingLimit), old(memory)), old(nestingLimit),
        old(Written()))
      decreases nestingLimit, |source| - readPtr, 3
    {
      hide R.ParseObject, R.ParseMembers, R.ParseMember, R.Skip, R.SkipSpaces, Put, NewCells;
      hide Represents, RepresentsMembers, TextAt;
      ghost var goal := R.ParseObject(Rest(), nestingLimit, memory);
      R.ObjectTurn(Rest(), nestingLimit, memory);
      ghost var before := Written();
      ghost var limit := nestingLimit;
      var members: seq<MemberNode> := [];
      ghost var vals: seq<Member> := [];
      MembersNode(Written(), members, vals);
      node := ObjNode(members);
      var created := memory > 0;
      if created { memory := memory - 1; }
      var found := Skip('{');
      if !found { return false, node; }
      found := Skip('}');
      if found { return created, node; }
      while true
        invariant Valid() && nestingLimit == limit && before <= Written() && writePtr < readPtr
        invariant readPtr > old(readPtr)
        invariant RepresentsMembers(Written(), members, vals)
        invariant goal == if created then R.ParseMembers(Rest(), limit, memory, vals) else R.Fail
        decreases |source| - readPtr
      {
        ghost var mem := Written();
        ghost var p := R.ParseMember(Rest(), limit, memory);
        R.MembersTurn(Rest(), limit, memory, vals);
        var pair;
        ok, pair := ParsePair();
        if !ok || !created { return false, node; }
        MembersStay(mem, Written(), members, vals);
        ok, members := SetMember(members, pair.key, pair.value, vals, p.value.key, p.value.value);
        if !ok { return false, node; }
        vals := Put(vals, p.value.key, p.value.value);
        MembersNode(Written(), members, vals);
        found := Skip('}');
        if found { return true, ObjNode(members); }
        found := Skip(',');
        if !found { return false, node; }
      }
    }
  }
}
