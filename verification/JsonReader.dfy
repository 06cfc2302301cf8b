/** What `JsonParser` computes, as a function of an immutable text: every function takes the text still
    to be read and returns what is left of it. `memory` is how many more allocations the `JsonBuffer`
    grants; after the first refused one the parser gives up. */
module JsonReader {
  import opened Wrappers
  import opened JsonText

  datatype Parsed<+T> = Fail | Ok(value: T, rest: string, memory: nat)
  datatype Scanned = Scanned(text: string, rest: string)

  function SkipBlockComment(s: string): (r: string)
    ensures |r| <= |s|
    decreases |s|
  {
    if s == "" then s
    else if s[0] == '*' && 1 < |s| && s[1] == '/' then s[2..]
    else SkipBlockComment(s[1..])
  }

  function SkipLineComment(s: string): (r: string)
    ensures |r| <= |s|
    decreases |s|
  {
    if s == "" || s[0] == '\n' then s else SkipLineComment(s[1..])
  }

  function SkipSpaces(s: string): (r: string)
    ensures |r| <= |s|
    decreases |s|
  {
    if s == "" then s
    else if IsSpace(s[0]) then SkipSpaces(s[1..])
    else if s[0] == '/' && 1 < |s| && s[1] == '*' then SkipSpaces(SkipBlockComment(s[2..]))
    else if s[0] == '/' && 1 < |s| && s[1] == '/' then SkipSpaces(SkipLineComment(s[2..]))
    else s
  }

  /** The text after `c` and the blanks around it, or None when something else comes next. */
  function Skip(s: string, c: char): (r: Option<string>)
    ensures r.Some? ==> |r.value| < |s|
  {
    var t := SkipSpaces(s);
    if t != "" && t[0] == c then Some(SkipSpaces(t[1..])) else None
  }

  function ReadQuoted(s: string, stop: char): (r: Scanned)
    ensures |r.rest| <= |s|
    ensures |r.text| <= |s| - |r.rest|
  {
    if s == "" then Scanned("", "")
    else if s[0] == stop then Scanned("", s[1..])
    else if s[0] == '\\' then
      if |s| == 1 then Scanned("", "")
      else var r := ReadQuoted(s[2..], stop); Scanned([Unescape(s[1])] + r.text, r.rest)
    else var r := ReadQuoted(s[1..], stop); Scanned([s[0]] + r.text, r.rest)
  }

  function ReadToken(s: string): (r: Scanned)
    ensures |r.rest| <= |s|
    ensures |r.text| <= |s| - |r.rest|
  {
    if s == "" || !IsLetterOrNumber(s[0]) then Scanned("", s)
    else var r := ReadToken(s[1..]); Scanned([s[0]] + r.text, r.rest)
  }

  function ReadString(s: string): (r: Scanned)
    ensures |r.rest| <= |s|
  {
    if s != "" && IsQuote(s[0]) then ReadQuoted(s[1..], s[0]) else ReadToken(s)
  }

  function ParseScalar(s: string, memory: nat): (r: Parsed<Json>)
    ensures r.Ok? && |r.rest| <= |s|
  {
    var x := ReadString(s);
    Ok(if s != "" && IsQuote(s[0]) then Str(x.text) else Raw(x.text), x.rest, memory)
  }

  function ParseValue(s: string, limit: nat, memory: nat): (r: Parsed<Json>)
    ensures r.Ok? ==> |r.rest| <= |s|
    decreases limit, |s|, 0
  {
    if limit == 0 then Fail
    else
      var t := SkipSpaces(s);
      if t != "" && t[0] == '[' then ParseArray(t, limit - 1, memory)
      else if t != "" && t[0] == '{' then ParseObject(t, limit - 1, memory)
      else ParseScalar(t, memory)
  }

  function ParseArray(s: string, limit: nat, memory: nat): (r: Parsed<Json>)
    ensures r.Ok? ==> |r.rest| <= |s| && r.value.Arr?
    decreases limit, |s|, 2
  {
    if memory == 0 then Fail
    else
      match Skip(s, '[')
      case None => Fail
      case Some(r) =>
        match Skip(r, ']')
        case Some(rest) => Ok(Arr([]), rest, memory - 1)
        case None => ParseItems(r, limit, memory - 1, [])
  }

  function ParseItems(s: string, limit: nat, memory: nat, acc: seq<Json>): (r: Parsed<Json>)
    ensures r.Ok? ==> |r.rest| <= |s| && r.value.Arr?
    decreases limit, |s|, 1
  {
    match ParseValue(s, limit, memory)
    case Fail => Fail
    case Ok(v, r, m) =>
      if m == 0 then Fail
      else
        match Skip(r, ']')
        case Some(rest) => Ok(Arr(acc + [v]), rest, m - 1)
        case None =>
          match Skip(r, ',')
          case None => Fail
          case Some(rest) => ParseItems(rest, limit, m - 1, acc + [v])
  }

  function ParseObject(s: string, limit: nat, memory: nat): (r: Parsed<Json>)
    ensures r.Ok? ==> |r.rest| <= |s| && r.value.Obj?
    decreases limit, |s|, 3
  {
    if memory == 0 then Fail
    else
      match Skip(s, '{')
      case None => Fail
      case Some(r) =>
        match Skip(r, '}')
        case Some(rest) => Ok(Obj([]), rest, memory - 1)
        case None => ParseMembers(r, limit, memory - 1, [])
  }

  function ParseMember(s: string, limit: nat, memory: nat): (r: Parsed<Member>)
    ensures r.Ok? ==> |r.rest| <= |s|
    decreases limit, |s|, 1
  {
    var key := ReadString(s);
    match Skip(key.rest, ':')
    case None => Fail
    case Some(r) =>
      match ParseValue(r, limit, memory)
      case Fail => Fail
      case Ok(v, rest, m) => Ok(Member(key.text, v), rest, m)
  }

  function ParseMembers(s: string, limit: nat, memory: nat, acc: seq<Member>): (r: Parsed<Json>)
    ensures r.Ok? ==> |r.rest| <= |s| && r.value.Obj?
    decreases limit, |s|, 2
  {
    match ParseMember(s, limit, memory)
    case Fail => Fail
    case Ok(kv, r, m) =>
      if m < NewCells(acc, kv.key) then Fail
      else
        var members := Put(acc, kv.key, kv.value);
        var m' := m - NewCells(acc, kv.key);
        match Skip(r, '}')
        case Some(rest) => Ok(Obj(members), rest, m')
        case None =>
          match Skip(r, ',')
          case None => Fail
          case Some(rest) => ParseMembers(rest, limit, m', members)
  }

  // ---- one unfolding of each function, for proofs that hide its definition ----

  lemma BlockCommentTurn(s: string, i: nat)
    requires i <= |s|
    ensures var r := SkipBlockComment(s[i..]);
      r == if i == |s| then s[i..]
           else if s[i] == '*' && i + 1 < |s| && s[i + 1] == '/' then s[i + 2..]
           else SkipBlockComment(s[i + 1..])
  {
    if i < |s| { assert s[i..][1..] == s[i + 1..]; }
    if i + 1 < |s| { assert s[i..][2..] == s[i + 2..]; }
  }

  lemma SpacesTurn(s: string, i: nat)
    requires i <= |s|
    ensures var r := SkipSpaces(s[i..]);
      r == if i == |s| then s[i..]
           else if IsSpace(s[i]) then SkipSpaces(s[i + 1..])
           else if s[i] == '/' && i + 1 < |s| && s[i + 1] == '*' then SkipSpaces(SkipBlockComment(s[i + 2..]))
           else if s[i] == '/' && i + 1 < |s| && s[i + 1] == '/' then SkipSpaces(SkipLineComment(s[i + 2..]))
           else s[i..]
  {
    hide SkipBlockComment, SkipLineComment;
    if i < |s| { assert s[i..][1..] == s[i + 1..]; }
    if i + 1 < |s| { assert s[i..][2..] == s[i + 2..]; }
  }

  lemma QuotedTurn(s: string, i: nat, stop: char)
    requires i <= |s|
    ensures var r := ReadQuoted(s[i..], stop);
      if i == |s| then r == Scanned("", s[i..])
      else if s[i] == stop then r == Scanned("", s[i + 1..])
      else if s[i] != '\\' then
        var q := ReadQuoted(s[i + 1..], stop); r == Scanned([s[i]] + q.text, q.rest)
      else if i + 1 == |s| then r == Scanned("", s[i + 1..])
      else var q := ReadQuoted(s[i + 2..], stop); r == Scanned([Unescape(s[i + 1])] + q.text, q.rest)
  {
    if i < |s| { assert s[i..][1..] == s[i + 1..]; }
    if i + 1 < |s| { assert s[i..][2..] == s[i + 2..]; }
  }

  lemma TokenTurn(s: string, i: nat)
    requires i <= |s|
    ensures var r := ReadToken(s[i..]);
      if i == |s| || !IsLetterOrNumber(s[i]) then r == Scanned("", s[i..])
      else var q := ReadToken(s[i + 1..]); r == Scanned([s[i]] + q.text, q.rest)
  {
    if i < |s| { assert s[i..][1..] == s[i + 1..]; }
  }

  lemma ValueTurn(s: string, limit: nat, memory: nat)
    ensures ParseValue(s, limit, memory) ==
            if limit == 0 then Fail
            else
              var t := SkipSpaces(s);
              if t != "" && t[0] == '[' then ParseArray(t, limit - 1, memory)
              else if t != "" && t[0] == '{' then ParseObject(t, limit - 1, memory)
              else ParseScalar(t, memory)
  {
  }

  lemma ArrayTurn(s: string, limit: nat, memory: nat)
    ensures ParseArray(s, limit, memory) ==
            if memory == 0 || Skip(s, '[').None? then Fail
            else
              var r := Skip(s, '[').value;
              if Skip(r, ']').Some? then Ok(Arr([]), Skip(r, ']').value, memory - 1)
              else ParseItems(r, limit, memory - 1, [])
  {
  }

  lemma ItemsTurn(s: string, limit: nat, memory: nat, acc: seq<Json>)
    ensures var p := ParseValue(s, limit, memory);
      ParseItems(s, limit, memory, acc) ==
      if p.Fail? || p.memory == 0 then Fail
      else if Skip(p.rest, ']').Some? then Ok(Arr(acc + [p.value]), Skip(p.rest, ']').value, p.memory - 1)
      else if Skip(p.rest, ',').None? then Fail
      else ParseItems(Skip(p.rest, ',').value, limit, p.memory - 1, acc + [p.value])
  {
  }

  lemma ObjectTurn(s: string, limit: nat, memory: nat)
    ensures ParseObject(s, limit, memory) ==
            if memory == 0 || Skip(s, '{').None? then Fail
            else
              var r := Skip(s, '{').value;
              if Skip(r, '}').Some? then Ok(Obj([]), Skip(r, '}').value, memory - 1)
              else ParseMembers(r, limit, memory - 1, [])
  {
  }

  lemma MemberTurn(s: string, limit: nat, memory: nat)
    ensures var key := ReadString(s);
      ParseMember(s, limit, memory) ==
      if Skip(key.rest, ':').None? then Fail
      else
        var p := ParseValue(Skip(key.rest, ':').value, limit, memory);
        if p.Fail? then Fail else Ok(Member(key.text, p.value), p.rest, p.memory)
  {
  }

  lemma MembersTurn(s: string, limit: nat, memory: nat, acc: seq<Member>)
    ensures var p := ParseMember(s, limit, memory);
      ParseMembers(s, limit, memory, acc) ==
      if p.Fail? || p.memory < NewCells(acc, p.value.key) then Fail
      else
        var all := Put(acc, p.value.key, p.value.value);
        var m := p.memory - NewCells(acc, p.value.key);
        if Skip(p.rest, '}').Some? then Ok(Obj(all), Skip(p.rest, '}').value, m)
        else if Skip(p.rest, ',').None? then Fail
        else ParseMembers(Skip(p.rest, ',').value, limit, m, all)
  {
  }
}
