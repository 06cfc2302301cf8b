/** Simple regular expressions: their grammar and their language, independent of any matcher. */
module RegexModel {
  import opened Alphabet

  // ---- characters ----

  predicate IsAsciiDigit(ch: char) { '0' <= ch <= '9' }

  predicate IsAsciiPunct(ch: char) { ch in "^-!\"#$%&'()*+,./:;<=>?@[\\]_`{|}~" }

  predicate IsRepeat(ch: char) { ch in "?*+" }

  predicate IsAsciiWhiteSpace(ch: char) { ch in [' ', 12 as char, '\n', '\r', '\t', 11 as char] }

  predicate IsAsciiWordChar(ch: char) { 'a' <= ch <= 'z' || 'A' <= ch <= 'Z' || '0' <= ch <= '9' || ch == '_' }

  predicate IsValidEscape(c: char) { IsAsciiPunct(c) || c in "dDfnrsStvwW" }

  predicate AtomMatchesChar(escaped: bool, pattern: char, ch: char) {
    if escaped then
      match pattern
      case 'd' => IsAsciiDigit(ch)
      case 'D' => !IsAsciiDigit(ch)
      case 'f' => ch == 12 as char
      case 'n' => ch == '\n'
      case 'r' => ch == '\r'
      case 's' => IsAsciiWhiteSpace(ch)
      case 'S' => !IsAsciiWhiteSpace(ch)
      case 't' => ch == '\t'
      case 'v' => ch == 11 as char
      case 'w' => IsAsciiWordChar(ch)
      case 'W' => !IsAsciiWordChar(ch)
      case _ => IsAsciiPunct(pattern) && pattern == ch
    else (pattern == '.' && ch != '\n') || pattern == ch
  }

  // ---- grammar ----

  datatype Repeat = Once | Optional | Star | Plus

  datatype Item = Item(escaped: bool, c: char, repeat: Repeat)

  /** A regular expression: anchors around a sequence of atoms, each with its repetition. */
  datatype Pattern = Pattern(fromStart: bool, items: seq<Item>, toEnd: bool)

  predicate WellFormedItem(i: Item) {
    if i.escaped then IsValidEscape(i.c) else i.c != '\0' && i.c !in "\\^$()[]{}|?*+"
  }

  predicate WellFormed(items: seq<Item>) { forall k | 0 <= k < |items| :: WellFormedItem(items[k]) }

  function RepeatText(r: Repeat): string {
    match r
    case Once => ""
    case Optional => "?"
    case Star => "*"
    case Plus => "+"
  }

  function ItemText(i: Item): string { (if i.escaped then ['\\', i.c] else [i.c]) + RepeatText(i.repeat) }

  /** The items and what follows them, written down. */
  function BodyText(items: seq<Item>, toEnd: bool): string {
    if items == [] then (if toEnd then "$" else "") else ItemText(items[0]) + BodyText(items[1..], toEnd)
  }

  function Text(p: Pattern): string { (if p.fromStart then "^" else "") + BodyText(p.items, p.toEnd) }

  // ---- language ----

  predicate Allows(r: Repeat, k: nat) {
    match r
    case Once => k == 1
    case Optional => k <= 1
    case Star => true
    case Plus => k >= 1
  }

  predicate AllMatch(i: Item, s: string) { forall k | 0 <= k < |s| :: AtomMatchesChar(i.escaped, i.c, s[k]) }

  /** The first `k` characters of `s` belong to the first item and the rest to the others. */
  ghost predicate Split(items: seq<Item>, s: string, k: int)
    requires items != []
    decreases |items|, 0
  {
    0 <= k <= |s| && Allows(items[0].repeat, k) && AllMatch(items[0], s[..k]) && InLanguage(items[1..], s[k..])
  }

  ghost predicate InLanguage(items: seq<Item>, s: string)
    decreases |items|, 1
  {
    if items == [] then s == "" else exists k :: Split(items, s, k)
  }

  /** The substring from `i` to `j` belongs to the language and lies where the anchors say. */
  ghost predicate MatchAt(p: Pattern, s: string, i: int, j: int) {
    0 <= i <= j <= |s| && (p.fromStart ==> i == 0) && (p.toEnd ==> j == |s|) && InLanguage(p.items, s[i..j])
  }

  ghost predicate Matches(p: Pattern, s: string) { exists i, j :: MatchAt(p, s, i, j) }

  // ---- matches at the head ----

  ghost predicate HeadAt(items: seq<Item>, toEnd: bool, s: string, j: int) {
    0 <= j <= |s| && (toEnd ==> j == |s|) && InLanguage(items, s[..j])
  }

  ghost predicate Head(items: seq<Item>, toEnd: bool, s: string) { exists j :: HeadAt(items, toEnd, s, j) }

  lemma HeadNothing(toEnd: bool, s: string)
    ensures Head([], toEnd, s) <==> !toEnd || s == ""
  {
    if !toEnd || s == "" {
      assert HeadAt([], toEnd, s, 0);
    }
  }

  /** `k` characters for the first item, and the others match at the head of the rest. */
  ghost predicate HeadSplit(items: seq<Item>, toEnd: bool, s: string, k: int)
    requires items != []
  {
    0 <= k <= |s| && Allows(items[0].repeat, k) && AllMatch(items[0], s[..k]) && Head(items[1..], toEnd, s[k..])
  }

  lemma HeadFirst(items: seq<Item>, toEnd: bool, s: string)
    requires items != []
    ensures Head(items, toEnd, s) <==> exists k :: HeadSplit(items, toEnd, s, k)
  {
    hide Allows, AllMatch;
    if Head(items, toEnd, s) {
      var j :| HeadAt(items, toEnd, s, j);
      assert InLanguage(items, s[..j]) && items != [];
      var k :| Split(items, s[..j], k);
      assert s[..j][..k] == s[..k] && s[..j][k..] == s[k..][..j - k];
      assert HeadAt(items[1..], toEnd, s[k..], j - k);
      assert HeadSplit(items, toEnd, s, k);
    }
    if k :| HeadSplit(items, toEnd, s, k) {
      var j :| HeadAt(items[1..], toEnd, s[k..], j);
      var t := s[..k + j];
      assert t[..k] == s[..k] && t[k..] == s[k..][..j];
      assert Split(items, t, k);
      assert HeadAt(items, toEnd, s, k + j);
    }
  }

  /** Matching anywhere is matching at the head of some suffix, the first one if anchored. */
  lemma MatchesIsHead(p: Pattern, s: string)
    ensures p.fromStart ==> (Matches(p, s) <==> Head(p.items, p.toEnd, s))
    ensures !p.fromStart ==> (Matches(p, s) <==> exists i :: 0 <= i <= |s| && Head(p.items, p.toEnd, s[i..]))
  {
    if Matches(p, s) {
      var i, j :| MatchAt(p, s, i, j);
      assert s[i..][..j - i] == s[i..j];
      assert HeadAt(p.items, p.toEnd, s[i..], j - i);
      assert s[0..] == s;
    }
    if i :| 0 <= i <= |s| && (p.fromStart ==> i == 0) && Head(p.items, p.toEnd, s[i..]) {
      var j :| HeadAt(p.items, p.toEnd, s[i..], j);
      assert s[i..][..j] == s[i..i + j];
      assert MatchAt(p, s, i, i + j);
    }
    assert s[0..] == s;
  }

  // ---- what the validator accepts ----

  /** The tests on a character that is not an escape. */
  predicate Allowed(r: string, first: bool, repeatable: bool)
    requires r != ""
  {
    !(r[0] == '^' && !first) && !(r[0] == '$' && |r| > 1) && r[0] !in "()[]{}|" && !(IsRepeat(r[0]) && !repeatable)
  }

  /** The check of `ValidateRegex` on the rest of a regular expression: `first` at its beginning, `repeatable`
      behind an atom that may be repeated. */
  predicate Scan(r: string, first: bool, repeatable: bool)
    decreases |r|
  {
    if r == "" then true
    else if r[0] == '\\' then |r| >= 2 && IsValidEscape(r[1]) && Scan(r[2..], false, true)
    else Allowed(r, first, repeatable) && Scan(r[1..], false, r[0] !in "^$?*+")
  }

  /** No character ends a C string early. */
  predicate NoNul(s: string) { forall i | 0 <= i < |s| :: s[i] != '\0' }

  lemma {:induction false} ScanBody(items: seq<Item>, toEnd: bool, first: bool, repeatable: bool)
    requires WellFormed(items)
    ensures Scan(BodyText(items, toEnd), first, repeatable)
    decreases |items|
  {
    if items != [] {
      var i, rest := items[0], BodyText(items[1..], toEnd);
      ScanBody(items[1..], toEnd, false, true);
      ScanBody(items[1..], toEnd, false, false);
      ScanItem(i, rest, first, repeatable);
    }
  }

  lemma ScanItem(i: Item, rest: string, first: bool, repeatable: bool)
    requires WellFormedItem(i) && Scan(rest, false, true) && Scan(rest, false, false)
    ensures Scan(ItemText(i) + rest, first, repeatable)
  {
    hide Scan, IsValidEscape;
    var tail := RepeatText(i.repeat) + rest;
    ScanTail(i.repeat, rest);
    if i.escaped {
      ScanEscape(i.c, tail, first, repeatable);
      assert ItemText(i) + rest == ['\\', i.c] + tail;
    } else {
      ScanChar(i.c, tail, first, repeatable);
      assert ItemText(i) + rest == [i.c] + tail;
    }
  }

  lemma ScanTail(r: Repeat, rest: string)
    requires Scan(rest, false, true) && Scan(rest, false, false)
    ensures Scan(RepeatText(r) + rest, false, true)
  {
    hide Scan;
    if r == Once {
      assert "" + rest == rest;
    } else {
      assert (RepeatText(r) + rest)[1..] == rest;
      ScanRepeat(RepeatText(r) + rest, rest);
    }
  }

  lemma ScanEscape(c: char, tail: string, first: bool, repeatable: bool)
    requires IsValidEscape(c) && Scan(tail, false, true)
    ensures Scan(['\\', c] + tail, first, repeatable)
  {
    hide IsValidEscape;
    assert (['\\', c] + tail)[2..] == tail;
  }

  lemma ScanChar(c: char, tail: string, first: bool, repeatable: bool)
    requires c !in "\\^$()[]{}|?*+" && Scan(tail, false, true)
    ensures Scan([c] + tail, first, repeatable)
  {
    assert ([c] + tail)[1..] == tail;
  }

  lemma ScanRepeat(t: string, rest: string)
    requires t != "" && IsRepeat(t[0]) && t[1..] == rest && Scan(rest, false, false)
    ensures Scan(t, false, true)
  {
  }

  /** Every pattern written down is accepted. */
  lemma TextScans(p: Pattern)
    requires WellFormed(p.items)
    ensures Scan(Text(p), true, false)
  {
    var body := BodyText(p.items, p.toEnd);
    hide BodyText, Scan;
    ScanBody(p.items, p.toEnd, true, false);
    ScanBody(p.items, p.toEnd, false, false);
    ScanCaret(body);
    assert "" + body == body;
  }

  lemma ScanCaret(rest: string)
    requires Scan(rest, false, false)
    ensures Scan("^" + rest, true, false)
  {
    assert ("^" + rest)[1..] == rest;
  }

  /** Length of the atom at the head, and whether a repetition follows it. */
  function AtomSize(r: string): nat
    requires r != ""
  {
    if r[0] == '\\' then 2 else 1
  }

  function RepeatOf(ch: char): Repeat {
    if ch == '?' then Optional else if ch == '*' then Star else if ch == '+' then Plus else Once
  }

  function At(r: string, k: nat): char { if k < |r| then r[k] else '\0' }

  predicate Bodily(r: string) { Scan(r, false, false) && NoNul(r) }

  /** Reads one item off a valid body. */
  lemma FirstItem(r: string)
    requires Bodily(r) && r != "" && r != "$"
    ensures var n := AtomSize(r);
      n <= |r| && var i := Item(r[0] == '\\', r[n - 1], RepeatOf(At(r, n)));
      var size := n + (if IsRepeat(At(r, n)) then 1 else 0);
      size <= |r| && WellFormedItem(i) && r == ItemText(i) + r[size..] && Bodily(r[size..])
  {
    var n := AtomSize(r);
    assert |r| == 1 ==> r == [r[0]];
    assert Scan(r[n..], false, true);
    if IsRepeat(At(r, n)) {
      assert r[n..][0] == r[n] && r[n..][1..] == r[n + 1..];
    } else if r[n..] != "" {
      assert r[n..][0] == r[n];
    }
  }

  /** Every valid body is the text of some items. */
  lemma {:induction false} BodyParses(r: string) returns (items: seq<Item>, toEnd: bool)
    requires Bodily(r)
    ensures WellFormed(items) && r == BodyText(items, toEnd)
    decreases |r|
  {
    if r == "" {
      items, toEnd := [], false;
    } else if r == "$" {
      items, toEnd := [], true;
    } else {
      FirstItem(r);
      var n := AtomSize(r);
      var i := Item(r[0] == '\\', r[n - 1], RepeatOf(At(r, n)));
      var size := n + (if IsRepeat(At(r, n)) then 1 else 0);
      var rest, e := BodyParses(r[size..]);
      items, toEnd := [i] + rest, e;
      assert items[1..] == rest;
    }
  }

  ghost predicate TextOf(r: string, p: Pattern) { WellFormed(p.items) && r == Text(p) }

  /** The validator accepts exactly the texts of the grammar. */
  lemma ScanIff(r: string)
    requires NoNul(r)
    ensures Scan(r, true, false) <==> exists p :: TextOf(r, p)
  {
    if Scan(r, true, false) {
      if r != "" && r[0] == '^' {
        var items, toEnd := BodyParses(r[1..]);
        assert r == "^" + r[1..];
        assert TextOf(r, Pattern(true, items, toEnd));
      } else {
        NotFirst(r);
        var items, toEnd := BodyParses(r);
        assert TextOf(r, Pattern(false, items, toEnd));
      }
    }
    if p :| TextOf(r, p) {
      TextScans(p);
    }
  }

  lemma NotFirst(r: string)
    requires Scan(r, true, false) && (r == "" || r[0] != '^')
    ensures Scan(r, false, false)
  {
  }

  // ---- full matches ----

  /** The text ends in a dollar sign that is escaped, and so not an anchor. */
  predicate EscapedDollar(p: Pattern) {
    !p.toEnd && p.items != [] && p.items[|p.items| - 1] == Item(true, '$', Once)
  }

  /** What `RE::Init` makes of a pattern for full matches. */
  function Full(p: Pattern): Pattern { p.(fromStart := true, toEnd := !EscapedDollar(p)) }

  predicate Closed(r: string) { r != "" && r[|r| - 1] == '$' }

  lemma ItemEnd(i: Item)
    requires WellFormedItem(i)
    ensures ItemText(i) != "" && (Closed(ItemText(i)) <==> i == Item(true, '$', Once))
  {
  }

  lemma ClosedAppend(a: string, b: string)
    ensures Closed(a + b) == if b == "" then Closed(a) else Closed(b)
  {
  }

  lemma {:induction false} BodyTextEnd(items: seq<Item>, toEnd: bool)
    requires WellFormed(items)
    ensures BodyText(items, toEnd) == "" <==> !toEnd && items == []
    ensures Closed(BodyText(items, toEnd)) <==> toEnd || EscapedDollar(Pattern(false, items, toEnd))
    decreases |items|
  {
    hide ItemText, Closed;
    if items != [] {
      var tail := items[1..];
      BodyTextEnd(tail, toEnd);
      ItemEnd(items[0]);
      ClosedAppend(ItemText(items[0]), BodyText(tail, toEnd));
      if tail != [] { assert tail[|tail| - 1] == items[|items| - 1]; }
    } else {
      ClosedEnds();
    }
  }

  lemma ClosedEnds()
    ensures !Closed("") && Closed("$")
  {
  }

  lemma {:induction false} BodyTextClosed(items: seq<Item>)
    ensures BodyText(items, true) == BodyText(items, false) + "$"
    decreases |items|
  {
    if items != [] { BodyTextClosed(items[1..]); }
  }

  predicate Opened(r: string) { r != "" && r[0] == '^' }

  /** The text `RE::Init` builds is the text of the full pattern. */
  lemma FullText(p: Pattern)
    requires WellFormed(p.items)
    ensures var r := Text(p);
      Text(Full(p)) == (if Opened(r) then "" else "^") + r + (if Closed(r) then "" else "$")
  {
    var body := BodyText(p.items, p.toEnd);
    hide BodyText, WellFormed, Opened, Closed;
    FullBody(p);
    BodyHead(p.items, p.toEnd);
    Anchored(p.fromStart, body);
  }

  lemma FullBody(p: Pattern)
    requires WellFormed(p.items)
    ensures var body := BodyText(p.items, p.toEnd);
      BodyText(p.items, Full(p).toEnd) == body + (if Closed(body) then "" else "$")
  {
    BodyTextEnd(p.items, p.toEnd);
    BodyTextClosed(p.items);
    hide BodyText, WellFormed;
  }

  lemma Anchored(fromStart: bool, body: string)
    requires !Opened(body)
    ensures var r := (if fromStart then "^" else "") + body;
      Opened(r) == fromStart && Closed(r) == Closed(body) &&
      "^" + (body + (if Closed(body) then "" else "$")) ==
      (if Opened(r) then "" else "^") + r + (if Closed(r) then "" else "$")
  {
    assert "" + body == body;
    assert fromStart && body != "" ==> ("^" + body)[|body|] == body[|body| - 1];
  }

  lemma BodyHead(items: seq<Item>, toEnd: bool)
    requires WellFormed(items)
    ensures !Opened(BodyText(items, toEnd))
  {
  }

  /** A full match means that the whole string belongs to the language, unless the text ends in an escaped
      dollar sign: then a prefix of the string is enough. */
  lemma FullMatch(p: Pattern, s: string)
    ensures !EscapedDollar(p) ==> (Matches(Full(p), s) <==> InLanguage(p.items, s))
    ensures EscapedDollar(p) ==> (Matches(Full(p), s) <==> exists j :: 0 <= j <= |s| && InLanguage(p.items, s[..j]))
  {
    if EscapedDollar(p) {
      MatchesIsHead(Full(p), s);
      if j :| 0 <= j <= |s| && InLanguage(p.items, s[..j]) {
        assert HeadAt(p.items, false, s, j);
      }
    } else {
      assert s[0..|s|] == s;
      if InLanguage(p.items, s) {
        assert MatchAt(Full(p), s, 0, |s|);
      }
    }
  }

  /** A character that an atom matches. */
  function Sample(i: Item): char {
    if !i.escaped then i.c
    else
      match i.c
      case 'd' => '0'
      case 'D' => 'a'
      case 'f' => 12 as char
      case 'n' => '\n'
      case 'r' => '\r'
      case 's' => ' '
      case 'S' => 'a'
      case 't' => '\t'
      case 'v' => 11 as char
      case 'w' => 'a'
      case 'W' => ' '
      case _ => i.c
  }

  function SampleText(items: seq<Item>): string {
    if items == [] then "" else [Sample(items[0])] + SampleText(items[1..])
  }

  lemma SampleMatches(i: Item)
    requires WellFormedItem(i)
    ensures AtomMatchesChar(i.escaped, i.c, Sample(i)) && Sample(i) != '\0'
  {
  }

  /** Every language has a member. */
  lemma {:induction false} SampleBelongs(items: seq<Item>)
    requires WellFormed(items)
    ensures InLanguage(items, SampleText(items)) && NoNul(SampleText(items))
    decreases |items|
  {
    hide AtomMatchesChar, Sample;
    if items != [] {
      SampleMatches(items[0]);
      SampleBelongs(items[1..]);
      var t := SampleText(items);
      assert t[..1] == [Sample(items[0])] && t[1..] == SampleText(items[1..]);
      assert Split(items, t, 1);
    }
  }

  lemma {:induction false} EndsInDollar(items: seq<Item>, s: string)
    requires items != [] && items[|items| - 1] == Item(true, '$', Once) && InLanguage(items, s)
    ensures s != "" && s[|s| - 1] == '$'
    decreases |items|
  {
    var k :| Split(items, s, k);
    if items[1..] != [] {
      assert items[1..][|items| - 2] == items[|items| - 1];
      EndsInDollar(items[1..], s[k..]);
    } else {
      assert InLanguage(items[1..], s[k..]) && items[0] == items[|items| - 1];
      assert s[k..] == "";
      assert s[..k][0] == s[0];
    }
  }

  /** Full matches mean membership of the whole string exactly for the patterns whose text does not end in an
      escaped dollar sign. */
  lemma FullMatchIff(p: Pattern)
    requires WellFormed(p.items)
    ensures (forall s | NoNul(s) :: Matches(Full(p), s) <==> InLanguage(p.items, s)) <==> !EscapedDollar(p)
  {
    forall s | NoNul(s) && !EscapedDollar(p) ensures Matches(Full(p), s) <==> InLanguage(p.items, s) {
      FullMatch(p, s);
    }
    if EscapedDollar(p) {
      var w := SampleText(p.items);
      var s := w + "x";
      SampleBelongs(p.items);
      assert s[..|w|] == w;
      FullMatch(p, s);
      if InLanguage(p.items, s) { EndsInDollar(p.items, s); }
      assert NoNul(s) && Matches(Full(p), s) && !InLanguage(p.items, s);
    }
  }

  // ---- the atoms one by one ----

  const PUNCTUATION: string := "!\"#$%&'()*+,-./:;<=>?@[\\]^_`{|}~"

  lemma Punctuation(c: char)
    ensures IsAsciiPunct(c) <==> c in PUNCTUATION
  {
  }

  /** What each escaped letter matches. */
  lemma ClassesAre(c: char)
    ensures AtomMatchesChar(true, 'd', c) <==> c in DIGITS
    ensures AtomMatchesChar(true, 'D', c) <==> c !in DIGITS
    ensures AtomMatchesChar(true, 'w', c) <==> c in DIGITS || c in LOWER || c in UPPER || c == '_'
    ensures AtomMatchesChar(true, 'W', c) <==> !(c in DIGITS || c in LOWER || c in UPPER || c == '_')
    ensures AtomMatchesChar(true, 's', c) <==> c in [9 as char, 10 as char, 11 as char, 12 as char, 13 as char, ' ']
    ensures AtomMatchesChar(true, 'S', c) <==> c !in [9 as char, 10 as char, 11 as char, 12 as char, 13 as char, ' ']
    ensures AtomMatchesChar(true, 't', c) <==> c == 9 as char
    ensures AtomMatchesChar(true, 'n', c) <==> c == 10 as char
    ensures AtomMatchesChar(true, 'v', c) <==> c == 11 as char
    ensures AtomMatchesChar(true, 'f', c) <==> c == 12 as char
    ensures AtomMatchesChar(true, 'r', c) <==> c == 13 as char
  {
    Digits(c);
    Lower(c);
    Upper(c);
  }

  /** Any other atom matches itself, and a dot everything but a line feed. */
  lemma OtherAtoms(p: char, c: char)
    ensures p !in "dDwWsStnvfr" ==> (AtomMatchesChar(true, p, c) <==> p == c && p in PUNCTUATION)
    ensures AtomMatchesChar(false, '.', c) <==> c != 10 as char
    ensures p != '.' ==> (AtomMatchesChar(false, p, c) <==> p == c)
  {
    hide IsAsciiPunct;
    Punctuation(p);
  }

  /** Which single characters are regular expressions, alone and behind a backslash. */
  lemma SingleTexts(c: char)
    requires c != '\0'
    ensures Scan([c], true, false) <==> c !in "\\()[]{}|?*+"
    ensures Scan(['\\', c], true, false) <==> c in PUNCTUATION || c in "dDfnrsStvwW"
  {
    hide IsAsciiPunct;
    Punctuation(c);
    assert [c][1..] == "" && ['\\', c][2..] == "";
  }

  /** How many characters each repetition takes. */
  lemma RepeatsAre(i: Item, s: string)
    ensures InLanguage([i], s) <==>
      AllMatch(i, s) &&
      match i.repeat case Once => |s| == 1 case Optional => |s| <= 1 case Plus => |s| >= 1 case Star => true
  {
    hide AllMatch;
    assert [i][1..] == [];
    assert s[..|s|] == s && s[|s|..] == "";
    if k :| Split([i], s, k) { assert InLanguage([i][1..], s[k..]) && k == |s|; }
    if AllMatch(i, s) && Allows(i.repeat, |s|) { assert Split([i], s, |s|); }
  }
}
