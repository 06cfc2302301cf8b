/** The matcher of simple regular expressions as it runs. A pointer into a C string is the text from there
    on; reading the character at the end gives NUL. */
module SimpleRegex {
  import opened RegexModel

  /** One round of the validator. */
  lemma ScanTurn(r: string, first: bool, repeatable: bool)
    requires r != ""
    ensures r[0] == '\\' && |r| < 2 ==> !Scan(r, first, repeatable)
    ensures r[0] == '\\' && |r| >= 2 ==>
      Scan(r, first, repeatable) == (IsValidEscape(r[1]) && Scan(r[2..], false, true))
    ensures r[0] != '\\' ==>
      Scan(r, first, repeatable) == (Allowed(r, first, repeatable) && Scan(r[1..], false, r[0] !in "^$?*+"))
  {
  }

  lemma ScanEnd(first: bool, repeatable: bool)
    ensures Scan("", first, repeatable)
  {
  }

  method ValidateRegex(regex: string) returns (isValid: bool)
    requires NoNul(regex)
    ensures isValid == exists p :: TextOf(regex, p)
  {
    hide Scan, IsValidEscape, IsRepeat, TextOf;
    ScanIff(regex);
    isValid := true;
    var prevRepeatable := false;
    var i := 0;
    while i < |regex|
      invariant i <= |regex|
      invariant (isValid && Scan(regex[i..], i == 0, prevRepeatable)) == Scan(regex, true, false)
    {
      ghost var rest := regex[i..];
      ScanTurn(rest, i == 0, prevRepeatable);
      if regex[i] == '\\' {
        i := i + 1;
        if At(regex, i) == '\0' { return false; }
        if !IsValidEscape(regex[i]) { isValid := false; }
        prevRepeatable := true;
        assert rest[2..] == regex[i + 1..] && rest[1] == regex[i] && rest[0] == '\\';
      } else {
        var ch := regex[i];
        if ch == '^' && i > 0 {
          isValid := false;
        } else if ch == '$' && At(regex, i + 1) != '\0' {
          isValid := false;
        } else if ch in "()[]{}|" {
          isValid := false;
        } else if IsRepeat(ch) && !prevRepeatable {
          isValid := false;
        }
        prevRepeatable := ch !in "^$?*+";
        assert rest[1..] == regex[i + 1..] && rest[0] == ch;
      }
      i := i + 1;
    }
    ScanEnd(i == 0, prevRepeatable);
  }

  /** What follows one item at the head of a valid regular expression. */
  method MatchRepetitionAndRegexAtHead(escaped: bool, c: char, repeat: char, regex: string, str: string,
                                       ghost items: seq<Item>, ghost toEnd: bool) returns (r: bool)
    requires NoNul(str) && WellFormed(items) && IsRepeat(repeat)
    requires items != [] && items[0] == Item(escaped, c, RepeatOf(repeat))
    requires regex == BodyText(items[1..], toEnd)
    ensures r == Head(items, toEnd, str)
    decreases |regex|, 1
  {
    hide BodyText, Head, AtomMatchesChar;
    HeadFirst(items, toEnd, str);
    var minCount := if repeat == '+' then 1 else 0;
    var i := 0;
    while repeat != '?' || i <= 1
      invariant i <= |str| + 1 && (i <= |str| ==> AllMatch(items[0], str[..i])) && (i > |str| ==> false)
      invariant forall k | 0 <= k < i :: !HeadSplit(items, toEnd, str, k)
      decreases |str| - i
    {
      if i >= minCount {
        var tail := MatchRegexAtHead(regex, str[i..], items[1..], toEnd);
        if tail {
          assert HeadSplit(items, toEnd, str, i);
          return true;
        }
      }
      assert !HeadSplit(items, toEnd, str, i);
      if i == |str| || !AtomMatchesChar(escaped, c, str[i]) {
        NoMore(items, toEnd, str, i);
        return false;
      }
      i := i + 1;
    }
    return false;
  }

  /** Matches of the first item stop where a character does not match. */
  lemma NoMore(items: seq<Item>, toEnd: bool, s: string, i: nat)
    requires items != [] && i <= |s| && (i == |s| || !AtomMatchesChar(items[0].escaped, items[0].c, s[i]))
    ensures forall k | i < k :: !HeadSplit(items, toEnd, s, k)
  {
    assert forall k | i < k <= |s| :: s[..k][i] == s[i];
  }

  /** `regex` is the text of `items`; matches a prefix of `str`. */
  method MatchRegexAtHead(regex: string, str: string, ghost items: seq<Item>, ghost toEnd: bool) returns (r: bool)
    requires NoNul(str) && WellFormed(items) && regex == BodyText(items, toEnd)
    ensures r == Head(items, toEnd, str)
    decreases |regex|, 0
  {
    hide Head, AtomMatchesChar, HeadSplit;
    BodyShape(items, toEnd);
    HeadNothing(toEnd, str);
    if regex == "" { return true; }
    if regex[0] == '$' { return str == ""; }
    var escaped := regex[0] == '\\';
    var rest := if escaped then regex[1..] else regex;
    if IsRepeat(At(rest, 1)) {
      r := MatchRepetitionAndRegexAtHead(escaped, rest[0], rest[1], rest[2..], str, items, toEnd);
    } else {
      OneAtom(items, toEnd, str);
      if str == "" || !AtomMatchesChar(escaped, rest[0], str[0]) { return false; }
      r := MatchRegexAtHead(rest[1..], str[1..], items[1..], toEnd);
    }
  }

  /** How the text of a body begins. */
  lemma BodyShape(items: seq<Item>, toEnd: bool)
    requires WellFormed(items)
    ensures var t := BodyText(items, toEnd);
      if items == [] then t == (if toEnd then "$" else "")
      else
        var n := if items[0].escaped then 1 else 0;
        n < |t| && t[0] != '$' && (t[0] == '\\' <==> items[0].escaped) && t[n] == items[0].c &&
        (if items[0].repeat == Once then !IsRepeat(At(t, n + 1)) && t[n + 1..] == BodyText(items[1..], toEnd)
         else
           n + 1 < |t| && IsRepeat(t[n + 1]) && RepeatOf(t[n + 1]) == items[0].repeat &&
           t[n + 2..] == BodyText(items[1..], toEnd))
  {
    hide IsRepeat, WellFormedItem;
    if items != [] {
      BodyNext(items[1..], toEnd);
      ItemShape(items[0], BodyText(items[1..], toEnd));
    }
  }

  lemma BodyNext(items: seq<Item>, toEnd: bool)
    requires WellFormed(items)
    ensures !IsRepeat(At(BodyText(items, toEnd), 0))
  {
  }

  lemma ItemShape(i: Item, rest: string)
    requires WellFormedItem(i) && !IsRepeat(At(rest, 0))
    ensures var t := ItemText(i) + rest;
      var n := if i.escaped then 1 else 0;
      n < |t| && t[0] != '$' && (t[0] == '\\' <==> i.escaped) && t[n] == i.c &&
      (if i.repeat == Once then !IsRepeat(At(t, n + 1)) && t[n + 1..] == rest
       else n + 1 < |t| && IsRepeat(t[n + 1]) && RepeatOf(t[n + 1]) == i.repeat && t[n + 2..] == rest)
  {
  }

  /** An atom without repetition takes one character. */
  lemma OneAtom(items: seq<Item>, toEnd: bool, s: string)
    requires items != [] && items[0].repeat == Once
    ensures Head(items, toEnd, s) <==>
      s != "" && AtomMatchesChar(items[0].escaped, items[0].c, s[0]) && Head(items[1..], toEnd, s[1..])
  {
    hide Head, AtomMatchesChar;
    HeadFirst(items, toEnd, s);
    if s != "" && AtomMatchesChar(items[0].escaped, items[0].c, s[0]) && Head(items[1..], toEnd, s[1..]) {
      assert HeadSplit(items, toEnd, s, 1);
    }
    if k :| HeadSplit(items, toEnd, s, k) {
      assert k == 1 && s[..1][0] == s[0];
    }
  }

  /** `regex` is the text of `p`. */
  method MatchRegexAnywhere(regex: string, str: string, ghost p: Pattern) returns (r: bool)
    requires NoNul(str) && TextOf(regex, p)
    ensures r == Matches(p, str)
  {
    hide Head, Matches, BodyText, WellFormed;
    MatchesIsHead(p, str);
    CaretFirst(p);
    if regex != "" && regex[0] == '^' {
      r := MatchRegexAtHead(regex[1..], str, p.items, p.toEnd);
      return;
    }
    var k := 0;
    while k <= |str|
      invariant k <= |str| + 1 && forall i | 0 <= i < k && i <= |str| :: !Head(p.items, p.toEnd, str[i..])
    {
      r := MatchRegexAtHead(regex, str[k..], p.items, p.toEnd);
      if r { return; }
      k := k + 1;
    }
    return false;
  }

  lemma CaretFirst(p: Pattern)
    requires WellFormed(p.items)
    ensures var r := Text(p);
      (r != "" && r[0] == '^' <==> p.fromStart) && BodyText(p.items, p.toEnd) == if p.fromStart then r[1..] else r
  {
    BodyHead(p.items, p.toEnd);
    var body := BodyText(p.items, p.toEnd);
    assert ("^" + body)[1..] == body && "" + body == body;
  }

  class RE {
    var pattern: string
    var fullPattern: string
    var isValid: bool

    /** The object holds the text of a regular expression if it is valid, and a second one for full matches. */
    ghost predicate Holds(p: Pattern)
      reads this
    {
      TextOf(pattern, p) && TextOf(fullPattern, Full(p))
    }

    constructor Init(regex: string)
      requires NoNul(regex)
      ensures pattern == regex && isValid == exists p :: TextOf(regex, p)
      ensures forall p | TextOf(regex, p) :: Holds(p)
    {
      pattern := regex;
      var valid := ValidateRegex(regex);
      isValid := valid;
      var buffer := "";
      if valid {
        if regex == "" || regex[0] != '^' { buffer := "^"; }
        buffer := buffer + regex;
        if |regex| == 0 || regex[|regex| - 1] != '$' { buffer := buffer + "$"; }
      }
      fullPattern := buffer;
      new;
      forall p | TextOf(regex, p) ensures Holds(p) {
        FullText(p);
      }
    }

    /** Some substring matches. */
    method PartialMatch(str: string, ghost p: Pattern) returns (r: bool)
      requires NoNul(str) && (isValid ==> Holds(p))
      ensures r == (isValid && Matches(p, str))
    {
      if !isValid { return false; }
      r := MatchRegexAnywhere(pattern, str, p);
    }

    /** The whole string belongs to the language, or a prefix when the text ends in an escaped dollar sign. */
    method FullMatch(str: string, ghost p: Pattern) returns (r: bool)
      requires NoNul(str) && (isValid ==> Holds(p))
      ensures !EscapedDollar(p) ==> r == (isValid && InLanguage(p.items, str))
      ensures EscapedDollar(p) ==> r == (isValid && exists j :: 0 <= j <= |str| && InLanguage(p.items, str[..j]))
    {
      RegexModel.FullMatch(p, str);
      if !isValid { return false; }
      r := MatchRegexAnywhere(fullPattern, str, Full(p));
    }
  }
}
