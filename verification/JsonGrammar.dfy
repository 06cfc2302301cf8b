/** The texts the parser accepts, as a grammar of their own: values with white space and comments between
    their parts, tokens and strings in either kind of quotes. */
module JsonGrammar {
  import opened JsonText
  import opened JsonReader
  import opened Alphabet

  // ---- white space and comments ----

  datatype Filler = Blank(c: char) | LineComment(body: string) | BlockComment(body: string)

  type Space = seq<Filler>

  predicate NoClose(b: string) { forall i | 0 <= i < |b| - 1 :: !(b[i] == '*' && b[i + 1] == '/') }

  predicate GoodFiller(f: Filler) {
    match f
    case Blank(c) => c in " \t\r\n"
    case LineComment(b) => '\n' !in b
    case BlockComment(b) => NoClose(b)
  }

  predicate GoodSpace(sp: Space) { forall i | 0 <= i < |sp| :: GoodFiller(sp[i]) }

  /** The text of one filler followed by `rest`. */
  function Fill(f: Filler, rest: string): string {
    match f
    case Blank(c) => [c] + rest
    case LineComment(b) => "//" + (b + ("\n" + rest))
    case BlockComment(b) => "/*" + (b + ("*/" + rest))
  }

  function FillAll(sp: Space, rest: string): string { if sp == [] then rest else Fill(sp[0], FillAll(sp[1..], rest)) }

  lemma {:induction false} LineEnds(b: string, rest: string)
    requires '\n' !in b
    ensures SkipLineComment(b + ("\n" + rest)) == "\n" + rest
    decreases |b|
  {
    var s := b + ("\n" + rest);
    if b == "" {
      assert s == "\n" + rest;
    } else {
      assert s[1..] == b[1..] + ("\n" + rest);
      LineEnds(b[1..], rest);
    }
  }

  lemma {:induction false} BlockEnds(b: string, rest: string)
    requires NoClose(b)
    ensures SkipBlockComment(b + ("*/" + rest)) == rest
    decreases |b|
  {
    var s := b + ("*/" + rest);
    if b == "" {
      assert s == "*/" + rest && s[2..] == rest;
    } else {
      assert s[1..] == b[1..] + ("*/" + rest);
      assert s[0] == b[0] && s[1] == if |b| > 1 then b[1] else '*';
      assert forall i | 0 < i < |b| :: b[i] == b[1..][i - 1];
      BlockEnds(b[1..], rest);
    }
  }

  lemma SkipFiller(f: Filler, rest: string)
    requires GoodFiller(f)
    ensures SkipSpaces(Fill(f, rest)) == SkipSpaces(rest)
  {
    match f
    case Blank(c) => assert ([c] + rest)[1..] == rest;
    case LineComment(b) =>
      LineEnds(b, rest);
      assert ("//" + (b + ("\n" + rest)))[2..] == b + ("\n" + rest);
      assert ("\n" + rest)[1..] == rest;
    case BlockComment(b) =>
      BlockEnds(b, rest);
      assert ("/*" + (b + ("*/" + rest)))[2..] == b + ("*/" + rest);
  }

  /** White space and comments are passed over. */
  lemma {:induction false} SkipFillers(sp: Space, rest: string)
    requires GoodSpace(sp)
    ensures SkipSpaces(FillAll(sp, rest)) == SkipSpaces(rest)
    decreases |sp|
  {
    hide SkipSpaces, Fill;
    if sp != [] {
      SkipFiller(sp[0], FillAll(sp[1..], rest));
      SkipFillers(sp[1..], rest);
    }
  }

  /** Nothing else is. */
  lemma {:induction false} SkippedIsSpace(s: string) returns (sp: Space)
    requires SkipSpaces(s) != ""
    ensures GoodSpace(sp) && s == FillAll(sp, SkipSpaces(s))
    decreases |s|
  {
    hide SkipBlockComment, SkipLineComment;
    if IsSpace(s[0]) {
      var more := SkippedIsSpace(s[1..]);
      sp := SpaceCons(Blank(s[0]), more, SkipSpaces(s));
    } else if s[0] == '/' && 1 < |s| && s[1] == '*' {
      var b := BlockBody(s[2..]);
      var more := SkippedIsSpace(SkipBlockComment(s[2..]));
      sp := SpaceCons(BlockComment(b), more, SkipSpaces(s));
    } else if s[0] == '/' && 1 < |s| && s[1] == '/' {
      var b := LineBody(s[2..]);
      var r := SkipLineComment(s[2..]);
      var more := SkippedIsSpace(r[1..]);
      sp := SpaceCons(LineComment(b), more, SkipSpaces(s));
      assert r == "\n" + r[1..];
    } else {
      sp := [];
    }
  }

  lemma SpaceCons(f: Filler, more: Space, rest: string) returns (sp: Space)
    requires GoodFiller(f) && GoodSpace(more)
    ensures sp == [f] + more && GoodSpace(sp) && FillAll(sp, rest) == Fill(f, FillAll(more, rest))
  {
    sp := [f] + more;
    assert sp[1..] == more;
  }

  lemma {:induction false} BlockBody(u: string) returns (b: string)
    requires SkipBlockComment(u) != ""
    ensures NoClose(b) && u == b + ("*/" + SkipBlockComment(u))
    decreases |u|
  {
    if u[0] == '*' && 1 < |u| && u[1] == '/' {
      b := "";
    } else {
      var c := BlockBody(u[1..]);
      b := [u[0]] + c;
      assert forall i | 0 < i < |b| :: b[i] == c[i - 1];
      assert 1 < |b| ==> b[1] == u[1];
    }
  }

  lemma {:induction false} LineBody(u: string) returns (b: string)
    requires SkipLineComment(u) != ""
    ensures '\n' !in b && u == b + SkipLineComment(u) && SkipLineComment(u)[0] == '\n'
    decreases |u|
  {
    if u[0] == '\n' {
      b := "";
    } else {
      var c := LineBody(u[1..]);
      b := [u[0]] + c;
    }
  }

  // ---- tokens and strings ----

  predicate TokenChar(c: char) { c in DIGITS || c in LOWER || c in UPPER || c == '-' || c == '.' }

  /** The characters of an unquoted token, one by one. */
  lemma TokenChars(c: char)
    ensures IsLetterOrNumber(c) <==> TokenChar(c)
  {
    Digits(c);
    Lower(c);
    Upper(c);
  }

  /** The raw tokens that can be printed. */
  lemma TokensAre(x: string)
    ensures IsToken(x) <==> forall i | 0 <= i < |x| :: TokenChar(x[i])
  {
    hide IsLetterOrNumber, TokenChar;
    forall i | 0 <= i < |x| ensures IsLetterOrNumber(x[i]) <==> TokenChar(x[i]) { TokenChars(x[i]); }
  }

  /** A character of a quoted string: as it is, or a letter behind a backslash. */
  datatype Piece = Plain(c: char) | Escaped(letter: char)

  datatype Word = Quoted(quote: char, pieces: seq<Piece>) | Token(text: string)

  predicate GoodPiece(p: Piece, quote: char) { p.Plain? ==> p.c != quote && p.c != '\\' }

  predicate GoodWord(w: Word) {
    match w
    case Quoted(q, ps) => (q == '\'' || q == '\"') && forall i | 0 <= i < |ps| :: GoodPiece(ps[i], q)
    case Token(x) => forall i | 0 <= i < |x| :: TokenChar(x[i])
  }

  function SpellPieces(ps: seq<Piece>, rest: string): string {
    if ps == [] then rest
    else
      var more := SpellPieces(ps[1..], rest);
      match ps[0] case Plain(c) => [c] + more case Escaped(c) => ['\\'] + ([c] + more)
  }

  function MeanPieces(ps: seq<Piece>): string {
    if ps == [] then ""
    else [match ps[0] case Plain(c) => c case Escaped(c) => Unescape(c)] + MeanPieces(ps[1..])
  }

  function SpellWord(w: Word, rest: string): string {
    match w
    case Quoted(q, ps) => [q] + SpellPieces(ps, [q] + rest)
    case Token(x) => x + rest
  }

  function MeanWord(w: Word): string { match w case Quoted(_, ps) => MeanPieces(ps) case Token(x) => x }

  lemma {:induction false} PiecesRead(ps: seq<Piece>, quote: char, rest: string)
    requires GoodWord(Quoted(quote, ps))
    ensures ReadQuoted(SpellPieces(ps, [quote] + rest), quote) == Scanned(MeanPieces(ps), rest)
    decreases |ps|
  {
    hide Unescape;
    var s := SpellPieces(ps, [quote] + rest);
    if ps == [] {
      assert s[1..] == rest;
    } else {
      assert GoodPiece(ps[0], quote);
      PiecesRead(ps[1..], quote, rest);
      var more := SpellPieces(ps[1..], [quote] + rest);
      if ps[0].Plain? { assert s[1..] == more; } else { assert s[1] == ps[0].letter && s[2..] == more; }
    }
  }

  /** What may follow a token. */
  predicate Delimits(post: string) { post == "" || !(TokenChar(post[0]) || post[0] == '\'' || post[0] == '\"') }

  lemma {:induction false} TokenIsRead(x: string, post: string)
    requires GoodWord(Token(x)) && (post == "" || !TokenChar(post[0]))
    ensures ReadToken(x + post) == Scanned(x, post)
    decreases |x|
  {
    hide TokenChar, IsLetterOrNumber;
    var s := x + post;
    if x == "" {
      assert s == post;
      if post != "" { TokenChars(post[0]); }
    } else {
      TokenChars(x[0]);
      assert s[1..] == x[1..] + post;
      TokenIsRead(x[1..], post);
    }
  }

  /** A word is read as what it means, up to where it ends. */
  lemma WordRead(w: Word, post: string)
    requires GoodWord(w) && (w.Token? ==> Delimits(post))
    ensures ReadString(SpellWord(w, post)) == Scanned(MeanWord(w), post)
  {
    hide ReadQuoted, ReadToken, Unescape;
    var s := SpellWord(w, post);
    match w
    case Quoted(q, ps) =>
      PiecesRead(ps, q, post);
      assert s[1..] == SpellPieces(ps, [q] + post);
    case Token(x) =>
      TokenIsRead(x, post);
      if x != "" { TokenChars(x[0]); }
      assert x == "" ==> s == post;
  }

  /** The letters with a meaning of their own behind a backslash; any other character means itself. */
  lemma Unescaped(c: char)
    ensures Unescape('b') == 8 as char && Unescape('f') == 12 as char && Unescape('n') == 10 as char
    ensures Unescape('r') == 13 as char && Unescape('t') == 9 as char
    ensures c !in "bfnrt" ==> Unescape(c) == c
  {
  }

  lemma CutToken(x: string, c: char, rest: string)
    requires x != "" && GoodWord(Token(x)) && !TokenChar(c)
    ensures ReadToken(x + ([c] + rest)) == Scanned(x, [c] + rest)
    ensures ReadString(x + ([c] + rest)) == Scanned(x, [c] + rest)
  {
    hide TokenChar;
    TokenIsRead(x, [c] + rest);
    TokenChars(x[0]);
  }

  lemma {:induction false} PiecesOf(s: string, quote: char) returns (ps: seq<Piece>)
    requires ReadQuoted(s, quote).rest != "" && (quote == '\'' || quote == '\"')
    ensures GoodWord(Quoted(quote, ps)) && s == SpellPieces(ps, [quote] + ReadQuoted(s, quote).rest)
    decreases |s|
  {
    if s[0] == quote {
      ps := [];
      assert s == [quote] + s[1..];
    } else if s[0] == '\\' {
      var more := PiecesOf(s[2..], quote);
      ps := [Escaped(s[1])] + more;
      assert ps[1..] == more && s == ['\\'] + ([s[1]] + s[2..]);
    } else {
      var more := PiecesOf(s[1..], quote);
      ps := [Plain(s[0])] + more;
      assert ps[1..] == more;
    }
  }

  lemma TokenCons(c: char, x: string)
    requires TokenChar(c) && GoodWord(Token(x))
    ensures GoodWord(Token([c] + x))
  {
    hide TokenChar;
  }

  lemma {:induction false} TokenOf(s: string)
    ensures var r := ReadToken(s);
      s == r.text + r.rest && GoodWord(Token(r.text)) && (r.rest == "" || !TokenChar(r.rest[0]))
    decreases |s|
  {
    hide TokenChar, IsLetterOrNumber, ReadToken;
    TokenTurn(s, 0);
    assert s[0..] == s;
    if s != "" {
      TokenChars(s[0]);
      if IsLetterOrNumber(s[0]) {
        TokenOf(s[1..]);
        TokenCons(s[0], ReadToken(s[1..]).text);
        assert s == [s[0]] + s[1..];
      }
    }
  }

  /** Whatever is read as a word, and does not run into the end of the text, is spelled like one. */
  lemma WordOf(s: string) returns (w: Word)
    requires ReadString(s).rest != ""
    ensures GoodWord(w) && s == SpellWord(w, ReadString(s).rest) && MeanWord(w) == ReadString(s).text
    ensures w.Quoted? <==> s != "" && IsQuote(s[0])
    ensures w.Token? ==> !TokenChar(ReadString(s).rest[0])
  {
    hide ReadQuoted, ReadToken, Unescape, TokenChar;
    if s != "" && IsQuote(s[0]) {
      var ps := PiecesOf(s[1..], s[0]);
      w := Quoted(s[0], ps);
      PiecesRead(ps, s[0], ReadString(s).rest);
    } else {
      TokenOf(s);
      w := Token(ReadToken(s).text);
    }
  }
}
