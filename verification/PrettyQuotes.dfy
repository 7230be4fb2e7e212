/**
 * What the second pass of the pretty-printer does to string literals, quoted names and comments:
 * where its line breaks fall in the text as SQL reads it.
 */
module PrettyQuotes {
  import opened Bytes
  import opened Ctype
  import opened Texts
  import opened Pretty

  const ASTERISK: byte := 42
  const SLASH: byte := 47

  const FINAL: Text := [SEMI, LF]
  const INDENT: Text := [LF, 32, 32]

  // ----- how SQL reads a text

  /**
   * Where a byte of SQL stands: outside of everything, perhaps behind a '-' or a '/'; in a literal or
   * quoted name that ends with a given byte; in a comment up to the end of the line; in a block
   * comment, perhaps behind a '*'.
   */
  datatype Lex = Plain | Dash | Slash | Quoted(end: byte) | Comment | Block | Star

  predicate IsQuote(c: byte) {
    c == DQUOTE || c == QUOTE || c == GRAVE
  }

  function FromPlain(c: byte): Lex {
    if IsQuote(c) then Quoted(c)
    else if c == LBRACKET then Quoted(RBRACKET)
    else if c == MINUS then Dash
    else if c == SLASH then Slash
    else Plain
  }

  function NextLex(q: Lex, c: byte): Lex {
    match q
    case Plain => FromPlain(c)
    case Dash => if c == MINUS then Comment else FromPlain(c)
    case Slash => if c == ASTERISK then Block else FromPlain(c)
    case Quoted(end) => if c == end then Plain else q
    case Comment => if c == LF then Plain else q
    case Block => if c == ASTERISK then Star else Block
    case Star => if c == SLASH then Plain else if c == ASTERISK then Star else Block
  }

  function LexAfter(q: Lex, z: Text): Lex
    decreases |z|
  {
    if z == [] then q else LexAfter(NextLex(q, z[0]), z[1..])
  }

  /** In a literal, a quoted name or a comment up to the end of the line. */
  predicate Inside(q: Lex) {
    q.Quoted? || q.Comment?
  }

  /** The bytes of these, with the ones they end with. */
  function QuotedBytes(q: Lex, z: Text): Text
    decreases |z|
  {
    if z == [] then [] else
    var next := NextLex(q, z[0]);
    (if Inside(q) || Inside(next) then [z[0]] else []) + QuotedBytes(next, z[1..])
  }

  lemma {:induction false} LexAppend(q: Lex, a: Text, b: Text)
    ensures LexAfter(q, a + b) == LexAfter(LexAfter(q, a), b)
    ensures QuotedBytes(q, a + b) == QuotedBytes(q, a) + QuotedBytes(LexAfter(q, a), b)
    decreases |a|
  {
    hide NextLex;
    if a == [] {
      assert a + b == b;
    } else {
      var next := NextLex(q, a[0]);
      LexAppend(next, a[1..], b);
      assert (a + b)[1..] == a[1..] + b;
      var first := if Inside(q) || Inside(next) then [a[0]] else [];
      Assoc(first, QuotedBytes(next, a[1..]), QuotedBytes(LexAfter(next, a[1..]), b));
    }
  }

  lemma LexOne(q: Lex, c: byte)
    ensures LexAfter(q, [c]) == NextLex(q, c)
    ensures QuotedBytes(q, [c]) == if Inside(q) || Inside(NextLex(q, c)) then [c] else []
  {
    assert [c][1..] == [];
  }

  lemma LexCons(q: Lex, c: byte, z: Text)
    ensures QuotedBytes(q, [c] + z) == QuotedBytes(q, [c]) + QuotedBytes(NextLex(q, c), z)
  {
    hide NextLex, QuotedBytes;
    LexAppend(q, [c], z);
    LexOne(q, c);
  }

  /** A line of the output may start here. */
  predicate Calm(q: Lex) {
    q == Plain || q == Block
  }

  predicate Ordinary(c: byte) {
    !IsQuote(c) && c != LBRACKET && c != MINUS && c != SLASH && c != ASTERISK
  }

  lemma {:induction false} OrdinaryText(q: Lex, z: Text)
    requires Calm(q) && forall i :: 0 <= i < |z| ==> Ordinary(z[i])
    ensures LexAfter(q, z) == q && QuotedBytes(q, z) == []
  {
    if z == [] {
    } else {
      assert Ordinary(z[0]);
      OrdinaryText(q, z[1..]);
    }
  }

  lemma OrdinaryInFront(q: Lex, a: Text, b: Text)
    requires Calm(q) && forall i :: 0 <= i < |a| ==> Ordinary(a[i])
    ensures LexAfter(q, a + b) == LexAfter(q, b) && QuotedBytes(q, a + b) == QuotedBytes(q, b)
  {
    hide Ordinary, QuotedBytes;
    OrdinaryText(q, a);
    LexAppend(q, a, b);
    assert [] + QuotedBytes(q, b) == QuotedBytes(q, b);
  }

  lemma SpacesInFrontOf(q: Lex, s: Text, t: Text)
    requires Calm(q)
    ensures QuotedBytes(q, s + t) == QuotedBytes(q, DropSpaces(s) + t)
  {
    var g := s[..Spaces(s)];
    assert s + t == g + (DropSpaces(s) + t);
    OrdinaryInFront(q, g, DropSpaces(s) + t);
  }

  /** What printSchemaLine puts in is not noticed. */
  lemma SchemaLineRead(q: Lex, z: Text)
    requires Calm(q)
    ensures LexAfter(q, SchemaLine(z)) == LexAfter(q, z) && QuotedBytes(q, SchemaLine(z)) == QuotedBytes(q, z)
  {
    hide LexAfter, QuotedBytes;
    if CreatesQuoted(z) {
      assert z == CREATE_TABLE + z[13..];
      OrdinaryInFront(q, CREATE_TABLE, z[13..]);
      OrdinaryInFront(q, CREATE_TABLE + IF_NOT_EXISTS, z[13..]);
    }
  }

  /** A printed line, its tail and what comes behind it. */
  lemma LineRead(q: Lex, text: Text, tail: Text, more: Text)
    requires Calm(q)
    ensures QuotedBytes(q, (SchemaLine(text) + tail) + more)
         == QuotedBytes(q, text) + QuotedBytes(LexAfter(q, text), tail + more)
  {
    hide LexAfter, QuotedBytes, SchemaLine;
    Assoc(SchemaLine(text), tail, more);
    LexAppend(q, SchemaLine(text), tail + more);
    SchemaLineRead(q, text);
  }

  // ----- where the line breaks fall

  /** No break of the second pass falls inside; q is where SQL stands behind the line so far. */
  predicate BreaksOutside(line: Text, s: Text, st: Scan, q: Lex)
    decreases |s|, 1
  {
    if s == [] then true else
    var c := s[0];
    var st' := ScanChar(st, c, Head(s[1..]));
    if BreaksBefore(line, c, st) then !Inside(q) && BreaksOutsideAfter([], c, s[1..], st', NextLex(q, c))
    else BreaksOutsideAfter(line, c, s[1..], st', NextLex(q, c))
  }

  predicate BreaksOutsideAfter(line: Text, c: byte, s: Text, st: Scan, q: Lex)
    decreases |s| + 1, 0
  {
    if BreaksAfter(c, s, st) then !Inside(q) && BreaksOutside([], DropSpaces(s), st.(nLine := st.nLine + 1), q)
    else BreaksOutside(line + [c], s, st, q)
  }

  /** No whitespace behind whitespace or behind a parenthesis. */
  predicate Spaced(s: Text) {
    forall i :: 0 < i < |s| && (IsSpace(s[i - 1]) || s[i - 1] == LPAREN) ==> !IsSpace(s[i])
  }

  lemma SpacedTail(s: Text, k: nat)
    requires Spaced(s) && k <= |s|
    ensures Spaced(s[k..])
  {
    forall i | 0 < i < |s[k..]| && (IsSpace(s[k..][i - 1]) || s[k..][i - 1] == LPAREN)
      ensures !IsSpace(s[k..][i])
    {
      assert s[k..][i] == s[k + i] && s[k..][i - 1] == s[k + i - 1];
    }
  }

  lemma SpacedTidy(z: Text)
    ensures Spaced(Tidy(z))
  {
    hide Tidy;
    TidyTwice(z);
    TidyExactly(Tidy(z));
    var t := Tidy(z);
    forall i | 0 < i < |t| && (IsSpace(t[i - 1]) || t[i - 1] == LPAREN)
      ensures !IsSpace(t[i])
    {
      assert IsSpace(t[i]) ==> KeptSpace(t, i);
    }
  }

  lemma SameBehind(a: Text, x: Text, y: Text)
    ensures a + x == a + y <==> x == y
  {
    assert (a + x)[|a|..] == x && (a + y)[|a|..] == y;
  }

  lemma StartsInside(q: Lex, z: Text)
    requires Inside(q) && z != []
    ensures QuotedBytes(q, z) != [] && QuotedBytes(q, z)[0] == z[0]
  {
  }

  /** A break before a parenthesis is not noticed outside. */
  lemma BreakRead(q: Lex, c: byte, s: Text, more: Text)
    requires c == RPAREN && !Inside(q)
    ensures var q1 := NextLex(q, LF);
            && Calm(q1) && NextLex(q1, c) == NextLex(q, c)
            && QuotedBytes(q, [LF] + more) == QuotedBytes(q1, more)
            && QuotedBytes(q1, [c] + s) == QuotedBytes(q, [c] + s)
  {
    hide QuotedBytes;
    var q1 := NextLex(q, LF);
    LexCons(q, LF, more);
    LexOne(q, LF);
    LexCons(q, c, s);
    LexOne(q, c);
    LexCons(q1, c, s);
    LexOne(q1, c);
    assert [] + QuotedBytes(q1, more) == QuotedBytes(q1, more);
  }

  /** The quoted bytes of the output are those of the statement just when all breaks fall outside. */
  lemma {:induction false} BytesKept(q0: Lex, line: Text, s: Text, st: Scan)
    requires Calm(q0) && Spaced(s)
    ensures QuotedBytes(q0, Render(Pieces(line, s, st))) == QuotedBytes(q0, line) + QuotedBytes(LexAfter(q0, line), s + FINAL)
       <==> BreaksOutside(line, s, st, LexAfter(q0, line))
    decreases |s|, 1
  {
    var q := LexAfter(q0, line);
    if s == [] {
      hide QuotedBytes, SchemaLine;
      RenderCons(Piece(line, FINAL), []);
      LineRead(q0, line, FINAL, []);
      assert [Piece(line, FINAL)] + [] == [Piece(line, FINAL)] && s + FINAL == FINAL + [] && Render([]) == [];
    } else {
      var c, st' := s[0], ScanChar(st, s[0], Head(s[1..]));
      hide QuotedBytes, ScanChar, PiecesAfter, BreaksOutsideAfter, Spaced, Render, NextLex, LexAfter;
      var rest := s[1..] + FINAL;
      assert s == [c] + s[1..];
      Assoc([c], s[1..], FINAL);
      if BreaksBefore(line, c, st) {
        var here := PiecesAfter([], c, s[1..], st');
        RenderCons(Piece(line, [LF]), here);
        LineRead(q0, line, [LF], Render(here));
        if Inside(q) {
          StartsInside(q, [LF] + Render(here));
          StartsInside(q, [c] + rest);
          SameBehind(QuotedBytes(q0, line), QuotedBytes(q, [LF] + Render(here)), QuotedBytes(q, [c] + rest));
        } else {
          var q1 := NextLex(q, LF);
          BreakRead(q, c, rest, Render(here));
          BytesKeptAfter(q1, [], c, s[1..], st');
          NothingRead(q1);
          SameBehind(QuotedBytes(q0, line), QuotedBytes(q1, Render(here)), QuotedBytes(q1, [c] + rest));
          assert [] + QuotedBytes(q1, [c] + rest) == QuotedBytes(q1, [c] + rest);
        }
      } else {
        BytesKeptAfter(q0, line, c, s[1..], st');
        assert [] + PiecesAfter(line, c, s[1..], st') == PiecesAfter(line, c, s[1..], st');
      }
    }
  }

  lemma NothingRead(q: Lex)
    ensures LexAfter(q, []) == q && QuotedBytes(q, []) == []
  {
  }

  lemma {:induction false} BytesKeptAfter(q0: Lex, line: Text, c: byte, s: Text, st: Scan)
    requires Calm(q0) && Spaced([c] + s)
    ensures QuotedBytes(q0, Render(PiecesAfter(line, c, s, st)))
         == QuotedBytes(q0, line) + QuotedBytes(LexAfter(q0, line), [c] + (s + FINAL))
       <==> BreaksOutsideAfter(line, c, s, st, NextLex(LexAfter(q0, line), c))
    decreases |s| + 1, 0
  {
    hide QuotedBytes, Pieces, BreaksOutside, Spaced, Render, LexAfter, WsToEol;
    var q := LexAfter(q0, line);
    var q' := NextLex(q, c);
    assert ([c] + s)[1..] == s;
    SpacedTail([c] + s, 1);
    if BreaksAfter(c, s, st) {
      hide NextLex;
      BytesKeptBehind(q0, line, c, s, st.(nLine := st.nLine + 1));
    } else {
      hide NextLex;
      BytesKept(q0, line + [c], s, st);
      LexAppend(q0, line, [c]);
      LexOne(q, c);
      LexCons(q, c, s + FINAL);
      Assoc(QuotedBytes(q0, line), QuotedBytes(q, [c]), QuotedBytes(q', s + FINAL));
    }
  }

  /** A break behind c. */
  lemma {:induction false} BytesKeptBehind(q0: Lex, line: Text, c: byte, s: Text, st: Scan)
    requires Calm(q0) && Spaced([c] + s) && (c == LPAREN || c == LF || (c == COMMA && !WsToEol(s)))
    ensures var text := if c == LF then line else line + [c];
            var q := LexAfter(q0, line);
            (QuotedBytes(q0, Render([Piece(text, INDENT)] + Pieces([], DropSpaces(s), st)))
             == QuotedBytes(q0, line) + QuotedBytes(q, [c] + (s + FINAL))
             <==> !Inside(NextLex(q, c)) && BreaksOutside([], DropSpaces(s), st, NextLex(q, c)))
    decreases |s|, 2
  {
    hide QuotedBytes, Pieces, BreaksOutside, Render, LexAfter, Spaced, NextLex, DropSpaces;
    var text := if c == LF then line else line + [c];
    var q := LexAfter(q0, line);
    var q' := NextLex(q, c);
    var out := Render(Pieces([], DropSpaces(s), st));
    var tail: Text := if c == LF then [32, 32] else INDENT;
    RenderCons(Piece(text, INDENT), Pieces([], DropSpaces(s), st));
    TextRead(q0, line, c, out);
    SameBehind(QuotedBytes(q0, line) + QuotedBytes(q, [c]), QuotedBytes(q', tail + out), QuotedBytes(q', s + FINAL));
    LexCons(q, c, s + FINAL);
    Assoc(QuotedBytes(q0, line), QuotedBytes(q, [c]), QuotedBytes(q', s + FINAL));
    if Inside(q') {
      StartsInside(q', tail + out);
      StartsInside(q', s + FINAL);
      BehindBreak(c, s);
    } else {
      CalmBehind(q, c);
      OrdinaryInFront(q', tail, out);
      SpacedRest(c, s);
      BytesKept(q', [], DropSpaces(s), st);
      NothingRead(q');
      assert [] + QuotedBytes(q', DropSpaces(s) + FINAL) == QuotedBytes(q', DropSpaces(s) + FINAL);
      SpacesInFrontOf(q', s, FINAL);
    }
  }

  lemma CalmBehind(q: Lex, c: byte)
    requires (c == LPAREN || c == LF || c == COMMA) && !Inside(NextLex(q, c))
    ensures Calm(NextLex(q, c))
  {
  }

  lemma SpacedRest(c: byte, s: Text)
    requires Spaced([c] + s)
    ensures Spaced(DropSpaces(s))
  {
    var k := 1 + Spaces(s);
    assert ([c] + s)[k..] == DropSpaces(s);
    SpacedTail([c] + s, k);
  }

  /** What follows a break is neither a blank nor, behind anything but a line end, a line end. */
  lemma BehindBreak(c: byte, s: Text)
    requires Spaced([c] + s) && (c == LPAREN || c == LF || (c == COMMA && !WsToEol(s)))
    ensures (s + FINAL)[0] != if c == LF then 32 else LF
  {
    assert ([c] + s)[0] == c && (s != [] ==> ([c] + s)[1] == s[0]);
  }

  lemma TextRead(q0: Lex, line: Text, c: byte, out: Text)
    requires Calm(q0)
    ensures var text := if c == LF then line else line + [c];
            var q := LexAfter(q0, line);
            QuotedBytes(q0, (SchemaLine(text) + INDENT) + out)
            == (QuotedBytes(q0, line) + QuotedBytes(q, [c]))
             + QuotedBytes(NextLex(q, c), (if c == LF then [32, 32] else INDENT) + out)
  {
    hide QuotedBytes, LexAfter, NextLex, SchemaLine;
    var q := LexAfter(q0, line);
    if c == LF {
      LineRead(q0, line, INDENT, out);
      assert INDENT + out == [LF] + ([32, 32] + out);
      LexCons(q, LF, [32, 32] + out);
      Assoc(QuotedBytes(q0, line), QuotedBytes(q, [c]), QuotedBytes(NextLex(q, c), [32, 32] + out));
    } else {
      LineRead(q0, line + [c], INDENT, out);
      LexAppend(q0, line, [c]);
      LexOne(q, c);
    }
  }

  /**
   * All literals, quoted names and line comments of a squeezed statement are printed unchanged just
   * when no break falls inside.
   */
  lemma QuotesExactly(z: Text)
    ensures QuotedBytes(Plain, Render(Printed(z))) == QuotedBytes(Plain, Tidy(z) + FINAL)
       <==> |Tidy(z)| < 79 || BreaksOutside([], Tidy(z), Scan(0, 0, 0), Plain)
  {
    hide QuotedBytes, Tidy, Pieces, BreaksOutside, Render, SchemaLine;
    var t := Tidy(z);
    NothingRead(Plain);
    assert [] + QuotedBytes(Plain, t + FINAL) == QuotedBytes(Plain, t + FINAL);
    if |t| < 79 {
      RenderCons(Piece(t, FINAL), []);
      LineRead(Plain, t, FINAL, []);
      LexAppend(Plain, t, FINAL);
      RenderNothing();
      assert [Piece(t, FINAL)] + [] == [Piece(t, FINAL)] && FINAL + [] == FINAL;
    } else {
      SpacedTidy(z);
      BytesKept(Plain, [], t, Scan(0, 0, 0));
    }
  }

  lemma RenderNothing()
    ensures Render([]) == []
  {
  }

  // ----- when the breaks fall outside

  /** The closing character that the pass should be looking for. */
  function End(q: Lex, next: byte): byte {
    match q
    case Quoted(end) => end
    case Comment => LF
    case Dash => if next == MINUS then LF else 0
    case _ => 0
  }

  /** In every place of a text, the pass looks for the character with which SQL ends what stands there. */
  predicate Agrees(q: Lex, st: Scan, s: Text)
    decreases |s|
  {
    st.cEnd == End(q, Head(s)) && (s != [] ==> Agrees(NextLex(q, s[0]), ScanChar(st, s[0], Head(s[1..])), s[1..]))
  }

  /** The pass takes c for the start of something, although it stands inside of something else. */
  predicate Disturbs(q: Lex, c: byte, next: byte) {
    match q
    case Quoted(end) =>
      c != end && (IsQuote(c) || (c == LBRACKET && end != RBRACKET) || (c == MINUS && next == MINUS))
    case Comment => IsQuote(c) || c == LBRACKET
    case Block => IsQuote(c) || c == LBRACKET || (c == MINUS && next == MINUS)
    case Star => IsQuote(c) || c == LBRACKET || (c == MINUS && next == MINUS)
    case _ => false
  }

  predicate Undisturbed(q: Lex, s: Text)
    decreases |s|
  {
    s != [] ==> !Disturbs(q, s[0], Head(s[1..])) && Undisturbed(NextLex(q, s[0]), s[1..])
  }

  /** Literals and names end with a character of their own. */
  predicate Possible(q: Lex) {
    q.Quoted? ==> IsQuote(q.end) || q.end == RBRACKET
  }

  lemma TrackOne(q: Lex, st: Scan, c: byte, s: Text)
    requires Possible(q) && st.cEnd == End(q, c)
    ensures Possible(NextLex(q, c))
    ensures ScanChar(st, c, Head(s)).cEnd == End(NextLex(q, c), Head(s)) <==> !Disturbs(q, c, Head(s))
  {
  }

  /**
   * The pass agrees with SQL about literals, names and comments just when none of them holds an
   * opening character of another kind.
   */
  lemma {:induction false} TracksExactly(q: Lex, st: Scan, s: Text)
    requires Possible(q) && st.cEnd == End(q, Head(s))
    ensures Agrees(q, st, s) <==> Undisturbed(q, s)
    decreases |s|
  {
    if s == [] {
    } else {
      TrackOne(q, st, s[0], s[1..]);
      hide NextLex, ScanChar, End, Disturbs, Possible;
      var st' := ScanChar(st, s[0], Head(s[1..]));
      if !Disturbs(q, s[0], Head(s[1..])) {
        TracksExactly(NextLex(q, s[0]), st', s[1..]);
      } else {
        assert !Agrees(NextLex(q, s[0]), st', s[1..]);
      }
    }
  }

  /** No closing parenthesis stands inside a literal, a name or a line comment. */
  predicate NoParenInside(q: Lex, s: Text)
    decreases |s|
  {
    s != [] ==> !(Inside(q) && s[0] == RPAREN) && NoParenInside(NextLex(q, s[0]), s[1..])
  }

  lemma {:induction false} SafeBehindSpaces(q: Lex, s: Text)
    requires Calm(q) && Undisturbed(q, s) && NoParenInside(q, s)
    ensures Undisturbed(q, DropSpaces(s)) && NoParenInside(q, DropSpaces(s))
    decreases |s|
  {
    if s != [] && IsSpace(s[0]) {
      SafeBehindSpaces(q, s[1..]);
      assert DropSpaces(s) == DropSpaces(s[1..]);
    } else {
      assert DropSpaces(s) == s;
    }
  }

  lemma {:induction false} SafeBreaks(line: Text, s: Text, st: Scan, q: Lex)
    requires Possible(q) && st.cEnd == End(q, Head(s)) && Undisturbed(q, s) && NoParenInside(q, s)
    ensures BreaksOutside(line, s, st, q)
    decreases |s|, 1
  {
    if s == [] {
    } else {
      TrackOne(q, st, s[0], s[1..]);
      hide NextLex, ScanChar, End, Disturbs, Possible, BreaksOutsideAfter;
      var line' := if BreaksBefore(line, s[0], st) then [] else line;
      SafeBreaksAfter(line', s[0], s[1..], ScanChar(st, s[0], Head(s[1..])), q);
    }
  }

  lemma {:induction false} SafeBreaksAfter(line: Text, c: byte, s: Text, st: Scan, q0: Lex)
    requires var q := NextLex(q0, c);
             Possible(q) && st.cEnd == End(q, Head(s)) && Undisturbed(q, s) && NoParenInside(q, s)
    ensures BreaksOutsideAfter(line, c, s, st, NextLex(q0, c))
    decreases |s| + 1, 0
  {
    hide BreaksOutside, WsToEol, Undisturbed, NoParenInside, NextLex;
    var q := NextLex(q0, c);
    if BreaksAfter(c, s, st) {
      CalmBehind(q0, c);
      SafeBehindSpaces(q, s);
      SafeBreaks([], DropSpaces(s), st.(nLine := st.nLine + 1), q);
    } else {
      SafeBreaks(line + [c], s, st, q);
    }
  }

  /**
   * Literals, names and line comments are printed unchanged if none of them holds an opening
   * character of another kind or a closing parenthesis.
   */
  lemma QuotesKept(z: Text)
    requires Undisturbed(Plain, Tidy(z)) && NoParenInside(Plain, Tidy(z))
    ensures QuotedBytes(Plain, Render(Printed(z))) == QuotedBytes(Plain, Tidy(z) + FINAL)
  {
    hide QuotedBytes, Tidy, Render, Printed, Undisturbed, NoParenInside, BreaksOutside;
    QuotesExactly(z);
    SafeBreaks([], Tidy(z), Scan(0, 0, 0), Plain);
  }

  // ----- breaks inside of literals

  predicate IsWord(c: byte) {
    c == 32 || 48 <= c <= 57 || 65 <= c <= 90 || 97 <= c <= 122
  }

  predicate AllWord(t: Text) {
    forall i :: 0 <= i < |t| ==> IsWord(t[i])
  }

  /** Letters, digits and blanks change nothing. */
  lemma {:induction false} ReadWord(line: Text, t: Text, s: Text, st: Scan, q: Lex)
    requires AllWord(t) && !IsWord(st.cEnd) && (q == Plain || (q.Quoted? && !IsWord(q.end)))
    ensures BreaksOutside(line, t + s, st, q) <==> BreaksOutside(line + t, s, st, q)
    decreases |t|
  {
    if t == [] {
      assert t + s == s && line + t == line;
    } else {
      var c := t[0];
      assert IsWord(c) && t + s == [c] + (t[1..] + s);
      ReadOne(line, c, t[1..] + s, st, q);
      WordChanges(c, Head(t[1..] + s), st, q);
      assert !BreaksBefore(line, c, st) && !BreaksAfter(c, t[1..] + s, st);
      hide BreaksOutside;
      ReadWord(line + [c], t[1..], s, st, q);
      assert (line + [c]) + t[1..] == line + t;
    }
  }

  lemma WordChanges(c: byte, next: byte, st: Scan, q: Lex)
    requires IsWord(c) && !IsWord(st.cEnd) && (q == Plain || (q.Quoted? && !IsWord(q.end)))
    ensures ScanChar(st, c, next) == st && NextLex(q, c) == q
  {
  }

  lemma ReadOne(line: Text, c: byte, s: Text, st: Scan, q: Lex)
    ensures var st', q' := ScanChar(st, c, Head(s)), NextLex(q, c);
            (BreaksOutside(line, [c] + s, st, q) <==>
             if BreaksBefore(line, c, st) then !Inside(q) && BreaksOutsideAfter([], c, s, st', q')
             else BreaksOutsideAfter(line, c, s, st', q'))
  {
    hide BreaksOutsideAfter, ScanChar, NextLex;
    assert ([c] + s)[1..] == s;
  }

  /** "CREATE TABLE t" */
  const CREATE_T: Text := [67, 82, 69, 65, 84, 69, 32, 84, 65, 66, 76, 69, 32, 116]

  /** "a DEFAULT " */
  const A_DEFAULT: Text := [97, 32, 68, 69, 70, 65, 85, 76, 84, 32]

  /** "b DEFAULT " */
  const B_DEFAULT: Text := [98, 32, 68, 69, 70, 65, 85, 76, 84, 32]

  /** A statement with a first column, whatever comes behind the opening parenthesis. */
  lemma ReadCreate(s: Text)
    requires s != [] && !IsSpace(s[0])
    ensures BreaksOutside([], CREATE_T + ([LPAREN] + s), Scan(0, 0, 0), Plain)
       <==> BreaksOutside([], s, Scan(0, 1, 1), Plain)
  {
    hide BreaksOutside;
    ReadWord([], CREATE_T, [LPAREN] + s, Scan(0, 0, 0), Plain);
    ReadOne([] + CREATE_T, LPAREN, s, Scan(0, 0, 0), Plain);
    assert DropSpaces(s) == s;
  }

  /** In CREATE TABLE t(a DEFAULT '"',b DEFAULT 'x,y... a line ends behind the comma of the second literal. */
  lemma CommaInLiteral(rest: Text)
    ensures !BreaksOutside([], CREATE_T + ([LPAREN] + (A_DEFAULT + ([QUOTE, DQUOTE, QUOTE, COMMA]
                               + (B_DEFAULT + ([QUOTE, 120, COMMA, 121] + rest))))), Scan(0, 0, 0), Plain)
  {
    hide BreaksOutside, WsToEol;
    var s4: Text := [121] + rest;
    var s3 := B_DEFAULT + ([QUOTE] + ([120] + ([COMMA] + s4)));
    var s2 := A_DEFAULT + ([QUOTE] + ([DQUOTE] + ([QUOTE] + ([COMMA] + s3))));
    assert [QUOTE, 120, COMMA, 121] + rest == [QUOTE] + ([120] + ([COMMA] + s4));
    assert [QUOTE, DQUOTE, QUOTE, COMMA] + s3 == [QUOTE] + ([DQUOTE] + ([QUOTE] + ([COMMA] + s3)));
    ReadCreate(s2);
    ReadWord([], A_DEFAULT, s2[|A_DEFAULT|..], Scan(0, 1, 1), Plain);
    assert s2[|A_DEFAULT|..] == [QUOTE] + ([DQUOTE] + ([QUOTE] + ([COMMA] + s3)));
    var l1 := [] + A_DEFAULT;
    ReadOne(l1, QUOTE, [DQUOTE] + ([QUOTE] + ([COMMA] + s3)), Scan(0, 1, 1), Plain);
    ReadOne(l1 + [QUOTE], DQUOTE, [QUOTE] + ([COMMA] + s3), Scan(QUOTE, 1, 1), Quoted(QUOTE));
    ReadOne(l1 + [QUOTE] + [DQUOTE], QUOTE, [COMMA] + s3, Scan(DQUOTE, 1, 1), Quoted(QUOTE));
    var l2 := l1 + [QUOTE] + [DQUOTE] + [QUOTE];
    ReadOne(l2, COMMA, s3, Scan(QUOTE, 1, 1), Plain);
    ReadSecond(l2 + [COMMA], s4);
  }

  /** The second default, when the pass takes its opening quote for a closing one. */
  lemma ReadSecond(line: Text, s: Text)
    requires s != [] && s[0] == 121
    ensures !BreaksOutside(line, B_DEFAULT + ([QUOTE] + ([120] + ([COMMA] + s))), Scan(QUOTE, 1, 1), Plain)
  {
    hide BreaksOutside;
    var l := line + B_DEFAULT;
    ReadWord(line, B_DEFAULT, [QUOTE] + ([120] + ([COMMA] + s)), Scan(QUOTE, 1, 1), Plain);
    ReadOne(l, QUOTE, [120] + ([COMMA] + s), Scan(QUOTE, 1, 1), Plain);
    ReadOne(l + [QUOTE], 120, [COMMA] + s, Scan(0, 1, 1), Quoted(QUOTE));
    ReadOne(l + [QUOTE] + [120], COMMA, s, Scan(0, 1, 1), Quoted(QUOTE));
    assert !WsToEol(s);
  }

  /** "x,y',c TEXT,d TEXT," */
  const MORE: Text := [120, 44, 121, 39, 44, 99, 32, 84, 69, 88, 84, 44, 100, 32, 84, 69, 88, 84, 44]

  /** "e TEXT,f TEXT,g TEXT)" */
  const LAST: Text := [101, 32, 84, 69, 88, 84, 44, 102, 32, 84, 69, 88, 84, 44, 103, 32, 84, 69, 88, 84, 41]

  /** CREATE TABLE t(a DEFAULT '"',b DEFAULT 'x,y',c TEXT,d TEXT,e TEXT,f TEXT,g TEXT) */
  const STATEMENT: Text :=
    CREATE_T + ([LPAREN] + (A_DEFAULT + ([QUOTE, DQUOTE, QUOTE, COMMA] + (B_DEFAULT + ([QUOTE] + (MORE + LAST))))))

  lemma StatementTidy()
    ensures Tidy(STATEMENT) == STATEMENT && |STATEMENT| == 80
  {
    hide Tidy, NoSurplus;
    var s4 := [QUOTE] + (MORE + LAST);
    var s3 := [QUOTE, DQUOTE, QUOTE, COMMA] + (B_DEFAULT + s4);
    CreateTidy();
    FirstDefaultTidy();
    SecondDefaultTidy();
    EndTidy();
    NoSurplusSplit([QUOTE, DQUOTE, QUOTE, COMMA] + B_DEFAULT, QUOTE, MORE + LAST);
    assert s3 == [QUOTE, DQUOTE, QUOTE, COMMA] + B_DEFAULT + [QUOTE] + (MORE + LAST);
    assert [QUOTE] + s3[1..] == s3;
    StatementFront(s3[1..]);
    TidyExactly(STATEMENT);
  }

  lemma StatementFront(s: Text)
    requires NoSurplus(CREATE_T + [LPAREN]) && NoSurplus([LPAREN] + A_DEFAULT + [QUOTE]) && NoSurplus([QUOTE] + s)
    ensures NoSurplus(CREATE_T + ([LPAREN] + (A_DEFAULT + ([QUOTE] + s))))
  {
    hide NoSurplus;
    var s3 := A_DEFAULT + ([QUOTE] + s);
    NoSurplusSplit(CREATE_T, LPAREN, s3);
    assert CREATE_T + ([LPAREN] + s3) == CREATE_T + [LPAREN] + s3;
    NoSurplusSplit([LPAREN] + A_DEFAULT, QUOTE, s);
    assert [LPAREN] + s3 == [LPAREN] + A_DEFAULT + [QUOTE] + s;
  }

  lemma EndTidy()
    ensures NoSurplus([QUOTE] + (MORE + LAST))
  {
    hide NoSurplus;
    MoreTidy();
    LastTidy();
    var n := |MORE| - 1;
    assert MORE[n] == COMMA && [QUOTE] + MORE == [QUOTE] + MORE[..n] + [COMMA];
    NoSurplusSplit([QUOTE] + MORE[..n], COMMA, LAST);
    assert [QUOTE] + (MORE + LAST) == [QUOTE] + MORE[..n] + [COMMA] + LAST;
  }

  lemma CreateTidy()
    ensures NoSurplus(CREATE_T + [LPAREN])
  {
    assert |CREATE_T + [LPAREN]| == 15;
  }

  lemma FirstDefaultTidy()
    ensures NoSurplus([LPAREN] + A_DEFAULT + [QUOTE])
  {
    assert |[LPAREN] + A_DEFAULT + [QUOTE]| == 12;
  }

  lemma SecondDefaultTidy()
    ensures NoSurplus([QUOTE, DQUOTE, QUOTE, COMMA] + B_DEFAULT + [QUOTE])
  {
    assert |[QUOTE, DQUOTE, QUOTE, COMMA] + B_DEFAULT + [QUOTE]| == 15;
  }

  lemma MoreTidy()
    ensures NoSurplus([QUOTE] + MORE)
  {
    assert |[QUOTE] + MORE| == 20;
  }

  lemma LastTidy()
    ensures NoSurplus([COMMA] + LAST)
  {
    assert |[COMMA] + LAST| == 22;
  }

  /** The statement is not changed by the first pass; the second one prints a line end inside of 'x,y'. */
  lemma LiteralBroken()
    ensures Tidy(STATEMENT) == STATEMENT
    ensures QuotedBytes(Plain, Render(Printed(STATEMENT))) != QuotedBytes(Plain, STATEMENT + FINAL)
  {
    hide Tidy, BreaksOutside, QuotedBytes, Render, Printed;
    StatementTidy();
    var rest := MORE[3..] + LAST;
    CommaInLiteral(rest);
    assert [QUOTE, 120, COMMA, 121] + rest == [QUOTE] + (MORE + LAST);
    QuotesExactly(STATEMENT);
  }

  /** In CREATE TABLE t(b DEFAULT ')... a line ends in front of the parenthesis in the literal. */
  lemma ParenInLiteral(rest: Text)
    ensures !BreaksOutside([], CREATE_T + ([LPAREN] + (B_DEFAULT + ([QUOTE, RPAREN] + rest))), Scan(0, 0, 0), Plain)
  {
    hide BreaksOutside;
    var s2 := [QUOTE] + ([RPAREN] + rest);
    assert [QUOTE, RPAREN] + rest == s2;
    ReadCreate(B_DEFAULT + s2);
    ReadWord([], B_DEFAULT, s2, Scan(0, 1, 1), Plain);
    ReadOne([] + B_DEFAULT, QUOTE, [RPAREN] + rest, Scan(0, 1, 1), Plain);
    ReadOne([] + B_DEFAULT + [QUOTE], RPAREN, rest, Scan(QUOTE, 1, 1), Quoted(QUOTE));
  }
}
