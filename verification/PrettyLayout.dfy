/**
 * Where the second pass of the pretty-printer ends its lines: behind the opening parenthesis of the
 * outermost level, behind each comma at depth one, and in front of the parenthesis that closes it.
 * Depths are counted here over the text as SQL reads it.
 */
module PrettyLayout {
  import opened Bytes
  import opened Ctype
  import opened Texts
  import opened Pretty
  import opened PrettyQuotes

  // ----- texts without a place for a line end

  /** No comment starts at c, no line ends, and what stands in quotes holds no parenthesis and nothing that disturbs. */
  predicate SafeChar(q: Lex, c: byte, next: byte) {
    && (q == Plain || q == Dash || q == Slash || q.Quoted?)
    && !Disturbs(q, c, next) && c != LF && !(c == MINUS && next == MINUS) && !(q == Slash && c == ASTERISK)
    && (q.Quoted? ==> c != LPAREN && c != RPAREN)
  }

  /** The depth behind c; parentheses in quotes do not count. */
  function DepthAfter(q: Lex, n: int, c: byte): int {
    if q.Quoted? then n
    else if c == LPAREN then n + 1
    else if c == RPAREN then n - 1
    else n
  }

  /**
   * From depth n to depth last, outside of quotes, with no parenthesis that opens or closes the
   * outermost level and no comma at depth one on the way.
   */
  predicate Unbroken(q: Lex, n: int, u: Text, last: int)
    decreases |u|
  {
    if u == [] then (q == Plain || q == Dash || q == Slash) && n == last else
    && SafeChar(q, u[0], Head(u[1..]))
    && (!q.Quoted? ==> !(u[0] == LPAREN && n == 0) && !(u[0] == RPAREN && n == 1) && !(u[0] == COMMA && n == 1))
    && Unbroken(NextLex(q, u[0]), DepthAfter(q, n, u[0]), u[1..], last)
  }

  function Closing(q: Lex): byte {
    if q.Quoted? then q.end else 0
  }

  lemma CharScanned(q: Lex, st: Scan, c: byte, next: byte)
    requires Possible(q) && st.cEnd == Closing(q) && SafeChar(q, c, next)
    ensures var st', q' := ScanChar(st, c, next), NextLex(q, c);
            Possible(q') && st' == Scan(Closing(q'), DepthAfter(q, st.nParen, c), st.nLine)
  {
  }

  /** In front of what follows it, the last character of a text is as safe as at its end. */
  lemma SafeBefore(q: Lex, c: byte, s: Text)
    requires SafeChar(q, c, 0) && Head(s) != MINUS
    ensures SafeChar(q, c, Head(s))
  {
  }

  /** Such a text stays on the line, whatever follows. */
  lemma {:induction false} KeptOnLine(line: Text, u: Text, s: Text, st: Scan, q: Lex, last: int)
    requires Unbroken(q, st.nParen, u, last) && Possible(q) && st.cEnd == Closing(q) && Head(s) != MINUS
    ensures Pieces(line, u + s, st) == Pieces(line + u, s, Scan(0, last, st.nLine))
    decreases |u|
  {
    if u == [] {
      assert u + s == s && line + u == line;
    } else {
      var c, rest := u[0], u[1..] + s;
      assert u + s == [c] + rest && (u + s)[1..] == rest;
      if |u| == 1 {
        SafeBefore(q, c, s);
        assert rest == s;
      }
      assert Head(rest) == if |u| == 1 then Head(s) else Head(u[1..]);
      CharScanned(q, st, c, Head(rest));
      NoBreak(line, u, rest, st, q, last);
      KeptOnLine(line + [c], u[1..], s, ScanChar(st, c, Head(rest)), NextLex(q, c), last);
      assert (line + [c]) + u[1..] == line + u;
    }
  }

  lemma NoBreak(line: Text, u: Text, rest: Text, st: Scan, q: Lex, last: int)
    requires u != [] && Unbroken(q, st.nParen, u, last) && Possible(q) && st.cEnd == Closing(q)
    requires SafeChar(q, u[0], Head(rest))
    ensures var st' := ScanChar(st, u[0], Head(rest));
            Pieces(line, [u[0]] + rest, st) == Pieces(line + [u[0]], rest, st')
  {
    hide ScanChar, NextLex, Disturbs, WsToEol, Pieces;
    var c := u[0];
    CharScanned(q, st, c, Head(rest));
    EndOfQuote(q, c);
    PiecesOne(line, c, rest, st);
    assert !BreaksBefore(line, c, st) && !BreaksAfter(c, rest, ScanChar(st, c, Head(rest)));
  }

  lemma EndOfQuote(q: Lex, c: byte)
    requires Possible(q)
    ensures c == COMMA || c == LPAREN || c == RPAREN ==> (q.Quoted? <==> NextLex(q, c).Quoted?)
    ensures NextLex(q, c).Quoted? ==> Closing(NextLex(q, c)) != 0
    ensures Possible(NextLex(q, c))
  {
  }

  lemma PiecesOne(line: Text, c: byte, s: Text, st: Scan)
    ensures var st' := ScanChar(st, c, Head(s));
            var line' := if BreaksBefore(line, c, st) then [] else line;
            Pieces(line, [c] + s, st) == (if BreaksBefore(line, c, st) then [Piece(line, [LF])] else [])
              + if BreaksAfter(c, s, st') then
                  [Piece(if c == LF then line' else line' + [c], INDENT)]
                  + Pieces([], DropSpaces(s), st'.(nLine := st'.nLine + 1))
                else Pieces(line' + [c], s, st')
  {
    hide ScanChar, WsToEol, DropSpaces, BreaksBefore, BreaksAfter;
    assert ([c] + s)[1..] == s;
  }

  // ----- parenthesised texts

  /** Balanced, from relative depth d, without quotes, comments and line ends. */
  predicate Balanced(d: nat, u: Text)
    decreases |u|
  {
    if u == [] then d == 0 else
    var c, next := u[0], Head(u[1..]);
    && !IsQuote(c) && c != LBRACKET && c != LF && !(c == MINUS && next == MINUS) && !(c == SLASH && next == ASTERISK)
    && (c == RPAREN ==> d > 0)
    && Balanced(if c == LPAREN then d + 1 else if c == RPAREN then d - 1 else d, u[1..])
  }

  lemma {:induction false} BalancedUnbroken(q: Lex, d: nat, u: Text, n: nat)
    requires n >= 2 && Balanced(d, u) && (q == Plain || q == Dash || q == Slash)
    requires (q == Dash ==> Head(u) != MINUS) && (q == Slash ==> Head(u) != ASTERISK)
    ensures Unbroken(q, n + d, u, n)
    decreases |u|
  {
    if u == [] {
    } else {
      var c := u[0];
      BalancedUnbroken(NextLex(q, c), if c == LPAREN then d + 1 else if c == RPAREN then d - 1 else d, u[1..], n);
    }
  }

  /** Read at depth one or more, a parenthesised text is printed without a line end inside. */
  lemma Together(line: Text, u: Text, s: Text, st: Scan)
    requires st.cEnd == 0 && st.nParen >= 1 && Balanced(0, u) && Head(s) != MINUS
    ensures Pieces(line, ([LPAREN] + u + [RPAREN]) + s, st) == Pieces(line + ([LPAREN] + u + [RPAREN]), s, st)
  {
    var all := [LPAREN] + u + [RPAREN];
    BalancedUnbroken(Plain, 0, u, st.nParen + 1);
    UnbrokenAppend(Plain, st.nParen + 1, u, st.nParen + 1, [RPAREN], st.nParen);
    assert all[1..] == u + [RPAREN];
    assert Unbroken(Plain, st.nParen, all, st.nParen);
    KeptOnLine(line, all, s, st, Plain, st.nParen);
  }

  lemma {:induction false} UnbrokenAppend(q: Lex, n: int, u: Text, m: int, s: Text, last: int)
    requires Unbroken(q, n, u, m) && s == [RPAREN] && m != 1 && last == m - 1
    ensures Unbroken(q, n, u + s, last)
    decreases |u|
  {
    if u == [] {
      assert u + s == s && s[1..] == [];
    } else {
      assert (u + s)[1..] == u[1..] + s && (u + s)[0] == u[0];
      if |u| == 1 {
        assert u[1..] + s == s;
        SafeBefore(q, u[0], s);
      }
      UnbrokenAppend(NextLex(q, u[0]), DepthAfter(q, n, u[0]), u[1..], m, s, last);
    }
  }

  // ----- a whole statement

  /** A column definition: at depth one, without a comma at this depth, and not blank. */
  predicate IsColumn(u: Text) {
    Unbroken(Plain, 1, u, 1) && DropSpaces(u) != []
  }

  function Commas(cols: seq<Text>): Text {
    if cols == [] then [] else if |cols| == 1 then cols[0] else cols[0] + ([COMMA] + Commas(cols[1..]))
  }

  /** One line for each column. */
  function Lines(cols: seq<Text>): seq<Piece> {
    if cols == [] then []
    else if |cols| == 1 then [Piece(DropSpaces(cols[0]), [LF])]
    else [Piece(DropSpaces(cols[0]) + [COMMA], INDENT)] + Lines(cols[1..])
  }

  lemma {:induction false} ColumnStart(u: Text)
    requires Unbroken(Plain, 1, u, 1)
    ensures Unbroken(Plain, 1, DropSpaces(u), 1)
    decreases |u|
  {
    if u != [] && IsSpace(u[0]) {
      ColumnStart(u[1..]);
      assert DropSpaces(u) == DropSpaces(u[1..]);
    } else {
      assert DropSpaces(u) == u;
    }
  }

  lemma {:induction false} SpacesBefore(u: Text, s: Text)
    requires DropSpaces(u) != []
    ensures DropSpaces(u + s) == DropSpaces(u) + s
    decreases |u|
  {
    assert u != [];
    assert (u + s)[1..] == u[1..] + s && (u + s)[0] == u[0];
    if IsSpace(u[0]) {
      SpacesBefore(u[1..], s);
      assert DropSpaces(u) == DropSpaces(u[1..]) && DropSpaces(u + s) == DropSpaces(u[1..] + s);
    } else {
      assert DropSpaces(u) == u && DropSpaces(u + s) == u + s;
    }
  }

  /** A column is no comment. */
  lemma {:induction false} ColumnIsNoComment(u: Text, s: Text)
    requires Unbroken(Plain, 1, u, 1) && DropSpaces(u) != [] && Head(s) != MINUS
    ensures !WsToEol(u + s)
    decreases |u|
  {
    assert u != [] && (u + s)[1..] == u[1..] + s && (u + s)[0] == u[0];
    if IsSpace(u[0]) {
      assert DropSpaces(u) == DropSpaces(u[1..]);
      ColumnIsNoComment(u[1..], s);
    } else {
      assert Head((u + s)[1..]) == if |u| == 1 then Head(s) else u[1];
    }
  }

  lemma {:induction false} ColumnsPrinted(cols: seq<Text>, tail: Text, nLine: nat)
    requires cols != [] && nLine > 0 && (forall i :: 0 <= i < |cols| ==> IsColumn(cols[i])) && Unbroken(Plain, 0, tail, 0)
    ensures Pieces([], DropSpaces(Commas(cols) + ([RPAREN] + tail)), Scan(0, 1, nLine))
         == Lines(cols) + [Piece([RPAREN] + tail, FINAL)]
    decreases |cols|
  {
    hide Unbroken, DropSpaces, Pieces, WsToEol;
    var u := DropSpaces(cols[0]);
    ColumnStart(cols[0]);
    if |cols| == 1 {
      var s := [RPAREN] + tail;
      SpacesBefore(cols[0], s);
      KeptOnLine([], u, s, Scan(0, 1, nLine), Plain, 1);
      assert [] + u == u;
      LastLine(u, tail, nLine);
    } else {
      var more := Commas(cols[1..]) + ([RPAREN] + tail);
      var s := [COMMA] + more;
      assert cols[0] + ([COMMA] + Commas(cols[1..])) + ([RPAREN] + tail) == cols[0] + s;
      SpacesBefore(cols[0], s);
      KeptOnLine([], u, s, Scan(0, 1, nLine), Plain, 1);
      assert [] + u == u;
      var rest := if |cols| == 2 then [RPAREN] + tail else [COMMA] + (Commas(cols[2..]) + ([RPAREN] + tail));
      assert cols[1..][0] == cols[1] && (|cols| > 2 ==> cols[1..][1..] == cols[2..]);
      assert more == cols[1] + rest;
      ColumnIsNoComment(cols[1], rest);
      LineAtComma(u, more, Scan(0, 1, nLine));
      ColumnsPrinted(cols[1..], tail, nLine + 1);
    }
  }

  /** A line ends behind a comma at depth one, outside quotes, that no comment follows. */
  lemma LineAtComma(line: Text, s: Text, st: Scan)
    requires st.cEnd == 0 && st.nParen == 1 && !WsToEol(s)
    ensures Pieces(line, [COMMA] + s, st)
         == [Piece(line + [COMMA], INDENT)] + Pieces([], DropSpaces(s), st.(nLine := st.nLine + 1))
  {
    hide Pieces, DropSpaces, WsToEol;
    PiecesOne(line, COMMA, s, st);
    assert ScanChar(st, COMMA, Head(s)) == st;
  }

  /** A line ends behind the parenthesis that opens the outermost level. */
  lemma LineAtOpening(line: Text, s: Text, nLine: nat)
    ensures Pieces(line, [LPAREN] + s, Scan(0, 0, nLine))
         == [Piece(line + [LPAREN], INDENT)] + Pieces([], DropSpaces(s), Scan(0, 1, nLine + 1))
  {
    hide Pieces, DropSpaces, WsToEol;
    PiecesOne(line, LPAREN, s, Scan(0, 0, nLine));
  }

  /** A line ends in front of the parenthesis that closes it. */
  lemma LineAtClosing(line: Text, s: Text, nLine: nat)
    requires line != [] && nLine > 0
    ensures Pieces(line, [RPAREN] + s, Scan(0, 1, nLine)) == [Piece(line, [LF])] + Pieces([RPAREN], s, Scan(0, 0, nLine))
  {
    hide Pieces, DropSpaces, WsToEol;
    PiecesOne(line, RPAREN, s, Scan(0, 1, nLine));
    assert [] + [RPAREN] == [RPAREN];
  }

  lemma LastLine(u: Text, tail: Text, nLine: nat)
    requires u != [] && nLine > 0 && Unbroken(Plain, 0, tail, 0)
    ensures Pieces(u, [RPAREN] + tail, Scan(0, 1, nLine)) == [Piece(u, [LF])] + [Piece([RPAREN] + tail, FINAL)]
  {
    hide Unbroken;
    LineAtClosing(u, tail, nLine);
    KeptOnLine([RPAREN], tail, [], Scan(0, 0, nLine), Plain, 0);
    assert tail + [] == tail;
  }

  predicate IsCommentText(text: Text) {
    forall i :: 0 <= i < |text| ==>
      text[i] != LF && !IsQuote(text[i]) && text[i] != LBRACKET && text[i] != LPAREN && text[i] != RPAREN
  }

  /** A comment behind a comma stays on its line, and the line ends with it. */
  lemma CommentLine(line: Text, gap: Text, text: Text, s: Text, nLine: nat)
    requires (forall i :: 0 <= i < |gap| ==> IsSpace(gap[i]) && gap[i] != LF) && IsCommentText(text)
    ensures var comment := gap + ([MINUS, MINUS] + text);
            (Pieces(line, [COMMA] + (comment + ([LF] + s)), Scan(0, 1, nLine))
             == [Piece(line + ([COMMA] + comment), INDENT)] + Pieces([], DropSpaces(s), Scan(0, 1, nLine + 1)))
  {
    hide Pieces, DropSpaces, WsToEol, IsCommentText;
    var rest := [MINUS] + ([MINUS] + (text + ([LF] + s)));
    CommentTexts(line, gap, text, [LF] + s);
    CommaKept(line, gap, text + ([LF] + s), nLine);
    GapOnLine(line + [COMMA], gap, rest, Scan(0, 1, nLine));
    CommentBegun(line + [COMMA] + gap, text, [LF] + s, nLine);
    CommentEnds(line + ([COMMA] + (gap + ([MINUS, MINUS] + text))), s, nLine);
  }

  lemma CommentTexts(line: Text, gap: Text, text: Text, end: Text)
    ensures gap + ([MINUS, MINUS] + text) + end == gap + ([MINUS] + ([MINUS] + (text + end)))
    ensures (line + [COMMA] + gap) + ([MINUS, MINUS] + text) == line + ([COMMA] + (gap + ([MINUS, MINUS] + text)))
  {
  }

  lemma CommaKept(line: Text, gap: Text, s: Text, nLine: nat)
    requires forall i :: 0 <= i < |gap| ==> IsSpace(gap[i])
    ensures var behind := gap + ([MINUS] + ([MINUS] + s));
            Pieces(line, [COMMA] + behind, Scan(0, 1, nLine)) == Pieces(line + [COMMA], behind, Scan(0, 1, nLine))
  {
    hide Pieces, WsToEol;
    SpacesToComment(gap, s);
    PiecesOne(line, COMMA, gap + ([MINUS] + ([MINUS] + s)), Scan(0, 1, nLine));
  }

  lemma CommentBegun(line: Text, text: Text, end: Text, nLine: nat)
    requires IsCommentText(text)
    ensures Pieces(line, [MINUS] + ([MINUS] + (text + end)), Scan(0, 1, nLine))
         == Pieces(line + ([MINUS, MINUS] + text), end, Scan(LF, 1, nLine))
  {
    hide Pieces, WsToEol;
    PiecesOne(line, MINUS, [MINUS] + (text + end), Scan(0, 1, nLine));
    CommentOnLine(line + [MINUS], [MINUS] + text, end, nLine);
    assert [MINUS] + (text + end) == ([MINUS] + text) + end;
    assert (line + [MINUS]) + ([MINUS] + text) == line + ([MINUS, MINUS] + text);
  }

  lemma CommentEnds(line: Text, s: Text, nLine: nat)
    ensures Pieces(line, [LF] + s, Scan(LF, 1, nLine))
         == [Piece(line, INDENT)] + Pieces([], DropSpaces(s), Scan(0, 1, nLine + 1))
  {
    hide Pieces, DropSpaces, WsToEol;
    PiecesOne(line, LF, s, Scan(LF, 1, nLine));
  }

  lemma {:induction false} SpacesToComment(gap: Text, s: Text)
    requires forall i :: 0 <= i < |gap| ==> IsSpace(gap[i])
    ensures WsToEol(gap + ([MINUS] + ([MINUS] + s)))
    decreases |gap|
  {
    if gap == [] {
      assert gap + ([MINUS] + ([MINUS] + s)) == [MINUS] + ([MINUS] + s);
      assert ([MINUS] + ([MINUS] + s))[1..] == [MINUS] + s;
    } else {
      SpacesToComment(gap[1..], s);
      assert (gap + ([MINUS] + ([MINUS] + s)))[1..] == gap[1..] + ([MINUS] + ([MINUS] + s));
    }
  }

  lemma {:induction false} GapOnLine(line: Text, gap: Text, s: Text, st: Scan)
    requires (forall i :: 0 <= i < |gap| ==> IsSpace(gap[i]) && gap[i] != LF) && st.cEnd == 0
    ensures Pieces(line, gap + s, st) == Pieces(line + gap, s, st)
    decreases |gap|
  {
    hide Pieces, WsToEol;
    if gap == [] {
      assert gap + s == s && line + gap == line;
    } else {
      assert gap + s == [gap[0]] + (gap[1..] + s) && IsSpace(gap[0]);
      PiecesOne(line, gap[0], gap[1..] + s, st);
      GapOnLine(line + [gap[0]], gap[1..], s, st);
      assert (line + [gap[0]]) + gap[1..] == line + gap;
    }
  }

  lemma {:induction false} CommentOnLine(line: Text, text: Text, s: Text, nLine: nat)
    requires IsCommentText(text)
    ensures Pieces(line, text + s, Scan(LF, 1, nLine)) == Pieces(line + text, s, Scan(LF, 1, nLine))
    decreases |text|
  {
    hide Pieces, WsToEol;
    if text == [] {
      assert text + s == s && line + text == line;
    } else {
      assert text + s == [text[0]] + (text[1..] + s);
      PiecesOne(line, text[0], text[1..] + s, Scan(LF, 1, nLine));
      CommentOnLine(line + [text[0]], text[1..], s, nLine);
      assert (line + [text[0]]) + text[1..] == line + text;
    }
  }

  /**
   * A statement with columns: what stands in front, with the opening parenthesis, on the first line;
   * each column on a line of its own; the closing parenthesis with what follows on the last line.
   */
  lemma Layout(head: Text, cols: seq<Text>, tail: Text)
    requires Unbroken(Plain, 0, head, 0) && Unbroken(Plain, 0, tail, 0)
    requires cols != [] && forall i :: 0 <= i < |cols| ==> IsColumn(cols[i])
    ensures Pieces([], head + ([LPAREN] + (Commas(cols) + ([RPAREN] + tail))), Scan(0, 0, 0))
         == [Piece(head + [LPAREN], INDENT)] + (Lines(cols) + [Piece([RPAREN] + tail, FINAL)])
  {
    hide Unbroken, IsColumn, Pieces, Commas, Lines, DropSpaces;
    var s := Commas(cols) + ([RPAREN] + tail);
    KeptOnLine([], head, [LPAREN] + s, Scan(0, 0, 0), Plain, 0);
    assert [] + head == head;
    LineAtOpening(head, s, 0);
    ColumnsPrinted(cols, tail, 1);
  }

  /** So is a statement printed that has 79 bytes or more. */
  lemma PrintedLayout(z: Text, head: Text, cols: seq<Text>, tail: Text)
    requires Tidy(z) == head + ([LPAREN] + (Commas(cols) + ([RPAREN] + tail))) && |Tidy(z)| >= 79
    requires Unbroken(Plain, 0, head, 0) && Unbroken(Plain, 0, tail, 0)
    requires cols != [] && forall i :: 0 <= i < |cols| ==> IsColumn(cols[i])
    ensures Printed(z) == [Piece(head + [LPAREN], INDENT)] + (Lines(cols) + [Piece([RPAREN] + tail, FINAL)])
  {
    hide Tidy, Unbroken, IsColumn, Pieces, Commas, Lines;
    Layout(head, cols, tail);
  }

  /** A statement of less than 79 bytes is printed on one line. */
  lemma ShortStatement(z: Text)
    requires |Tidy(z)| < 79
    ensures Render(Printed(z)) == SchemaLine(Tidy(z)) + [SEMI, LF]
  {
    hide Tidy, SchemaLine;
    RenderCons(Piece(Tidy(z), FINAL), []);
    RenderNothing();
    assert [Piece(Tidy(z), FINAL)] + [] == [Piece(Tidy(z), FINAL)];
  }

  // ----- what goes before

  /** What the first pass leaves of the whitespace between two characters, wherever they stand. */
  lemma GapSqueezed(before: Text, w: byte, gap: Text, c: byte, after: Text)
    requires !IsSpace(w) && !IsSpace(c) && forall i :: 0 <= i < |gap| ==> IsSpace(gap[i])
    ensures var kept: Text := if gap == [] || w == 40 || c == 40 || c == 41 then []
                              else if |gap| > 1 && gap[0] == 13 then [10]
                              else [gap[0]];
            Tidy(before + ([w] + (gap + ([c] + after)))) == Tidy(before + [w]) + (kept + Squeezed([c] + after))
  {
    hide Squeezed, Spaces, DropSpaces;
    var rest := gap + ([c] + after);
    DropInFront(before, w, rest);
    DropInFront(before, w, []);
    assert [w] + [] == [w];
    SqueezedSplit(DropSpaces(before), w, rest);
    SqueezedGapped(w, gap, [c] + after);
    assert ([w] + (Gap(w, gap, c) + Squeezed([c] + after)))[1..] == Gap(w, gap, c) + Squeezed([c] + after);
  }

  /** A letter matches in either case, any other character only itself. */
  predicate MatchesLetter(p: byte, c: byte) {
    c == p || (65 <= p <= 90 && c == p + 32)
  }

  predicate MatchesLetters(p: Text, z: Text) {
    |z| >= |p| && forall i :: 0 <= i < |p| ==> MatchesLetter(p[i], z[i])
  }

  /** "CREATE VIEW" and "CREATE TRIG" in any case start a statement that is printed as it stands. */
  lemma StartsExactly(z: Text)
    ensures StartsLike(CREATE_VIEW, z) <==> MatchesLetters([67, 82, 69, 65, 84, 69, 32, 86, 73, 69, 87], z)
    ensures StartsLike(CREATE_TRIG, z) <==> MatchesLetters([67, 82, 69, 65, 84, 69, 32, 84, 82, 73, 71], z)
  {
    StartsLetters(CREATE_VIEW, z);
    StartsLetters(CREATE_TRIG, z);
  }

  lemma StartsLetters(p: Text, z: Text)
    requires forall i :: 0 <= i < |p| ==> p[i] == 32 || 65 <= p[i] <= 90
    ensures StartsLike(p, z) <==> MatchesLetters(p, z)
  {
    if |p| <= |z| {
      forall i | 0 <= i < |p|
        ensures Lower(p[i]) == Lower(z[i]) <==> MatchesLetter(p[i], z[i])
      {
        assert p[i] == 32 || 65 <= p[i] <= 90;
      }
    }
  }

  /** Behind "CREATE TABLE ", a name in quotes gets "IF NOT EXISTS " in front of it; any other text is kept. */
  lemma SchemaLineExactly(z: Text)
    ensures var create: Text := [67, 82, 69, 65, 84, 69, 32, 84, 65, 66, 76, 69, 32];
            if |z| > 13 && z[..13] == create && (z[13] == 39 || z[13] == 34)
            then SchemaLine(z) == create + [73, 70, 32, 78, 79, 84, 32, 69, 88, 73, 83, 84, 83, 32] + z[13..]
            else SchemaLine(z) == z
  {
  }

  // ----- an example

  /** "CREATE TABLE orders" */
  const ORDERS: Text := [67, 82, 69, 65, 84, 69, 32, 84, 65, 66, 76, 69, 32, 111, 114, 100, 101, 114, 115]

  /** "id INTEGER PRIMARY KEY" */
  const ID: Text := [105, 100, 32, 73, 78, 84, 69, 71, 69, 82, 32, 80, 82, 73, 77, 65, 82, 89, 32, 75, 69, 89]

  /** "price DECIMAL" */
  const PRICE: Text := [112, 114, 105, 99, 101, 32, 68, 69, 67, 73, 77, 65, 76]

  /** " NOT NULL" */
  const NOT_NULL: Text := [32, 78, 79, 84, 32, 78, 85, 76, 76]

  /** "customer TEXT" */
  const CUSTOMER: Text := [99, 117, 115, 116, 111, 109, 101, 114, 32, 84, 69, 88, 84]

  /** "note TEXT" */
  const NOTE: Text := [110, 111, 116, 101, 32, 84, 69, 88, 84]

  /** "(10,2)" */
  const SIZES: Text := [LPAREN, 49, 48, COMMA, 50, RPAREN]

  /** "price DECIMAL(10,2) NOT NULL" */
  const DECIMAL: Text := PRICE + (SIZES + NOT_NULL)

  lemma {:induction false} WordsUnbroken(n: int, t: Text, s: Text, last: int)
    requires AllWord(t) && Unbroken(Plain, n, s, last)
    ensures Unbroken(Plain, n, t + s, last)
    decreases |t|
  {
    if t == [] {
      assert t + s == s;
    } else {
      assert IsWord(t[0]) && (t + s)[1..] == t[1..] + s && (t + s)[0] == t[0];
      WordsUnbroken(n, t[1..], s, last);
    }
  }

  lemma WordsColumn(t: Text)
    requires AllWord(t) && t != [] && t[0] != 32
    ensures IsColumn(t) && DropSpaces(t) == t
  {
    assert IsWord(t[0]) && t + [] == t;
    WordsUnbroken(1, t, [], 1);
  }

  lemma CharUnbroken(c: byte, n: int, s: Text, last: int)
    requires !IsQuote(c) && c != LBRACKET && c != MINUS && c != SLASH && c != LF
    requires !(c == LPAREN && n == 0) && !(c == RPAREN && n == 1) && !(c == COMMA && n == 1)
    requires Unbroken(Plain, DepthAfter(Plain, n, c), s, last)
    ensures Unbroken(Plain, n, [c] + s, last)
  {
    assert ([c] + s)[1..] == s;
  }

  lemma ScaleUnbroken(back: Text)
    requires Unbroken(Plain, 1, back, 1)
    ensures Unbroken(Plain, 2, [COMMA] + ([50] + ([RPAREN] + back)), 1)
  {
    hide Unbroken;
    CharUnbroken(RPAREN, 2, back, 1);
    CharUnbroken(50, 2, [RPAREN] + back, 1);
    CharUnbroken(COMMA, 2, [50] + ([RPAREN] + back), 1);
  }

  lemma SizesUnbroken(back: Text)
    requires Unbroken(Plain, 1, back, 1)
    ensures Unbroken(Plain, 1, SIZES + back, 1)
  {
    hide Unbroken;
    var s := [COMMA] + ([50] + ([RPAREN] + back));
    ScaleUnbroken(back);
    CharUnbroken(48, 2, s, 1);
    CharUnbroken(49, 2, [48] + s, 1);
    CharUnbroken(LPAREN, 1, [49] + ([48] + s), 1);
    assert SIZES + back == [LPAREN] + ([49] + ([48] + s));
  }

  /** Two words around (10,2). */
  lemma WithSizes(front: Text, back: Text)
    requires AllWord(front) && AllWord(back) && front != [] && front[0] != 32
    ensures var u := front + (SIZES + back);
            IsColumn(u) && DropSpaces(u) == u
  {
    hide Unbroken, DropSpaces;
    NothingUnbroken();
    WordsUnbroken(1, back, [], 1);
    assert back + [] == back;
    SizesUnbroken(back);
    WordsUnbroken(1, front, SIZES + back, 1);
    assert IsWord(front[0]);
    NoSpaceInFront(front + (SIZES + back));
  }

  lemma DecimalColumn()
    ensures IsColumn(DECIMAL) && DropSpaces(DECIMAL) == DECIMAL
  {
    hide IsColumn, DropSpaces;
    assert AllWord(NOT_NULL) && AllWord(PRICE);
    WithSizes(PRICE, NOT_NULL);
  }

  lemma NothingUnbroken()
    ensures Unbroken(Plain, 1, [], 1) && Unbroken(Plain, 0, [], 0)
  {
  }

  lemma NoSpaceInFront(t: Text)
    requires t != [] && !IsSpace(t[0])
    ensures DropSpaces(t) == t
  {
  }

  lemma FourLines(a: Text, b: Text, c: Text, d: Text)
    requires DropSpaces(a) == a && DropSpaces(b) == b && DropSpaces(c) == c && DropSpaces(d) == d
    ensures Lines([a, b, c, d])
         == [Piece(a + [COMMA], INDENT), Piece(b + [COMMA], INDENT), Piece(c + [COMMA], INDENT), Piece(d, [LF])]
  {
    hide DropSpaces;
    assert [a, b, c, d][1..] == [b, c, d] && [b, c, d][1..] == [c, d] && [c, d][1..] == [d];
    assert Lines([d]) == [Piece(d, [LF])];
    assert Lines([c, d]) == [Piece(c + [COMMA], INDENT)] + Lines([d]);
    assert Lines([b, c, d]) == [Piece(b + [COMMA], INDENT)] + Lines([c, d]);
    assert Lines([a, b, c, d]) == [Piece(a + [COMMA], INDENT)] + Lines([b, c, d]);
  }

  /** The lines of CREATE TABLE orders(id INTEGER PRIMARY KEY,price DECIMAL(10,2) NOT NULL,customer TEXT,note TEXT). */
  lemma OrdersPrinted()
    ensures Pieces([], ORDERS + ([LPAREN] + (Commas([ID, DECIMAL, CUSTOMER, NOTE]) + ([RPAREN] + []))), Scan(0, 0, 0))
         == [Piece(ORDERS + [LPAREN], INDENT),
             Piece(ID + [COMMA], INDENT),
             Piece(DECIMAL + [COMMA], INDENT),
             Piece(CUSTOMER + [COMMA], INDENT),
             Piece(NOTE, [LF]),
             Piece([RPAREN], FINAL)]
  {
    hide *;
    OrdersHead();
    OrdersColumns();
    FourLines(ID, DECIMAL, CUSTOMER, NOTE);
    Layout(ORDERS, [ID, DECIMAL, CUSTOMER, NOTE], []);
    assert [RPAREN] + [] == [RPAREN];
  }

  lemma OrdersHead()
    ensures Unbroken(Plain, 0, ORDERS, 0) && Unbroken(Plain, 0, [], 0)
  {
    hide Unbroken;
    NothingUnbroken();
    assert AllWord(ORDERS) && ORDERS + [] == ORDERS;
    WordsUnbroken(0, ORDERS, [], 0);
  }

  lemma OrdersColumns()
    ensures IsColumn(ID) && IsColumn(DECIMAL) && IsColumn(CUSTOMER) && IsColumn(NOTE)
    ensures DropSpaces(ID) == ID && DropSpaces(DECIMAL) == DECIMAL && DropSpaces(CUSTOMER) == CUSTOMER
    ensures DropSpaces(NOTE) == NOTE
  {
    hide IsColumn, DropSpaces;
    assert AllWord(ID) && AllWord(CUSTOMER) && AllWord(NOTE);
    WordsColumn(ID);
    DecimalColumn();
    WordsColumn(CUSTOMER);
    WordsColumn(NOTE);
  }
}
