/**
 * The glob matcher against its documentation. There, '#' stands for any number that the subject
 * has at that place, and whitespace for any span of whitespace, as '*' stands for any sequence;
 * the matcher always takes the longest number and all the whitespace there is.
 */
module GlobDocumented {
  import opened Ctype
  import opened Glob

  predicate IsNumber(s: Text) {
    var d := if s != [] && (s[0] == MINUS || s[0] == PLUS) then s[1..] else s;
    d != [] && forall i :: 0 <= i < |d| ==> IsDigit(d[i])
  }

  predicate IsSpan(s: Text) {
    s != [] && forall i :: 0 <= i < |s| ==> IsSpace(s[i])
  }

  /** What the tokens of a pattern match by the documentation. */
  ghost predicate Documented(ts: seq<Token>, z: Text)
    decreases |ts|
  {
    if ts == [] then DropSpaces(z) == []
    else match ts[0]
      case Star => exists k :: 0 <= k <= |z| && Documented(ts[1..], z[k..])
      case Any => z != [] && Documented(ts[1..], z[1..])
      case Literal(c) => z != [] && z[0] == c && Documented(ts[1..], z[1..])
      case Class(invert, items) => z != [] && InClass(z[0], items) != invert && Documented(ts[1..], z[1..])
      case Space => exists k :: 0 <= k <= |z| && IsSpan(z[..k]) && Documented(ts[1..], z[k..])
      case Digits => exists k :: 0 <= k <= |z| && IsNumber(z[..k]) && Documented(ts[1..], z[k..])
      case Never => false
  }

  // ----- the longest choice

  function SpaceCount(z: Text): (n: nat)
    ensures n <= |z|
  {
    |z| - |DropSpaces(z)|
  }

  lemma {:induction false} Spans(z: Text)
    ensures DropSpaces(z) == z[SpaceCount(z)..]
    ensures forall i :: 0 <= i < SpaceCount(z) ==> IsSpace(z[i])
    ensures SpaceCount(z) < |z| ==> !IsSpace(z[SpaceCount(z)])
  {
    if IsSpace(Head(z)) {
      Spans(z[1..]);
      var n := SpaceCount(z[1..]);
      assert SpaceCount(z) == n + 1 && z[1..][n..] == z[n + 1..];
      forall i | 0 <= i < n + 1 ensures IsSpace(z[i]) {
        assert i > 0 ==> z[i] == z[1..][i - 1];
      }
    } else {
      assert z[0..] == z;
    }
  }

  lemma SpanBound(z: Text, k: nat)
    requires k <= |z| && IsSpan(z[..k])
    ensures k <= SpaceCount(z)
  {
    Spans(z);
    var n := SpaceCount(z);
    assert forall i :: 0 <= i < k ==> z[..k][i] == z[i];
  }

  lemma DigitsBound(z: Text, k: nat)
    requires k <= |z| && forall i :: 0 <= i < k ==> IsDigit(z[i])
    ensures k <= DigitCount(z)
  {
  }

  /** A number at the start of the subject is no longer than the one the matcher takes, and goes on with digits in it. */
  lemma NumberBound(z: Text, k: nat)
    requires k <= |z| && IsNumber(z[..k])
    ensures 0 < k <= NumberLength(z)
    ensures forall i :: k <= i < NumberLength(z) ==> IsDigit(z[i])
  {
    var s := z[..k];
    if s[0] == MINUS || s[0] == PLUS {
      assert forall i :: 0 <= i < k - 1 ==> s[1..][i] == z[1..][i];
      DigitsBound(z[1..], k - 1);
      assert forall i :: 1 <= i < NumberLength(z) ==> z[i] == z[1..][i - 1];
    } else {
      assert forall i :: 0 <= i < k ==> s[i] == z[i];
      DigitsBound(z, k);
    }
  }

  lemma LongestNumber(z: Text)
    requires NumberLength(z) > 0
    ensures IsNumber(z[..NumberLength(z)])
  {
    var n := NumberLength(z);
    var s := z[..n];
    if (Head(z) == MINUS || Head(z) == PLUS) && IsDigit(Head(z[1..])) {
      assert forall i :: 0 <= i < n - 1 ==> s[1..][i] == z[1..][i];
    } else {
      assert forall i :: 0 <= i < n ==> s[i] == z[i];
    }
  }

  /** The matcher accepts nothing that the documentation does not allow for the same tokens. */
  lemma {:induction false} MatchesDocumented(ts: seq<Token>, z: Text)
    requires Matches(ts, z)
    ensures Documented(ts, z)
    decreases |ts|
  {
    hide DropSpaces, NumberLength, DigitCount, InClass, IsNumber, IsSpan;
    if ts == [] {
    } else {
      var rest := ts[1..];
      if ts[0].Star? {
        var k :| 0 <= k <= |z| && Matches(rest, z[k..]);
        MatchesDocumented(rest, z[k..]);
      } else if ts[0].Space? {
        LongestSpan(z);
        MatchesDocumented(rest, DropSpaces(z));
      } else if ts[0].Digits? {
        LongestNumber(z);
        MatchesDocumented(rest, z[NumberLength(z)..]);
      } else {
        MatchesDocumented(rest, z[1..]);
      }
    }
  }

  lemma LongestSpan(z: Text)
    requires IsSpace(Head(z))
    ensures IsSpan(z[..SpaceCount(z)]) && DropSpaces(z) == z[SpaceCount(z)..]
  {
    Spans(z);
  }

  // ----- when the longest choice is as good as any

  /** Digits, or whitespace. */
  predicate Fits(digit: bool, c: int) {
    if digit then IsDigit(c) else IsSpace(c)
  }

  /** The token can take a character by itself, or as the first of several. */
  predicate Takes(t: Token, c: Char) {
    match t
    case Any => true
    case Literal(x) => x == c
    case Class(invert, items) => InClass(c, items) != invert
    case Digits => IsDigit(c)
    case Space => IsSpace(c)
    case Star => false
    case Never => false
  }

  ghost predicate CanTake(t: Token, digit: bool) {
    exists c: Char :: Fits(digit, c) && Takes(t, c)
  }

  function AfterStars(ts: seq<Token>): (r: seq<Token>)
    ensures |r| <= |ts| && (r != [] ==> !r[0].Star? && r[0] in ts)
  {
    if ts != [] && ts[0].Star? then AfterStars(ts[1..]) else ts
  }

  /** The next token but stars cannot take a digit, or whitespace. */
  ghost predicate Clear(ts: seq<Token>, digit: bool) {
    AfterStars(ts) == [] || !CanTake(AfterStars(ts)[0], digit)
  }

  /**
   * No '#' is followed by what can take a digit, and no whitespace by what can take whitespace; stars
   * between them do not help.
   */
  ghost predicate Separated(ts: seq<Token>) {
    ts != [] ==>
      && (ts[0].Digits? ==> Clear(ts[1..], true))
      && (ts[0].Space? ==> Clear(ts[1..], false))
      && Separated(ts[1..])
  }

  lemma TakesFirst(ts: seq<Token>, z: Text, digit: bool)
    requires ts != [] && !ts[0].Star? && Documented(ts, z) && z != [] && Fits(digit, z[0])
    ensures CanTake(ts[0], digit)
  {
    hide InClass, DropSpaces, IsNumber, IsSpan, Fits, IsDigit, IsSpace, CanTake;
    if ts[0].Digits? {
      var k :| 0 <= k <= |z| && IsNumber(z[..k]) && Documented(ts[1..], z[k..]);
      NumberFirst(z, k, digit);
    } else if ts[0].Space? {
      var k :| 0 <= k <= |z| && IsSpan(z[..k]) && Documented(ts[1..], z[k..]);
      SpanFirst(z, k);
    }
    TakesOne(ts[0], z[0], digit);
  }

  lemma TakesOne(t: Token, c: Char, digit: bool)
    requires Fits(digit, c) && Takes(t, c)
    ensures CanTake(t, digit)
  {
  }

  lemma NumberFirst(z: Text, k: nat, digit: bool)
    requires k <= |z| && IsNumber(z[..k]) && z != [] && Fits(digit, z[0])
    ensures IsDigit(z[0])
  {
    assert z[..k][0] == z[0];
  }

  lemma SpanFirst(z: Text, k: nat)
    requires k <= |z| && IsSpan(z[..k])
    ensures z != [] && IsSpace(z[0])
  {
    assert z[..k][0] == z[0];
  }

  /** Behind a star, a character that the next token cannot take is not missed. */
  lemma {:induction false} DropOne(ts: seq<Token>, z: Text, digit: bool)
    requires ts != [] && ts[0].Star? && Clear(ts, digit) && z != [] && Fits(digit, z[0]) && Documented(ts, z)
    ensures Documented(ts, z[1..])
    decreases |ts|
  {
    hide CanTake, DropSpaces;
    var rest := ts[1..];
    var k :| 0 <= k <= |z| && Documented(rest, z[k..]);
    if k > 0 {
      assert z[1..][k - 1..] == z[k..];
    } else {
      assert z[0..] == z;
      if rest == [] {
        EndsAnywhere(z[1..]);
        assert Documented(rest, z[1..][|z| - 1..]);
      } else if rest[0].Star? {
        DropOne(rest, z, digit);
        assert z[1..][0..] == z[1..];
      } else {
        assert AfterStars(ts) == rest;
        TakesFirst(rest, z, digit);
      }
    }
  }

  lemma EndsAnywhere(z: Text)
    ensures DropSpaces(z[|z|..]) == []
  {
  }

  lemma {:induction false} LongerIsBetter(ts: seq<Token>, z: Text, k: nat, n: nat, digit: bool)
    requires k <= n <= |z| && (forall i :: k <= i < n ==> Fits(digit, z[i])) && Clear(ts, digit)
    requires Documented(ts, z[k..])
    ensures Documented(ts, z[n..])
    decreases n - k
  {
    hide CanTake, Documented, DropSpaces;
    if k == n {
    } else {
      assert z[k..][0] == z[k] && z[k..][1..] == z[k + 1..];
      if ts == [] {
        OnlySpaces(z[k..]);
        LongerIsBetter(ts, z, k + 1, n, digit);
      } else if ts[0].Star? {
        DropOne(ts, z[k..], digit);
        LongerIsBetter(ts, z, k + 1, n, digit);
      } else {
        assert AfterStars(ts) == ts;
        TakesFirst(ts, z[k..], digit);
      }
    }
  }

  lemma OnlySpaces(z: Text)
    requires z != [] && Documented([], z)
    ensures Documented([], z[1..])
  {
  }

  /** When the tokens are separated, the matcher misses nothing. */
  lemma {:induction false} DocumentedMatches(ts: seq<Token>, z: Text)
    requires Separated(ts) && Documented(ts, z)
    ensures Matches(ts, z)
    decreases |ts|
  {
    hide DropSpaces, NumberLength, DigitCount, InClass, IsNumber, IsSpan, Clear;
    if ts == [] {
    } else {
      var rest := ts[1..];
      if ts[0].Star? {
        var k :| 0 <= k <= |z| && Documented(rest, z[k..]);
        DocumentedMatches(rest, z[k..]);
      } else if ts[0].Space? {
        var k :| 0 <= k <= |z| && IsSpan(z[..k]) && Documented(rest, z[k..]);
        SpanStart(z, k);
        LongerIsBetter(rest, z, k, SpaceCount(z), false);
        DocumentedMatches(rest, DropSpaces(z));
      } else if ts[0].Digits? {
        var k :| 0 <= k <= |z| && IsNumber(z[..k]) && Documented(rest, z[k..]);
        NumberBound(z, k);
        LongerIsBetter(rest, z, k, NumberLength(z), true);
        DocumentedMatches(rest, z[NumberLength(z)..]);
      } else {
        DocumentedMatches(rest, z[1..]);
      }
    }
  }

  lemma SpanStart(z: Text, k: nat)
    requires k <= |z| && IsSpan(z[..k])
    ensures k <= SpaceCount(z) && IsSpace(Head(z)) && DropSpaces(z) == z[SpaceCount(z)..]
    ensures forall i :: k <= i < SpaceCount(z) ==> IsSpace(z[i])
  {
    SpanBound(z, k);
    Spans(z);
    assert z[..k][0] == z[0];
  }

  // ----- a subject that is missed when the tokens are not separated

  /** A token that takes no character at all matches nothing, and a pattern with it neither. */
  ghost predicate CanMatch(t: Token) {
    match t
    case Class(invert, items) => exists c: Char :: InClass(c, items) != invert
    case Never => false
    case _ => true
  }

  ghost predicate Satisfiable(ts: seq<Token>) {
    ts != [] ==> CanMatch(ts[0]) && Satisfiable(ts[1..])
  }

  lemma {:induction false} DocumentedSatisfiable(ts: seq<Token>, z: Text)
    requires Documented(ts, z)
    ensures Satisfiable(ts)
    decreases |ts|
  {
    hide InClass, DropSpaces, IsNumber, IsSpan;
    if ts == [] {
    } else {
      var rest := ts[1..];
      if ts[0].Star? {
        var k :| 0 <= k <= |z| && Documented(rest, z[k..]);
        DocumentedSatisfiable(rest, z[k..]);
      } else if ts[0].Space? {
        var k :| 0 <= k <= |z| && IsSpan(z[..k]) && Documented(rest, z[k..]);
        DocumentedSatisfiable(rest, z[k..]);
      } else if ts[0].Digits? {
        var k :| 0 <= k <= |z| && IsNumber(z[..k]) && Documented(rest, z[k..]);
        DocumentedSatisfiable(rest, z[k..]);
      } else {
        DocumentedSatisfiable(rest, z[1..]);
      }
    }
  }

  /** The least length of a subject that matches. */
  function MinLength(ts: seq<Token>): nat {
    if ts == [] then 0 else (if ts[0].Star? then 0 else 1) + MinLength(ts[1..])
  }

  lemma {:induction false} MatchesLength(ts: seq<Token>, z: Text)
    requires Matches(ts, z)
    ensures |z| >= MinLength(ts)
    decreases |ts|
  {
    hide InClass, NumberLength;
    if ts == [] {
    } else {
      var rest := ts[1..];
      if ts[0].Star? {
        var k :| 0 <= k <= |z| && Matches(rest, z[k..]);
        MatchesLength(rest, z[k..]);
      } else if ts[0].Space? {
        MatchesLength(rest, DropSpaces(z));
      } else if ts[0].Digits? {
        MatchesLength(rest, z[NumberLength(z)..]);
      } else {
        MatchesLength(rest, z[1..]);
      }
    }
  }

  /** In a shortest match, every token but a star takes one character. */
  lemma ShortestMatch(ts: seq<Token>, z: Text)
    requires ts != [] && Matches(ts, z) && |z| == MinLength(ts)
    ensures if ts[0].Star? then Matches(ts[1..], z) else z != [] && Matches(ts[1..], z[1..])
    ensures ts[0].Digits? ==> NumberLength(z) == 1
    ensures ts[0].Space? ==> SpaceCount(z) == 1
  {
    hide InClass, NumberLength, DropSpaces, MinLength;
    var rest := ts[1..];
    MinLengthHead(ts);
    if ts[0].Star? {
      var k :| 0 <= k <= |z| && Matches(rest, z[k..]);
      MatchesLength(rest, z[k..]);
      assert z[0..] == z;
    } else if ts[0].Space? {
      MatchesLength(rest, DropSpaces(z));
      Spans(z);
    } else if ts[0].Digits? {
      MatchesLength(rest, z[NumberLength(z)..]);
    }
  }

  lemma MinLengthHead(ts: seq<Token>)
    requires ts != []
    ensures MinLength(ts) == (if ts[0].Star? then 0 else 1) + MinLength(ts[1..])
  {
  }

  /** A character for a token. */
  ghost function Choice(t: Token): (c: Char)
    requires CanMatch(t) && !t.Star?
    ensures Takes(t, c)
  {
    match t
    case Any => 97
    case Literal(c) => c
    case Class(invert, items) => var c: Char :| InClass(c, items) != invert; c
    case Digits => 53
    case Space => 32
  }

  /** What one character does for one token. */
  lemma OneCharacter(t: Token, rest: seq<Token>, c: Char, z: Text)
    requires Takes(t, c) && Documented(rest, z)
    ensures Documented([t] + rest, [c] + z)
  {
    hide InClass, DropSpaces;
    var ts, s := [t] + rest, [c] + z;
    assert ts[1..] == rest && s[1..] == z;
    if t.Digits? {
      assert s[..1] == [c] && IsNumber(s[..1]) && Documented(ts[1..], s[1..]);
    } else if t.Space? {
      assert s[..1] == [c] && IsSpan(s[..1]) && Documented(ts[1..], s[1..]);
    }
  }

  lemma NoCharacter(rest: seq<Token>, z: Text)
    requires Documented(rest, z)
    ensures Documented([Star] + rest, z)
  {
    assert ([Star] + rest)[1..] == rest && z[0..] == z;
  }

  /** A shortest subject that the documentation allows. */
  ghost function Word(ts: seq<Token>): (z: Text)
    requires Satisfiable(ts)
    ensures |z| == MinLength(ts)
  {
    if ts == [] then [] else (if ts[0].Star? then [] else [Choice(ts[0])]) + Word(ts[1..])
  }

  lemma {:induction false} WordDocumented(ts: seq<Token>)
    requires Satisfiable(ts)
    ensures Documented(ts, Word(ts))
  {
    hide Documented, Takes, Choice;
    if ts == [] {
      NothingDocumented();
    } else {
      WordDocumented(ts[1..]);
      assert ts == [ts[0]] + ts[1..];
      if ts[0].Star? {
        NoCharacter(ts[1..], Word(ts[1..]));
        assert [] + Word(ts[1..]) == Word(ts[1..]);
      } else {
        OneCharacter(ts[0], ts[1..], Choice(ts[0]), Word(ts[1..]));
      }
    }
  }

  lemma NothingDocumented()
    ensures Documented([], [])
  {
  }

  /** A shortest subject whose part for the tokens starts with character c. */
  ghost function WordFrom(ts: seq<Token>, c: Char): (z: Text)
    requires Satisfiable(ts) && AfterStars(ts) != []
    ensures |z| == MinLength(ts) && z != [] && z[0] == c
  {
    if ts[0].Star? then WordFrom(ts[1..], c) else [c] + Word(ts[1..])
  }

  lemma {:induction false} WordFromDocumented(ts: seq<Token>, c: Char)
    requires Satisfiable(ts) && AfterStars(ts) != [] && Takes(AfterStars(ts)[0], c)
    ensures Documented(ts, WordFrom(ts, c))
  {
    hide Documented, Takes, Choice, Word;
    assert ts == [ts[0]] + ts[1..];
    if ts[0].Star? {
      WordFromDocumented(ts[1..], c);
      NoCharacter(ts[1..], WordFrom(ts[1..], c));
    } else {
      WordDocumented(ts[1..]);
      OneCharacter(ts[0], ts[1..], c, Word(ts[1..]));
    }
  }

  ghost function TakenBy(t: Token, digit: bool): (c: Char)
    requires CanTake(t, digit)
    ensures Fits(digit, c) && Takes(t, c)
  {
    var c: Char :| Fits(digit, c) && Takes(t, c);
    c
  }

  /** The first token is a number or whitespace that is not separated from what follows. */
  ghost predicate Clashes(ts: seq<Token>) {
    ts != [] && (ts[0].Digits? || ts[0].Space?) && !Clear(ts[1..], ts[0].Digits?)
  }

  /** A shortest subject in which a number, or whitespace, goes on with a character of the next token. */
  ghost function Missed(ts: seq<Token>): (z: Text)
    requires Satisfiable(ts) && !Separated(ts)
    ensures |z| == MinLength(ts)
  {
    if Clashes(ts) then [Choice(ts[0])] + WordFrom(ts[1..], TakenBy(AfterStars(ts[1..])[0], ts[0].Digits?))
    else (if ts[0].Star? then [] else [Choice(ts[0])]) + Missed(ts[1..])
  }

  lemma {:induction false} MissedDocumented(ts: seq<Token>)
    requires Satisfiable(ts) && !Separated(ts)
    ensures Documented(ts, Missed(ts))
  {
    hide Documented, Takes, Choice, WordFrom, TakenBy, CanTake;
    assert ts == [ts[0]] + ts[1..];
    if Clashes(ts) {
      var c := TakenBy(AfterStars(ts[1..])[0], ts[0].Digits?);
      WordFromDocumented(ts[1..], c);
      OneCharacter(ts[0], ts[1..], Choice(ts[0]), WordFrom(ts[1..], c));
    } else {
      MissedDocumented(ts[1..]);
      if ts[0].Star? {
        NoCharacter(ts[1..], Missed(ts[1..]));
        assert [] + Missed(ts[1..]) == Missed(ts[1..]);
      } else {
        OneCharacter(ts[0], ts[1..], Choice(ts[0]), Missed(ts[1..]));
      }
    }
  }

  lemma {:induction false} MissedNotMatched(ts: seq<Token>)
    requires Satisfiable(ts) && !Separated(ts)
    ensures !Matches(ts, Missed(ts))
  {
    hide Matches, WordFrom, CanTake, CanMatch;
    var z := Missed(ts);
    if Matches(ts, z) {
      ShortestMatch(ts, z);
      if Clashes(ts) {
        TakesTwo(ts[0].Digits?, z);
      } else {
        assert z == (if ts[0].Star? then [] else [Choice(ts[0])]) + Missed(ts[1..]);
        assert ts[0].Star? ==> z == Missed(ts[1..]);
        MissedNotMatched(ts[1..]);
      }
    }
  }

  lemma TakesTwo(digit: bool, z: Text)
    requires |z| >= 2 && Fits(digit, z[0]) && Fits(digit, z[1])
    ensures if digit then NumberLength(z) >= 2 else SpaceCount(z) >= 2
  {
    assert z[1..][0] == z[1];
    if !digit {
      Spans(z);
    }
  }

  ghost predicate AllDocumented(ts: seq<Token>) {
    forall z :: Matches(ts, z) <==> Documented(ts, z)
  }

  /**
   * For any tokens: the longest choice is as good as any, for all subjects, just when they cannot
   * match at all or are separated.
   */
  lemma TokensExactly(ts: seq<Token>)
    ensures AllDocumented(ts) <==> !Satisfiable(ts) || Separated(ts)
  {
    hide Matches, Documented;
    if !Satisfiable(ts) || Separated(ts) {
      forall z
        ensures Matches(ts, z) <==> Documented(ts, z)
      {
        if Matches(ts, z) {
          MatchesDocumented(ts, z);
        }
        if Documented(ts, z) {
          DocumentedSatisfiable(ts, z);
          DocumentedMatches(ts, z);
        }
      }
    } else {
      MissedDocumented(ts);
      MissedNotMatched(ts);
    }
  }

  // ----- patterns

  /** The first token of a pattern, as it is documented. */
  function FirstToken(p: Text): Token
    requires p != []
  {
    if IsSpace(p[0]) then Space
    else if p[0] == STAR then Star
    else if p[0] == ANY then Any
    else if p[0] == OPEN then
      var (invert, t) := Bracket(p[1..]);
      if t.Unclosed? then Never else Class(invert, t.items)
    else if p[0] == HASH then Digits
    else Literal(p[0])
  }

  /** The pattern behind its first token. */
  function Behind(p: Text): (r: Text)
    requires p != []
    ensures |r| < |p|
  {
    if IsSpace(p[0]) then DropSpaces(p)
    else if p[0] == OPEN then
      var t := Bracket(p[1..]).1;
      if t.Unclosed? then [] else t.rest
    else p[1..]
  }

  predicate StarBehind(p: Text, behindStar: bool)
    requires p != []
  {
    p[0] == STAR || (p[0] == ANY && behindStar)
  }

  /** The pattern starts with what the matcher takes literally there and the documentation does not. */
  predicate Misplaced(p: Text, behindStar: bool) {
    behindStar && p != [] && (IsSpace(p[0]) || p[0] == HASH)
  }

  lemma TokensStep(p: Text, behindStar: bool, documented: bool)
    requires p != [] && (documented || !Misplaced(p, behindStar))
    ensures Tokens(p, behindStar, documented)
         == [FirstToken(p)] + Tokens(Behind(p), StarBehind(p, behindStar), documented)
  {
    hide DropSpaces, Bracket;
  }

  lemma WellPlacedStep(p: Text, behindStar: bool)
    requires p != []
    ensures WellPlaced(p, behindStar)
       <==> !Misplaced(p, behindStar) && WellPlaced(Behind(p), StarBehind(p, behindStar))
  {
    hide DropSpaces, Bracket;
  }

  /** What the matcher takes literally in place of a number or of whitespace. */
  lemma LiteralStep(p: Text, behindStar: bool)
    requires Misplaced(p, behindStar)
    ensures var ts := Tokens(Behind(p), false, false);
            Tokens(p, behindStar, false) in {[Literal(p[0])] + ts, [Literal(p[0])] + ([Space] + ts)}
  {
    if IsSpace(p[0]) {
      assert DropSpaces(p) == DropSpaces(p[1..]);
    }
  }

  /** The tokens of the matcher ask for no less than the documented ones. */
  lemma {:induction false} LiteralTokens(p: Text, behindStar: bool)
    ensures Satisfiable(Tokens(p, behindStar, false)) ==> Satisfiable(Tokens(p, behindStar, true))
    ensures MinLength(Tokens(p, behindStar, false)) >= MinLength(Tokens(p, behindStar, true))
    decreases |p|
  {
    hide Tokens, FirstToken, Behind, Misplaced, StarBehind, Satisfiable, MinLength;
    if p == [] {
      NoTokens(behindStar);
    } else {
      var behind := StarBehind(p, behindStar);
      LiteralTokens(Behind(p), behind);
      var a, b := Tokens(Behind(p), behind, false), Tokens(Behind(p), behind, true);
      TokensStep(p, behindStar, true);
      FirstOf(FirstToken(p), b);
      if Misplaced(p, behindStar) {
        MisplacedToken(p, behindStar);
        LiteralStep(p, behindStar);
        FirstOf(Literal(p[0]), a);
        FirstOf(Space, a);
        FirstOf(Literal(p[0]), [Space] + a);
      } else {
        TokensStep(p, behindStar, false);
        FirstOf(FirstToken(p), a);
      }
    }
  }

  lemma NoTokens(behindStar: bool)
    ensures Tokens([], behindStar, false) == Tokens([], behindStar, true) == []
  {
  }

  lemma FirstOf(t: Token, ts: seq<Token>)
    ensures Satisfiable([t] + ts) <==> CanMatch(t) && Satisfiable(ts)
    ensures MinLength([t] + ts) == (if t.Star? then 0 else 1) + MinLength(ts)
    ensures CanMatch(t) <== t.Literal? || t.Space? || t.Digits?
  {
    assert ([t] + ts)[1..] == ts;
  }

  lemma MisplacedToken(p: Text, behindStar: bool)
    requires Misplaced(p, behindStar)
    ensures FirstToken(p) in {Space, Digits} && !StarBehind(p, behindStar)
  {
  }

  /** Another character that the documentation allows in the place of a misplaced one. */
  function Other(c: Char): (r: Char)
    requires IsSpace(c) || c == HASH
    ensures r != c && if c == HASH then IsDigit(r) else IsSpace(r)
  {
    if c == HASH then 53 else if c == 32 then 9 else 32
  }

  /** A shortest subject that the documentation allows, with another character where the first misplaced one stands. */
  ghost function Off(p: Text, behindStar: bool): (z: Text)
    requires !WellPlaced(p, behindStar) && Satisfiable(Tokens(p, behindStar, true))
    ensures |z| == MinLength(Tokens(p, behindStar, true))
    decreases |p|
  {
    var t, ts := FirstToken(p), Tokens(Behind(p), StarBehind(p, behindStar), true);
    TokensStep(p, behindStar, true);
    WellPlacedStep(p, behindStar);
    FirstOf(t, ts);
    if Misplaced(p, behindStar) then
      MisplacedToken(p, behindStar);
      [Other(p[0])] + Word(ts)
    else (if t.Star? then [] else [Choice(t)]) + Off(Behind(p), StarBehind(p, behindStar))
  }

  lemma {:induction false} OffDocumented(p: Text, behindStar: bool)
    requires !WellPlaced(p, behindStar) && Satisfiable(Tokens(p, behindStar, true))
    ensures Documented(Tokens(p, behindStar, true), Off(p, behindStar))
    decreases |p|
  {
    hide Tokens, WellPlaced, Documented, Satisfiable, CanMatch, Takes, Choice, Other, Behind;
    Parts(p, behindStar);
    var behind := StarBehind(p, behindStar);
    var t, ts := FirstToken(p), Tokens(Behind(p), behind, true);
    if Misplaced(p, behindStar) {
      OtherTaken(p, behindStar);
      WordDocumented(ts);
      OneCharacter(t, ts, Other(p[0]), Word(ts));
    } else {
      OffDocumented(Behind(p), behind);
      if t.Star? {
        NoCharacter(ts, Off(Behind(p), behind));
        assert [] + Off(Behind(p), behind) == Off(Behind(p), behind);
      } else {
        OneCharacter(t, ts, Choice(t), Off(Behind(p), behind));
      }
    }
  }

  lemma Parts(p: Text, behindStar: bool)
    requires !WellPlaced(p, behindStar) && Satisfiable(Tokens(p, behindStar, true))
    ensures p != []
    ensures var ts := Tokens(Behind(p), StarBehind(p, behindStar), true);
            && Tokens(p, behindStar, true) == [FirstToken(p)] + ts
            && Satisfiable(ts) && CanMatch(FirstToken(p))
    ensures !Misplaced(p, behindStar) ==> !WellPlaced(Behind(p), StarBehind(p, behindStar))
  {
    TokensStep(p, behindStar, true);
    WellPlacedStep(p, behindStar);
    FirstOf(FirstToken(p), Tokens(Behind(p), StarBehind(p, behindStar), true));
  }

  lemma OtherTaken(p: Text, behindStar: bool)
    requires Misplaced(p, behindStar)
    ensures Takes(FirstToken(p), Other(p[0]))
  {
  }

  lemma {:induction false} OffNotMatched(p: Text, behindStar: bool)
    requires !WellPlaced(p, behindStar) && Satisfiable(Tokens(p, behindStar, true))
    ensures !Matches(Tokens(p, behindStar, false), Off(p, behindStar))
    decreases |p|
  {
    hide Tokens, WellPlaced, Matches, Satisfiable, CanMatch, Takes, Choice, Other, Behind, MinLength, Word;
    Parts(p, behindStar);
    var behind := StarBehind(p, behindStar);
    var t, ts, z := FirstToken(p), Tokens(p, behindStar, false), Off(p, behindStar);
    if Matches(ts, z) {
      MatchesLength(ts, z);
      LiteralTokens(p, behindStar);
      if Misplaced(p, behindStar) {
        LiteralStep(p, behindStar);
        LiteralMatched(ts, z);
      } else {
        TokensStep(p, behindStar, false);
        ShortestMatch(ts, z);
        assert ts[1..] == Tokens(Behind(p), behind, false);
        assert z == (if t.Star? then [] else [Choice(t)]) + Off(Behind(p), behind);
        assert t.Star? ==> z == Off(Behind(p), behind);
        OffNotMatched(Behind(p), behind);
      }
    }
  }

  lemma LiteralMatched(ts: seq<Token>, z: Text)
    requires Matches(ts, z) && ts != [] && ts[0].Literal?
    ensures z != [] && z[0] == ts[0].c
  {
  }

  ghost predicate AsDocumented(p: Text) {
    forall z :: Accepts(p, z) <==> Documented(Tokens(p, false, true), z)
  }

  /**
   * The matcher does what the documentation says of a pattern, on all subjects, just when the
   * pattern cannot match at all, or no '#' and no whitespace stands behind a star and none of them
   * can go on with what follows it.
   */
  lemma PatternExactly(p: Text)
    ensures var ts := Tokens(p, false, true);
            AsDocumented(p) <==> !Satisfiable(ts) || (WellPlaced(p, false) && Separated(ts))
  {
    hide Tokens, WellPlaced, Matches, Documented, Satisfiable, Separated;
    var ts, code := Tokens(p, false, true), Tokens(p, false, false);
    if !Satisfiable(ts) {
      forall z
        ensures !Matches(code, z) && !Documented(ts, z)
      {
        Unsatisfied(p, z);
      }
    } else if WellPlaced(p, false) {
      TokensAsDocumented(p, false);
      TokensExactly(ts);
      SameTokens(p, ts);
    } else {
      OffDocumented(p, false);
      OffNotMatched(p, false);
      assert !(Accepts(p, Off(p, false)) <==> Documented(ts, Off(p, false)));
    }
  }

  lemma SameTokens(p: Text, ts: seq<Token>)
    requires ts == Tokens(p, false, false) == Tokens(p, false, true)
    ensures AsDocumented(p) <==> AllDocumented(ts)
  {
    hide Tokens, Matches, Documented;
    if AsDocumented(p) {
      forall z
        ensures Matches(ts, z) <==> Documented(ts, z)
      {
        assert Accepts(p, z) <==> Documented(Tokens(p, false, true), z);
      }
      assert AllDocumented(ts);
    } else {
      var z :| !(Accepts(p, z) <==> Documented(Tokens(p, false, true), z));
      assert !(Matches(ts, z) <==> Documented(ts, z));
    }
  }

  lemma Unsatisfied(p: Text, z: Text)
    requires !Satisfiable(Tokens(p, false, true))
    ensures !Matches(Tokens(p, false, false), z) && !Documented(Tokens(p, false, true), z)
  {
    hide Tokens, Matches, Documented, Satisfiable;
    LiteralTokens(p, false);
    if Matches(Tokens(p, false, false), z) {
      MatchesDocumented(Tokens(p, false, false), z);
      DocumentedSatisfiable(Tokens(p, false, false), z);
    }
    if Documented(Tokens(p, false, true), z) {
      DocumentedSatisfiable(Tokens(p, false, true), z);
    }
  }

  /** Behind a star, '#' finds the character and not a number. */
  lemma HashBehindStar()
    ensures Documented(Tokens([STAR, HASH], false, true), [53]) && !Accepts([STAR, HASH], [53])
    ensures !Documented(Tokens([STAR, HASH], false, true), [HASH]) && Accepts([STAR, HASH], [HASH])
  {
    assert [STAR, HASH][1..] == [HASH] && [HASH][1..] == [];
    assert Tokens([HASH], true, true) == [Digits];
    assert Tokens([HASH], true, false) == [Literal(HASH)];
    var ts := Tokens([STAR, HASH], false, true);
    assert ts == [Star] + [Digits];
    assert ts[1..] == [Digits] && [Digits][1..] == [];
    assert Tokens([STAR, HASH], false, false) == [Star] + [Literal(HASH)];
    OneChar(Digits, 53);
    OneChar(Literal(HASH), 53);
    OneChar(Digits, HASH);
    OneChar(Literal(HASH), HASH);
    MatchesDocumented(ts, [53]);
    if Documented(ts, [HASH]) {
      assert Separated([]);
      assert Separated([Digits]);
      DocumentedMatches(ts, [HASH]);
    }
  }

  lemma OneChar(t: Token, c: Char)
    requires t == Digits || t == Literal(HASH)
    ensures Matches([Star] + [t], [c]) <==> if t == Digits then IsDigit(c) else c == HASH
  {
    assert [t][1..] == [] && [c][1..] == [];
    StarStep([t], [c]);
    StarStep([t], []);
    assert Matches([], []);
    assert !Matches([t], []);
    if IsDigit(c) {
      assert NumberLength([c]) == 1;
    }
  }

  /** The number takes both digits of 55, so that #5 does not match it. */
  lemma HashTakesAll()
    ensures Documented(Tokens([HASH, 53], false, true), [53, 53]) && !Accepts([HASH, 53], [53, 53])
  {
    var p, z: Text := [HASH, 53], [53, 53];
    assert p[1..] == [53] && [53][1..] == [];
    assert Tokens([53], false, true) == Tokens([53], false, false) == [Literal(53)];
    assert Tokens(p, false, true) == Tokens(p, false, false) == [Digits] + [Literal(53)];
    assert Documented([], []) && [Literal(53)][1..] == [];
    OneCharacter(Literal(53), [], 53, []);
    OneCharacter(Digits, [Literal(53)], 53, [53]);
    assert [Literal(53)] + [] == [Literal(53)] && [53] + [] == [53] && [53] + [53] == z;
    assert z[1..] == [53] && NumberLength(z) == 2 && z[2..] == [];
    assert ([Digits] + [Literal(53)])[1..] == [Literal(53)] && !Matches([Literal(53)], []);
  }

  /** A blank behind a star has to be a blank. */
  lemma BlankBehindStar()
    ensures Documented(Tokens([STAR, 32], false, true), [97, 9]) && !Accepts([STAR, 32], [97, 9])
  {
    var p, z: Text := [STAR, 32], [97, 9];
    assert p[1..] == [32] && [32][1..] == [];
    assert Tokens([32], true, true) == [Space] && Tokens([32], true, false) == [Literal(32)];
    assert DropSpaces([]) == [] && [Space][1..] == [] && z[1..] == [9] && [9][1..] == [];
    assert [9][..1] == [9] && IsSpan([9][..1]) && Documented([Space][1..], [9][1..]);
    assert [Star] + [Space] == Tokens(p, false, true) && ([Star] + [Space])[1..] == [Space];
    StarStep([Literal(32)], z);
    StarStep([Literal(32)], [9]);
    StarStep([Literal(32)], []);
  }
}
