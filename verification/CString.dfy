/**
 * Text quoted by the rules of C, and the tokenizer of dot-commands that reads it back in place.
 */
module CString {
  import opened Bytes
  import opened Ctype
  import opened Texts

  const NUL: byte := 0
  const QUOTE: byte := 39
  const DOT: byte := 46
  const DQUOTE: byte := 34
  const BACKSLASH: byte := 92
  const LETTER_S: byte := 115

  const MAX_ARG := 50

  predicate IsPrint(c: byte) {
    32 <= c < 127
  }

  predicate IsOctal(c: byte) {
    48 <= c <= 55
  }

  // ----- output_c_string

  function EscapeByte(c: byte): (e: Text)
    ensures NulFree([c]) ==> NulFree(e)
  {
    if c == BACKSLASH then [BACKSLASH, BACKSLASH]
    else if c == DQUOTE then [BACKSLASH, DQUOTE]
    else if c == 9 then [BACKSLASH, 116]
    else if c == 10 then [BACKSLASH, 110]
    else if c == 13 then [BACKSLASH, 114]
    else if !IsPrint(c) then [BACKSLASH, 48 + c / 64, 48 + c / 8 % 8, 48 + c % 8]
    else [c]
  }

  function Escape(z: Text): Text {
    if z == [] then [] else EscapeByte(z[0]) + Escape(z[1..])
  }

  method OutputCString(z: Text) returns (out: Text)
    ensures out == [DQUOTE] + Escape(z) + [DQUOTE]
  {
    hide Escape;
    out := [DQUOTE];
    var i := 0;
    assert z[0..] == z;
    while i < |z|
      invariant i <= |z|
      invariant out + Escape(z[i..]) == [DQUOTE] + Escape(z)
    {
      EscapeAt(z, i, out);
      var c := z[i];
      if c == BACKSLASH {
        out := out + [c, c];
      } else if c == DQUOTE {
        out := out + [BACKSLASH, DQUOTE];
      } else if c == 9 {
        out := out + [BACKSLASH, 116];
      } else if c == 10 {
        out := out + [BACKSLASH, 110];
      } else if c == 13 {
        out := out + [BACKSLASH, 114];
      } else if !IsPrint(c) {
        out := out + [BACKSLASH, 48 + c / 64, 48 + c / 8 % 8, 48 + c % 8];
      } else {
        out := out + [c];
      }
      i := i + 1;
    }
    assert z[i..] == [];
    EscapeNothing(out);
    out := out + [DQUOTE];
  }

  lemma EscapeNothing(out: Text)
    ensures out + Escape([]) == out
  {
  }

  lemma EscapeAt(z: Text, i: nat, out: Text)
    requires i < |z|
    ensures out + Escape(z[i..]) == (out + EscapeByte(z[i])) + Escape(z[i + 1..])
  {
    hide EscapeByte;
    assert z[i..][1..] == z[i + 1..];
    Assoc(out, EscapeByte(z[i]), Escape(z[i + 1..]));
  }

  // ----- resolve_backslashes

  /** A byte and the number of bytes it was read from. */
  datatype Decoded = Decoded(c: byte, n: nat)

  /** What stands behind a backslash. Octal values are kept in a char. */
  function Decode(s: Text): (d: Decoded)
    requires s != []
    ensures 0 < d.n <= |s|
  {
    var c := s[0];
    if c == 97 then Decoded(7, 1)
    else if c == 98 then Decoded(8, 1)
    else if c == 116 then Decoded(9, 1)
    else if c == 110 then Decoded(10, 1)
    else if c == 118 then Decoded(11, 1)
    else if c == 102 then Decoded(12, 1)
    else if c == 114 then Decoded(13, 1)
    else if IsOctal(c) then
      if |s| > 1 && IsOctal(s[1]) then
        if |s| > 2 && IsOctal(s[2]) then Decoded(((c as int - 48) * 64 + (s[1] as int - 48) * 8 + (s[2] as int - 48)) % 256, 3)
        else Decoded((c - 48) * 8 + (s[1] - 48), 2)
      else Decoded(c - 48, 1)
    else Decoded(c, 1)
  }

  function Unescape(s: Text): (r: Text)
    ensures |r| <= |s|
  {
    if s == [] then []
    else if s[0] == BACKSLASH && |s| > 1 then [Decode(s[1..]).c] + Unescape(s[1 + Decode(s[1..]).n..])
    else [s[0]] + Unescape(s[1..])
  }

  /** The C string in a buffer. */
  function Cut(z: Text): (t: Text)
    ensures NulFree(t) && t <= z && (|t| < |z| ==> z[|t|] == NUL)
  {
    if z == [] || z[0] == NUL then [] else [z[0]] + Cut(z[1..])
  }

  lemma {:induction false} CutNulFree(z: Text)
    requires NulFree(z)
    ensures Cut(z) == z
  {
    if z == [] {
    } else {
      CutNulFree(z[1..]);
    }
  }

  function Resolve(s: Text): Text {
    Cut(Unescape(s))
  }

  // ----- the tokens of a line

  /** How many bytes come before the delimiter that ends a quoted token. */
  function QuotedLength(s: Text, delim: byte): (n: nat)
    ensures n <= |s|
  {
    if s == [] || s[0] == delim then 0
    else if s[0] == BACKSLASH && delim == DQUOTE && |s| > 1 then 2 + QuotedLength(s[2..], delim)
    else 1 + QuotedLength(s[1..], delim)
  }

  function WordLength(s: Text): (n: nat)
    ensures n <= |s|
  {
    if s == [] || IsSpace(s[0]) then 0 else 1 + WordLength(s[1..])
  }

  /** What is left behind the byte that ends a token. */
  function Behind(s: Text, n: nat): (r: Text)
    requires n <= |s|
    ensures s != [] ==> |r| < |s|
  {
    if n < |s| then s[n + 1..] else []
  }

  predicate IsDelimiter(c: byte) {
    c == QUOTE || c == DQUOTE
  }

  /** The first k arguments of a line. */
  function Arguments(s: Text, k: nat): seq<Text>
    decreases k
  {
    var z := DropSpaces(s);
    if k == 0 || z == [] then []
    else if IsDelimiter(z[0]) then
      var n := QuotedLength(z[1..], z[0]);
      var token := z[1..][..n];
      [if z[0] == DQUOTE then Resolve(token) else token] + Arguments(Behind(z[1..], n), k - 1)
    else
      var n := WordLength(z);
      [Resolve(z[..n])] + Arguments(Behind(z, n), k - 1)
  }

  // ----- what is quoted is read back

  lemma OctalDigits(s: Text)
    requires s != [] && IsOctal(s[0])
    ensures var two := |s| > 1 && IsOctal(s[1]);
            var three := two && |s| > 2 && IsOctal(s[2]);
            Decode(s) == if three then Decoded((((s[0] - 48) * 8 + (s[1] - 48)) as int * 8 + s[2] as int - 48) % 256, 3)
                         else if two then Decoded((s[0] - 48) * 8 + (s[1] - 48), 2)
                         else Decoded(s[0] - 48, 1)
  {
  }

  lemma DecodeEscaped(c: byte, s: Text)
    requires c != NUL && EscapeByte(c) != [c]
    ensures EscapeByte(c)[0] == BACKSLASH && |EscapeByte(c)| > 1
    ensures Decode(EscapeByte(c)[1..] + s) == Decoded(c, |EscapeByte(c)| - 1)
  {
    var e := EscapeByte(c);
    var t := e[1..] + s;
    assert t[0] == e[1];
    if |e| == 4 {
      OctalValue(c);
      assert t[1] == e[2] && t[2] == e[3];
      OctalDigits(t);
    }
  }

  lemma OctalValue(c: byte)
    ensures c / 64 < 4 && ((c / 64 * 8 + c / 8 % 8) * 8 + c % 8) % 256 == c
  {
    assert c / 64 == c / 8 / 8;
  }

  lemma UnescapeOne(c: byte, s: Text)
    requires c != NUL
    ensures Unescape(EscapeByte(c) + s) == [c] + Unescape(s)
  {
    hide Decode;
    var e := EscapeByte(c);
    if e == [c] {
      assert ([c] + s)[1..] == s && c != BACKSLASH;
    } else {
      DecodeEscaped(c, s);
      assert (e + s)[1..] == e[1..] + s && (e + s)[|e|..] == s;
    }
  }

  // ----- the documented escapes

  /** The letters a, b, t, n, v, f and r, and the control characters they stand for behind a backslash. */
  const CONTROLS: map<byte, byte> := map[97 := 7, 98 := 8, 116 := 9, 110 := 10, 118 := 11, 102 := 12, 114 := 13]

  /** How many of the first three bytes are octal digits, up to the first that is none. */
  function OctalCount(s: Text): (n: nat)
    ensures n <= |s| && n <= 3
  {
    if |s| > 2 && 48 <= s[0] <= 55 && 48 <= s[1] <= 55 && 48 <= s[2] <= 55 then 3
    else if |s| > 1 && 48 <= s[0] <= 55 && 48 <= s[1] <= 55 then 2
    else if |s| > 0 && 48 <= s[0] <= 55 then 1
    else 0
  }

  function OctalNumber(digits: Text): int {
    if digits == [] then 0 else 8 * OctalNumber(digits[..|digits| - 1]) + digits[|digits| - 1] as int - 48
  }

  /**
   * What the comment of the code lists: the control characters, a space for \s, the character of an octal
   * number with up to three digits, and any other character for itself.
   */
  function DecodeDocumented(s: Text): (d: Decoded)
    requires s != []
    ensures 0 < d.n <= |s|
  {
    if s[0] == LETTER_S then Decoded(32, 1)
    else if s[0] in CONTROLS then Decoded(CONTROLS[s[0]], 1)
    else if OctalCount(s) > 0 then Decoded(OctalNumber(s[..OctalCount(s)]) % 256, OctalCount(s))
    else Decoded(s[0], 1)
  }

  /** The code has no branch for \s; everything else it decodes as documented. */
  lemma DecodesAsDocumented(s: Text)
    requires s != []
    ensures Decode(s) == if s[0] == LETTER_S then Decoded(LETTER_S, 1) else DecodeDocumented(s)
  {
    hide OctalNumber;
    OctalValues(s);
  }

  lemma OctalMore(d: Text, c: byte)
    ensures OctalNumber(d + [c]) == 8 * OctalNumber(d) + c as int - 48
  {
    assert (d + [c])[..|d|] == d;
  }

  lemma OctalNothing()
    ensures OctalNumber([]) == 0
  {
  }

  lemma OctalValues(s: Text)
    ensures |s| > 0 ==> OctalNumber(s[..1]) == s[0] as int - 48
    ensures |s| > 1 ==> OctalNumber(s[..2]) == 8 * (s[0] as int - 48) + s[1] as int - 48
    ensures |s| > 2 ==> OctalNumber(s[..3]) == 64 * (s[0] as int - 48) + 8 * (s[1] as int - 48) + s[2] as int - 48
  {
    hide OctalNumber;
    OctalNothing();
    if |s| > 0 {
      OctalMore([], s[0]);
      assert [] + [s[0]] == s[..1];
    }
    if |s| > 1 {
      OctalMore(s[..1], s[1]);
      assert s[..1] + [s[1]] == s[..2];
    }
    if |s| > 2 {
      OctalMore(s[..2], s[2]);
      assert s[..2] + [s[2]] == s[..3];
    }
  }

  function UnescapeDocumented(s: Text): Text {
    if s == [] then []
    else if s[0] == BACKSLASH && |s| > 1 then
      [DecodeDocumented(s[1..]).c] + UnescapeDocumented(s[1 + DecodeDocumented(s[1..]).n..])
    else [s[0]] + UnescapeDocumented(s[1..])
  }

  /** No backslash that starts an escape is followed by s, up to the first byte that resolves to a terminator. */
  predicate NoEscapedS(s: Text)
    decreases |s|
  {
    if s == [] then true
    else if s[0] == BACKSLASH && |s| > 1 then
      s[1] != LETTER_S
      && (DecodeDocumented(s[1..]).c == NUL || NoEscapedS(s[1 + DecodeDocumented(s[1..]).n..]))
    else s[0] == NUL || NoEscapedS(s[1..])
  }

  lemma CutCons(c: byte, t: Text)
    ensures Cut([c] + t) == if c == NUL then [] else [c] + Cut(t)
  {
    assert ([c] + t)[1..] == t;
  }

  lemma EscapeStep(s: Text)
    requires |s| > 1 && s[0] == BACKSLASH
    ensures var d, d' := Decode(s[1..]), DecodeDocumented(s[1..]);
            && Unescape(s) == [d.c] + Unescape(s[1 + d.n..])
            && UnescapeDocumented(s) == [d'.c] + UnescapeDocumented(s[1 + d'.n..])
            && (NoEscapedS(s) <==> s[1] != LETTER_S && (d'.c == NUL || NoEscapedS(s[1 + d'.n..])))
  {
    hide Decode, DecodeDocumented;
  }

  lemma CharacterStep(s: Text)
    requires s != [] && !(s[0] == BACKSLASH && |s| > 1)
    ensures Unescape(s) == [s[0]] + Unescape(s[1..]) && UnescapeDocumented(s) == [s[0]] + UnescapeDocumented(s[1..])
    ensures NoEscapedS(s) <==> s[0] == NUL || NoEscapedS(s[1..])
  {
  }

  lemma DocumentedStep(s: Text)
    requires s != []
    ensures var escape := s[0] == BACKSLASH && |s| > 1;
            var d := if escape then Decode(s[1..]) else Decoded(s[0], 0);
            var blank := escape && s[1] == LETTER_S;
            var rest := s[1 + d.n..];
            && |rest| < |s| && Unescape(s) == [d.c] + Unescape(rest)
            && UnescapeDocumented(s) == [if blank then 32 else d.c] + UnescapeDocumented(rest)
            && (NoEscapedS(s) <==> !blank && (d.c == NUL || NoEscapedS(rest)))
            && (blank ==> d.c == LETTER_S)
  {
    hide Decode, DecodeDocumented, Unescape, UnescapeDocumented, NoEscapedS;
    if s[0] == BACKSLASH && |s| > 1 {
      EscapeStep(s);
      DecodesAsDocumented(s[1..]);
      if s[1] == LETTER_S {
        DocumentedS(s[1..]);
      }
    } else {
      CharacterStep(s);
    }
  }

  lemma DocumentedS(s: Text)
    requires s != [] && s[0] == LETTER_S
    ensures DecodeDocumented(s) == Decoded(32, 1)
  {
  }

  /** A token resolves as documented just when there is no such escape in it. */
  lemma {:induction false} ResolvesAsDocumented(s: Text)
    ensures Cut(UnescapeDocumented(s)) == Resolve(s) <==> NoEscapedS(s)
    decreases |s|
  {
    if s == [] {
    } else {
      hide Decode, Cut, Unescape, UnescapeDocumented, NoEscapedS;
      DocumentedStep(s);
      var escape := s[0] == BACKSLASH && |s| > 1;
      var d := if escape then Decode(s[1..]) else Decoded(s[0], 0);
      var rest := s[1 + d.n..];
      ResolvesAsDocumented(rest);
      CutTails(escape && s[1] == LETTER_S, d.c, UnescapeDocumented(rest), Unescape(rest));
    }
  }

  lemma CutTails(blank: bool, c: byte, a: Text, b: Text)
    requires blank ==> c == LETTER_S
    ensures Cut([if blank then 32 else c] + a) == Cut([c] + b) <==> !blank && (c == NUL || Cut(a) == Cut(b))
  {
    hide Cut;
    CutCons(if blank then 32 else c, a);
    CutCons(c, b);
    assert ([c] + Cut(a))[1..] == Cut(a) && ([c] + Cut(b))[1..] == Cut(b);
  }

  /** The token \s resolves to the letter and not to a space. */
  lemma EscapedS()
    ensures Resolve([BACKSLASH, LETTER_S]) == [LETTER_S]
    ensures Cut(UnescapeDocumented([BACKSLASH, LETTER_S])) == [32]
  {
    var s := [BACKSLASH, LETTER_S];
    assert s[1..] == [LETTER_S] && s[2..] == [];
    assert Unescape(s) == [LETTER_S] + Unescape([]);
    CutCons(LETTER_S, []);
    CutCons(32, []);
  }

  lemma UnescapeNothing()
    ensures Unescape([]) == []
  {
  }

  lemma {:induction false} UnescapeEscape(z: Text)
    requires NulFree(z)
    ensures Unescape(Escape(z)) == z
  {
    hide Unescape, EscapeByte;
    if z == [] {
      UnescapeNothing();
    } else {
      UnescapeEscape(z[1..]);
      UnescapeOne(z[0], Escape(z[1..]));
      assert [z[0]] + z[1..] == z;
    }
  }

  lemma ResolveEscape(z: Text)
    requires NulFree(z)
    ensures Resolve(Escape(z)) == z
  {
    UnescapeEscape(z);
    CutNulFree(z);
  }

  /** The closing quote ends the token, and no quote before it does. */
  lemma {:induction false} QuotedLengthEscape(z: Text, rest: Text)
    requires NulFree(z)
    ensures QuotedLength(Escape(z) + ([DQUOTE] + rest), DQUOTE) == |Escape(z)|
  {
    hide EscapeByte;
    if z == [] {
      assert Escape(z) + ([DQUOTE] + rest) == [DQUOTE] + rest;
    } else {
      QuotedLengthEscape(z[1..], rest);
      Assoc(EscapeByte(z[0]), Escape(z[1..]), [DQUOTE] + rest);
      EscapeLength(z[0], Escape(z[1..]) + ([DQUOTE] + rest));
    }
  }

  lemma EscapeLength(c: byte, t: Text)
    requires c != NUL
    ensures QuotedLength(EscapeByte(c) + t, DQUOTE) == |EscapeByte(c)| + QuotedLength(t, DQUOTE)
  {
    var s := EscapeByte(c) + t;
    if |EscapeByte(c)| == 1 {
      assert s[1..] == t;
    } else if |EscapeByte(c)| == 2 {
      assert s[2..] == t;
    } else {
      var s2 := s[2..];
      assert QuotedLength(s, DQUOTE) == 2 + QuotedLength(s2, DQUOTE);
      assert QuotedLength(s2, DQUOTE) == 1 + QuotedLength(s2[1..], DQUOTE);
      assert s2[1..][1..] == t;
    }
  }

  /** The quoted texts with a space between them. */
  function Joined(args: seq<Text>): Text {
    if args == [] then []
    else [DQUOTE] + (Escape(args[0]) + ([DQUOTE] + if |args| == 1 then [] else [32] + Joined(args[1..])))
  }

  /** Up to 50 quoted texts on a line are its arguments; further ones are ignored. */
  lemma {:induction false} ArgumentsJoined(args: seq<Text>, k: nat)
    requires forall i :: 0 <= i < |args| ==> NulFree(args[i])
    ensures Arguments(Joined(args), k) == if |args| <= k then args else args[..k]
    decreases k
  {
    hide Arguments, Escape, Resolve, QuotedLength;
    if args == [] || k == 0 {
      NoArguments(Joined(args), k);
      assert args[..0] == [];
    } else {
      var rest := Joined(args[1..]);
      var more := if |args| == 1 then [] else [32] + rest;
      ArgumentsJoined(args[1..], k - 1);
      QuotedLengthEscape(args[0], more);
      ResolveEscape(args[0]);
      FirstArgument(Escape(args[0]), more, k);
      ArgumentsBehindSpace(rest, k - 1);
      FirstK(args, k);
    }
  }

  lemma NoArguments(s: Text, k: nat)
    requires s == [] || k == 0
    ensures Arguments(s, k) == []
  {
  }

  lemma FirstK(args: seq<Text>, k: nat)
    requires args != [] && k > 0
    ensures [args[0]] + (if |args| - 1 <= k - 1 then args[1..] else args[1..][..k - 1])
         == if |args| <= k then args else args[..k]
  {
  }

  lemma ArgumentsBehindSpace(s: Text, k: nat)
    ensures Arguments([32] + s, k) == Arguments(s, k)
  {
    hide DropSpaces;
    assert ([32] + s)[1..] == s;
    DropOneSpace([32] + s);
  }

  lemma QuotedStep(body: Text, k: nat)
    requires k > 0
    ensures var n := QuotedLength(body, DQUOTE);
            Arguments([DQUOTE] + body, k) == [Resolve(body[..n])] + Arguments(Behind(body, n), k - 1)
  {
    hide QuotedLength, Resolve, Arguments, Behind;
    assert ([DQUOTE] + body)[1..] == body;
    ArgumentsStep([DQUOTE] + body, k);
  }

  lemma FirstArgument(e: Text, more: Text, k: nat)
    requires k > 0 && QuotedLength(e + ([DQUOTE] + more), DQUOTE) == |e|
    ensures Arguments([DQUOTE] + (e + ([DQUOTE] + more)), k) == [Resolve(e)] + Arguments(more, k - 1)
  {
    hide QuotedLength, Resolve, Arguments;
    var body := e + ([DQUOTE] + more);
    QuotedStep(body, k);
    assert body[..|e|] == e && Behind(body, |e|) == more;
  }

  /**
   * How each character is printed: plain, behind a backslash, as the letter of a control character for tab,
   * line feed and carriage return, or else as three octal digits. Nothing but printable characters is used.
   */
  lemma PrintedForm(c: byte)
    ensures var e := EscapeByte(c);
            && (forall i :: 0 <= i < |e| ==> 32 <= e[i] < 127)
            && (32 <= c < 127 && c != 34 && c != 92 ==> e == [c])
            && (c == 34 || c == 92 ==> e == [92, c])
            && (c == 9 || c == 10 || c == 13 ==> |e| == 2 && e[0] == 92 && e[1] in CONTROLS && CONTROLS[e[1]] == c)
            && (c >= 127 || (c < 32 && c != 9 && c != 10 && c != 13) ==>
                  |e| == 4 && e[0] == 92 && OctalCount(e[1..]) == 3 && OctalNumber(e[1..]) == c as int)
  {
    hide OctalNumber;
    var e := EscapeByte(c);
    if |e| == 4 {
      var d := e[1..];
      OctalValues(d);
      assert d[..3] == d;
      OctalDigitsOf(c);
    }
  }

  lemma OctalDigitsOf(c: byte)
    ensures c / 64 * 64 + c / 8 % 8 * 8 + c % 8 == c && c / 64 < 8
  {
    assert c / 64 == c / 8 / 8;
  }

  // ----- lines with tokens of every kind

  /** An argument as it is typed, behind whitespace: in double quotes, in single quotes, or bare. */
  datatype Token = Double(blanks: Text, z: Text) | Single(blanks: Text, z: Text) | Word(blanks: Text, z: Text)

  predicate IsBlank(c: byte) {
    c == 32 || 9 <= c <= 13
  }

  predicate AllBlank(b: Text) {
    forall i :: 0 <= i < |b| ==> IsBlank(b[i])
  }

  predicate WellFormed(t: Token) {
    AllBlank(t.blanks) && NulFree(t.z)
    && match t
       case Double(_, _) => true
       case Single(_, z) => 39 !in z
       case Word(_, z) => z != [] && z[0] != 34 && z[0] != 39 && forall i :: 0 <= i < |z| ==> !IsBlank(z[i])
  }

  /** Only behind a bare word is whitespace needed. */
  predicate WellFormedLine(ts: seq<Token>) {
    forall i :: 0 <= i < |ts| ==> WellFormed(ts[i]) && (i > 0 && ts[i - 1].Word? ==> ts[i].blanks != [])
  }

  function Written(t: Token): Text {
    match t
    case Double(_, z) => [34] + Escape(z) + [34]
    case Single(_, z) => [39] + z + [39]
    case Word(_, z) => z
  }

  /** The tokens as they stand in a line that ends with whitespace. */
  function Line(ts: seq<Token>, end: Text): Text {
    if ts == [] then end else ts[0].blanks + (Written(ts[0]) + Line(ts[1..], end))
  }

  /** The text between quotes is the argument; in a bare word backslashes are resolved. */
  function Meaning(t: Token): Text {
    if t.Word? then Resolve(t.z) else t.z
  }

  function Meanings(ts: seq<Token>): (ms: seq<Text>)
    ensures |ms| == |ts| && forall i :: 0 <= i < |ts| ==> ms[i] == Meaning(ts[i])
  {
    if ts == [] then [] else [Meaning(ts[0])] + Meanings(ts[1..])
  }

  lemma {:induction false} BehindBlanks(b: Text, s: Text, k: nat)
    requires AllBlank(b)
    ensures Arguments(b + s, k) == Arguments(s, k)
  {
    hide Arguments;
    if b == [] {
      assert b + s == s;
    } else {
      BehindBlanks(b[1..], s, k);
      assert b + s == [b[0]] + (b[1..] + s);
      BehindBlank(b[0], b[1..] + s, k);
    }
  }

  lemma BehindBlank(c: byte, s: Text, k: nat)
    requires IsBlank(c)
    ensures Arguments([c] + s, k) == Arguments(s, k)
  {
    hide DropSpaces;
    assert ([c] + s)[1..] == s;
    DropOneSpace([c] + s);
  }

  lemma {:induction false} SingleLength(z: Text, rest: Text)
    requires 39 !in z && (rest == [] || rest[0] == 39)
    ensures QuotedLength(z + rest, QUOTE) == |z|
  {
    if z == [] {
      assert z + rest == rest;
    } else {
      assert (z + rest)[1..] == z[1..] + rest;
      SingleLength(z[1..], rest);
    }
  }

  lemma {:induction false} LengthOfWord(z: Text, rest: Text)
    requires (forall i :: 0 <= i < |z| ==> !IsBlank(z[i])) && (rest == [] || IsBlank(rest[0]))
    ensures WordLength(z + rest) == |z|
  {
    if z == [] {
      assert z + rest == rest;
    } else {
      assert (z + rest)[1..] == z[1..] + rest;
      LengthOfWord(z[1..], rest);
    }
  }

  lemma SingleFirst(z: Text, more: Text, k: nat)
    requires 39 !in z && k > 0
    ensures Arguments([QUOTE] + z + [QUOTE] + more, k) == [z] + Arguments(more, k - 1)
  {
    hide Arguments, QuotedLength, WordLength, Resolve;
    var s, body := [QUOTE] + z + [QUOTE] + more, z + ([QUOTE] + more);
    SingleLength(z, [QUOTE] + more);
    assert s[1..] == body && body[..|z|] == z && Behind(body, |z|) == more;
    ArgumentsStep(s, k);
  }

  lemma WordFirst(z: Text, more: Text, k: nat)
    requires WellFormed(Word([], z)) && k > 0 && (more == [] || IsBlank(more[0]))
    ensures Arguments(z + more, k) == [Resolve(z)] + Arguments(more, k - 1)
  {
    hide Arguments, QuotedLength, WordLength, Resolve;
    var s := z + more;
    LengthOfWord(z, more);
    assert s[..|z|] == z && !IsBlank(s[0]);
    ArgumentsStep(s, k);
    if more != [] {
      assert Behind(s, |z|) == more[1..] && more == [more[0]] + more[1..];
      BehindBlank(more[0], more[1..], k - 1);
    }
  }

  lemma FirstToken(t: Token, more: Text, k: nat)
    requires WellFormed(t) && k > 0 && (t.Word? ==> more == [] || IsBlank(more[0]))
    ensures Arguments(Written(t) + more, k) == [Meaning(t)] + Arguments(more, k - 1)
  {
    hide Arguments, QuotedLength, WordLength, Resolve, Escape;
    match t
    case Double(_, z) =>
      ResolveEscape(z);
      QuotedLengthEscape(z, more);
      assert [DQUOTE] + (Escape(z) + ([DQUOTE] + more)) == Written(t) + more;
      FirstArgument(Escape(z), more, k);
    case Single(_, z) => SingleFirst(z, more, k);
    case Word(_, z) => WordFirst(z, more, k);
  }

  lemma LineStart(ts: seq<Token>, end: Text)
    requires AllBlank(end) && (ts != [] ==> WellFormed(ts[0]) && ts[0].blanks != [])
    ensures Line(ts, end) == [] || IsBlank(Line(ts, end)[0])
  {
    if ts != [] {
      assert Line(ts, end)[0] == ts[0].blanks[0];
    }
  }

  /** Tokens of every kind, with any whitespace around them, are the arguments of their line, up to the first k. */
  lemma {:induction false} ArgumentsOfLine(ts: seq<Token>, end: Text, k: nat)
    requires WellFormedLine(ts) && AllBlank(end)
    ensures Arguments(Line(ts, end), k) == if |ts| <= k then Meanings(ts) else Meanings(ts)[..k]
    decreases k
  {
    hide Arguments, Meaning, WellFormed, Written;
    if ts == [] || k == 0 {
      BehindBlanks(end, [], k);
      assert end + [] == end;
      NoArguments([], k);
      NoArguments(Line(ts, end), 0);
    } else {
      var more := Line(ts[1..], end);
      if ts[0].Word? {
        assert ts[1..] != [] ==> ts[1..][0] == ts[1];
        LineStart(ts[1..], end);
      }
      ArgumentsOfLine(ts[1..], end, k - 1);
      BlanksOf(ts[0]);
      BehindBlanks(ts[0].blanks, Written(ts[0]) + more, k);
      FirstToken(ts[0], more, k);
      FirstK(Meanings(ts), k);
    }
  }

  lemma BlanksOf(t: Token)
    requires WellFormed(t)
    ensures AllBlank(t.blanks)
  {
  }

  /** A word without a backslash stands for itself. */
  lemma {:induction false} PlainWord(z: Text)
    requires NulFree(z) && 92 !in z
    ensures Resolve(z) == z
  {
    if z == [] {
    } else {
      PlainWord(z[1..]);
      UnescapeStep([], z);
      assert Unescape(z) == [z[0]] + Unescape(z[1..]);
      CutCons(z[0], Unescape(z[1..]));
    }
  }

  /** A token without its closing quote goes on to the end of the line. */
  lemma UnclosedToken(z: Text, k: nat)
    requires NulFree(z) && k > 0
    ensures 39 !in z ==> Arguments([39] + z, k) == [z]
    ensures Arguments([34] + Escape(z), k) == [z]
  {
    hide Arguments, QuotedLength, Resolve, Escape;
    NoArguments([], k - 1);
    var e := Escape(z);
    OpenLength(z);
    ResolveEscape(z);
    assert ([DQUOTE] + e)[1..] == e && e[..|e|] == e;
    ArgumentsStep([DQUOTE] + e, k);
    if 39 !in z {
      SingleLength(z, []);
      assert z + [] == z && ([QUOTE] + z)[1..] == z && z[..|z|] == z;
      ArgumentsStep([QUOTE] + z, k);
    }
  }

  lemma {:induction false} OpenLength(z: Text)
    requires NulFree(z)
    ensures QuotedLength(Escape(z), DQUOTE) == |Escape(z)|
  {
    hide EscapeByte;
    if z == [] {
    } else {
      OpenLength(z[1..]);
      EscapeLength(z[0], Escape(z[1..]));
    }
  }

  // ----- the tokenizer, in place

  /** The C string at offset a is t. */
  predicate Holds(z: Text, a: nat, t: Text) {
    a + |t| < |z| && z[a..a + |t|] == t && z[a + |t|] == NUL
  }

  lemma UnescapeStep(acc: Text, s: Text)
    requires s != []
    ensures acc + Unescape(s)
         == if s[0] == BACKSLASH && |s| > 1
            then (acc + [Decode(s[1..]).c]) + Unescape(s[1 + Decode(s[1..]).n..])
            else (acc + [s[0]]) + Unescape(s[1..])
  {
    hide Decode;
    if s[0] == BACKSLASH && |s| > 1 {
      Assoc(acc, [Decode(s[1..]).c], Unescape(s[1 + Decode(s[1..]).n..]));
    } else {
      Assoc(acc, [s[0]], Unescape(s[1..]));
    }
  }

  /** Up to three octal digits; the value is kept in a char. */
  method ReadOctal(z: array<byte>, i0: nat, ghost e: nat, ghost s: Text) returns (c: byte, i: nat)
    requires i0 < e < z.Length && s == z[i0..e] && z[e] == NUL && IsOctal(s[0])
    ensures i0 <= i < e && Decode(s) == Decoded(c, i - i0 + 1)
  {
    hide Decode;
    OctalDigits(s);
    assert z[i0] == s[0] && z[i0 + 1] == (if |s| > 1 then s[1] else NUL);
    assert |s| > 1 ==> z[i0 + 2] == if |s| > 2 then s[2] else NUL;
    i := i0;
    c := z[i] - 48;
    if IsOctal(z[i + 1]) {
      i := i + 1;
      c := (c as int * 8 + z[i] as int - 48) % 256;
      assert c == (s[0] - 48) * 8 + (s[1] - 48);
      if IsOctal(z[i + 1]) {
        i := i + 1;
        c := (c as int * 8 + z[i] as int - 48) % 256;
      }
    }
  }

  /** One round of resolve_backslashes: the byte at i, with what belongs to it, goes to j; i goes on to the last byte read. */
  method ResolveOne(z: array<byte>, j: nat, i0: nat, ghost e: nat, ghost s: Text) returns (i: nat)
    requires j <= i0 < e < z.Length && s == z[i0..e] && NulFree(s) && z[e] == NUL
    modifies z
    ensures i0 <= i < e && forall k :: 0 <= k < z.Length && k != j ==> z[k] == old(z[k])
    ensures if s[0] == BACKSLASH && |s| > 1
            then z[j] == Decode(s[1..]).c && i == i0 + Decode(s[1..]).n
            else z[j] == s[0] && i == i0
  {
    i := i0;
    var c := z[i];
    assert z[i0] == s[0] && z[i0 + 1] == if |s| > 1 then s[1] else NUL;
    if c == BACKSLASH && z[i + 1] != NUL {
      i := i + 1;
      c := z[i];
      assert s[1..] == z[i..e];
      if c == 97 {
        c := 7;
      } else if c == 98 {
        c := 8;
      } else if c == 116 {
        c := 9;
      } else if c == 110 {
        c := 10;
      } else if c == 118 {
        c := 11;
      } else if c == 102 {
        c := 12;
      } else if c == 114 {
        c := 13;
      } else if IsOctal(c) {
        c, i := ReadOctal(z, i, e, s[1..]);
      }
    }
    z[j] := c;
  }

  method SkipToBackslash(z: array<byte>, a: nat, ghost e: nat) returns (i: nat)
    requires a <= e < z.Length && NulFree(z[a..e]) && z[e] == NUL
    ensures a <= i <= e && Unescape(z[a..e]) == z[a..i] + Unescape(z[i..e])
  {
    hide Unescape, Decode;
    ghost var s := z[a..e];
    ghost var acc: Text := [];
    i := a;
    assert acc + Unescape(s) == Unescape(z[a..e]);
    while z[i] != NUL && z[i] != BACKSLASH
      invariant a <= i <= e && s == z[i..e] && acc == z[a..i]
      invariant acc + Unescape(s) == Unescape(z[a..e])
      decreases e - i
    {
      assert i < e && s[0] == z[i] && s[1..] == z[i + 1..e];
      UnescapeStep(acc, s);
      acc, s := acc + [s[0]], s[1..];
      i := i + 1;
    }
  }

  method ResolveLoop(z: array<byte>, b: nat, ghost e: nat) returns (j: nat)
    requires b <= e < z.Length && NulFree(z[b..e]) && z[e] == NUL
    modifies z
    ensures b <= j <= e && z[b..j] == Unescape(old(z[b..e])) && z[j] == NUL
    ensures forall k :: 0 <= k < z.Length && !(b <= k < e) ==> z[k] == old(z[k])
  {
    hide Unescape, Decode, NulFree;
    ghost var whole, s := Unescape(z[b..e]), z[b..e];
    ghost var acc: Text := [];
    NothingBefore(whole);
    NulAtEnd(z, b, e, s);
    var i := b;
    j := b;
    while z[i] != NUL
      invariant b <= j <= i <= e && s == z[i..e] && NulFree(s) && acc == z[b..j] && z[e] == NUL
      invariant z[i] == NUL <==> s == []
      invariant acc + Unescape(s) == whole
      invariant forall k :: 0 <= k < z.Length && !(b <= k < e) ==> z[k] == old(z[k])
      decreases e - i
    {
      UnescapeStep(acc, s);
      i, acc, s := ResolveRound(z, b, j, i, e, acc, s);
      j := j + 1;
      NulAtEnd(z, i, e, s);
    }
    NothingToUnescape(acc, s);
    EndText(z, b, j, i);
  }

  lemma NulAtEnd(z: array<byte>, i: nat, e: nat, s: Text)
    requires i <= e < z.Length && s == z[i..e] && NulFree(s) && z[e] == NUL
    ensures z[i] == NUL <==> s == []
  {
    assert s != [] ==> s[0] == z[i];
  }

  method EndText(z: array<byte>, b: nat, j: nat, i: nat)
    requires b <= j <= i < z.Length && z[i] == NUL
    modifies z
    ensures z[j] == NUL && z[b..j] == old(z[b..j]) && forall k :: 0 <= k < z.Length && k != j ==> z[k] == old(z[k])
  {
    if j < i {
      z[j] := NUL;
    }
  }

  lemma NothingBefore(t: Text)
    ensures [] + t == t
  {
  }

  method ResolveRound(z: array<byte>, b: nat, j: nat, i0: nat, ghost e: nat, ghost acc: Text, ghost s: Text)
    returns (i: nat, ghost acc': Text, ghost s': Text)
    requires b <= j <= i0 < e < z.Length && s == z[i0..e] && NulFree(s) && z[e] == NUL && acc == z[b..j]
    modifies z
    ensures i0 < i <= e && forall k :: 0 <= k < z.Length && k != j ==> z[k] == old(z[k])
    ensures acc' == z[b..j + 1] && s' == z[i..e] && NulFree(s')
    ensures if s[0] == BACKSLASH && |s| > 1
            then acc' == acc + [Decode(s[1..]).c] && s' == s[1 + Decode(s[1..]).n..]
            else acc' == acc + [s[0]] && s' == s[1..]
  {
    hide Decode;
    i := ResolveOne(z, j, i0, e, s);
    acc', s' := acc + [z[j]], s[i + 1 - i0..];
    i := i + 1;
  }

  /** The string at offset a, which ends at e, shrinks in place. */
  method ResolveBackslashes(z: array<byte>, a: nat, ghost e: nat)
    requires a <= e < z.Length && NulFree(z[a..e]) && z[e] == NUL
    modifies z
    ensures Holds(z[..], a, Resolve(old(z[a..e]))) && a + |Resolve(old(z[a..e]))| <= e
    ensures forall k :: 0 <= k < z.Length && !(a <= k < e) ==> z[k] == old(z[k])
  {
    hide Unescape, Cut;
    var b := SkipToBackslash(z, a, e);
    assert z[b..e] == z[a..e][b - a..];
    var j := ResolveLoop(z, b, e);
    ghost var u := Unescape(old(z[a..e]));
    assert z[a..j] == old(z[a..b]) + z[b..j] == u;
    assert z[..][a..a + |u|] == z[a..j];
    CutHolds(z[..], a, u);
  }

  lemma NothingToUnescape(acc: Text, s: Text)
    requires s == []
    ensures acc + Unescape(s) == acc
  {
  }

  lemma CutHolds(z: Text, a: nat, u: Text)
    requires Holds(z, a, u)
    ensures Holds(z, a, Cut(u)) && |Cut(u)| <= |u|
  {
    hide Cut;
    var n := |Cut(u)|;
    assert z[a..a + |u|][..n] == z[a..a + n];
    assert n < |u| ==> z[a + n] == z[a..a + |u|][n];
  }

  lemma DropOneSpace(s: Text)
    ensures DropSpaces(s) == if s != [] && IsSpace(s[0]) then DropSpaces(s[1..]) else s
  {
  }

  method SkipSpaces(z: array<byte>, h0: nat, ghost n: nat) returns (h: nat)
    requires h0 <= n < z.Length && z[n] == NUL
    ensures h0 <= h <= n && z[h..n] == DropSpaces(z[h0..n])
  {
    hide DropSpaces;
    ghost var s := z[h0..n];
    h := h0;
    while IsSpace(z[h])
      invariant h0 <= h <= n && s == z[h..n] && DropSpaces(s) == DropSpaces(z[h0..n])
      decreases n - h
    {
      assert s[0] == z[h] && s[1..] == z[h + 1..n];
      DropOneSpace(s);
      s := s[1..];
      h := h + 1;
    }
    assert s != [] ==> s[0] == z[h];
    DropOneSpace(s);
  }

  method ScanQuoted(z: array<byte>, h0: nat, delim: byte, ghost n: nat) returns (h: nat)
    requires h0 <= n < z.Length && NulFree(z[h0..n]) && z[n] == NUL && delim != NUL
    ensures h0 <= h <= n && h == h0 + QuotedLength(z[h0..n], delim) && (z[h] == delim || h == n)
  {
    ghost var s := z[h0..n];
    h := h0;
    while z[h] != NUL && z[h] != delim
      invariant h0 <= h <= n && s == z[h..n] && NulFree(s)
      invariant h - h0 + QuotedLength(s, delim) == QuotedLength(z[h0..n], delim)
      decreases n - h
    {
      assert s[0] == z[h] && s[1..] == z[h + 1..n];
      if z[h] == BACKSLASH && delim == DQUOTE && z[h + 1] != NUL {
        assert s[2..] == z[h + 2..n];
        s := s[1..];
        h := h + 1;
      }
      s := s[1..];
      h := h + 1;
    }
    assert s != [] ==> s[0] == z[h];
  }

  method ScanWord(z: array<byte>, h0: nat, ghost n: nat) returns (h: nat)
    requires h0 <= n < z.Length && NulFree(z[h0..n]) && z[n] == NUL
    ensures h0 <= h <= n && h == h0 + WordLength(z[h0..n]) && (z[h] == NUL ==> h == n)
  {
    ghost var s := z[h0..n];
    h := h0;
    while z[h] != NUL && !IsSpace(z[h])
      invariant h0 <= h <= n && s == z[h..n] && NulFree(s)
      invariant h - h0 + WordLength(s) == WordLength(z[h0..n])
      decreases n - h
    {
      assert s[0] == z[h] && s[1..] == z[h + 1..n];
      s := s[1..];
      h := h + 1;
    }
    assert s != [] ==> s[0] == z[h];
  }

  /** The branch for a token in quotes: the token is left at offset h0 + 1 and the rest of the line behind h. */
  method QuotedToken(z: array<byte>, h0: nat, ghost n: nat, ghost s: Text) returns (h: nat, ghost t: Text)
    requires h0 < n < z.Length && s == z[h0 + 1..n] && NulFree(s) && z[n] == NUL && IsDelimiter(z[h0])
    modifies z
    ensures h0 < h <= n && Holds(z[..], h0 + 1, t) && h0 + 1 + |t| <= n && (h0 + 1 + |t| < h || h == n)
    ensures var len := QuotedLength(s, old(z[h0]));
            t == (if old(z[h0]) == DQUOTE then Resolve(s[..len]) else s[..len]) && old(z[h..n]) == Behind(s, len)
    ensures forall k :: 0 <= k < z.Length && !(h0 < k < h) ==> z[k] == old(z[k])
  {
    hide QuotedLength, Resolve;
    var delim := z[h0];
    var e := ScanQuoted(z, h0 + 1, delim, n);
    ghost var len := QuotedLength(s, delim);
    h := e;
    assert z[h0 + 1..e] == s[..len];
    t := s[..len];
    if z[h] == delim {
      z[h] := NUL;
      h := h + 1;
    }
    assert z[h0 + 1..e] == s[..len];
    assert old(z[h..n]) == Behind(s, len);
    assert z[..][h0 + 1..e] == z[h0 + 1..e];
    if delim == DQUOTE {
      ResolveBackslashes(z, h0 + 1, e);
      t := Resolve(s[..len]);
    }
  }

  /** The branch for a token without quotes. */
  method WordToken(z: array<byte>, h0: nat, ghost n: nat, ghost s: Text) returns (h: nat, ghost t: Text)
    requires h0 < n < z.Length && s == z[h0..n] && NulFree(s) && z[n] == NUL && !IsSpace(s[0])
    modifies z
    ensures h0 < h <= n && Holds(z[..], h0, t) && h0 + |t| <= n && (h0 + |t| < h || h == n)
    ensures t == Resolve(s[..WordLength(s)]) && old(z[h..n]) == Behind(s, WordLength(s))
    ensures forall k :: 0 <= k < z.Length && !(h0 <= k < h) ==> z[k] == old(z[k])
  {
    assert WordLength(s) > 0;
    hide WordLength, Resolve;
    var e := ScanWord(z, h0, n);
    ghost var len := WordLength(s);
    h := e;
    assert z[h0..e] == s[..len];
    if z[h] != NUL {
      z[h] := NUL;
      h := h + 1;
    }
    assert z[h0..e] == s[..len];
    assert old(z[h..n]) == Behind(s, len);
    ResolveBackslashes(z, h0, e);
    t := Resolve(s[..len]);
  }

  /** The strings at the offsets in a are the texts in ts, and end before offset h. */
  predicate AllHold(z: Text, a: seq<nat>, ts: seq<Text>, h: nat) {
    |a| == |ts| && forall k :: 0 <= k < |a| ==> Holds(z, a[k], ts[k]) && a[k] + |ts[k]| < h
  }

  /** Later changes of the line leave earlier tokens alone. */
  lemma HoldKept(z: Text, z': Text, a: seq<nat>, ts: seq<Text>, h: nat)
    requires AllHold(z, a, ts, h) && |z'| == |z| && forall k :: 0 <= k < h && k < |z| ==> z'[k] == z[k]
    ensures AllHold(z', a, ts, h)
  {
    forall k | 0 <= k < |a|
      ensures Holds(z', a[k], ts[k])
    {
      assert Holds(z, a[k], ts[k]);
      assert z'[a[k]..a[k] + |ts[k]|] == z[a[k]..a[k] + |ts[k]|];
    }
  }

  lemma HoldMore(z: Text, a: seq<nat>, ts: seq<Text>, h: nat, at: nat, t: Text, h': nat)
    requires AllHold(z, a, ts, h) && h <= h' && Holds(z, at, t) && at + |t| < h'
    ensures AllHold(z, a + [at], ts + [t], h')
  {
  }

  lemma ArgumentsStep(s: Text, k: nat)
    requires s != [] && !IsSpace(s[0]) && k > 0
    ensures Arguments(s, k)
         == if IsDelimiter(s[0])
            then var n := QuotedLength(s[1..], s[0]);
                 [if s[0] == DQUOTE then Resolve(s[1..][..n]) else s[1..][..n]] + Arguments(Behind(s[1..], n), k - 1)
            else [Resolve(s[..WordLength(s)])] + Arguments(Behind(s, WordLength(s)), k - 1)
  {
    hide Resolve, QuotedLength, WordLength, Behind, DropSpaces;
    DropOneSpace(s);
  }

  lemma ArgumentsSkip(s: Text, k: nat)
    ensures Arguments(s, k) == Arguments(DropSpaces(s), k)
    ensures DropSpaces(s) == [] ==> Arguments(s, k) == []
  {
    hide DropSpaces;
    DropOneSpace(DropSpaces(s));
  }

  /** Where tokens have to end so that the rest of the line, from offset h on, does not touch them. */
  function Limit(h: nat, n: nat): nat {
    if h == n then n + 1 else h
  }

  lemma NulFreeTail(s: Text, k: nat)
    requires NulFree(s) && k <= |s|
    ensures NulFree(s[k..])
  {
  }

  lemma SameSlice(a: Text, b: Text, h: nat, n: nat)
    requires h <= n <= |a| == |b| && forall i :: h <= i < n ==> a[i] == b[i]
    ensures a[h..n] == b[h..n]
  {
  }

  /** The argument that starts at offset h0: its string is at offset arg, and the rest of the line behind h. */
  method TakeArgument(z: array<byte>, h0: nat, ghost n: nat, ghost s: Text, ghost k: nat)
    returns (arg: nat, h: nat, ghost t: Text)
    requires h0 < n < z.Length && s == z[h0..n] && NulFree(s) && z[n] == NUL && !IsSpace(s[0]) && k > 0
    modifies z
    ensures h0 < h <= n && Holds(z[..], arg, t) && arg + |t| < Limit(h, n)
    ensures Arguments(s, k) == [t] + Arguments(z[h..n], k - 1) && NulFree(z[h..n]) && z[n] == NUL
    ensures forall i :: 0 <= i < h0 ==> z[i] == old(z[i])
  {
    hide QuotedLength, WordLength, Resolve, Behind, Holds, Arguments, NulFree;
    ArgumentsStep(s, k);
    NulFreeTail(s, 1);
    assert z[h0] == s[0] && z[h0 + 1..n] == s[1..];
    assert forall i :: h0 <= i <= n ==> z[i..n] == s[i - h0..];
    arg := h0;
    if IsDelimiter(z[h0]) {
      h, t := QuotedToken(z, h0, n, s[1..]);
      arg := h0 + 1;
    } else {
      h, t := WordToken(z, h0, n, s);
    }
    SameSlice(z[..], old(z[..]), h, n);
    NulFreeTail(s, h - h0);
  }

  /** The tokens of a dot-command, whose first byte is the dot: the offsets of their strings in the line. */
  method Tokenize(zLine: array<byte>, n: nat) returns (azArg: seq<nat>)
    requires 1 <= n < zLine.Length && NulFree(zLine[..n]) && zLine[n] == NUL
    modifies zLine
    ensures var ts := Arguments(old(zLine[1..n]), MAX_ARG);
            |azArg| == |ts| && forall k :: 0 <= k < |ts| ==> Holds(zLine[..], azArg[k], ts[k])
  {
    hide Arguments, Holds, DropSpaces;
    ghost var whole := Arguments(zLine[1..n], MAX_ARG);
    ghost var s, ts: seq<Text> := zLine[1..n], [];
    assert ts + whole == whole;
    var h := 1;
    azArg := [];
    while zLine[h] != NUL && |azArg| < MAX_ARG
      invariant 1 <= h <= n && zLine[n] == NUL && s == zLine[h..n] && NulFree(s)
      invariant AllHold(zLine[..], azArg, ts, Limit(h, n)) && |azArg| <= MAX_ARG
      invariant ts + Arguments(s, MAX_ARG - |azArg|) == whole
      decreases n - h
    {
      assert h < n;
      ArgumentsSkip(s, MAX_ARG - |azArg|);
      ghost var before, start := zLine[..], h;
      h := SkipSpaces(zLine, h, n);
      assert zLine[h..n] == s[h - start..];
      s := DropSpaces(s);
      assert s != [] ==> s[0] == zLine[h];
      if zLine[h] == NUL {
        break;
      }
      var arg;
      ghost var t;
      ghost var k := MAX_ARG - |azArg|;
      arg, h, t := TakeArgument(zLine, h, n, s, k);
      HoldKept(before, zLine[..], azArg, ts, start);
      HoldMore(zLine[..], azArg, ts, start, arg, t, Limit(h, n));
      s := zLine[h..n];
      Regroup(ts, t, Arguments(s, k - 1));
      ts := ts + [t];
      azArg := azArg + [arg];
    }
    assert s != [] ==> s[0] == zLine[h];
    NoArguments(s, MAX_ARG - |azArg|);
    assert ts + [] == ts;
  }

  lemma Regroup(ts: seq<Text>, t: Text, more: seq<Text>)
    ensures ts + ([t] + more) == (ts + [t]) + more
  {
  }

  /** A dot-command with at most 50 arguments printed by output_c_string finds them all in its line. */
  lemma CommandLine(args: seq<Text>)
    requires |args| <= MAX_ARG && forall i :: 0 <= i < |args| ==> NulFree(args[i])
    ensures Arguments(Joined(args), MAX_ARG) == args
  {
    ArgumentsJoined(args, MAX_ARG);
  }

  /** What is still to be printed when i arguments have been. */
  function JoinedFrom(args: seq<Text>, i: nat): Text
    requires i <= |args|
  {
    if i == |args| then [] else (if i > 0 then [32] else []) + Joined(args[i..])
  }

  lemma JoinedStart(args: seq<Text>)
    ensures [DOT] + JoinedFrom(args, 0) == [DOT] + Joined(args)
  {
    assert args[0..] == args;
  }

  lemma JoinedEnd(args: seq<Text>, line: Text)
    ensures line + JoinedFrom(args, |args|) == line
  {
  }

  lemma JoinedStep(args: seq<Text>, i: nat, line: Text)
    requires i < |args|
    ensures line + JoinedFrom(args, i)
         == (line + (if i > 0 then [32] else []) + ([DQUOTE] + Escape(args[i]) + [DQUOTE])) + JoinedFrom(args, i + 1)
  {
    hide Escape, Joined, JoinedFrom;
    var front: Text := if i > 0 then [32] else [];
    var text, more := [DQUOTE] + Escape(args[i]) + [DQUOTE], JoinedFrom(args, i + 1);
    JoinedOne(args, i);
    Assoc(line, front, text + more);
    Assoc(line + front, text, more);
  }

  lemma JoinedOne(args: seq<Text>, i: nat)
    requires i < |args|
    ensures JoinedFrom(args, i)
         == (if i > 0 then [32] else []) + (([DQUOTE] + Escape(args[i]) + [DQUOTE]) + JoinedFrom(args, i + 1))
  {
    hide Escape;
    assert args[i..][1..] == args[i + 1..];
    var more := JoinedFrom(args, i + 1);
    Assoc([DQUOTE], Escape(args[i]), [DQUOTE]);
    Assoc([DQUOTE], Escape(args[i]) + [DQUOTE], more);
    Assoc(Escape(args[i]), [DQUOTE], more);
  }

  lemma {:induction false} EscapeNulFree(z: Text)
    requires NulFree(z)
    ensures NulFree(Escape(z))
  {
    if z == [] {
    } else {
      EscapeNulFree(z[1..]);
      assert NulFree([z[0]]);
    }
  }

  lemma {:induction false} JoinedNulFree(args: seq<Text>)
    requires forall i :: 0 <= i < |args| ==> NulFree(args[i])
    ensures NulFree(Joined(args))
  {
    hide Escape;
    if args == [] {
    } else {
      EscapeNulFree(args[0]);
      JoinedNulFree(args[1..]);
    }
  }

  /** A line of a dot-command: the dot and the arguments as output_c_string prints them. */
  method PrintArguments(args: seq<Text>) returns (line: Text)
    ensures line == [DOT] + Joined(args)
  {
    hide Escape, Joined, JoinedFrom;
    line := [DOT];
    JoinedStart(args);
    for i := 0 to |args|
      invariant line + JoinedFrom(args, i) == [DOT] + Joined(args)
    {
      JoinedStep(args, i, line);
      if i > 0 {
        line := line + [32];
      } else {
        assert line + [] == line;
      }
      var text := OutputCString(args[i]);
      line := line + text;
    }
    JoinedEnd(args, line);
  }

  /** Printed arguments are found again in the line: all of them, or the first fifty. */
  method PrintThenTokenize(args: seq<Text>) returns (zLine: array<byte>, azArg: seq<nat>)
    requires forall i :: 0 <= i < |args| ==> NulFree(args[i])
    ensures |azArg| == if |args| <= MAX_ARG then |args| else MAX_ARG
    ensures forall k :: 0 <= k < |azArg| ==> Holds(zLine[..], azArg[k], args[k])
  {
    hide Holds, Arguments, Joined;
    var line := PrintArguments(args);
    zLine := new byte[|line| + 1](i => if 0 <= i < |line| then line[i] else NUL);
    JoinedNulFree(args);
    assert zLine[..|line|] == line && zLine[1..|line|] == Joined(args);
    ArgumentsJoined(args, MAX_ARG);
    azArg := Tokenize(zLine, |line|);
  }
}
