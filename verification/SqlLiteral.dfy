/**
 * The SQL literal printer of the shell's quote mode: strings with newlines or carriage
 * returns are printed as nested calls of replace() over placeholders that the string does not
 * contain. An independent evaluator of the printed text gives back the string.
 */
module SqlLiteral {
  import opened Bytes
  import opened Ctype
  import opened Options
  import opened Decimal
  import Texts

  /** The bytes of an ASCII text. */
  function Ascii(s: string): (b: seq<byte>)
    requires forall i :: 0 <= i < |s| ==> s[i] < 128 as char
    ensures |b| == |s| && forall i :: 0 <= i < |s| ==> b[i] == s[i] as int
  {
    seq(|s|, i requires 0 <= i < |s| => s[i] as int)
  }

  const NL: byte := 10
  const CR: byte := 13
  const QUOTE: byte := '\'' as int

  /** strstr(z, p) != 0 */
  predicate Occurs(z: seq<byte>, p: seq<byte>) {
    p <= z || (z != [] && Occurs(z[1..], p))
  }

  // ----- unused_string

  /** "(<zA><i>)" */
  function Candidate(zA: seq<byte>, i: nat): seq<byte> {
    Ascii("(") + zA + Digits(i) + Ascii(")")
  }

  lemma CandidatesDiffer(zA: seq<byte>, i: nat, j: nat, z: seq<byte>)
    requires Candidate(zA, i) <= z && Candidate(zA, j) <= z
    ensures i == j
  {
    var k := 1 + |zA|;
    CandidateDigits(zA, i, z);
    CandidateDigits(zA, j, z);
    ValueOfDigits(i);
    ValueOfDigits(j);
  }

  lemma CandidateDigits(zA: seq<byte>, i: nat, z: seq<byte>)
    requires Candidate(zA, i) <= z
    ensures var k := 1 + |zA|;
            k <= |z| && z[k..k + DigitSpan(z[k..])] == Digits(i)
  {
    var k := 1 + |zA|;
    var d := Digits(i);
    var rest := z[k + |d|..];
    assert z[k..] == d + rest by {
      assert z[..k + |d| + 1] == Candidate(zA, i);
    }
    assert rest[0] == z[k + |d|] == Candidate(zA, i)[k + |d|];
    DigitSpanOf(d, rest);
  }

  /** Distinct candidates sit at distinct places, so a string of length n holds at most n. */
  lemma {:induction false} CandidatePlaces(z: seq<byte>, zA: seq<byte>, n: nat) returns (places: set<nat>)
    requires forall j: nat :: j < n ==> Occurs(z, Candidate(zA, j))
    ensures |places| == n
    ensures forall p :: p in places ==> p < |z| && exists j: nat :: j < n && Candidate(zA, j) <= z[p..]
  {
    if n == 0 {
      places := {};
    } else {
      var before := CandidatePlaces(z, zA, n - 1);
      var p := PlaceOf(z, Candidate(zA, n - 1));
      if p in before {
        var j: nat :| j < n - 1 && Candidate(zA, j) <= z[p..];
        CandidatesDiffer(zA, j, n - 1, z[p..]);
        assert false;
      }
      places := before + {p};
    }
  }

  lemma {:induction false} PlaceOf(z: seq<byte>, p: seq<byte>) returns (i: nat)
    requires Occurs(z, p) && p != []
    ensures i < |z| && p <= z[i..]
  {
    if p <= z {
      i := 0;
    } else {
      var j := PlaceOf(z[1..], p);
      i := j + 1;
      assert z[1..][j..] == z[i..];
    }
  }

  function Below(n: nat): (s: set<nat>)
    ensures |s| == n && forall i: nat :: i in s <==> i < n
  {
    if n == 0 then {} else Below(n - 1) + {n - 1}
  }

  lemma CandidateBound(z: seq<byte>, zA: seq<byte>, n: nat)
    requires forall j: nat :: j < n ==> Occurs(z, Candidate(zA, j))
    ensures n <= |z|
  {
    var places := CandidatePlaces(z, zA, n);
    SubsetSize(places, Below(|z|));
  }

  lemma {:induction false} SubsetSize(a: set<nat>, b: set<nat>)
    requires a <= b
    ensures |a| <= |b|
  {
    if a == {} {
    } else {
      var x :| x in a;
      SubsetSize(a - {x}, b - {x});
    }
  }

  function FirstFree(z: seq<byte>, zA: seq<byte>, i: nat): (n: nat)
    requires forall j: nat :: j < i ==> Occurs(z, Candidate(zA, j))
    ensures i <= n <= |z| && !Occurs(z, Candidate(zA, n))
    ensures forall j: nat :: j < n ==> Occurs(z, Candidate(zA, j))
    decreases |z| - i
  {
    CandidateBound(z, zA, i);
    if !Occurs(z, Candidate(zA, i)) then i else
    CandidateBound(z, zA, i + 1);
    FirstFree(z, zA, i + 1)
  }

  function Unused(z: seq<byte>, zA: seq<byte>, zB: seq<byte>): (p: seq<byte>)
    ensures !Occurs(z, p)
  {
    if !Occurs(z, zA) then zA
    else if !Occurs(z, zB) then zB
    else Candidate(zA, FirstFree(z, zA, 0))
  }

  /** unused_string: the search ends, and its counter stays within the length of z. */
  method UnusedString(z: seq<byte>, zA: seq<byte>, zB: seq<byte>) returns (p: seq<byte>)
    ensures p == Unused(z, zA, zB)
  {
    if !Occurs(z, zA) {
      return zA;
    }
    if !Occurs(z, zB) {
      return zB;
    }
    var i := 0;
    var zBuf := Candidate(zA, i);
    while Occurs(z, zBuf)
      invariant i <= |z| && zBuf == Candidate(zA, i)
      invariant forall j: nat :: j < i ==> Occurs(z, Candidate(zA, j))
      decreases |z| - i
    {
      CandidateBound(z, zA, i + 1);
      i := i + 1;
      zBuf := Candidate(zA, i);
    }
    var n := FirstFree(z, zA, 0);
    assert i == n;
    p := zBuf;
  }

  // ----- output_quoted_escaped_string

  /** z with its quotes doubled, newlines written as nl and carriage returns as cr. */
  function Body(z: seq<byte>, nl: seq<byte>, cr: seq<byte>): seq<byte> {
    if z == [] then [] else Shown(z[0], nl, cr) + Body(z[1..], nl, cr)
  }

  function Shown(c: byte, nl: seq<byte>, cr: seq<byte>): seq<byte> {
    if c == QUOTE then [QUOTE, QUOTE] else if c == NL then nl else if c == CR then cr else [c]
  }

  function Plain(z: seq<byte>): bool {
    QUOTE !in z && NL !in z && CR !in z
  }

  /** What the loops over z and the calls around them print. */
  function Printed(z: seq<byte>): seq<byte> {
    if Plain(z) then Ascii("'") + z + Ascii("'") else
    Opening(z) + Ascii("'") + Body(z, MarkNL(z), MarkCR(z)) + Ascii("'") + Closing(z)
  }

  /** The placeholder for newlines, if there are any. */
  function MarkNL(z: seq<byte>): seq<byte> {
    if NL in z then Unused(z, Ascii("\\n"), Ascii("\\012")) else []
  }

  function MarkCR(z: seq<byte>): seq<byte> {
    if CR in z then Unused(z, Ascii("\\r"), Ascii("\\015")) else []
  }

  function Opening(z: seq<byte>): seq<byte> {
    (if NL in z then Ascii("replace(") else []) + (if CR in z then Ascii("replace(") else [])
  }

  function Closing(z: seq<byte>): seq<byte> {
    (if CR in z then Ascii(",'") + MarkCR(z) + Ascii("',char(13))") else [])
    + (if NL in z then Ascii(",'") + MarkNL(z) + Ascii("',char(10))") else [])
  }

  lemma {:induction false} BodyAppend(a: seq<byte>, b: seq<byte>, nl: seq<byte>, cr: seq<byte>)
    ensures Body(a + b, nl, cr) == Body(a, nl, cr) + Body(b, nl, cr)
  {
    hide Shown;
    if a == [] {
      assert a + b == b;
    } else {
      BodyAppend(a[1..], b, nl, cr);
      assert (a + b)[1..] == a[1..] + b && (a + b)[0] == a[0];
      Texts.Assoc(Shown(a[0], nl, cr), Body(a[1..], nl, cr), Body(b, nl, cr));
    }
  }

  lemma {:induction false} BodyPlain(a: seq<byte>, nl: seq<byte>, cr: seq<byte>)
    requires Plain(a)
    ensures Body(a, nl, cr) == a
  {
    if a == [] {
    } else {
      BodyPlain(a[1..], nl, cr);
    }
  }

  /** The length of the run before the first of the given bytes, or of the whole string. */
  method Run(z: seq<byte>) returns (i: nat)
    ensures i <= |z| && Plain(z[..i])
    ensures i < |z| ==> z[i] == QUOTE || z[i] == NL || z[i] == CR
  {
    i := 0;
    while i < |z| && z[i] != NL && z[i] != CR && z[i] != QUOTE
      invariant i <= |z| && Plain(z[..i])
    {
      i := i + 1;
    }
  }

  /** The printing loop. */
  method PrintBody(s: seq<byte>, zNL: seq<byte>, zCR: seq<byte>) returns (out: seq<byte>)
    ensures out == Body(s, zNL, zCR)
  {
    hide Body;
    out := [];
    var z := s;
    assert [] + Body(z, zNL, zCR) == Body(s, zNL, zCR);
    while z != []
      invariant out + Body(z, zNL, zCR) == Body(s, zNL, zCR)
      decreases |z|
    {
      var i := Run(z);
      ghost var o, run, rest := out, z[..i], z[i..];
      BodySplit(z, i, zNL, zCR);
      assert o + Body(z, zNL, zCR) == o + run + Body(rest, zNL, zCR);
      var atQuote := i < |z| && z[i] == QUOTE;
      if atQuote {
        i := i + 1;
      }
      out := out + z[..i];
      z := z[i..];
      if atQuote {
        out := out + [QUOTE];
        assert out == o + run + [QUOTE, QUOTE];
        continue;
      }
      if z == [] {
        break;
      }
      var c := z[0];
      z := z[1..];
      if c == NL {
        out := out + zNL;
        continue;
      }
      out := out + zCR;
    }
    BodyEnd(zNL, zCR);
  }

  lemma BodyEnd(nl: seq<byte>, cr: seq<byte>)
    ensures Body([], nl, cr) == []
  {
  }

  /** Body over a plain run and the byte after it. */
  lemma BodySplit(z: seq<byte>, i: nat, nl: seq<byte>, cr: seq<byte>)
    requires i <= |z| && Plain(z[..i])
    ensures Body(z, nl, cr) == z[..i] + Body(z[i..], nl, cr)
    ensures i < |z| ==> Body(z[i..], nl, cr) == Shown(z[i], nl, cr) + Body(z[i + 1..], nl, cr)
  {
    assert z == z[..i] + z[i..];
    BodyAppend(z[..i], z[i..], nl, cr);
    BodyPlain(z[..i], nl, cr);
    if i < |z| {
      assert z[i..][1..] == z[i + 1..];
    }
  }

  method CountBreaks(z: seq<byte>) returns (nNL: nat, nCR: nat)
    ensures (nNL > 0 <==> NL in z) && (nCR > 0 <==> CR in z)
  {
    nNL, nCR := 0, 0;
    var i := 0;
    while i < |z|
      invariant i <= |z| && (nNL > 0 <==> NL in z[..i]) && (nCR > 0 <==> CR in z[..i])
    {
      if z[i] == NL {
        nNL := nNL + 1;
      }
      if z[i] == CR {
        nCR := nCR + 1;
      }
      i := i + 1;
    }
  }

  method OutputQuotedEscapedString(z: seq<byte>) returns (out: seq<byte>)
    ensures out == Printed(z)
  {
    hide Body, Unused, Ascii;
    var i := Run(z);
    if i == |z| {
      assert z[..i] == z;
      return Ascii("'") + z + Ascii("'");
    }
    assert z[i] in z;
    var zNL, zCR := [], [];
    var nNL, nCR := CountBreaks(z);
    out := [];
    if nNL > 0 {
      out := out + Ascii("replace(");
      zNL := UnusedString(z, Ascii("\\n"), Ascii("\\012"));
    }
    if nCR > 0 {
      out := out + Ascii("replace(");
      zCR := UnusedString(z, Ascii("\\r"), Ascii("\\015"));
    }
    assert out == Opening(z);
    out := out + Ascii("'");
    var body := PrintBody(z, zNL, zCR);
    out := out + body + Ascii("'");
    ghost var head := out;
    if nCR > 0 {
      out := out + (Ascii(",'") + zCR + Ascii("',char(13))"));
    }
    if nNL > 0 {
      out := out + (Ascii(",'") + zNL + Ascii("',char(10))"));
    }
    assert out == head + Closing(z);
  }

  // ----- evaluating SQL text made of string literals, replace() and char()

  /** The SQL function replace(s, p, r), for a pattern that is not empty. */
  function ReplaceAll(s: seq<byte>, p: seq<byte>, r: seq<byte>): seq<byte>
    requires p != []
    decreases |s|
  {
    if s == [] then [] else if p <= s then r + ReplaceAll(s[|p|..], p, r) else [s[0]] + ReplaceAll(s[1..], p, r)
  }

  /** A string literal after its opening quote: its value and what follows the closing quote. */
  function ReadLiteral(b: seq<byte>): (r: Option<(seq<byte>, seq<byte>)>)
    ensures r.Some? ==> |r.value.1| < |b|
    decreases |b|
  {
    if b == [] then None
    else if b[0] != QUOTE then
      match ReadLiteral(b[1..])
      case Some((v, rest)) => Some(([b[0]] + v, rest))
      case None => None
    else if |b| > 1 && b[1] == QUOTE then
      match ReadLiteral(b[2..])
      case Some((v, rest)) => Some(([QUOTE] + v, rest))
      case None => None
    else Some(([], b[1..]))
  }

  /** What follows the text p at the start of b. */
  function Skip(p: seq<byte>, b: seq<byte>): (r: Option<seq<byte>>)
    ensures r.Some? ==> |r.value| == |b| - |p|
  {
    if p <= b then Some(b[|p|..]) else None
  }

  /** char(<number>) followed by the parenthesis that closes replace(. */
  function ReadChar(b: seq<byte>): (r: Option<(byte, seq<byte>)>)
    ensures r.Some? ==> |r.value.1| <= |b|
  {
    match Skip(Ascii("char("), b)
    case None => None
    case Some(b1) =>
      var k := DigitSpan(b1);
      var n := ValueOf(b1[..k]);
      match Skip(Ascii("))"), b1[k..])
      case None => None
      case Some(rest) => if n < 128 then Some((n, rest)) else None
  }

  /** The second and third arguments of replace(). */
  function ReadArguments(b: seq<byte>): (r: Option<(seq<byte>, byte, seq<byte>)>)
    ensures r.Some? ==> |r.value.2| <= |b|
  {
    match Skip(Ascii(",'"), b)
    case None => None
    case Some(b1) =>
      match ReadLiteral(b1)
      case None => None
      case Some((p, b2)) =>
        match Skip(Ascii(","), b2)
        case None => None
        case Some(b3) =>
          match ReadChar(b3)
          case None => None
          case Some((c, rest)) => Some((p, c, rest))
  }

  /** literal | replace(expression,literal,char(number)) */
  function EvalExpr(b: seq<byte>): (r: Option<(seq<byte>, seq<byte>)>)
    ensures r.Some? ==> |r.value.1| < |b|
    decreases |b|
  {
    if b != [] && b[0] == QUOTE then ReadLiteral(b[1..]) else
    match Skip(Ascii("replace("), b)
    case None => None
    case Some(b1) =>
      match EvalExpr(b1)
      case None => None
      case Some((s, r1)) =>
        match ReadArguments(r1)
        case None => None
        case Some((p, c, rest)) => if p == [] then None else Some((ReplaceAll(s, p, [c]), rest))
  }

  function Eval(b: seq<byte>): Option<seq<byte>> {
    match EvalExpr(b)
    case Some((v, rest)) => if rest == [] then Some(v) else None
    case None => None
  }

  // ----- placeholders are found again exactly where they were put

  /** z with each c replaced by p and each d by q. */
  function Marked(z: seq<byte>, c: byte, p: seq<byte>, d: byte, q: seq<byte>): seq<byte> {
    if z == [] then []
    else (if z[0] == c then p else if z[0] == d then q else [z[0]]) + Marked(z[1..], c, p, d, q)
  }

  /** The strings differ early, so neither starts with the other. */
  predicate Clash(a: seq<byte>, b: seq<byte>) {
    || (|a| > 0 && |b| > 0 && a[0] != b[0])
    || (|a| > 1 && |b| > 1 && a[1] != b[1])
    || (|a| > 2 && |b| > 2 && a[2] != b[2])
    || (|a| > 3 && |b| > 3 && a[3] != b[3])
  }

  /** p cannot start inside p or q, and cannot run from other text into p or q. */
  ghost predicate Clean(p: seq<byte>, q: seq<byte>) {
    && p != []
    && (forall k :: 1 <= k < |p| ==> p[k] != p[0])
    && (forall k :: 1 <= k < |p| ==> Clash(p[k..], q))
    && (forall k :: 0 <= k < |q| ==> Clash(q[k..], p))
  }

  /** A proper tail of p in front of marked text is ordinary text. */
  lemma {:induction false} TailIsOrdinary(z: seq<byte>, k: nat, c: byte, p: seq<byte>, d: byte, q: seq<byte>)
    requires Clean(p, q) && 1 <= k <= |p| && p[k..] <= Marked(z, c, p, d, q)
    ensures p[k..] <= z
    decreases |z|
  {
    if k >= |p| {
    } else {
      var w := Marked(z, c, p, d, q);
      assert p[k] == p[k..][0] == w[0];
      MarkedHead(z, c, p, d, q);
      if z[0] == d && z[0] != c {
        assert Clash(p[k..], q);
        PrefixNoClash(p[k..], q, Marked(z[1..], c, p, d, q));
      } else if z[0] != c {
        assert w[1..] == Marked(z[1..], c, p, d, q);
        assert p[k..][1..] == p[k + 1..];
        TailIsOrdinary(z[1..], k + 1, c, p, d, q);
        assert p[k..] == [p[k]] + p[k + 1..];
      }
    }
  }

  lemma MarkedHead(z: seq<byte>, c: byte, p: seq<byte>, d: byte, q: seq<byte>)
    requires z != [] && p != []
    ensures z[0] == c ==> Marked(z, c, p, d, q) != [] && Marked(z, c, p, d, q)[0] == p[0]
  {
  }

  lemma PrefixNoClash(a: seq<byte>, q: seq<byte>, w: seq<byte>)
    requires a <= q + w
    ensures !Clash(a, q)
  {
  }

  lemma ClashNoPrefix(a: seq<byte>, p: seq<byte>, w: seq<byte>)
    requires Clash(a, p)
    ensures !(p <= a + w)
  {
  }

  lemma {:induction false} CopiedThrough(k: nat, p: seq<byte>, q: seq<byte>, w: seq<byte>, r: seq<byte>)
    requires Clean(p, q) && k <= |q|
    ensures ReplaceAll(q[k..] + w, p, r) == q[k..] + ReplaceAll(w, p, r)
    decreases |q| - k
  {
    if k < |q| {
      CopiedThrough(k + 1, p, q, w, r);
      assert (q[k..] + w)[1..] == q[k + 1..] + w;
      ClashNoPrefix(q[k..], p, w);
      assert q[k..] == [q[k]] + q[k + 1..];
    } else {
      assert q[k..] + w == w;
    }
  }

  lemma StartIsOrdinary(z: seq<byte>, c: byte, p: seq<byte>, d: byte, q: seq<byte>)
    requires Clean(p, q) && z != [] && z[0] != c && z[0] != d && p <= Marked(z, c, p, d, q)
    ensures p <= z
  {
    assert p[1..] <= Marked(z[1..], c, p, d, q);
    TailIsOrdinary(z[1..], 1, c, p, d, q);
    assert p == [p[0]] + p[1..];
  }

  /** replace() turns the marks p back into c and leaves everything else alone. */
  lemma {:induction false} Unmark(z: seq<byte>, c: byte, p: seq<byte>, d: byte, q: seq<byte>)
    requires Clean(p, q) && !Occurs(z, p)
    ensures ReplaceAll(Marked(z, c, p, d, q), p, [c]) == Marked(z, c, [c], d, q)
  {
    if z == [] {
    } else {
      var w := Marked(z[1..], c, p, d, q);
      Unmark(z[1..], c, p, d, q);
      if z[0] == c {
        assert (p + w)[|p|..] == w;
      } else if z[0] == d {
        CopiedThrough(0, p, q, w, [c]);
        assert q[0..] == q;
      } else {
        assert ([z[0]] + w)[1..] == w;
        if p <= [z[0]] + w {
          StartIsOrdinary(z, c, p, d, q);
        }
      }
    }
  }

  // ----- the placeholders that unused_string hands out

  /** \\n, \\012 or (\\n<i>) for letter n and octal 012; likewise with r and 015. */
  ghost predicate IsMark(p: seq<byte>, letter: byte, octal: byte) {
    || p == [92, letter]
    || p == [92, 48, 49, octal]
    || exists i: nat :: p == Candidate([92, letter], i)
  }

  /** A mark is clean beside a mark of the other kind. */
  lemma MarksAreClean(p: seq<byte>, pl: byte, po: byte, q: seq<byte>, ql: byte, qo: byte)
    requires IsMark(p, pl, po) && IsMark(q, ql, qo)
    requires (pl == 110 && po == 50 && ql == 114 && qo == 53) || (pl == 114 && po == 53 && ql == 110 && qo == 50)
    ensures Clean(p, q)
  {
    MarkForm(p, pl, po);
    MarkForm(q, ql, qo);
    forall k | 1 <= k < |p| ensures Clash(p[k..], q) {
      if k > 1 {
        assert p[k..][0] != q[0];
      }
    }
    forall k | 0 <= k < |q| ensures Clash(q[k..], p) {
      if k > 1 {
        assert q[k..][0] != p[0];
      } else if k == 1 {
        assert q[1..][0] == q[1] && (|q| > 2 ==> q[1..][1] == q[2]);
      } else {
        assert q[0..] == q;
      }
    }
  }

  /** A mark is clean beside a line break that is kept as it is. */
  lemma MarkIsClean(p: seq<byte>, letter: byte, octal: byte, d: byte)
    requires IsMark(p, letter, octal) && letter in {110, 114} && octal in {50, 53} && d in {NL, CR}
    ensures Clean(p, [d])
  {
    MarkForm(p, letter, octal);
    forall k | 1 <= k < |p| ensures Clash(p[k..], [d]) {
      assert p[k..][0] != d;
    }
  }

  lemma MarkForm(p: seq<byte>, letter: byte, octal: byte)
    requires IsMark(p, letter, octal)
    ensures |p| >= 2 && (p[0] == 92 || (p[0] == 40 && |p| >= 3 && p[1] == 92 && p[2] == letter))
    ensures p[0] == 92 ==> p[1] == letter || (|p| == 4 && p[1] == 48 && p[3] == octal)
    ensures forall k :: (if p[0] == 92 then 1 else 2) <= k < |p| ==>
      p[k] == letter || p[k] == octal || IsDigit(p[k]) || p[k] == 41
  {
    if p != [92, letter] && p != [92, 48, 49, octal] {
      var i: nat :| p == Candidate([92, letter], i);
      var d := Digits(i);
      assert p == [40, 92, letter] + d + [41];
      forall k | 2 <= k < |p| ensures p[k] == letter || IsDigit(p[k]) || p[k] == 41 {
        if 3 <= k < |p| - 1 {
          assert p[k] == d[k - 3];
        }
      }
    }
  }

  // ----- the printed text evaluates to the string

  lemma {:induction false} ReadPlain(s: seq<byte>, b: seq<byte>, v: seq<byte>, rest: seq<byte>)
    requires QUOTE !in s && ReadLiteral(b) == Some((v, rest))
    ensures ReadLiteral(s + b) == Some((s + v, rest))
  {
    hide ReadLiteral;
    if s == [] {
      assert s + b == b && s + v == v;
    } else {
      ReadPlain(s[1..], b, v, rest);
      ReadOne(s[0], s[1..] + b, s[1..] + v, rest);
      assert [s[0]] + (s[1..] + b) == s + b && [s[0]] + (s[1..] + v) == s + v;
    }
  }

  lemma ReadOne(c: byte, b: seq<byte>, v: seq<byte>, rest: seq<byte>)
    requires c != QUOTE && ReadLiteral(b) == Some((v, rest))
    ensures ReadLiteral([c] + b) == Some(([c] + v, rest))
  {
    assert ([c] + b)[1..] == b;
  }

  lemma {:induction false} ReadBody(z: seq<byte>, nl: seq<byte>, cr: seq<byte>, rest: seq<byte>)
    requires QUOTE !in nl && QUOTE !in cr && (rest == [] || rest[0] != QUOTE)
    ensures ReadLiteral(Body(z, nl, cr) + [QUOTE] + rest) == Some((Marked(z, CR, cr, NL, nl), rest))
  {
    if z == [] {
      assert ([QUOTE] + rest)[1..] == rest;
      assert Body(z, nl, cr) + [QUOTE] + rest == [QUOTE] + rest;
    } else {
      var b := Body(z[1..], nl, cr) + [QUOTE] + rest;
      var v := Marked(z[1..], CR, cr, NL, nl);
      ReadBody(z[1..], nl, cr, rest);
      var s := Shown(z[0], nl, cr);
      BodyInText(s, Body(z[1..], nl, cr), rest);
      hide Body;
      if z[0] == QUOTE {
        ReadDoubled(b, v, rest);
      } else {
        ReadPlain(s, b, v, rest);
      }
    }
  }

  lemma BodyInText(s: seq<byte>, b: seq<byte>, rest: seq<byte>)
    ensures (s + b) + [QUOTE] + rest == s + (b + [QUOTE] + rest)
  {
  }

  lemma ReadDoubled(b: seq<byte>, v: seq<byte>, rest: seq<byte>)
    requires ReadLiteral(b) == Some((v, rest))
    ensures ReadLiteral([QUOTE, QUOTE] + b) == Some(([QUOTE] + v, rest))
  {
    assert ([QUOTE, QUOTE] + b)[2..] == b;
  }

  lemma SkipOver(p: seq<byte>, rest: seq<byte>)
    ensures Skip(p, p + rest) == Some(rest)
  {
    assert (p + rest)[|p|..] == rest;
  }

  lemma ReadCharOf(c: byte, rest: seq<byte>)
    requires c == NL || c == CR
    ensures ReadChar(Ascii("char(") + (Digits(c) + (Ascii("))") + rest))) == Some((c, rest))
  {
    hide Skip, Digits;
    var tail := Ascii("))") + rest;
    assert tail[0] == 41;
    var b1 := Digits(c) + tail;
    hide Ascii;
    SkipOver(Ascii("char("), b1);
    DigitSpanOf(Digits(c), tail);
    ValueOfDigits(c);
    assert b1[..|Digits(c)|] == Digits(c) && b1[|Digits(c)|..] == tail;
    SkipOver(Ascii("))"), rest);
  }

  /** The arguments that follow the first one, and the closing parenthesis. */
  function Arguments(p: seq<byte>, c: byte, rest: seq<byte>): seq<byte> {
    Ascii(",'") + (p + ([QUOTE] + (Ascii(",") + (Ascii("char(") + (Digits(c) + (Ascii("))") + rest))))))
  }

  lemma ReadArgumentsOf(p: seq<byte>, c: byte, rest: seq<byte>)
    requires (c == NL || c == CR) && QUOTE !in p
    ensures ReadArguments(Arguments(p, c, rest)) == Some((p, c, rest))
  {
    hide Skip, ReadChar, Ascii, Digits;
    var b3 := Ascii("char(") + (Digits(c) + (Ascii("))") + rest));
    ReadCharOf(c, rest);
    var b2 := Ascii(",") + b3;
    SkipOver(Ascii(","), b3);
    ReadClosed(b2, p);
    SkipOver(Ascii(",'"), p + ([QUOTE] + b2));
  }

  lemma ReadClosed(b: seq<byte>, p: seq<byte>)
    requires QUOTE !in p && (b == [] || b[0] != QUOTE)
    ensures ReadLiteral(p + ([QUOTE] + b)) == Some((p, b))
  {
    assert ([QUOTE] + b)[1..] == b;
    ReadPlain(p, [QUOTE] + b, [], b);
    assert p + [] == p;
  }

  lemma EvalReplace(b: seq<byte>, s: seq<byte>, p: seq<byte>, c: byte, rest: seq<byte>)
    requires c == NL || c == CR
    requires p != [] && QUOTE !in p
    requires EvalExpr(b) == Some((s, Arguments(p, c, rest)))
    ensures EvalExpr(Ascii("replace(") + b) == Some((ReplaceAll(s, p, [c]), rest))
  {
    hide Skip, ReadArguments, Arguments, ReplaceAll;
    assert (Ascii("replace(") + b)[0] == 114;
    hide Ascii;
    SkipOver(Ascii("replace("), b);
    ReadArgumentsOf(p, c, rest);
  }

  lemma {:induction false} MarkedSame(z: seq<byte>, c: byte, d: byte)
    ensures Marked(z, c, [c], d, [d]) == z
  {
    if z == [] {
    } else {
      MarkedSame(z[1..], c, d);
    }
  }

  lemma {:induction false} MarkedAbsent(z: seq<byte>, c: byte, p: seq<byte>, d: byte, q: seq<byte>)
    ensures c !in z ==> Marked(z, c, p, d, q) == Marked(z, c, [c], d, q)
    ensures d !in z ==> Marked(z, c, p, d, q) == Marked(z, c, p, d, [d])
  {
    if z == [] {
    } else {
      MarkedAbsent(z[1..], c, p, d, q);
    }
  }

  lemma {:induction false} MarkedSwap(z: seq<byte>, c: byte, p: seq<byte>, d: byte, q: seq<byte>)
    requires c != d
    ensures Marked(z, c, p, d, q) == Marked(z, d, q, c, p)
  {
    if z == [] {
    } else {
      MarkedSwap(z[1..], c, p, d, q);
    }
  }

  lemma MarkTexts()
    ensures Ascii("\\n") == [92, 110] && Ascii("\\012") == [92, 48, 49, 50]
    ensures Ascii("\\r") == [92, 114] && Ascii("\\015") == [92, 48, 49, 53]
  {
  }

  lemma MarksOf(z: seq<byte>)
    ensures NL in z ==> IsMark(MarkNL(z), 110, 50) && !Occurs(z, MarkNL(z))
    ensures CR in z ==> IsMark(MarkCR(z), 114, 53) && !Occurs(z, MarkCR(z))
    ensures QUOTE !in MarkNL(z) && QUOTE !in MarkCR(z)
  {
    hide Candidate, FirstFree, Occurs;
    MarkTexts();
    hide Ascii;
    if NL in z {
      MarkForm(MarkNL(z), 110, 50);
    }
    if CR in z {
      MarkForm(MarkCR(z), 114, 53);
    }
  }

  /** Undoing the carriage returns, then the newlines, of the marked string. */
  lemma UnmarkBoth(z: seq<byte>)
    ensures var s := Marked(z, CR, MarkCR(z), NL, MarkNL(z));
            var t := if CR in z then ReplaceAll(s, MarkCR(z), [CR]) else s;
            z == if NL in z then ReplaceAll(t, MarkNL(z), [NL]) else t
  {
    var nl, cr := MarkNL(z), MarkCR(z);
    MarksOf(z);
    MarkedSame(z, CR, NL);
    MarkedAbsent(z, CR, cr, NL, nl);
    MarkedAbsent(z, CR, [CR], NL, nl);
    if CR in z {
      if NL in z {
        MarksAreClean(cr, 114, 53, nl, 110, 50);
        Unmark(z, CR, cr, NL, nl);
      } else {
        MarkIsClean(cr, 114, 53, NL);
        Unmark(z, CR, cr, NL, [NL]);
      }
    }
    if NL in z {
      MarkIsClean(nl, 110, 50, CR);
      MarkedSwap(z, CR, [CR], NL, nl);
      MarkedSame(z, NL, CR);
      Unmark(z, NL, nl, CR, [CR]);
    }
  }

  /** The literal that stands inside all calls. */
  function Literal(z: seq<byte>): seq<byte> {
    [QUOTE] + (Body(z, MarkNL(z), MarkCR(z)) + [QUOTE])
  }

  lemma EvalLiteral(z: seq<byte>, rest: seq<byte>)
    requires rest == [] || rest[0] != QUOTE
    ensures EvalExpr(Literal(z) + rest) == Some((Marked(z, CR, MarkCR(z), NL, MarkNL(z)), rest))
  {
    hide Body, MarkNL, MarkCR, ReadLiteral, Marked;
    MarksOf(z);
    ReadBody(z, MarkNL(z), MarkCR(z), rest);
    assert (Literal(z) + rest)[1..] == Body(z, MarkNL(z), MarkCR(z)) + [QUOTE] + rest;
  }

  lemma ArgumentsText(p: seq<byte>, rest: seq<byte>)
    ensures Arguments(p, CR, rest) == Ascii(",'") + p + Ascii("',char(13))") + rest
    ensures Arguments(p, NL, rest) == Ascii(",'") + p + Ascii("',char(10))") + rest
  {
    hide Ascii, Digits;
    CallTexts();
    Regroup(Ascii(",'"), p, Ascii(","), Ascii("char("), Digits(CR), Ascii("))"), rest);
    Regroup(Ascii(",'"), p, Ascii(","), Ascii("char("), Digits(NL), Ascii("))"), rest);
  }

  lemma CallTexts()
    ensures [QUOTE] + Ascii(",") + Ascii("char(") + Digits(CR) + Ascii("))") == Ascii("',char(13))")
    ensures [QUOTE] + Ascii(",") + Ascii("char(") + Digits(NL) + Ascii("))") == Ascii("',char(10))")
  {
    assert Digits(1) == [49];
    assert Digits(CR) == [49, 51] && Digits(NL) == [49, 48];
  }

  lemma Regroup(a: seq<byte>, p: seq<byte>, b: seq<byte>, c: seq<byte>, d: seq<byte>, e: seq<byte>, rest: seq<byte>)
    ensures a + (p + ([QUOTE] + (b + (c + (d + (e + rest)))))) == a + p + ([QUOTE] + b + c + d + e) + rest
  {
  }

  /** The printed text as nested calls. */
  function Nested(z: seq<byte>): seq<byte> {
    var outer := if NL in z then Arguments(MarkNL(z), NL, []) else [];
    var inner := if CR in z then Ascii("replace(") + (Literal(z) + Arguments(MarkCR(z), CR, outer))
                 else Literal(z) + outer;
    if NL in z then Ascii("replace(") + inner else inner
  }

  lemma PrintedIsNested(z: seq<byte>)
    ensures Printed(z) == Nested(z)
  {
    hide Body, MarkNL, MarkCR, Arguments, Closing, Opening, Literal, Ascii;
    LiteralText(z);
    if Plain(z) {
      ConcatEmpty(Literal(z));
    } else {
      var x := Literal(z) + Closing(z);
      OpeningText(z, x);
      ClosingText(z);
    }
  }

  lemma ConcatEmpty(a: seq<byte>)
    ensures a + [] == a
  {
  }

  lemma LiteralText(z: seq<byte>)
    ensures Plain(z) ==> Ascii("'") + z + Ascii("'") == Literal(z)
    ensures Opening(z) + Ascii("'") + Body(z, MarkNL(z), MarkCR(z)) + Ascii("'") + Closing(z)
         == Opening(z) + (Literal(z) + Closing(z))
  {
    hide Body, MarkNL, MarkCR, Closing, Opening;
    assert Ascii("'") == [QUOTE];
    if Plain(z) {
      BodyPlain(z, MarkNL(z), MarkCR(z));
    }
  }

  lemma OpeningText(z: seq<byte>, x: seq<byte>)
    ensures Opening(z) + x
         == var y := if CR in z then Ascii("replace(") + x else x;
            if NL in z then Ascii("replace(") + y else y
  {
    hide Ascii;
    var r := Ascii("replace(");
    assert r + r + x == r + (r + x);
    assert [] + x == x && [] + r + x == r + x && r + [] + x == r + x && [] + [] + x == x;
  }

  lemma ClosingText(z: seq<byte>)
    ensures Closing(z) == var outer := if NL in z then Arguments(MarkNL(z), NL, []) else [];
                          if CR in z then Arguments(MarkCR(z), CR, outer) else outer
  {
    hide Arguments, MarkNL, MarkCR, Ascii;
    var outer := if NL in z then Arguments(MarkNL(z), NL, []) else [];
    ArgumentsText(MarkNL(z), []);
    ArgumentsText(MarkCR(z), outer);
  }

  /** Every string comes back from the SQL text that is printed for it. */
  lemma PrintedEvaluates(z: seq<byte>)
    ensures Eval(Printed(z)) == Some(z)
  {
    hide EvalExpr, Marked, MarkNL, MarkCR, ReplaceAll, Printed, Arguments, Literal, Ascii;
    var nl, cr := MarkNL(z), MarkCR(z);
    var s := Marked(z, CR, cr, NL, nl);
    var outer := if NL in z then Arguments(nl, NL, []) else [];
    var closing := if CR in z then Arguments(cr, CR, outer) else outer;
    PrintedIsNested(z);
    UnmarkBoth(z);
    MarksOf(z);
    MarksNonEmpty(z);
    ArgumentsStart(nl, NL, []);
    ArgumentsStart(cr, CR, outer);
    EvalLiteral(z, closing);
    var inner := Literal(z) + closing;
    if CR in z {
      EvalReplace(inner, s, cr, CR, outer);
    }
    if NL in z {
      var t := if CR in z then ReplaceAll(s, cr, [CR]) else s;
      EvalReplace(if CR in z then Ascii("replace(") + inner else inner, t, nl, NL, []);
    }
  }

  lemma MarksNonEmpty(z: seq<byte>)
    ensures NL in z ==> MarkNL(z) != []
    ensures CR in z ==> MarkCR(z) != []
  {
    MarksOf(z);
    if NL in z {
      MarkForm(MarkNL(z), 110, 50);
    }
    if CR in z {
      MarkForm(MarkCR(z), 114, 53);
    }
  }

  lemma ArgumentsStart(p: seq<byte>, c: byte, rest: seq<byte>)
    ensures Arguments(p, c, rest) != [] && Arguments(p, c, rest)[0] != QUOTE
  {
  }

  // ----- the placeholders

  predicate StandsAt(z: seq<byte>, p: seq<byte>, k: nat) {
    k + |p| <= |z| && z[k..k + |p|] == p
  }

  /** p stands somewhere in z. */
  predicate Contains(z: seq<byte>, p: seq<byte>) {
    exists k :: 0 <= k <= |z| && StandsAt(z, p, k)
  }

  lemma {:induction false} OccursExactly(z: seq<byte>, p: seq<byte>)
    ensures Occurs(z, p) <==> Contains(z, p)
  {
    assert p <= z <==> StandsAt(z, p, 0);
    if z != [] {
      OccursExactly(z[1..], p);
      forall k | 0 <= k <= |z[1..]|
        ensures StandsAt(z[1..], p, k) <==> StandsAt(z, p, k + 1)
      {
        assert k + |p| < |z| ==> z[1..][k..k + |p|] == z[k + 1..k + 1 + |p|];
      }
      if k :| 0 <= k <= |z| && StandsAt(z, p, k) {
        assert k > 0 ==> StandsAt(z[1..], p, k - 1);
      }
    }
  }

  /** p is "(" + zA + i + ")" for the first number i for which z does not contain it. */
  ghost predicate FirstNumbered(z: seq<byte>, zA: seq<byte>, p: seq<byte>) {
    exists i: nat :: p == [40] + zA + Digits(i) + [41] && AllContained(z, zA, i)
  }

  ghost predicate AllContained(z: seq<byte>, zA: seq<byte>, i: nat) {
    forall j: nat :: j < i ==> Contains(z, [40] + zA + Digits(j) + [41])
  }

  /** The first form that the string does not contain: the short one, the octal one, or one with a number. */
  ghost predicate ChosenFor(z: seq<byte>, zA: seq<byte>, zB: seq<byte>, p: seq<byte>) {
    && !Contains(z, p)
    && (!Contains(z, zA) ==> p == zA)
    && (Contains(z, zA) && !Contains(z, zB) ==> p == zB)
    && (Contains(z, zA) && Contains(z, zB) ==> FirstNumbered(z, zA, p))
  }

  /** \n, \012 and the numbered forms for line feeds; \r, \015 and theirs for carriage returns. */
  lemma PlaceholdersChosen(z: seq<byte>)
    ensures 10 in z ==> ChosenFor(z, [92, 110], [92, 48, 49, 50], MarkNL(z))
    ensures 13 in z ==> ChosenFor(z, [92, 114], [92, 48, 49, 53], MarkCR(z))
  {
    hide Unused, ChosenFor;
    MarkTexts();
    UnusedChosen(z, [92, 110], [92, 48, 49, 50]);
    UnusedChosen(z, [92, 114], [92, 48, 49, 53]);
  }

  lemma UnusedChosen(z: seq<byte>, zA: seq<byte>, zB: seq<byte>)
    ensures ChosenFor(z, zA, zB, Unused(z, zA, zB))
  {
    hide Contains, Occurs;
    var p := Unused(z, zA, zB);
    OccursExactly(z, zA);
    OccursExactly(z, zB);
    OccursExactly(z, p);
    if Occurs(z, zA) && Occurs(z, zB) {
      var i := FirstFree(z, zA, 0);
      forall j: nat | j <= i
        ensures Candidate(zA, j) == [40] + zA + Digits(j) + [41]
        ensures j < i ==> Contains(z, Candidate(zA, j))
      {
        OccursExactly(z, Candidate(zA, j));
      }
      assert AllContained(z, zA, i);
    }
  }

  predicate SingleLine(b: seq<byte>) {
    forall i :: 0 <= i < |b| ==> b[i] != 10 && b[i] != 13
  }

  lemma {:induction false} BodySingleLine(z: seq<byte>, nl: seq<byte>, cr: seq<byte>)
    requires SingleLine(nl) && SingleLine(cr)
    ensures SingleLine(Body(z, nl, cr))
  {
    if z == [] {
    } else {
      BodySingleLine(z[1..], nl, cr);
    }
  }

  lemma MarkSingleLine(p: seq<byte>, letter: byte, octal: byte)
    requires IsMark(p, letter, octal) && letter > 13 && octal > 13
    ensures SingleLine(p)
  {
    MarkForm(p, letter, octal);
  }

  lemma MarksSingleLine(z: seq<byte>)
    ensures SingleLine(MarkNL(z)) && SingleLine(MarkCR(z))
  {
    hide IsMark, MarkNL, MarkCR;
    MarksOf(z);
    if NL in z {
      MarkSingleLine(MarkNL(z), 110, 50);
    } else {
      NoMarks(z);
    }
    if CR in z {
      MarkSingleLine(MarkCR(z), 114, 53);
    } else {
      NoMarks(z);
    }
  }

  lemma NoMarks(z: seq<byte>)
    ensures (NL !in z ==> MarkNL(z) == []) && (CR !in z ==> MarkCR(z) == [])
  {
  }

  lemma TextSingleLine(s: string)
    requires forall i :: 0 <= i < |s| ==> ' ' <= s[i] < 128 as char
    ensures SingleLine(Ascii(s))
  {
  }

  lemma FrameSingleLine(z: seq<byte>)
    ensures SingleLine(Opening(z)) && SingleLine(Closing(z)) && SingleLine(Ascii("'"))
  {
    hide Ascii, MarkNL, MarkCR;
    MarksSingleLine(z);
    TextSingleLine("replace(");
    TextSingleLine(",'");
    TextSingleLine("',char(13))");
    TextSingleLine("',char(10))");
    TextSingleLine("'");
  }

  /** Printed literals have no line end in them. */
  lemma PrintedSingleLine(z: seq<byte>)
    ensures SingleLine(Printed(z))
  {
    hide Body, Ascii, MarkNL, MarkCR, Opening, Closing;
    MarksSingleLine(z);
    FrameSingleLine(z);
    BodySingleLine(z, MarkNL(z), MarkCR(z));
  }

  /** A string without line ends is printed in quotes, with its quotes doubled. */
  lemma PrintedQuoted(z: seq<byte>)
    requires SingleLine(z)
    ensures Printed(z) == [39] + Doubled(z) + [39]
  {
    hide Body, Doubled;
    DoubledBody(z, [], []);
    assert NL !in z && CR !in z;
    assert Ascii("'") == [39];
    if Plain(z) {
      BodyPlain(z, [], []);
    } else {
      var lit := Ascii("'") + Doubled(z) + Ascii("'");
      assert Opening(z) == [] && Closing(z) == [];
      assert [] + Ascii("'") + Doubled(z) + Ascii("'") + [] == lit;
    }
  }

  function Doubled(z: seq<byte>): seq<byte> {
    if z == [] then [] else (if z[0] == 39 then [39, 39] else [z[0]]) + Doubled(z[1..])
  }

  lemma {:induction false} DoubledBody(z: seq<byte>, nl: seq<byte>, cr: seq<byte>)
    requires SingleLine(z)
    ensures Body(z, nl, cr) == Doubled(z)
  {
    if z == [] {
    } else {
      DoubledBody(z[1..], nl, cr);
    }
  }
}
