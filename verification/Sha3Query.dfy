/**
 * The byte stream that sha3_query hashes: tagged statements, rows and column values. The
 * stream is decoded again, so different query results never feed the hash the same bytes.
 */
module Sha3Query {
  import opened Bytes
  import opened Ctype
  import opened BigEndians
  import opened Options
  import opened Decimal
  import opened Sponge
  import opened Sha3Hash
  import Texts

  /** The bit pattern of a 64-bit word. */
  type word = n: nat | n < 0x1_0000_0000_0000_0000

  type int64 = v: int | -0x8000_0000_0000_0000 <= v < 0x8000_0000_0000_0000

  /** Content whose length is a C int. */
  type Content = s: seq<byte> | |s| < 0x8000_0000

  /** A column value; a float is its IEEE bit pattern. */
  datatype Value = Null | Integer(v: int64) | Float(bits: word) | Text(text: Content) | Blob(blob: Content)

  type Row = seq<Value>

  datatype Statement = Statement(sql: Content, rows: seq<Row>)

  const TAG_S: byte := 'S' as int
  const TAG_R: byte := 'R' as int
  const TAG_N: byte := 'N' as int
  const TAG_I: byte := 'I' as int
  const TAG_F: byte := 'F' as int
  const TAG_T: byte := 'T' as int
  const TAG_B: byte := 'B' as int
  const COLON: byte := ':' as int

  /** memcpy of a signed 64-bit integer into an unsigned one. */
  function Unsigned(v: int64): word {
    if v < 0 then v + 0x1_0000_0000_0000_0000 else v
  }

  function Signed(u: word): int64 {
    if u >= 0x8000_0000_0000_0000 then u - 0x1_0000_0000_0000_0000 else u
  }

  // ----- what is hashed

  /** hash_step_vformat with the format "<tag>%d:", before its 50-byte buffer cuts it. */
  function Sized(tag: byte, n: nat): seq<byte> {
    [tag] + Digits(n) + [COLON]
  }

  function EncodeValue(v: Value): seq<byte> {
    match v
    case Null => [TAG_N]
    case Integer(i) => [TAG_I] + BigEndian(Unsigned(i), 8)
    case Float(u) => [TAG_F] + BigEndian(u, 8)
    case Text(t) => Sized(TAG_T, |t|) + t
    case Blob(b) => Sized(TAG_B, |b|) + b
  }

  function EncodeValues(r: Row): seq<byte> {
    if r == [] then [] else EncodeValue(r[0]) + EncodeValues(r[1..])
  }

  function EncodeRows(rows: seq<Row>): seq<byte> {
    if rows == [] then [] else [TAG_R] + EncodeValues(rows[0]) + EncodeRows(rows[1..])
  }

  function EncodeStatement(s: Statement): seq<byte> {
    Sized(TAG_S, |s.sql|) + s.sql + EncodeRows(s.rows)
  }

  function Encode(q: seq<Statement>): seq<byte> {
    if q == [] then [] else EncodeStatement(q[0]) + Encode(q[1..])
  }

  // ----- reading it back

  /** A decimal length ended by ':' and that many bytes: the bytes and what follows them. */
  function DecodeSized(b: seq<byte>): (r: Option<(Content, seq<byte>)>)
    ensures r.Some? ==> |r.value.1| < |b|
  {
    var k := DigitSpan(b);
    if k == |b| || b[k] != COLON then None else
    var n := ValueOf(b[..k]);
    if k + 1 + n > |b| || n >= 0x8000_0000 then None else Some((b[k + 1..k + 1 + n], b[k + 1 + n..]))
  }

  function DecodeValue(b: seq<byte>): (r: Option<(Value, seq<byte>)>)
    ensures r.Some? ==> |r.value.1| < |b|
  {
    if b == [] then None
    else if b[0] == TAG_N then Some((Null, b[1..]))
    else if (b[0] == TAG_I || b[0] == TAG_F) && |b| >= 9 then
      var u := FromBigEndian(b[1..9]);
      if u >= 0x1_0000_0000_0000_0000 then None
      else Some((if b[0] == TAG_I then Integer(Signed(u)) else Float(u), b[9..]))
    else if b[0] == TAG_T || b[0] == TAG_B then
      match DecodeSized(b[1..])
      case Some((t, rest)) => Some((if b[0] == TAG_T then Text(t) else Blob(t), rest))
      case None => None
    else None
  }

  /** Values up to the next tag R or S, or the end. */
  function DecodeValues(b: seq<byte>): (r: Option<(Row, seq<byte>)>)
    ensures r.Some? ==> |r.value.1| <= |b|
    decreases |b|
  {
    if b == [] || b[0] == TAG_R || b[0] == TAG_S then Some(([], b)) else
    match DecodeValue(b)
    case None => None
    case Some((v, rest)) =>
      match DecodeValues(rest)
      case None => None
      case Some((r, rest')) => Some(([v] + r, rest'))
  }

  function DecodeRows(b: seq<byte>): (r: Option<(seq<Row>, seq<byte>)>)
    ensures r.Some? ==> |r.value.1| <= |b|
    decreases |b|
  {
    if b == [] || b[0] != TAG_R then Some(([], b)) else
    match DecodeValues(b[1..])
    case None => None
    case Some((row, rest)) =>
      match DecodeRows(rest)
      case None => None
      case Some((rows, rest')) => Some(([row] + rows, rest'))
  }

  function Decode(b: seq<byte>): Option<seq<Statement>>
    decreases |b|
  {
    if b == [] then Some([])
    else if b[0] != TAG_S then None else
    match DecodeSized(b[1..])
    case None => None
    case Some((sql, rest)) =>
      match DecodeRows(rest)
      case None => None
      case Some((rows, rest')) =>
        match Decode(rest')
        case None => None
        case Some(q) => Some([Statement(sql, rows)] + q)
  }

  // ----- decoding inverts encoding

  lemma SizedRoundTrip(tag: byte, t: Content, rest: seq<byte>)
    ensures var b := Sized(tag, |t|) + t + rest;
            b[0] == tag && DecodeSized(b[1..]) == Some((t, rest))
  {
    var b := (Sized(tag, |t|) + t + rest)[1..];
    var d := Digits(|t|);
    assert b == d + ([COLON] + t + rest);
    DigitSpanOf(d, [COLON] + t + rest);
    ValueOfDigits(|t|);
    assert b[..|d|] == d;
    assert b[|d| + 1..|d| + 1 + |t|] == t;
    assert b[|d| + 1 + |t|..] == rest;
  }

  lemma FixedRoundTrip(tag: byte, u: word, rest: seq<byte>)
    ensures var b := [tag] + BigEndian(u, 8) + rest;
            FromBigEndian(b[1..9]) == u && b[9..] == rest
  {
    assert Pow256(8) == 0x1_0000_0000_0000_0000;
    BigEndianRoundTrip(u, 8);
    var b := [tag] + BigEndian(u, 8) + rest;
    assert b[1..9] == BigEndian(u, 8);
  }

  lemma ValueRoundTrip(v: Value, rest: seq<byte>)
    ensures DecodeValue(EncodeValue(v) + rest) == Some((v, rest))
    ensures (EncodeValue(v) + rest)[0] !in {TAG_R, TAG_S}
  {
    hide FromBigEndian, BigEndian, DecodeSized, Digits;
    match v
    case Null =>
      assert (EncodeValue(v) + rest)[1..] == rest;
    case Integer(i) =>
      FixedRoundTrip(TAG_I, Unsigned(i), rest);
    case Float(u) =>
      FixedRoundTrip(TAG_F, u, rest);
    case Text(t) =>
      var b := EncodeValue(v) + rest;
      SizedRoundTrip(TAG_T, t, rest);
      assert b[0] == TAG_T && DecodeSized(b[1..]) == Some((t, rest));
    case Blob(t) =>
      var b := EncodeValue(v) + rest;
      SizedRoundTrip(TAG_B, t, rest);
      assert b[0] == TAG_B && DecodeSized(b[1..]) == Some((t, rest));
  }

  lemma {:induction false} ValuesRoundTrip(r: Row, rest: seq<byte>)
    requires rest == [] || rest[0] == TAG_R || rest[0] == TAG_S
    ensures DecodeValues(EncodeValues(r) + rest) == Some((r, rest))
  {
    hide DecodeValue, EncodeValue;
    if r == [] {
      assert EncodeValues(r) + rest == rest;
    } else {
      ValuesRoundTrip(r[1..], rest);
      ValueRoundTrip(r[0], EncodeValues(r[1..]) + rest);
      assert EncodeValues(r) + rest == EncodeValue(r[0]) + (EncodeValues(r[1..]) + rest);
      assert [r[0]] + r[1..] == r;
    }
  }

  lemma {:induction false} RowsRoundTrip(rows: seq<Row>, rest: seq<byte>)
    requires rest == [] || rest[0] == TAG_S
    ensures DecodeRows(EncodeRows(rows) + rest) == Some((rows, rest))
  {
    hide DecodeValues, EncodeValues;
    if rows == [] {
      assert EncodeRows(rows) + rest == rest;
    } else {
      RowsRoundTrip(rows[1..], rest);
      RowsStart(rows[1..], rest);
      RowRoundTrip(rows[0], EncodeRows(rows[1..]) + rest);
      assert EncodeRows(rows) + rest == [TAG_R] + EncodeValues(rows[0]) + (EncodeRows(rows[1..]) + rest);
      assert [rows[0]] + rows[1..] == rows;
    }
  }

  lemma RowsStart(rows: seq<Row>, rest: seq<byte>)
    requires rest == [] || rest[0] == TAG_S
    ensures var b := EncodeRows(rows) + rest;
            b == [] || b[0] == TAG_R || b[0] == TAG_S
  {
  }

  lemma RowRoundTrip(r: Row, rest: seq<byte>)
    requires rest == [] || rest[0] == TAG_R || rest[0] == TAG_S
    ensures var b := [TAG_R] + EncodeValues(r) + rest;
            b[0] == TAG_R && DecodeValues(b[1..]) == Some((r, rest))
  {
    hide DecodeValues, EncodeValues;
    ValuesRoundTrip(r, rest);
    assert ([TAG_R] + EncodeValues(r) + rest)[1..] == EncodeValues(r) + rest;
  }

  /** The stream determines the statements, rows and values. */
  lemma {:induction false} DecodeEncode(q: seq<Statement>)
    ensures Decode(Encode(q)) == Some(q)
  {
    hide DecodeRows, EncodeRows, DecodeSized, Digits;
    if q == [] {
    } else {
      DecodeEncode(q[1..]);
      var s := q[0];
      var tail := Encode(q[1..]);
      EncodeStart(q[1..]);
      SizedRoundTrip(TAG_S, s.sql, EncodeRows(s.rows) + tail);
      RowsRoundTrip(s.rows, tail);
      var b := Encode(q);
      assert b == Sized(TAG_S, |s.sql|) + s.sql + (EncodeRows(s.rows) + tail);
      assert b[0] == TAG_S && DecodeSized(b[1..]) == Some((s.sql, EncodeRows(s.rows) + tail));
      assert s == Statement(s.sql, s.rows);
      assert [s] + q[1..] == q;
    }
  }

  lemma EncodeStart(q: seq<Statement>)
    ensures Encode(q) == [] || Encode(q)[0] == TAG_S
  {
  }

  /** The message of the hash, a string of bits, determines them as well. */
  lemma EncodeInjective(p: seq<Statement>, q: seq<Statement>)
    requires ToBits(Encode(p)) == ToBits(Encode(q))
    ensures p == q
  {
    ToBitsInjective(Encode(p), Encode(q));
    DecodeEncode(p);
    DecodeEncode(q);
  }

  // ----- feeding the stream to the hash

  /**
   * What sqlite3_prepare_v2 makes of the next statement of the script, and its result rows. For
   * whitespace or a comment at the end it makes no statement; the length of its text is then asked
   * for at a null pointer, which C does not define.
   */
  datatype Prepared = Ready(s: Statement) | Invalid | NotReadOnly | Empty

  datatype QueryResult = Hash(bytes: seq<byte>) | Error | NoResult | Undefined

  /** The statements before the first one that is refused. */
  function Accepted(script: seq<Prepared>): seq<Statement> {
    if script == [] || !script[0].Ready? then [] else [script[0].s] + Accepted(script[1..])
  }

  /** The first of them that is not hashed. */
  function FirstOther(script: seq<Prepared>): Option<Prepared> {
    if script == [] then None
    else if script[0].Ready? then FirstOther(script[1..])
    else Some(script[0])
  }

  /** What sqlite3_vsnprintf leaves of a text in a buffer of n bytes, without the final NUL. */
  function Printed(b: seq<byte>, n: nat): seq<byte>
    requires n > 0
  {
    if |b| < n then b else b[..n - 1]
  }

  /** hash_step_vformat: a buffer of 50 bytes holds "<tag>%d:" for every int. */
  method HashStepVFormat(cx: SHA3Context, tag: byte, n: nat)
    requires cx.Valid() && n < 0x8000_0000
    modifies cx, cx.s
    ensures cx.Valid() && cx.nRate == old(cx.nRate) && cx.msg == old(cx.msg) + Sized(tag, n)
  {
    hide SHA3Context.Valid;
    assert Pow10(10) == 1_00000_00000;
    DigitsLength(n, 10);
    var aligned := *;
    cx.Update(Printed(Sized(tag, n), 50), aligned);
  }

  /** The nine bytes of an I or F value, filled from the back. */
  method TaggedWord(tag: byte, v: word) returns (x: seq<byte>)
    ensures x == [tag] + BigEndian(v, 8)
  {
    var a := new byte[9];
    var u: nat := v;
    var j := 8;
    while j >= 1
      invariant 0 <= j <= 8
      invariant BigEndian(v, 8) == BigEndian(u, j) + a[j + 1..]
    {
      a[j] := u % 256;
      assert a[j..] == [a[j]] + a[j + 1..];
      u := u / 256;
      j := j - 1;
    }
    a[0] := tag;
    x := a[..];
  }

  method HashValue(cx: SHA3Context, v: Value)
    requires cx.Valid()
    modifies cx, cx.s
    ensures cx.Valid() && cx.nRate == old(cx.nRate) && cx.msg == old(cx.msg) + EncodeValue(v)
  {
    hide SHA3Context.Valid, BigEndian, Sized;
    var aligned := *;
    match v
    case Null =>
      cx.Update([TAG_N], aligned);
    case Integer(i) =>
      var x := TaggedWord(TAG_I, Unsigned(i));
      cx.Update(x, aligned);
    case Float(u) =>
      var x := TaggedWord(TAG_F, u);
      cx.Update(x, aligned);
    case Text(t) =>
      HashStepVFormat(cx, TAG_T, |t|);
      cx.Update(t, aligned);
    case Blob(t) =>
      HashStepVFormat(cx, TAG_B, |t|);
      cx.Update(t, aligned);
  }

  method HashRow(cx: SHA3Context, r: Row)
    requires cx.Valid()
    modifies cx, cx.s
    ensures cx.Valid() && cx.nRate == old(cx.nRate) && cx.msg == old(cx.msg) + [TAG_R] + EncodeValues(r)
  {
    hide EncodeValue, SHA3Context.Valid;
    var aligned := *;
    cx.Update([TAG_R], aligned);
    var i := 0;
    while i < |r|
      invariant 0 <= i <= |r| && cx.Valid() && cx.nRate == old(cx.nRate)
      invariant cx.msg == old(cx.msg) + [TAG_R] + EncodeValues(r[..i])
    {
      HashValue(cx, r[i]);
      EncodeValuesAppend(r[..i], r[i]);
      assert r[..i + 1] == r[..i] + [r[i]];
      i := i + 1;
    }
    assert r[..i] == r;
  }

  lemma {:induction false} EncodeValuesAppend(r: Row, v: Value)
    ensures EncodeValues(r + [v]) == EncodeValues(r) + EncodeValue(v)
  {
    hide EncodeValue;
    if r == [] {
      assert r + [v] == [v] && [v][1..] == [];
      assert EncodeValue(v) + [] == EncodeValue(v) == [] + EncodeValue(v);
    } else {
      EncodeValuesAppend(r[1..], v);
      assert (r + [v])[1..] == r[1..] + [v];
      Texts.Assoc(EncodeValue(r[0]), EncodeValues(r[1..]), EncodeValue(v));
    }
  }

  /** A decimal numeral: the digits spell n, and there is no zero in front. */
  predicate IsNumeral(d: seq<byte>, n: nat) {
    && d != [] && (forall i :: 0 <= i < |d| ==> IsDigit(d[i])) && ValueOf(d) == n
    && (n == 0 ==> d == [48]) && (n > 0 ==> d[0] != 48)
  }

  /** The comment of the code: N, I with a little-endian integer, F with one, T or B with size, colon and content. */
  ghost predicate IsDocumented(v: Value, b: seq<byte>) {
    match v
    case Null => b == [78]
    case Integer(i) => b == [73] + LittleEndian(if i < 0 then i + 0x1_0000_0000_0000_0000 else i, 8)
    case Float(u) => b == [70] + LittleEndian(u, 8)
    case Text(t) => exists d :: IsNumeral(d, |t|) && b == [84] + d + [58] + t
    case Blob(t) => exists d :: IsNumeral(d, |t|) && b == [66] + d + [58] + t
  }

  lemma NumeralOf(n: nat)
    ensures IsNumeral(Digits(n), n)
  {
    ValueOfDigits(n);
    DigitsForm(n);
  }

  /** The segments: S with size, colon and text of a statement; R in front of the values of each row, in order. */
  lemma Segments(s: Statement)
    ensures IsNumeral(Digits(|s.sql|), |s.sql|)
    ensures EncodeStatement(s) == [83] + Digits(|s.sql|) + [58] + s.sql + EncodeRows(s.rows)
    ensures EncodeRows(s.rows) == if s.rows == [] then [] else [82] + EncodeValues(s.rows[0]) + EncodeRows(s.rows[1..])
  {
    NumeralOf(|s.sql|);
  }

  /** The code writes the high byte first: it meets the comment just for words whose bytes read the same in both directions. */
  lemma ValueAsDocumented(v: Value)
    ensures IsDocumented(v, EncodeValue(v)) <==>
            match v
            case Integer(i) => IsPalindrome(LittleEndian(Unsigned(i), 8))
            case Float(u) => IsPalindrome(LittleEndian(u, 8))
            case _ => true
  {
    hide BigEndian, LittleEndian, IsPalindrome, IsNumeral;
    match v
    case Text(t) =>
      NumeralOf(|t|);
    case Blob(t) =>
      NumeralOf(|t|);
    case Integer(i) =>
      EndiansAgree(Unsigned(i), 8);
      SameTail(TAG_I, BigEndian(Unsigned(i), 8), LittleEndian(Unsigned(i), 8));
    case Float(u) =>
      EndiansAgree(u, 8);
      SameTail(TAG_F, BigEndian(u, 8), LittleEndian(u, 8));
    case _ =>
  }

  lemma SameTail(tag: byte, a: seq<byte>, b: seq<byte>)
    ensures [tag] + a == [tag] + b <==> a == b
  {
    assert ([tag] + a)[1..] == a && ([tag] + b)[1..] == b;
  }

  lemma IntegerOne()
    ensures EncodeValue(Integer(1)) == [TAG_I, 0, 0, 0, 0, 0, 0, 0, 1]
    ensures IsDocumented(Integer(1), [TAG_I, 1, 0, 0, 0, 0, 0, 0, 0])
  {
    assert BigEndian(0, 4) == LittleEndian(0, 4) == [0, 0, 0, 0];
    assert BigEndian(0, 7) == LittleEndian(0, 7) == [0, 0, 0, 0, 0, 0, 0];
  }

  lemma {:induction false} EncodeRowsAppend(rows: seq<Row>, r: Row)
    ensures EncodeRows(rows + [r]) == EncodeRows(rows) + [TAG_R] + EncodeValues(r)
  {
    hide EncodeValues;
    if rows == [] {
      assert [r][1..] == [];
    } else {
      EncodeRowsAppend(rows[1..], r);
      assert (rows + [r])[1..] == rows[1..] + [r];
    }
  }

  lemma {:induction false} EncodeAppend(q: seq<Statement>, s: Statement)
    ensures Encode(q + [s]) == Encode(q) + EncodeStatement(s)
  {
    hide EncodeStatement;
    if q == [] {
      assert [s][1..] == [];
    } else {
      EncodeAppend(q[1..], s);
      assert (q + [s])[1..] == q[1..] + [s];
    }
  }

  method HashStatement(cx: SHA3Context, s: Statement)
    requires cx.Valid()
    modifies cx, cx.s
    ensures cx.Valid() && cx.nRate == old(cx.nRate) && cx.msg == old(cx.msg) + EncodeStatement(s)
  {
    hide SHA3Context.Valid, EncodeValues, Sized;
    var aligned := *;
    HashStepVFormat(cx, TAG_S, |s.sql|);
    cx.Update(s.sql, aligned);
    ghost var head := cx.msg;
    var i := 0;
    while i < |s.rows|
      invariant 0 <= i <= |s.rows| && cx.Valid() && cx.nRate == old(cx.nRate)
      invariant cx.msg == head + EncodeRows(s.rows[..i])
    {
      HashRow(cx, s.rows[i]);
      EncodeRowsAppend(s.rows[..i], s.rows[i]);
      assert s.rows[..i + 1] == s.rows[..i] + [s.rows[i]];
      i := i + 1;
    }
    assert s.rows[..i] == s.rows;
  }

  /** sha3QueryFunc: script is absent for a NULL argument, size in the one-argument form. */
  method Sha3QueryFunc(order: ByteOrder, script: Option<seq<Prepared>>, size: Option<int>) returns (r: QueryResult)
    ensures var iSize := if size.Some? then size.value else 256;
            if iSize !in {224, 256, 384, 512} then r == Error
            else if script.None? then r == NoResult
            else if FirstOther(script.value).Some? then
              r == if FirstOther(script.value).value.Empty? then Undefined else Error
            else r.Hash? && ToBits(r.bytes) == Sha3(ToBits(Encode(Accepted(script.value))), iSize)
  {
    hide ToBits, Sha3, SpongeOutput, SHA3Context.Valid, EncodeStatement;
    var iSize := 256;
    if size.Some? {
      iSize := size.value;
      if iSize != 224 && iSize != 256 && iSize != 384 && iSize != 512 {
        return Error;
      }
    }
    if script.None? {
      return NoResult;
    }
    var zSql := script.value;
    var cx := new SHA3Context(order, iSize);
    ghost var done: seq<Statement> := [];
    while zSql != []
      invariant cx.Valid() && fresh(cx) && fresh(cx.s)
      invariant 8 * cx.nRate == 8 * ((1600 - (iSize + 31) / 32 * 32 * 2) / 8)
      invariant cx.msg == Encode(done)
      invariant FirstOther(script.value) == FirstOther(zSql)
      invariant Accepted(script.value) == done + Accepted(zSql)
    {
      if zSql[0].Empty? {
        return Undefined;
      }
      if !zSql[0].Ready? {
        return Error;
      }
      HashStatement(cx, zSql[0].s);
      EncodeAppend(done, zSql[0].s);
      done := done + [zSql[0].s];
      zSql := zSql[1..];
    }
    assert done == Accepted(script.value);
    var aligned := *;
    var digest := cx.Final(aligned);
    HashRate(iSize);
    DigestPrefix(ToBits(Encode(done)), iSize, cx.nRate, digest);
    r := QueryResult.Hash(digest[..iSize / 8]);
  }
}
