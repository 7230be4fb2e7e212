/**
 * CSV output and import: what the shell prints for a table in CSV mode, its reader of single
 * fields, and the import loop. A printed table is imported unchanged.
 */
module Csv {
  import opened Bytes
  import opened Options
  import opened Texts

  /** A separator of the reader: one ASCII byte. */
  type Sep = c: byte | 0 < c < 128 witness 44

  const QUOTE: byte := 34
  const CR: byte := 13
  const LF: byte := 10
  const EOF := -1

  // ----- output_csv

  /** The table needCsvQuote. */
  predicate NeedCsvQuote(c: byte) {
    c <= 32 || c == 34 || c == 39 || c >= 127
  }

  /** Whether byte c makes output_csv quote the field z, for a column separator of any length. */
  predicate Triggers(z: Text, c: byte, colSeparator: Text) {
    NeedCsvQuote(c)
    || (colSeparator != [] && c == colSeparator[0] && (|colSeparator| == 1 || colSeparator <= z))
  }

  /** The conversion %w: quotes doubled. */
  function Doubled(z: Text): Text {
    if z == [] then [] else (if z[0] == QUOTE then [QUOTE, QUOTE] else [z[0]]) + Doubled(z[1..])
  }

  predicate IsPlain(z: Text, colSeparator: Text) {
    z != [] && forall i :: 0 <= i < |z| ==> !Triggers(z, z[i], colSeparator)
  }

  function Field(z: Text, colSeparator: Text): Text {
    if IsPlain(z, colSeparator) then z else [QUOTE] + Doubled(z) + [QUOTE]
  }

  /** output_csv for a value that is not NULL. */
  method OutputCsv(z: Text, bSep: bool, colSeparator: Text) returns (out: Text)
    ensures out == Field(z, colSeparator) + if bSep then colSeparator else []
  {
    var i := 0;
    while i < |z|
      invariant i <= |z| && forall j :: 0 <= j < i ==> !Triggers(z, z[j], colSeparator)
    {
      if Triggers(z, z[i], colSeparator) {
        assert !IsPlain(z, colSeparator);
        i := 0;
        break;
      }
      i := i + 1;
    }
    if i == 0 {
      out := [QUOTE] + Doubled(z) + [QUOTE];
    } else {
      out := z;
    }
    if bSep {
      out := out + colSeparator;
    } else {
      assert out + [] == out;
    }
  }

  /** One row: fields with separators between them, then the row separator. */
  function Line(row: seq<Text>, sep: Text, end: Text): Text {
    if row == [] then end
    else Field(row[0], sep) + ((if |row| > 1 then sep else []) + Line(row[1..], sep, end))
  }

  function Lines(rows: seq<seq<Text>>, sep: Text, end: Text): Text {
    if rows == [] then [] else Line(rows[0], sep, end) + Lines(rows[1..], sep, end)
  }

  class ShellState {
    var out: Text
    var cnt: nat
    var showHeader: bool
    const colSeparator: Text
    const rowSeparator: Text

    constructor (showHeader: bool, colSeparator: Text, rowSeparator: Text)
      ensures out == [] && cnt == 0 && this.showHeader == showHeader
      ensures this.colSeparator == colSeparator && this.rowSeparator == rowSeparator
    {
      out, cnt, this.showHeader := [], 0, showHeader;
      this.colSeparator, this.rowSeparator := colSeparator, rowSeparator;
    }

    method OutputRow(row: seq<Text>)
      modifies this`out
      ensures out == old(out) + Line(row, colSeparator, rowSeparator)
    {
      hide Line, Field;
      ghost var whole := old(out) + Line(row, colSeparator, rowSeparator);
      var i := 0;
      assert row[0..] == row;
      while i < |row|
        invariant i <= |row|
        invariant out + Line(row[i..], colSeparator, rowSeparator) == whole
      {
        LineStep(row, i, out, colSeparator, rowSeparator);
        var text := OutputCsv(row[i], i < |row| - 1, colSeparator);
        out := out + text;
        i := i + 1;
      }
      assert row[|row|..] == [];
      EmptyLine(colSeparator, rowSeparator);
      out := out + rowSeparator;
    }

    /** shell_callback in CSV mode, for column names and values that are not NULL. */
    method CallbackCsv(azCol: seq<Text>, azArg: seq<Text>)
      requires |azCol| == |azArg|
      modifies this`out, this`cnt
      ensures cnt == old(cnt) + 1
      ensures out == old(out) + (if old(cnt) == 0 && showHeader then Line(azCol, colSeparator, rowSeparator) else [])
                              + if azArg != [] then Line(azArg, colSeparator, rowSeparator) else []
    {
      hide Line;
      cnt := cnt + 1;
      if cnt - 1 == 0 && showHeader {
        OutputRow(azCol);
      }
      if |azArg| > 0 {
        OutputRow(azArg);
      }
    }
  }

  /** exec_prepared_stmt: the callback is called for every row of the result. */
  method ExecPreparedStmt(p: ShellState, azCols: seq<Text>, result: seq<seq<Text>>)
    requires azCols != [] && forall i :: 0 <= i < |result| ==> |result[i]| == |azCols|
    requires p.cnt == 0
    modifies p`out, p`cnt
    ensures result == [] ==> p.out == old(p.out)
    ensures result != [] ==>
      p.out == old(p.out) + (if p.showHeader then Line(azCols, p.colSeparator, p.rowSeparator) else [])
                          + Lines(result, p.colSeparator, p.rowSeparator)
  {
    hide Line, Lines;
    ghost var head := old(p.out) + if p.showHeader then Line(azCols, p.colSeparator, p.rowSeparator) else [];
    var i := 0;
    if result == [] {
      return;
    }
    NoLines(p.colSeparator, p.rowSeparator);
    while i < |result|
      invariant 0 <= i <= |result| && p.cnt == i
      invariant if i == 0 then p.out == old(p.out) else p.out == head + Lines(result[..i], p.colSeparator, p.rowSeparator)
    {
      LinesAppend(result, i, p.colSeparator, p.rowSeparator);
      p.CallbackCsv(azCols, result[i]);
      i := i + 1;
    }
    assert result[..i] == result;
  }

  lemma NoLines(sep: Text, end: Text)
    ensures Lines([], sep, end) == []
  {
  }

  lemma {:induction false} LinesAppend(rows: seq<seq<Text>>, i: nat, sep: Text, end: Text)
    requires i < |rows|
    ensures Lines(rows[..i + 1], sep, end) == Lines(rows[..i], sep, end) + Line(rows[i], sep, end)
  {
    hide Line;
    if i == 0 {
      assert rows[..1][1..] == [];
    } else {
      LinesAppend(rows[1..], i - 1, sep, end);
      assert rows[..i + 1][1..] == rows[1..][..i] && rows[..i][1..] == rows[1..][..i - 1];
    }
  }

  lemma EmptyLine(sep: Text, end: Text)
    ensures Line([], sep, end) == end
  {
  }

  lemma LineStep(row: seq<Text>, i: nat, out: Text, sep: Text, end: Text)
    requires i < |row|
    ensures out + Line(row[i..], sep, end)
         == out + (Field(row[i], sep) + (if i < |row| - 1 then sep else [])) + Line(row[i + 1..], sep, end)
  {
    hide Field;
    assert row[i..][1..] == row[i + 1..];
    Regroup(out, Field(row[i], sep), if i < |row| - 1 then sep else [], Line(row[i + 1..], sep, end));
  }

  lemma Regroup(a: Text, b: Text, c: Text, d: Text)
    ensures a + (b + (c + d)) == (a + (b + c)) + d
  {
  }

  // ----- what csv_read_one_field makes of its input

  /** A field, absent at the end of the file; the byte after it or EOF; the remaining input. */
  datatype Token = Token(text: Option<Text>, cTerm: int, rest: Text)

  /** fgetc */
  function Next(s: Text): int {
    if s == [] then EOF else s[0]
  }

  function After(s: Text): Text {
    if s == [] then [] else s[1..]
  }

  /** What is left of the buffer after removing bytes from its end up to a quote. */
  function CutAtQuote(z: Text): Text
    requires QUOTE in z
  {
    if z[|z| - 1] == QUOTE then z[..|z| - 1] else CutAtQuote(z[..|z| - 1])
  }

  /** The byte c ends a quoted field, given the two bytes before it. */
  predicate Ends(c: int, pc: int, ppc: int, sep: Sep, row: Sep) {
    || (c == sep && pc == QUOTE)
    || (c == row && pc == QUOTE)
    || (c == row && pc == CR && ppc == QUOTE)
    || (c == EOF && pc == QUOTE)
  }

  /** A field after its opening quote; z is the text so far, pc and ppc the bytes before. */
  function ReadQuoted(z: Text, pc: int, ppc: int, s: Text, sep: Sep, row: Sep): (t: Token)
    requires pc == QUOTE || ppc == QUOTE ==> QUOTE in z
    ensures t.text.Some? && |t.rest| <= |s|
    decreases |s|
  {
    var c := Next(s);
    if c == QUOTE && pc == QUOTE then ReadQuoted(z, 0, ppc, After(s), sep, row)
    else if Ends(c, pc, ppc, sep, row) then Token(Some(CutAtQuote(z)), c, After(s))
    else if c == EOF then Token(Some(z), EOF, [])
    else ReadQuoted(z + [c], c, pc, After(s), sep, row)
  }

  /** A field without quotes. */
  function ReadPlain(z: Text, s: Text, sep: Sep, row: Sep): (t: Token)
    ensures t.text.Some? && |t.rest| <= |s| && (s != [] ==> |t.rest| < |s|)
    decreases |s|
  {
    var c := Next(s);
    if c != EOF && c != sep && c != row then ReadPlain(z + [c], After(s), sep, row)
    else Token(Some(if c == row && z != [] && z[|z| - 1] == CR then z[..|z| - 1] else z), c, After(s))
  }

  lemma PlainStep(z: Text, s: Text, sep: Sep, row: Sep)
    requires s != [] && s[0] != sep && s[0] != row
    ensures ReadPlain(z, s, sep, row) == ReadPlain(z + [s[0]], s[1..], sep, row)
  {
  }

  predicate StartsWithBOM(s: Text) {
    |s| >= 3 && s[0] == 0xef && s[1] == 0xbb && s[2] == 0xbf
  }

  /** csv_read_one_field; a byte order mark is skipped in front of the first field only. */
  function ReadField(s: Text, first: bool, sep: Sep, row: Sep): (t: Token)
    ensures t.text.None? <==> s == [] || (first && s == [0xef, 0xbb, 0xbf])
    ensures t.text.None? ==> t.cTerm == EOF && t.rest == []
    ensures t.text.Some? ==> |t.rest| < |s|
    decreases |s|
  {
    if s == [] then Token(None, EOF, [])
    else if s[0] == QUOTE then ReadQuoted([], 0, 0, s[1..], sep, row)
    else if first && StartsWithBOM(s) then ReadField(s[3..], false, sep, row)
    else ReadPlain([], s, sep, row)
  }

  // ----- the import loop

  /** What the importer binds: the text of a field, or NULL. */
  type Cell = Option<Text>

  datatype Record = Record(cells: seq<Cell>, cTerm: int, rest: Text)

  function Prepend(cells: seq<Cell>, r: Record): Record {
    Record(cells + r.cells, r.cTerm, r.rest)
  }

  /** All the fields up to the end of a line or of the file. */
  function ReadRecord(s: Text, first: bool, sep: Sep, row: Sep): (r: Record)
    ensures r.cells != [] && |r.rest| <= |s| && r.cTerm != sep as int
    ensures |r.rest| < |s| || r.cTerm == EOF
    decreases |s|
  {
    var t := ReadField(s, first, sep, row);
    if t.cTerm != sep as int then Record([t.text], t.cTerm, t.rest)
    else Prepend([t.text], ReadRecord(t.rest, false, sep, row))
  }

  /** The record when its first fields have been read, the last of them ended by cTerm. */
  function Pending(seen: seq<Cell>, cTerm: int, s: Text, sep: Sep, row: Sep): Record {
    if cTerm == sep as int then Prepend(seen, ReadRecord(s, false, sep, row)) else Record(seen, cTerm, s)
  }

  lemma NextField(seen: seq<Cell>, s: Text, first: bool, sep: Sep, row: Sep)
    ensures var t := ReadField(s, first, sep, row);
            Prepend(seen, ReadRecord(s, first, sep, row)) == Pending(seen + [t.text], t.cTerm, t.rest, sep, row)
  {
    hide ReadField;
    var t := ReadField(s, first, sep, row);
    if t.cTerm == sep as int {
      Shift(seen, t.text, ReadRecord(t.rest, false, sep, row).cells);
    }
  }

  lemma Shift(a: seq<Cell>, b: Cell, c: seq<Cell>)
    ensures a + ([b] + c) == (a + [b]) + c
  {
  }

  function Nulls(n: nat): seq<Cell> {
    seq(n, _ => None)
  }

  /** Surplus fields are ignored, missing ones are NULL. */
  function Fit(cells: seq<Cell>, nCol: nat): (r: seq<Cell>)
    ensures |r| == nCol
  {
    if |cells| >= nCol then cells[..nCol] else cells + Nulls(nCol - |cells|)
  }

  /** The rows that are inserted into a table of nCol columns. */
  function ImportRows(s: Text, first: bool, nCol: nat, sep: Sep, row: Sep): seq<seq<Cell>>
    requires nCol > 0
    decreases |s|
  {
    if ReadField(s, first, sep, row).text.None? then [] else
    var r := ReadRecord(s, first, sep, row);
    [Fit(r.cells, nCol)] + if r.cTerm == EOF then [] else ImportRows(r.rest, false, nCol, sep, row)
  }

  lemma ImportStep(done: seq<seq<Cell>>, s: Text, first: bool, nCol: nat, sep: Sep, row: Sep)
    requires nCol > 0
    ensures var r := ReadRecord(s, first, sep, row);
            done + ImportRows(s, first, nCol, sep, row)
            == if ReadField(s, first, sep, row).text.None? then done
               else if r.cTerm == EOF then done + [Fit(r.cells, nCol)]
               else (done + [Fit(r.cells, nCol)]) + ImportRows(r.rest, false, nCol, sep, row)
  {
    hide ReadField, ReadRecord, Fit;
  }

  /** The column names in a record: all its fields, but not the one that is missing at the end of the file. */
  function Names(cells: seq<Cell>): seq<Text> {
    if cells == [] || cells[0].None? then [] else [cells[0].value] + Names(cells[1..])
  }

  lemma NamesOfOne(c: Cell)
    ensures Names([c]) == if c.Some? then [c.value] else []
  {
    assert [c][1..] == [];
  }

  lemma NamesAppend(a: seq<Cell>, b: seq<Cell>)
    requires forall i :: 0 <= i < |a| ==> a[i].Some?
    ensures Names(a + b) == Names(a) + Names(b)
  {
    if a == [] {
      assert a + b == b;
    } else {
      assert (a + b)[1..] == a[1..] + b;
    }
  }

  class ImportCtx {
    /** The part of the file that is still to be read. */
    var input: Text
    var z: Text
    var bNotFirst: bool
    var cTerm: int
    const cColSep: Sep
    const cRowSep: Sep

    constructor (file: Text, cColSep: Sep, cRowSep: Sep)
      ensures input == file && !bNotFirst && this.cColSep == cColSep && this.cRowSep == cRowSep
    {
      input, z, bNotFirst, cTerm := file, [], false, 0;
      this.cColSep, this.cRowSep := cColSep, cRowSep;
    }

    method Fgetc() returns (c: int)
      modifies this`input
      ensures c == Next(old(input)) && input == After(old(input))
    {
      if input == [] {
        return EOF;
      }
      c := input[0];
      input := input[1..];
    }

    /** csv_read_one_field. */
    method CsvReadOneField() returns (text: Option<Text>)
      modifies this
      ensures var t := ReadField(old(input), !old(bNotFirst), cColSep, cRowSep);
              text == t.text && cTerm == t.cTerm && input == t.rest
      ensures old(bNotFirst) || text.Some? ==> bNotFirst
      decreases |input|
    {
      z := [];
      var c := Fgetc();
      if c == EOF {
        cTerm := EOF;
        return None;
      }
      if c == QUOTE as int {
        ReadQuotedField();
      } else {
        ghost var s := old(input);
        if c == 0xef && !bNotFirst {
          PlainStep(z, s, cColSep, cRowSep);
          z := z + [0xef];
          s := input;
          c := Fgetc();
          if c == 0xbb {
            PlainStep(z, s, cColSep, cRowSep);
            z := z + [0xbb];
            s := input;
            c := Fgetc();
            if c == 0xbf {
              bNotFirst := true;
              z := [];
              text := CsvReadOneField();
              return;
            }
          }
        }
        assert ReadField(old(input), !old(bNotFirst), cColSep, cRowSep) == ReadPlain(z, s, cColSep, cRowSep);
        ReadPlainField(c, s);
      }
      bNotFirst := true;
      return Some(z);
    }

    method ReadQuotedField()
      requires z == []
      modifies this`z, this`input, this`cTerm
      ensures var t := ReadQuoted([], 0, 0, old(input), cColSep, cRowSep);
              t == Token(Some(z), cTerm, input)
    {
      var pc, ppc := 0, 0;
      while true
        invariant pc == QUOTE as int || ppc == QUOTE as int ==> QUOTE in z
        invariant ReadQuoted([], 0, 0, old(input), cColSep, cRowSep) == ReadQuoted(z, pc, ppc, input, cColSep, cRowSep)
        decreases |input|
      {
        var c := Fgetc();
        if c == QUOTE as int {
          if pc == QUOTE as int {
            pc := 0;
            continue;
          }
        }
        if Ends(c, pc, ppc, cColSep, cRowSep) {
          PopToQuote();
          cTerm := c;
          break;
        }
        if c == EOF {
          cTerm := c;
          break;
        }
        z := z + [c];
        ppc := pc;
        pc := c;
      }
    }

    method PopToQuote()
      requires QUOTE in z
      modifies this`z
      ensures z == CutAtQuote(old(z))
    {
      var n := |z| - 1;
      assert z[..n + 1] == z;
      while z[n] != QUOTE
        invariant 0 <= n < |z| && z == old(z)
        invariant QUOTE in z[..n + 1] && CutAtQuote(z[..n + 1]) == CutAtQuote(z)
        decreases n
      {
        assert z[..n + 1][..n] == z[..n];
        n := n - 1;
      }
      assert z[..n + 1][..n] == z[..n];
      z := z[..n];
    }

    /** The loop of the unquoted branch, which has byte c in hand already. */
    method ReadPlainField(first: int, ghost s: Text)
      requires first == Next(s) && input == After(s)
      modifies this`z, this`input, this`cTerm
      ensures ReadPlain(old(z), s, cColSep, cRowSep) == Token(Some(z), cTerm, input)
    {
      var c := first;
      ghost var left := s;
      while c != EOF && c != cColSep as int && c != cRowSep as int
        invariant c == Next(left) && input == After(left)
        invariant ReadPlain(old(z), s, cColSep, cRowSep) == ReadPlain(z, left, cColSep, cRowSep)
        decreases |left|
      {
        z := z + [c];
        left := input;
        c := Fgetc();
      }
      if c == cRowSep as int {
        if |z| > 0 && z[|z| - 1] == CR {
          z := z[..|z| - 1];
        }
      }
      cTerm := c;
    }

    /** The column names on the first line of the file, for a table that does not exist yet. */
    method ReadNames() returns (names: seq<Text>)
      modifies this
      ensures var r := ReadRecord(old(input), !old(bNotFirst), cColSep, cRowSep);
              names == Names(r.cells) && input == r.rest
      ensures names != [] ==> bNotFirst
    {
      assert Names([]) == [];
      hide ReadField, ReadRecord, Names;
      ghost var r := ReadRecord(input, !bNotFirst, cColSep, cRowSep);
      ghost var seen: seq<Cell> := [];
      names := [];
      while true
        invariant names != [] ==> bNotFirst
        invariant forall i :: 0 <= i < |seen| ==> seen[i].Some?
        invariant names == Names(seen)
        invariant r == Prepend(seen, ReadRecord(input, !bNotFirst, cColSep, cRowSep))
        decreases |input|
      {
        NextField(seen, input, !bNotFirst, cColSep, cRowSep);
        var z := CsvReadOneField();
        NamesAppend(seen, [z]);
        NamesOfOne(z);
        if z.None? {
          break;
        }
        names := names + [z.value];
        seen := seen + [z];
        if cTerm != cColSep as int {
          break;
        }
      }
    }

    /** Parameters are numbered from 1. */
    method BindNulls(n: nat, pStmt: array<Cell>) returns (i: nat)
      requires 2 <= n <= pStmt.Length
      modifies pStmt
      ensures i == pStmt.Length + 1
      ensures pStmt[..] == old(pStmt[..n - 1]) + Nulls(pStmt.Length + 1 - n)
    {
      i := n;
      while i <= pStmt.Length
        invariant n <= i <= pStmt.Length + 1
        invariant pStmt[..i - 1] == old(pStmt[..n - 1]) + Nulls(i - n)
      {
        pStmt[i - 1] := None;
        i := i + 1;
      }
    }

    /** One round of the import loop: the bound values, or false at the end of the file. */
    method BindRow(pStmt: array<Cell>) returns (insert: bool)
      requires pStmt.Length > 0
      modifies this, pStmt
      ensures insert <==> ReadField(old(input), !old(bNotFirst), cColSep, cRowSep).text.Some?
      ensures !insert ==> cTerm == EOF
      ensures insert ==>
        var r := ReadRecord(old(input), !old(bNotFirst), cColSep, cRowSep);
        pStmt[..] == Fit(r.cells, pStmt.Length) && cTerm == r.cTerm && input == r.rest && bNotFirst
    {
      hide ReadField, ReadRecord;
      var nCol := pStmt.Length;
      ghost var r := ReadRecord(input, !bNotFirst, cColSep, cRowSep);
      ghost var seen: seq<Cell> := [];
      var i := 0;
      while i < nCol
        invariant 0 <= i
        invariant i == 0 ==> input == old(input) && bNotFirst == old(bNotFirst) && seen == []
        invariant i > 0 ==> bNotFirst && ReadField(old(input), !old(bNotFirst), cColSep, cRowSep).text.Some?
        invariant 0 < i < nCol ==> cTerm == cColSep as int
        invariant |seen| <= nCol && (i < nCol ==> i == |seen|)
        invariant if i >= nCol then pStmt[..] == Fit(seen, nCol) else pStmt[..i] == seen
        invariant if i == 0 then r == ReadRecord(input, !bNotFirst, cColSep, cRowSep)
                  else r == Pending(seen, cTerm, input, cColSep, cRowSep)
        invariant i >= nCol && cTerm == cColSep as int ==> |seen| == nCol
      {
        assert seen == [] ==> Prepend(seen, r) == r;
        NextField(seen, input, !bNotFirst, cColSep, cRowSep);
        var z := CsvReadOneField();
        if z.None? && i == 0 {
          break;
        }
        pStmt[i] := z;
        seen := seen + [z];
        if i < nCol - 1 && cTerm != cColSep as int {
          i := BindNulls(i + 2, pStmt);
        }
        i := i + 1;
      }
      if cTerm == cColSep as int {
        i := SkipExtras(i, pStmt, seen, r);
      }
      insert := i >= nCol;
    }

    method SkipExtras(n: nat, pStmt: array<Cell>, ghost read: seq<Cell>, ghost r: Record) returns (i: nat)
      requires cTerm == cColSep as int && bNotFirst && |read| == pStmt.Length && pStmt[..] == read
      requires r == Pending(read, cTerm, input, cColSep, cRowSep)
      modifies this
      ensures i >= n && bNotFirst && cTerm == r.cTerm && input == r.rest
      ensures pStmt[..] == Fit(r.cells, pStmt.Length)
    {
      hide ReadField, ReadRecord;
      ghost var seen := read;
      i := n;
      while true
        invariant i >= n && cTerm == cColSep as int && bNotFirst && read <= seen
        invariant r == Pending(seen, cTerm, input, cColSep, cRowSep)
        decreases |input|
      {
        NextField(seen, input, !bNotFirst, cColSep, cRowSep);
        var z := CsvReadOneField();
        seen := seen + [z];
        i := i + 1;
        if cTerm != cColSep as int {
          break;
        }
      }
    }

    /** The import loop for a table of nCol columns: the rows that are inserted. */
    method Import(nCol: nat) returns (rows: seq<seq<Cell>>)
      requires nCol > 0
      modifies this
      ensures rows == ImportRows(old(input), !old(bNotFirst), nCol, cColSep, cRowSep)
    {
      hide ReadField, ReadRecord, ImportRows, Fit;
      var pStmt := new Cell[nCol];
      ghost var all := ImportRows(input, !bNotFirst, nCol, cColSep, cRowSep);
      rows := [];
      while true
        invariant all == rows + ImportRows(input, !bNotFirst, nCol, cColSep, cRowSep)
        decreases |input|
      {
        ImportStep(rows, input, !bNotFirst, nCol, cColSep, cRowSep);
        var insert := BindRow(pStmt);
        if insert {
          rows := rows + [pStmt[..]];
        }
        if cTerm == EOF {
          break;
        }
      }
    }
  }

  datatype ImportResult =
    | BadSeparator
    | EmptyFile
    | NoColumns
    | Imported(names: seq<Text>, rows: seq<seq<Cell>>)

  /** The row separator the importer uses: the default of the output is changed to that of the input. */
  function InputRowSeparator(rowSeparator: seq<Sep>, csvMode: bool): seq<Sep> {
    if csvMode && rowSeparator == [CR, LF] then [LF] else rowSeparator
  }

  /** The command .import, for a table of nCol columns or one that is created from the first line. */
  method ImportCommand(file: Text, colSeparator: seq<Sep>, rowSeparator: seq<Sep>, csvMode: bool, table: Option<nat>)
    returns (r: ImportResult)
    ensures |colSeparator| != 1 || |InputRowSeparator(rowSeparator, csvMode)| != 1 ==> r == BadSeparator
    ensures |colSeparator| == 1 && |InputRowSeparator(rowSeparator, csvMode)| == 1 ==>
      var sep, row := colSeparator[0], InputRowSeparator(rowSeparator, csvMode)[0];
      var head := ReadRecord(file, true, sep, row);
      var names := Names(head.cells);
      match table
      case Some(0) => r == NoColumns
      case Some(nCol) => r == Imported([], ImportRows(file, true, nCol, sep, row))
      case None => r == if names == [] then EmptyFile else Imported(names, ImportRows(head.rest, false, |names|, sep, row))
  {
    hide ReadRecord, ImportRows, Names;
    if |colSeparator| != 1 || |rowSeparator| == 0 {
      return BadSeparator;
    }
    var rowSep := rowSeparator;
    if |rowSep| == 2 && csvMode && rowSep == [CR, LF] {
      rowSep := [LF];
    }
    if |rowSep| > 1 {
      return BadSeparator;
    }
    var sCtx := new ImportCtx(file, colSeparator[0], rowSep[0]);
    var names, nCol := [], 0;
    match table {
      case Some(n) =>
        nCol := n;
        if nCol == 0 {
          return NoColumns;
        }
      case None =>
        names := sCtx.ReadNames();
        if names == [] {
          return EmptyFile;
        }
        nCol := |names|;
    }
    var rows := sCtx.Import(nCol);
    r := Imported(names, rows);
  }

  // ----- what is written is read back

  /** Separators with which a table can be read back: row is the byte the importer uses when the output ended with end. */
  predicate Separators(sep: Sep, row: Sep, end: Text) {
    && sep != QUOTE && sep != row && row != QUOTE && NeedCsvQuote(row)
    && (end == [row] || (end == [CR, LF] && row == LF && sep != CR))
  }

  /** What stands after a field: the column separator, the end of the row or the end of the file. */
  predicate Follows(rest: Text, sep: Sep, row: Sep, end: Text) {
    rest == [] || rest[0] == sep || end <= rest
  }

  function Finished(text: Text, rest: Text, sep: Sep, end: Text): Token
    requires end != []
  {
    if rest == [] || rest[0] == sep then Token(Some(text), Next(rest), After(rest))
    else if |rest| < |end| then Token(Some(text), EOF, [])
    else Token(Some(text), end[|end| - 1] as int, rest[|end|..])
  }

  lemma CutClosing(z: Text, more: Text)
    requires QUOTE !in more
    ensures CutAtQuote(z + [QUOTE] + more) == z
  {
    if more == [] {
      assert (z + [QUOTE])[..|z|] == z;
    } else {
      CutClosing(z, more[..|more| - 1]);
      assert (z + [QUOTE] + more)[..|z| + |more|] == z + [QUOTE] + more[..|more| - 1];
    }
  }

  /** After the closing quote. */
  lemma QuotedEnds(z: Text, ppc: int, rest: Text, sep: Sep, row: Sep, end: Text)
    requires Separators(sep, row, end) && Follows(rest, sep, row, end)
    ensures ReadQuoted(z + [QUOTE], QUOTE as int, ppc, rest, sep, row) == Finished(z, rest, sep, end)
  {
    CutClosing(z, []);
    CutClosing(z, [CR]);
    assert z + [QUOTE] + [] == z + [QUOTE];
  }

  /** In front of every byte of a quoted field the reader is not just behind a lone quote. */
  lemma {:induction false} QuotedRoundTrip(z: Text, pc: int, ppc: int, u: Text, rest: Text, sep: Sep, row: Sep, end: Text)
    requires pc != QUOTE as int && ppc != QUOTE as int
    requires Separators(sep, row, end) && Follows(rest, sep, row, end)
    ensures ReadQuoted(z, pc, ppc, Doubled(u) + ([QUOTE] + rest), sep, row) == Finished(z + u, rest, sep, end)
    decreases |u|
  {
    var s := Doubled(u) + ([QUOTE] + rest);
    if u == [] {
      assert s == [QUOTE] + rest && z + u == z;
      QuotedEnds(z, pc, rest, sep, row, end);
    } else {
      var s' := Doubled(u[1..]) + ([QUOTE] + rest);
      assert z + [u[0]] + u[1..] == z + u;
      if u[0] == QUOTE {
        assert s == [QUOTE] + ([QUOTE] + s');
        QuotedPair(z, pc, ppc, s', sep, row);
        QuotedRoundTrip(z + [u[0]], 0, pc, u[1..], rest, sep, row, end);
      } else {
        assert s == [u[0]] + s';
        QuotedRoundTrip(z + [u[0]], u[0] as int, pc, u[1..], rest, sep, row, end);
      }
    }
  }

  lemma QuotedPair(z: Text, pc: int, ppc: int, s: Text, sep: Sep, row: Sep)
    requires pc != QUOTE as int && ppc != QUOTE as int && sep != QUOTE && row != QUOTE
    ensures ReadQuoted(z, pc, ppc, [QUOTE] + ([QUOTE] + s), sep, row) == ReadQuoted(z + [QUOTE], 0, pc, s, sep, row)
  {
    var s1 := [QUOTE] + s;
    assert s1[1..] == s && ([QUOTE] + s1)[1..] == s1;
  }

  lemma {:induction false} PlainRoundTrip(z: Text, u: Text, rest: Text, sep: Sep, row: Sep, end: Text)
    requires Separators(sep, row, end) && Follows(rest, sep, row, end)
    requires forall i :: 0 <= i < |u| ==> !NeedCsvQuote(u[i]) && u[i] != sep
    requires z != [] ==> z[|z| - 1] != CR
    requires z + u != []
    ensures ReadPlain(z, u + rest, sep, row) == Finished(z + u, rest, sep, end)
    decreases |u|
  {
    if u == [] {
      assert u + rest == rest && z + u == z;
      if rest != [] && rest[0] != sep && end == [CR, LF] {
        assert rest[1..][0] == LF && rest[1..][1..] == rest[2..];
      }
    } else {
      PlainStep(z, u + rest, sep, row);
      hide ReadPlain, NeedCsvQuote;
      assert (u + rest)[1..] == u[1..] + rest && z + [u[0]] + u[1..] == z + u;
      PlainRoundTrip(z + [u[0]], u[1..], rest, sep, row, end);
    }
  }

  /** One printed field is read back, whatever bytes it holds. */
  lemma FieldRoundTrip(u: Text, rest: Text, first: bool, sep: Sep, row: Sep, end: Text)
    requires Separators(sep, row, end) && Follows(rest, sep, row, end)
    ensures ReadField(Field(u, [sep]) + rest, first, sep, row) == Finished(u, rest, sep, end)
  {
    if IsPlain(u, [sep]) {
      forall i | 0 <= i < |u| ensures !NeedCsvQuote(u[i]) && u[i] != sep {
        assert !Triggers(u, u[i], [sep]);
      }
      PlainRoundTrip([], u, rest, sep, row, end);
      assert [] + u == u;
    } else {
      assert Field(u, [sep]) + rest == [QUOTE] + (Doubled(u) + ([QUOTE] + rest));
      QuotedRoundTrip([], 0, 0, u, rest, sep, row, end);
      assert [] + u == u;
    }
  }

  function Cells(row: seq<Text>): (r: seq<Cell>)
    ensures |r| == |row| && forall i :: 0 <= i < |row| ==> r[i] == Some(row[i])
  {
    seq(|row|, i requires 0 <= i < |row| => Some(row[i]))
  }

  lemma {:induction false} RecordRoundTrip(fields: seq<Text>, rest: Text, first: bool, sep: Sep, row: Sep, end: Text)
    requires Separators(sep, row, end) && fields != []
    ensures ReadRecord(Line(fields, [sep], end) + rest, first, sep, row) == Record(Cells(fields), row as int, rest)
    decreases |fields|
  {
    hide ReadField, Field;
    var more := (if |fields| > 1 then [sep] else []) + Line(fields[1..], [sep], end) + rest;
    assert Line(fields, [sep], end) + rest == Field(fields[0], [sep]) + more;
    if |fields| == 1 {
      assert more == end + rest;
      FieldRoundTrip(fields[0], more, first, sep, row, end);
    } else {
      var line := Line(fields[1..], [sep], end) + rest;
      assert more == [sep] + line && more[1..] == line;
      FieldRoundTrip(fields[0], more, first, sep, row, end);
      RecordRoundTrip(fields[1..], rest, false, sep, row, end);
      assert [Some(fields[0])] + Cells(fields[1..]) == Cells(fields);
    }
  }

  function Table(rows: seq<seq<Text>>): (r: seq<seq<Cell>>)
    ensures |r| == |rows| && forall i :: 0 <= i < |rows| ==> r[i] == Cells(rows[i])
  {
    seq(|rows|, i requires 0 <= i < |rows| => Cells(rows[i]))
  }

  /** A table of nCol columns that was written row by row is imported unchanged. */
  lemma {:induction false} TableRoundTrip(rows: seq<seq<Text>>, first: bool, nCol: nat, sep: Sep, row: Sep, end: Text)
    requires nCol > 0 && forall i :: 0 <= i < |rows| ==> |rows[i]| == nCol
    requires Separators(sep, row, end)
    ensures ImportRows(Lines(rows, [sep], end), first, nCol, sep, row) == Table(rows)
    decreases |rows|
  {
    if rows == [] {
      assert Table(rows) == [];
    } else {
      RecordRoundTrip(rows[0], Lines(rows[1..], [sep], end), first, sep, row, end);
      assert ReadField(Lines(rows, [sep], end), first, sep, row).text.Some?;
      hide ReadRecord, ReadField, Line;
      var rest := Lines(rows[1..], [sep], end);
      assert Fit(Cells(rows[0]), nCol) == Cells(rows[0]);
      TableRoundTrip(rows[1..], false, nCol, sep, row, end);
      assert [Cells(rows[0])] + Table(rows[1..]) == Table(rows);
    }
  }

  /** With a header line the names come back as well, and the rows follow. */
  lemma HeaderRoundTrip(names: seq<Text>, rows: seq<seq<Text>>, sep: Sep, row: Sep, end: Text)
    requires names != [] && Separators(sep, row, end)
    requires forall i :: 0 <= i < |rows| ==> |rows[i]| == |names|
    ensures var r := ReadRecord(Line(names, [sep], end) + Lines(rows, [sep], end), true, sep, row);
            Names(r.cells) == names && ImportRows(r.rest, false, |names|, sep, row) == Table(rows)
  {
    RecordRoundTrip(names, Lines(rows, [sep], end), true, sep, row, end);
    TableRoundTrip(rows, false, |names|, sep, row, end);
    NamesOfCells(names);
  }

  lemma {:induction false} NamesOfCells(names: seq<Text>)
    ensures Names(Cells(names)) == names
  {
    if names == [] {
      assert Cells(names) == [];
    } else {
      assert Cells(names)[1..] == Cells(names[1..]);
      NamesOfCells(names[1..]);
    }
  }

  // ----- files from elsewhere

  /** The byte order mark of UTF-8. */
  const MARK: Text := [0xef, 0xbb, 0xbf]

  /** Behind a mark the first field is read from the start, quoted or not. */
  lemma MarkSkipped(s: Text, sep: Sep, row: Sep)
    requires s != []
    ensures ReadField(MARK + s, true, sep, row) == ReadField(s, false, sep, row)
  {
    assert (MARK + s)[3..] == s;
  }

  /** In front of any other field it belongs to the text. */
  lemma MarkKept(s: Text, sep: Sep, row: Sep)
    ensures var t := ReadField(MARK + s, false, sep, row);
            t.text.Some? && MARK <= t.text.value
  {
    var z := MARK + s;
    var z1, z2 := z[1..], z[1..][1..];
    assert z2[1..] == s && z2 == [0xbf] + s && z1 == [0xbb, 0xbf] + s;
    assert [] + [0xef] == [0xef] && [0xef] + [0xbb] == [0xef, 0xbb] && [0xef, 0xbb] + [0xbf] == MARK;
    PlainStep([], z, sep, row);
    PlainStep([0xef], z1, sep, row);
    PlainStep([0xef, 0xbb], z2, sep, row);
    PlainKeeps(MARK, s, sep, row);
  }

  lemma {:induction false} PlainKeeps(z: Text, s: Text, sep: Sep, row: Sep)
    ensures var t := ReadPlain(z, s, sep, row).text.value;
            t == z || (z != [] && z[|z| - 1] == CR && t == z[..|z| - 1]) || z < t
    decreases |s|
  {
    if s == [] || s[0] == sep || s[0] == row {
    } else {
      PlainStep(z, s, sep, row);
      PlainKeeps(z + [s[0]], s[1..], sep, row);
      assert (z + [s[0]])[..|z|] == z;
    }
  }

  lemma MarkedRecord(s: Text, sep: Sep, row: Sep)
    requires s != []
    ensures ReadRecord(MARK + s, true, sep, row) == ReadRecord(s, false, sep, row)
  {
    hide ReadField;
    MarkSkipped(s, sep, row);
  }

  /** A file with a mark is imported as without it. */
  lemma MarkedImport(s: Text, nCol: nat, sep: Sep, row: Sep)
    requires nCol > 0 && s != []
    ensures ImportRows(MARK + s, true, nCol, sep, row) == ImportRows(s, false, nCol, sep, row)
  {
    hide ReadField, ReadRecord;
    MarkSkipped(s, sep, row);
    MarkedRecord(s, sep, row);
  }

  /** A mark in front of a printed table. */
  lemma MarkedTable(rows: seq<seq<Text>>, nCol: nat, sep: Sep, row: Sep, end: Text)
    requires nCol > 0 && rows != [] && forall i :: 0 <= i < |rows| ==> |rows[i]| == nCol
    requires Separators(sep, row, end)
    ensures ImportRows(MARK + Lines(rows, [sep], end), true, nCol, sep, row) == Table(rows)
  {
    hide ReadField, ReadRecord, ImportRows, Line;
    LineNotEmpty(rows[0], [sep], end);
    MarkedImport(Lines(rows, [sep], end), nCol, sep, row);
    TableRoundTrip(rows, false, nCol, sep, row, end);
  }

  /** A mark in front of a printed header with its rows. */
  lemma MarkedHeader(names: seq<Text>, rows: seq<seq<Text>>, sep: Sep, row: Sep, end: Text)
    requires names != [] && Separators(sep, row, end)
    requires forall i :: 0 <= i < |rows| ==> |rows[i]| == |names|
    ensures var r := ReadRecord(MARK + (Line(names, [sep], end) + Lines(rows, [sep], end)), true, sep, row);
            Names(r.cells) == names && ImportRows(r.rest, false, |names|, sep, row) == Table(rows)
  {
    hide ReadField, ReadRecord, ImportRows, Line;
    LineNotEmpty(names, [sep], end);
    MarkedRecord(Line(names, [sep], end) + Lines(rows, [sep], end), sep, row);
    RecordRoundTrip(names, Lines(rows, [sep], end), false, sep, row, end);
    TableRoundTrip(rows, false, |names|, sep, row, end);
    NamesOfCells(names);
  }

  lemma LineNotEmpty(row: seq<Text>, sep: Text, end: Text)
    requires end != []
    ensures Line(row, sep, end) != []
  {
  }

  /** A field that does not start with a quote ends with the next separator; a carriage return at the end of a row is cut. */
  lemma PlainRead(u: Text, rest: Text, first: bool, sep: Sep, row: Sep)
    requires (u + rest) != [] && (u != [] ==> u[0] != QUOTE) && !(first && MARK <= u + rest)
    requires forall i :: 0 <= i < |u| ==> u[i] != sep && u[i] != row
    requires (rest == [] || rest[0] == sep || rest[0] == row) && (rest == [] || rest[0] != QUOTE)
    ensures ReadField(u + rest, first, sep, row)
         == Token(Some(if rest != [] && rest[0] == row && u != [] && u[|u| - 1] == CR then u[..|u| - 1] else u),
                  if rest == [] then EOF else rest[0], if rest == [] then [] else rest[1..])
  {
    hide ReadField, ReadPlain;
    PlainField(u + rest, first, sep, row);
    PlainReadFrom([], u, rest, sep, row);
    assert [] + u == u;
  }

  lemma PlainField(s: Text, first: bool, sep: Sep, row: Sep)
    requires s != [] && s[0] != QUOTE && !(first && MARK <= s)
    ensures ReadField(s, first, sep, row) == ReadPlain([], s, sep, row)
  {
    hide ReadPlain;
    assert StartsWithBOM(s) ==> MARK <= s;
  }

  lemma {:induction false} PlainReadFrom(z: Text, u: Text, rest: Text, sep: Sep, row: Sep)
    requires forall i :: 0 <= i < |u| ==> u[i] != sep && u[i] != row
    requires rest == [] || rest[0] == sep || rest[0] == row
    ensures var w := z + u;
            var cut := Next(rest) == row as int && w != [] && w[|w| - 1] == CR;
            ReadPlain(z, u + rest, sep, row) == Token(Some(if cut then w[..|w| - 1] else w), Next(rest), After(rest))
    decreases |u|
  {
    if u == [] {
      assert u + rest == rest && z + u == z;
    } else {
      PlainStep(z, u + rest, sep, row);
      assert (u + rest)[1..] == u[1..] + rest && (z + [u[0]]) + u[1..] == z + u;
      PlainReadFrom(z + [u[0]], u[1..], rest, sep, row);
    }
  }

  /** A quoted field that is not closed goes on to the end of the file. */
  lemma {:induction false} Unclosed(z: Text, pc: int, ppc: int, u: Text, sep: Sep, row: Sep)
    requires QUOTE !in u && pc != QUOTE as int && ppc != QUOTE as int
    ensures ReadQuoted(z, pc, ppc, u, sep, row) == Token(Some(z + u), EOF, [])
    decreases |u|
  {
    if u == [] {
      assert z + u == z;
    } else {
      assert u[0] in u && (z + [u[0]]) + u[1..] == z + u;
      Unclosed(z + [u[0]], u[0] as int, pc, u[1..], sep, row);
    }
  }

  /** Rows of any lengths: each has nCol cells, a text for each field that is there and NULL for the others. */
  lemma {:induction false} RaggedRoundTrip(rows: seq<seq<Text>>, first: bool, nCol: nat, sep: Sep, row: Sep, end: Text)
    requires nCol > 0 && Separators(sep, row, end) && forall i :: 0 <= i < |rows| ==> rows[i] != []
    ensures var r := ImportRows(Lines(rows, [sep], end), first, nCol, sep, row);
            |r| == |rows| && forall i :: 0 <= i < |rows| ==> Fitted(r[i], rows[i], nCol)
    decreases |rows|
  {
    if rows == [] {
    } else {
      RecordRoundTrip(rows[0], Lines(rows[1..], [sep], end), first, sep, row, end);
      assert ReadField(Lines(rows, [sep], end), first, sep, row).text.Some?;
      hide ReadRecord, ReadField, Line;
      var rest := Lines(rows[1..], [sep], end);
      var r, more := ImportRows(Lines(rows, [sep], end), first, nCol, sep, row), ImportRows(rest, false, nCol, sep, row);
      RaggedRoundTrip(rows[1..], false, nCol, sep, row, end);
      assert r == [Fit(Cells(rows[0]), nCol)] + more;
      forall i | 0 <= i < |rows|
        ensures Fitted(r[i], rows[i], nCol)
      {
        if i > 0 {
          assert r[i] == more[i - 1] && rows[i] == rows[1..][i - 1];
        }
      }
    }
  }

  predicate Fitted(cells: seq<Cell>, row: seq<Text>, nCol: nat) {
    |cells| == nCol && forall j :: 0 <= j < nCol ==> cells[j] == if j < |row| then Some(row[j]) else None
  }

  /** What is printed without quotes, for a separator of one byte. */
  lemma PrintedPlain(z: Text, sep: byte)
    requires sep != QUOTE
    ensures Field(z, [sep]) == z <==>
            z != [] && forall i :: 0 <= i < |z| ==> 33 <= z[i] <= 126 && z[i] != 34 && z[i] != 39 && z[i] != sep
    ensures Field(z, [sep]) != z ==> Field(z, [sep]) == [34] + Doubled(z) + [34]
  {
    if !IsPlain(z, [sep]) {
      DoubledLength(z);
      assert |Field(z, [sep])| > |z|;
      if z != [] {
        var i :| 0 <= i < |z| && Triggers(z, z[i], [sep]);
      }
    }
  }

  /** For a separator of another length: only at the very start of the field is it looked for. */
  lemma PrintedPlainLong(z: Text, sep: Text)
    requires |sep| != 1
    ensures Field(z, sep) == z <==>
            z != [] && (forall i :: 0 <= i < |z| ==> 33 <= z[i] <= 126 && z[i] != 34 && z[i] != 39)
            && !(sep != [] && sep <= z)
  {
    if !IsPlain(z, sep) {
      DoubledLength(z);
      assert |Field(z, sep)| > |z|;
      if z != [] {
        var i :| 0 <= i < |z| && Triggers(z, z[i], sep);
      }
    } else {
      assert !Triggers(z, z[0], sep);
      assert forall i :: 0 <= i < |z| ==> !Triggers(z, z[i], sep);
    }
  }

  lemma {:induction false} DoubledLength(z: Text)
    ensures |Doubled(z)| >= |z|
  {
    if z == [] {
    } else {
      DoubledLength(z[1..]);
    }
  }

  // ----- printed and imported

  /** A result that is printed in CSV mode and imported again, as a new table when it has a header. */
  method PrintThenImport(azCols: seq<Text>, result: seq<seq<Text>>, showHeader: bool, sep: Sep, rowSeparator: seq<Sep>,
                         csvMode: bool) returns (r: ImportResult)
    requires azCols != [] && forall i :: 0 <= i < |result| ==> |result[i]| == |azCols|
    requires |InputRowSeparator(rowSeparator, csvMode)| == 1
    requires Separators(sep, InputRowSeparator(rowSeparator, csvMode)[0], rowSeparator)
    ensures !showHeader ==> r == Imported([], Table(result))
    ensures showHeader ==> r == if result == [] then EmptyFile else Imported(azCols, Table(result))
  {
    hide Lines, Line, ReadRecord, ImportRows, Names, Table;
    ghost var row := InputRowSeparator(rowSeparator, csvMode)[0];
    var p := new ShellState(showHeader, [sep], rowSeparator);
    ExecPreparedStmt(p, azCols, result);
    NoLines([sep], rowSeparator);
    NothingToImport(|azCols|, sep, row);
    ghost var head := if showHeader then Line(azCols, [sep], rowSeparator) else [];
    assert [] + head == head && [] + Lines(result, [sep], rowSeparator) == Lines(result, [sep], rowSeparator);
    assert result != [] ==> p.out == head + Lines(result, [sep], rowSeparator);
    if showHeader {
      HeaderRoundTrip(azCols, result, sep, row, rowSeparator);
    } else {
      TableRoundTrip(result, true, |azCols|, sep, row, rowSeparator);
    }
    r := ImportCommand(p.out, [sep], rowSeparator, csvMode, if showHeader then None else Some(|azCols|));
  }

  lemma NothingToImport(nCol: nat, sep: Sep, row: Sep)
    ensures Names(ReadRecord([], true, sep, row).cells) == []
  {
  }
}
