# Verified models of the rewards driver and of the SQLite shell it ships

This project models algorithms of the repository and proves what they are for. Most of them are in
`sqllite/shell.c`, the shell of SQLite 3.24 with its extensions in one file; the last two are in the driver.

| file | what it models |
|---|---|
| `RoundConstants`, `Keccak`, `Sponge`, `Sha3`, `Sha3Query` | SHA-3: the unrolled in-place permutation against FIPS 202, the streaming sponge, `sha3()` and the byte stream of `sha3_query()` |
| `SqlLiteral` | SQL literals with nested `replace()` calls, and their evaluation |
| `DosTime`, `FileModes`, `ZipRecords`, `ZipArchive`, `ZipForeign`, `ZipWriter` | ZIP archives: packed times, modes as text, records, the loader, archives of other writers, and the aggregate that builds an archive |
| `Csv` | CSV output, the field reader, and `.import` |
| `AppendVfs` | a database stored behind a prefix, with a mark at the end of the file |
| `Glob`, `GlobDocumented` | the glob matcher of the test command, and its documentation |
| `Pretty`, `PrettyLayout`, `PrettyQuotes` | schema statements printed with indentation, where their lines end, and what that does to literals, quoted names and comments |
| `IdxTriggers`, `IdxHash` | the index expert's worklist of trigger writes and its hash table |
| `Fsdir` | the cursor that walks a directory tree |
| `CString` | C escapes and the tokenizer of dot-commands |
| `TaskVector` | the vector of threads of `BraveRewardsServiceImpl` and the loop that joins them |
| `PublisherDatabase`, `PublisherQueries` | the publisher and activity tables, their queries and the lookup of one publisher |

`Bytes`, `BigEndians`, `Ctype`, `Decimal`, `Options`, `Remainders` and `Texts` hold what these share.

Code that changes state is modelled by classes, arrays and loops; each method is proved against a function of its
inputs or of the old state, and the laws are lemmas about these functions. Threads are atomic steps of a state machine.
SQL statements act on sequences of rows.

Where code and documentation of the repository disagree, the model follows the code:

- the comment of `sha3_query` says that numbers are hashed in little-endian order; the code writes them big-endian
  (`Sha3Query.ValueAsDocumented` says for which values that makes no difference);
- the comment of `resolve_backslashes` lists `\s` as a space; the code has no branch for it and keeps the `s`
  (`CString.ResolvesAsDocumented`);
- `APND_MAX_SIZE` is described as a limit for prefix, database and mark together; the code checks
  only the end of a write, without prefix and mark, and a truncation not at all (`AppendVfs.NextWithinLimit` says exactly
  when the limit is kept);
- `apndFileSize` is wrong for a new file that has not been written to, for a mark that points behind itself, and without
  a prefix (`AppendVfs.FileSizeExactly` says exactly when it is right);
- the comment of `testcase_glob` lets `#` match any digits and a blank any whitespace, as `*` matches any characters; the
  code takes the longest number and all the whitespace, and takes both characters literally behind a star run
  (`GlobDocumented.PatternExactly` says exactly which patterns it matches as documented);
- the assertion at the end of `zipfileMtimeToDos` does not hold for all times (`DosTime.AssertedExactly`);
- the first pass of the pretty-printer also squeezes whitespace in string literals (`Pretty.LiteralExactly`);
- the second pass of the pretty-printer tracks quotes so as not to break lines inside them, but takes quotes for opening
  ones inside other quotes, and does not look at the quotes before a closing parenthesis (`PrettyQuotes.QuotesExactly`,
  `PrettyQuotes.TracksExactly`);
- `activity_info` asks for ON DELETE CASCADE, and the publisher's row is written with INSERT OR REPLACE. The repository
  does not turn foreign keys on, so SQLite ignores the clause by default; the model has both cases
  (`PublisherDatabase.LastWriteWins`, `PublisherDatabase.CascadeForgets`).

## Model

| member | source | states |
|---|---|---|
| `RoundConstants.TableIsStandard` | sqllite/shell.c:1393-1406 | each of the 24 constants of the table is the one that the linear feedback shift register of FIPS 202 section 3.2.5 generates, all 64 bits |
| `Keccak.ThetaBit` | sqllite/shell.c:1435-1444 | one bit of theta as FIPS 202 section 3.2.1 defines it: the bit xored with the parities of two neighbouring columns |
| `Keccak.RhoBit` | sqllite/shell.c:1445-1450 | one bit of rho: the lane rotated by the triangular number of the step that reaches it (section 3.2.2), 0 for the centre lane |
| `Keccak.OffsetByWalk` | sqllite/shell.c:1445-1499 | the 25 rotation amounts used by the unrolled rounds are those of the walk of section 3.2.2 |
| `Keccak.PiAt` | sqllite/shell.c:1445-1499 | pi moves lane (x+3y, x) to (x, y) (section 3.2.3) |
| `Keccak.ChiBit` | sqllite/shell.c:1451-1455 | one bit of chi (section 3.2.4) |
| `Keccak.FlatRoundIsRound` | sqllite/shell.c:1435-1501 | a round with theta, rho, pi and chi merged and every lane index worked out computes iota(chi(pi(rho(theta(a))))) |
| `Keccak.MixRow` | sqllite/shell.c:1451-1455 | one row of chi written back in place over the lanes it was fetched from |
| `Keccak.RoundA` | sqllite/shell.c:1435-1501 | first unrolled round, in place: reads the lanes at their natural places and leaves round 1 at the places of the first relabelling; lanes behind the state untouched |
| `Keccak.RoundB` | sqllite/shell.c:1502-1568 | second unrolled round, from the first to the second relabelling |
| `Keccak.RoundC` | sqllite/shell.c:1569-1635 | third unrolled round, from the second to the third relabelling |
| `Keccak.RoundD` | sqllite/shell.c:1636-1702 | fourth unrolled round, from the third relabelling back to the natural places |
| `Keccak.LayoutRestored` | sqllite/shell.c:1434-1703 | the storage map of the lanes is the identity again after four rounds |
| `Keccak.KeccakF1600Step` | sqllite/shell.c:1388-1703 | the loop with four in-place rounds per iteration equals 24 rounds of theta, rho, pi, chi, iota with the standard's constants |
| `Sponge.PartialOfBlocks` | sqllite/shell.c:1739-1794 | absorbing byte by byte and absorbing whole blocks give the same state once the string is a whole number of blocks |
| `Sponge.AbsorbPiece` | sqllite/shell.c:1747-1772 | a piece that fits the current block can be absorbed by itself, with the permutation when the block is full |
| `Sha3Hash.SHA3Context.constructor` | sqllite/shell.c:1710-1735 | an empty sponge with the rate for the digest size; 256 bits for a size out of range |
| `Sha3Hash.SHA3Context.Update` | sqllite/shell.c:1739-1772 | word path and byte path, any length, alignment and byte order: the state is the sponge of everything absorbed so far, nLoaded is the length modulo the rate |
| `Sha3Hash.SHA3Context.AddWord` | sqllite/shell.c:1747-1754 | one pass of the word loop absorbs eight bytes |
| `Sha3Hash.SHA3Context.AddByte` | sqllite/shell.c:1758-1771 | one pass of the byte loop absorbs one byte at the masked address |
| `Sha3Hash.SHA3Context.PadMessage` | sqllite/shell.c:1780-1789 | both padding branches absorb exactly the bits 01 and pad10*1 (sections 5.1 and 6.1) |
| `Sha3Hash.PaddedShort` | sqllite/shell.c:1780-1782 | with one byte left, the byte 0x86 is 01 followed by pad10*1 |
| `Sha3Hash.PaddedLong` | sqllite/shell.c:1783-1789 | with more bytes left, 0x06, the skipped zero bytes and 0x80 are 01 followed by pad10*1 |
| `Sha3Hash.SHA3Context.CopyOut` | sqllite/shell.c:1790-1792 | the copy of the digest behind the state: every byte read is one that was there before the copy |
| `Sha3Hash.SHA3Context.Final` | sqllite/shell.c:1778-1794 | the returned bytes are the sponge output of the message with suffix 01, one rate long (sections 4 and 6.1) |
| `Sha3Hash.Sha3Func` | sqllite/shell.c:1803-1834 | sha3(X, SIZE): SHA3-SIZE of FIPS 202 for the four sizes, an error for any other size, NULL for NULL |
| `Sha3Query.HashStepVFormat` | sqllite/shell.c:1839-1852 | a tag, a decimal length and a colon are absorbed uncut: the 50-byte buffer is large enough |
| `Sha3Query.HashValue` | sqllite/shell.c:1941-1988 | what one column value adds to the hashed stream |
| `Sha3Query.HashStatement` | sqllite/shell.c:1931-1990 | what a statement with its result rows adds to the hashed stream |
| `Sha3Query.Segments` | sqllite/shell.c:1861-1885 | a statement adds S, the decimal length of its text, a colon and the text, and then R and the values for each row |
| `Sha3Query.Sha3QueryFunc` | sqllite/shell.c:1886-1994 | sha3_query hashes the encoding of the statements of the script, unless one of them is not hashed: an error when the first such one cannot be prepared or writes, undefined when it is whitespace or a comment at the end, for which there is no statement whose text could be measured |
| `Sha3Query.ValueAsDocumented` | sqllite/shell.c:1870-1885 | for every value, with the comment written out letter by letter and byte by byte: its bytes are the documented ones if and only if it is no number or its eight bytes read the same in both directions |
| `Sha3Query.IntegerOne` | sqllite/shell.c:1946-1960 | the bytes for the integer 1: the high byte comes first, where the comment has the low byte first |
| `Sha3Query.ValueRoundTrip` | sqllite/shell.c:1941-1988 | an encoded value is decoded again, whatever follows it in the stream |
| `Sha3Query.DecodeEncode` | sqllite/shell.c:1839-1992 | the hashed stream is decoded to the same statements, rows and typed values |
| `Sha3Query.EncodeInjective` | sqllite/shell.c:1839-1992 | equal messages of the hash, as strings of bits, come from the same statements, rows and typed values |
| `SqlLiteral.CandidateBound` | sqllite/shell.c:8825-8837 | a string has no more than its length many of the numbered placeholders in it, so the search ends |
| `SqlLiteral.UnusedString` | sqllite/shell.c:8825-8837 | the placeholder: the first choice, the second choice or the first free numbered one, in this order; none that occurs in z |
| `SqlLiteral.PlaceholdersChosen` | sqllite/shell.c:8900-8907 | for every string: the placeholder of a line end is its backslash letter; if that occurs in the string, its octal form; if both do, the letter in parentheses with the first number that does not occur |
| `SqlLiteral.OutputQuotedEscapedString` | sqllite/shell.c:8883-8939 | the printed text: a plain literal, or a literal with placeholders inside the nested replace() calls that are needed |
| `SqlLiteral.MarksAreClean` | sqllite/shell.c:8896-8936 | placeholders of the two kinds cannot overlap each other or the text around them |
| `SqlLiteral.Unmark` | sqllite/shell.c:8896-8936 | replace() finds exactly the placeholders that were put in and none across a boundary |
| `SqlLiteral.PrintedEvaluates` | sqllite/shell.c:8883-8939 | for every string, evaluating the printed SQL text (literal, replace(), char(13) inside char(10)) gives the string |
| `SqlLiteral.PrintedSingleLine` | sqllite/shell.c:8883-8939 | no printed literal has a line feed or a carriage return in it |
| `SqlLiteral.PrintedQuoted` | sqllite/shell.c:8883-8939 | a string without line ends is printed in quotes with its quotes doubled |
| `FileModes.LsModeFunc` | sqllite/shell.c:2494-2521 | lsmode(): the letter of the file type and the nine permissions |
| `FileModes.PrintedMode` | sqllite/shell.c:2494-2521 | for every mode, the ten characters bit by bit |
| `FileModes.ParseMode` | sqllite/shell.c:5421-5435 | a mode that is given as text: its letter and nine places, or a parse error |
| `FileModes.ParsedExactly` | sqllite/shell.c:5421-5435 | for every text: it is read as a mode if and only if it has ten characters, a known letter and in each other place the letter of the template or a minus, and the mode is the sum of what they stand for |
| `FileModes.LsModeParsed` | sqllite/shell.c:2494-2521 | for every mode: what lsmode() prints is read as the type and the permissions, or refused if the file is no link, file or directory |
| `DosTime.FieldsFit` | sqllite/shell.c:4764-4799 | every field of the packed time and date fits its bits and unpacks to the calendar value |
| `DosTime.DayNumber` | sqllite/shell.c:4728-4799 | the day number rebuilt from year, month and day is the one they were computed from |
| `DosTime.TimeRoundTrip` | sqllite/shell.c:4728-4799 | all 32-bit times: exact to the even second from 1980-01-01 up to 2100-03-01, a day late from then on, the constant 1979-11-29 before 1980 |
| `DosTime.AssertedExactly` | sqllite/shell.c:4794-4798 | all 32-bit times: exactly when the assertion of the code holds; it fails in the last seven hours of 1979 and from 2100-03-01 on |
| `DosTime.CalendarTime` | sqllite/shell.c:4728-4752 | every stamp that names a month is the second of its date in the Gregorian calendar, counted by years and months; a day later from March 2100 on |
| `DosTime.StampIsDate` | sqllite/shell.c:4764-4799 | the stamp of every time from 1980 on is a date of that calendar, with no day behind the last one of its month |
| `ZipRecords.LFHRoundTrip` | sqllite/shell.c:4644-4667 | a serialised local header is 30 bytes and is parsed to the same fields (APPNOTE 4.3.7) |
| `ZipRecords.CDSRoundTrip` | sqllite/shell.c:4610-4638 | a serialised directory record is 46 bytes and is parsed to the same fields (APPNOTE 4.3.12) |
| `ZipRecords.LFHLayout` | sqllite/shell.c:5358-5389 | the place of each field of a local header, byte by byte (APPNOTE 4.3.7) |
| `ZipRecords.CDSLayout` | sqllite/shell.c:5752-5795 | the place of each field of a directory record, byte by byte (APPNOTE 4.3.12) |
| `ZipRecords.EOCDLayout` | sqllite/shell.c:5728-5740 | the place of each field of an end record, byte by byte (APPNOTE 4.3.16) |
| `ZipRecords.TimeExtraLayout` | sqllite/shell.c:5358-5389 | the nine bytes of the extra field with the time |
| `ZipRecords.ScanExtraFields` | sqllite/shell.c:4685-4708 | the time of the last timestamp field with the modification flag; a field that runs over the end stops the scan |
| `ZipRecords.ScanTimeExtra` | sqllite/shell.c:4685-4708 | the time that the writer puts into the extra field is found |
| `ZipRecords.ReadEOCD` | sqllite/shell.c:5147-5203 | backward scan of the last 64 KiB: the last signature and the fields behind it |
| `ZipRecords.EOCDFound` | sqllite/shell.c:5147-5203 | whatever stands in front, the scan stops at the end record of the archive (APPNOTE 4.3.16) |
| `ZipArchive.EntryRoundTrip` | sqllite/shell.c:4812-4907 | a directory record and its local part are read back as one entry, wherever they lie |
| `ZipArchive.ArchiveRoundTrip` | sqllite/shell.c:5234-5253 | loading the archive of any list of consistent entries gives the list, in order |
| `ZipArchive.ArchiveEnd` | sqllite/shell.c:5147-5203 | the end record that is found in a written archive names its number of entries and the place and size of its directory |
| `ZipForeign.ScanFields` | sqllite/shell.c:4685-4708 | in any list of extra fields, the time that is found is that of the last timestamp field with the modification flag; other fields are skipped |
| `ZipForeign.EntryOfAnyOrigin` | sqllite/shell.c:4812-4907 | for archives of any writer: name, extra fields, comment and data are those of the entry, the data behind the local header with its own lengths; the time is that of the last timestamp field, or that of the packed time and date; the next record is looked for behind the comment |
| `ZipForeign.EntriesOfAnyOrigin` | sqllite/shell.c:5234-5253 | records that lie one behind the other are loaded as their entries, in order |
| `ZipForeign.ArchiveOfAnyOrigin` | sqllite/shell.c:5234-5253 | an archive whose end record names such a chain is loaded as its entries |
| `ZipForeign.EndRecordExactly` | sqllite/shell.c:5147-5203 | for every blob: there is an end record if and only if its signature stands in the window, and it is read at the last such place |
| `ZipForeign.WrongRecord` | sqllite/shell.c:4849-4852 | a record is refused as such if and only if its signature is wrong |
| `ZipForeign.WrongLocal` | sqllite/shell.c:4882-4893 | an entry is refused for its local header if and only if the signature of that is wrong |
| `ZipWriter.ZipfileBuffer.Grow` | sqllite/shell.c:5919-5932 | room for nByte more bytes, contents kept; the doubling ends |
| `ZipWriter.ZipfileBuffer.SerializeLFH` | sqllite/shell.c:5358-5389 | the local header with name and time field is appended byte for byte |
| `ZipWriter.ZipfileBuffer.SerializeCDS` | sqllite/shell.c:5752-5795 | the directory record with name and time field is appended byte for byte |
| `ZipWriter.ZipfileBuffer.SerializeEOCD` | sqllite/shell.c:5728-5740 | the end record is appended byte for byte |
| `ZipWriter.FixDirectoryName` | sqllite/shell.c:6045-6065 | in place of the name of a directory: its normal form |
| `ZipWriter.DirectoryNameForm` | sqllite/shell.c:6045-6065 | the normal form ends with one slash; only surplus slashes are cut, only a missing one is added |
| `ZipWriter.ZipfileGetMode` | sqllite/shell.c:5411-5450 | the mode from NULL, a number or a text; an error if it cannot be parsed or does not fit the data |
| `ZipWriter.MakeItem` | sqllite/shell.c:5992-6079 | checks, mode, time, compression choice and record of a row, or the error it is refused with |
| `ZipWriter.RefusedExactly` | sqllite/shell.c:5942-6079 | which rows are refused, with which error, from their arguments alone |
| `ZipWriter.ZipfileCtx.Step` | sqllite/shell.c:5942-6112 | body and directory stay the concatenation of the local parts and the directory records of the rows accepted so far |
| `ZipWriter.ZipfileCtx.Final` | sqllite/shell.c:6117-6146 | body, directory and end record in one blob; nothing for no rows |
| `ZipWriter.LoadDirectory` | sqllite/shell.c:5234-5253 | the entries in directory order, or the first error |
| `ZipWriter.Zipfile` | sqllite/shell.c:5942-6146 | the aggregate over all rows: the archive of the accepted rows, or nothing when one is refused or there are none |
| `ZipWriter.RowsRoundTrip` | sqllite/shell.c:5942-6146 | for all rows within the limits of the format, the built blob loads to what their arguments ask for, in order: the name, with one slash for a directory; the given time, or the current one for NULL; the given mode, or 040755 or 0100644; the data, the deflated data for method 8, the shorter of the two for NULL; sizes, checksum, method, version and flags |
| `ZipWriter.ZipfileThenLoad` | sqllite/shell.c:5942-6146 | the aggregate followed by the loader gives back every row in this sense |
| `Csv.OutputCsv` | sqllite/shell.c:9036-9062 | a field is printed as it is, or quoted with its quotes doubled |
| `Csv.PrintedPlain` | sqllite/shell.c:9036-9062 | with a separator of one byte, a field is printed without quotes if and only if it is not empty and holds only visible ASCII characters, no quotes of either kind and no separator; otherwise in quotes, with its quotes doubled |
| `Csv.PrintedPlainLong` | sqllite/shell.c:9036-9062 | with a separator of another length, only a field that starts with it is quoted for it |
| `Csv.ShellState.CallbackCsv` | sqllite/shell.c:9488-9504 | one call prints the header on the first call only, then the row |
| `Csv.ExecPreparedStmt` | sqllite/shell.c:10187-10236 | a whole result is the header and one line per row |
| `Csv.ImportCtx.CsvReadOneField` | sqllite/shell.c:11431-11507 | one field: its text, the byte that ended it and the input left; a byte order mark is skipped in front of the first field only |
| `Csv.MarkSkipped` | sqllite/shell.c:11482-11491 | behind a byte order mark the first field is read from the start, quoted or not |
| `Csv.MarkKept` | sqllite/shell.c:11479-11493 | in front of any other field the three bytes belong to its text |
| `Csv.PlainRead` | sqllite/shell.c:11494-11503 | a field that does not start with a quote ends in front of the next separator; a carriage return at the end of a row is cut |
| `Csv.Unclosed` | sqllite/shell.c:11441-11477 | a quoted field without its closing quote goes on to the end of the file |
| `Csv.ImportCtx.ReadQuotedField` | sqllite/shell.c:11441-11477 | the loop over pc and ppc reads a quoted field |
| `Csv.ImportCtx.ReadNames` | sqllite/shell.c:13657-13664 | the column names: the fields of the first line |
| `Csv.ImportCtx.BindRow` | sqllite/shell.c:13720-13750 | one record is bound: missing fields are NULL, surplus ones are read and dropped |
| `Csv.ImportCtx.Import` | sqllite/shell.c:13718-13759 | the rows that are inserted, up to the end of the file |
| `Csv.ImportCommand` | sqllite/shell.c:13594-13759 | separators that are empty or too long are refused, the CRLF output separator becomes LF, an empty file and a table without columns insert nothing |
| `Csv.QuotedRoundTrip` | sqllite/shell.c:11441-11477 | a quoted field is read back, whatever bytes it holds: no byte inside it is taken for its end |
| `Csv.PlainRoundTrip` | sqllite/shell.c:11494-11503 | an unquoted field is read back |
| `Csv.FieldRoundTrip` | sqllite/shell.c:9036-9062 | any printed field is read back, in front of a separator, a row end or the end of the file |
| `Csv.RecordRoundTrip` | sqllite/shell.c:9488-9504 | any printed row is read back as one record |
| `Csv.TableRoundTrip` | sqllite/shell.c:13718-13759 | any table of text, printed row by row, is imported as the same rows (RFC 4180) |
| `Csv.RaggedRoundTrip` | sqllite/shell.c:13718-13759 | rows of any lengths: each inserted row has the width of the table, with the texts that are there, NULL for the others and without the surplus |
| `Csv.HeaderRoundTrip` | sqllite/shell.c:13657-13759 | with a header line, the names come back and the rows follow |
| `Csv.MarkedTable` | sqllite/shell.c:13594-13759 | any printed table behind a byte order mark is imported as without it |
| `Csv.MarkedHeader` | sqllite/shell.c:13657-13759 | so is a table with a header line |
| `Csv.PrintThenImport` | sqllite/shell.c:13594-13759 | printing a result in CSV mode and importing it gives the table back, with its column names when there is a header |
| `AppendVfs.ApndFile.ApndRead` | sqllite/shell.c:3649-3658 | reads behind the prefix |
| `AppendVfs.ApndFile.ApndWriteMark` | sqllite/shell.c:3663-3671 | writes the prefix text and the eight bytes of iPgOne at iMark |
| `AppendVfs.ApndFile.ApndWrite` | sqllite/shell.c:3676-3699 | one write as a step of the handle; SQLITE_FULL and no change at the limit |
| `AppendVfs.ApndFile.ApndTruncate` | sqllite/shell.c:3704-3714 | one truncation as a step of the handle |
| `AppendVfs.ApndFile.ApndFileSize` | sqllite/shell.c:3727-3736 | the size without prefix and mark, or the whole size when iPgOne is 0 |
| `AppendVfs.ApndFile.ApndIsOrdinaryDatabaseFile` | sqllite/shell.c:3844-3852 | 512 bytes or more, and the 16 bytes of the SQLite header |
| `AppendVfs.ApndFile.ApndReadMark` | sqllite/shell.c:3859-3873 | the number in the mark at the end of the file, its top bit masked, or -1 |
| `AppendVfs.ApndFile.ApndOpen` | sqllite/shell.c:3878-3922 | ordinary file, place from the mark, new place at the next multiple of 4096, or failure |
| `AppendVfs.MarkRoundTrip` | sqllite/shell.c:3663-3671 | a mark that is written for iPgOne reads as iPgOne |
| `AppendVfs.MarkLayout` | sqllite/shell.c:3663-3671 | for every offset, the 25 bytes of the mark: the text Start-Of-SQLite3- and the offset, most significant byte first |
| `AppendVfs.OpensWhereMarked` | sqllite/shell.c:3844-3922 | for every file: it is opened as it is if and only if it has 512 bytes or more and starts with the 16 bytes of a database; otherwise a file that ends with the text Start-Of-SQLite3- and an offset other than 0 is opened at the offset |
| `AppendVfs.OpensUnmarked` | sqllite/shell.c:3878-3922 | any other file is opened at the next multiple of 4096 to create a database, and not at all otherwise |
| `AppendVfs.StepRefines` | sqllite/shell.c:3676-3714 | each write or truncation keeps: prefix unchanged, mark at the end and iMark there, view of the database stored behind the prefix |
| `AppendVfs.RunRefines` | sqllite/shell.c:3649-3736 | every run after opening any file refines the same operations on the database file alone |
| `AppendVfs.PrefixAndMark` | sqllite/shell.c:3676-3714 | over every run, the bytes of the original prefix never change, and after the first accepted call the file ends with the mark |
| `AppendVfs.ReadsBack` | sqllite/shell.c:3649-3658 | over every run, bytes that were written and not cut off read back as last written |
| `AppendVfs.FileSizeExactly` | sqllite/shell.c:3727-3736 | over every run, exactly when the reported size is the logical one |
| `AppendVfs.FileSizeWithoutPrefix` | sqllite/shell.c:3727-3736 | with iPgOne 0 the mark is counted: one byte written reports 26 |
| `AppendVfs.FileSizeOfNewFile` | sqllite/shell.c:3727-3736 | a file of one byte, opened with create and not written to, reports -4120 |
| `AppendVfs.FileSizeOfFarMark` | sqllite/shell.c:3727-3736 | a file of one byte with a mark for offset 100 reports -99 |
| `AppendVfs.Reopens` | sqllite/shell.c:3878-3922 | over every run, a changed file is found again at the same place if and only if it has a prefix and does not look like an ordinary database |
| `AppendVfs.OrdinaryByPrefix` | sqllite/shell.c:3844-3852 | behind a prefix of 16 bytes or more, whether it looks ordinary is decided by the prefix and the size |
| `AppendVfs.ReopenedView` | sqllite/shell.c:3878-3922 | the handle that opens the changed file again stands for the same size and bytes |
| `AppendVfs.ReopensAsOrdinary` | sqllite/shell.c:3878-3922 | a file that is only the SQLite header looks like an ordinary database once something has been appended |
| `AppendVfs.ReopensElsewhere` | sqllite/shell.c:3878-3922 | an empty file that has been written to is opened again at offset 4096 |
| `AppendVfs.WholeSize` | sqllite/shell.c:3676-3714 | over every run with an accepted call, the size of the file is that of prefix, database and mark together |
| `AppendVfs.NextWithinLimit` | sqllite/shell.c:3520-3524 | over every run, the next accepted write or truncation leaves the file within APND_MAX_SIZE if and only if the new end of the database leaves room for the prefix and the mark |
| `AppendVfs.CheckMissesMark` | sqllite/shell.c:3676-3699 | an accepted write without a prefix that ends in a file of APND_MAX_SIZE + 24 bytes |
| `AppendVfs.CheckMissesTruncation` | sqllite/shell.c:3704-3714 | a truncation that ends in a file of APND_MAX_SIZE + 25 bytes |
| `AppendVfs.CheckMissesPrefix` | sqllite/shell.c:3676-3699 | one byte written behind a prefix of APND_MAX_SIZE bytes |
| `Glob.MatchClass` | sqllite/shell.c:11970-11998 | a bracket accepts a character just when it is in the list or, inverted, is not; an unclosed bracket accepts none |
| `Glob.PlainList` | sqllite/shell.c:11970-11998 | a list without ranges accepts its characters or, with a caret in front, all others |
| `Glob.RangeList` | sqllite/shell.c:11985-11997 | a range accepts what lies between its ends, and its first end in any case |
| `Glob.ListExactly` | sqllite/shell.c:11970-11998 | any list of characters and ranges, with a caret or a closing bracket in front or without, accepts just what one of them says, or everything else; a minus stands for itself where it starts no range |
| `Glob.TestcaseGlob` | sqllite/shell.c:11938-12010 | for every pattern and subject, the matcher ends and agrees with the tokens of the pattern; '#' and whitespace directly behind a star run are literal characters |
| `Glob.SearchLiteral` | sqllite/shell.c:11960-11967 | looking for the next literal character loses no match of the star in front of it |
| `Glob.SearchClass` | sqllite/shell.c:11954-11959 | looking for the next character that a bracket accepts loses no match |
| `Glob.TokensAsDocumented` | sqllite/shell.c:11915-11967 | the matcher reads a pattern as the tokens of the documentation if and only if no '#' and no whitespace stands directly behind a star run |
| `Glob.TrailingSpace` | sqllite/shell.c:12008-12009 | whitespace behind a subject that matches is ignored |
| `GlobDocumented.MatchesDocumented` | sqllite/shell.c:11915-12010 | the longest number and all whitespace are one choice that the documentation allows, for any tokens and subject |
| `GlobDocumented.DocumentedMatches` | sqllite/shell.c:11915-12010 | if no number is followed by what can take a digit and no whitespace by what can take whitespace, the longest choice misses no subject |
| `GlobDocumented.TokensExactly` | sqllite/shell.c:11915-12010 | for any tokens: the longest choice agrees with the documentation on every subject if and only if they can match nothing or are separated in this way |
| `GlobDocumented.PatternExactly` | sqllite/shell.c:11915-12010 | for every pattern: the matcher agrees with the documentation on every subject if and only if the pattern can match nothing, or '#' and whitespace are well placed and separated |
| `GlobDocumented.HashTakesAll` | sqllite/shell.c:11999-12003 | the pattern #5 does not match 55 |
| `GlobDocumented.HashBehindStar` | sqllite/shell.c:11948-11967 | the pattern *# does not match 5 and matches # |
| `GlobDocumented.BlankBehindStar` | sqllite/shell.c:11948-11967 | a star and a blank do not match a and a tab |
| `Pretty.Squeeze` | sqllite/shell.c:9384-9395 | the first pass in place computes the squeezed text; the write index stays behind the read index |
| `Pretty.TidyContent` | sqllite/shell.c:9384-9395 | the first pass keeps everything but whitespace, in order |
| `Pretty.TidyTwice` | sqllite/shell.c:9384-9395 | squeezing a squeezed text changes nothing |
| `Pretty.TidyExactly` | sqllite/shell.c:9384-9395 | the first pass leaves a text alone if and only if each whitespace byte stands inside it between two bytes that are not whitespace, not behind ( and not in front of ( or ) |
| `PrettyLayout.GapSqueezed` | sqllite/shell.c:9384-9395 | what is left of the whitespace between any two characters of a statement: nothing at a parenthesis, a line feed for a carriage return with more whitespace behind it, otherwise its first character |
| `Pretty.LiteralExactly` | sqllite/shell.c:9384-9395 | a string literal anywhere in a statement is squeezed by itself, and is left alone if and only if it has no such surplus whitespace |
| `Pretty.DefaultShrinks` | sqllite/shell.c:9384-9395 | in CREATE TABLE t(x DEFAULT '  ') the default becomes one blank |
| `Pretty.ComputeWsToEol` | sqllite/shell.c:9160-9169 | whether only whitespace and a comment follow on the line |
| `Pretty.PrintSchemaLineN` | sqllite/shell.c:9149-9154 | prints the first n bytes and restores the buffer |
| `Pretty.BreakLines` | sqllite/shell.c:9396-9427 | the second pass in place prints the lines of the statement |
| `Pretty.PiecesContent` | sqllite/shell.c:9396-9427 | the printed pieces hold all of the statement but whitespace, in order |
| `Pretty.PiecesDedent` | sqllite/shell.c:9408-9414 | a line that is not indented starts with the parenthesis that closes the outermost level |
| `Pretty.SchemaLineContent` | sqllite/shell.c:9142-9148 | what printSchemaLine inserts, and where |
| `PrettyLayout.SchemaLineExactly` | sqllite/shell.c:9142-9148 | IF NOT EXISTS is put in front of a quoted name behind CREATE TABLE, and nothing else is changed |
| `Pretty.PrettyContent` | sqllite/shell.c:9367-9431 | for every statement, the printed non-whitespace is the statement's followed by the semicolon, but for what printSchemaLine inserts |
| `Pretty.PrettyPrint` | sqllite/shell.c:9367-9431 | the whole of MODE_Pretty: views and triggers are printed unchanged, any other statement squeezed, and in lines if 79 bytes or more are left |
| `PrettyLayout.StartsExactly` | sqllite/shell.c:9377-9382 | which texts count as views and triggers: those that start with CREATE VIEW or CREATE TRIG, each letter in either case |
| `PrettyLayout.KeptOnLine` | sqllite/shell.c:9396-9427 | with depths counted over the text as SQL reads it: a text in which no comma stands at depth one and no parenthesis opens or closes the outermost level is printed on one line |
| `PrettyLayout.Together` | sqllite/shell.c:9396-9427 | at depth one or more, a balanced text in parentheses is printed without a line end inside |
| `PrettyLayout.LineAtOpening` | sqllite/shell.c:9416-9424 | a line ends behind the parenthesis that opens the outermost level |
| `PrettyLayout.LineAtComma` | sqllite/shell.c:9416-9424 | a line ends behind a comma at depth one outside quotes that no comment up to the line end follows |
| `PrettyLayout.LineAtClosing` | sqllite/shell.c:9408-9414 | a line ends in front of the parenthesis that closes the outermost level |
| `PrettyLayout.CommentLine` | sqllite/shell.c:9416-9424 | a comment behind a comma stays on the line and ends it |
| `PrettyLayout.PrintedLayout` | sqllite/shell.c:9396-9427 | a long statement with any columns: the first line ends with the opening parenthesis, each column has a line of its own, and the closing parenthesis starts the last line |
| `PrettyLayout.ShortStatement` | sqllite/shell.c:9395-9428 | a statement of less than 79 bytes is one line |
| `PrettyLayout.OrdersPrinted` | sqllite/shell.c:9396-9427 | the lines of CREATE TABLE orders(id INTEGER PRIMARY KEY,price DECIMAL(10,2) NOT NULL,customer TEXT,note TEXT) |
| `PrettyQuotes.QuotesExactly` | sqllite/shell.c:9396-9427 | for every statement: literals, quoted names and line comments, as SQL reads them, are printed unchanged by the second pass if and only if none of its line breaks falls inside one |
| `PrettyQuotes.TracksExactly` | sqllite/shell.c:9397-9406 | for every text: the character the pass looks for is the one with which SQL ends what stands there, in every place, if and only if no literal, name or comment holds an opening character of another kind |
| `PrettyQuotes.QuotesKept` | sqllite/shell.c:9396-9427 | for every statement in which none of them holds an opening character of another kind or a closing parenthesis, the second pass prints them unchanged |
| `PrettyQuotes.CommaInLiteral` | sqllite/shell.c:9396-9427 | after the literal with one double quote, a line ends behind the comma in the next literal, whatever follows |
| `PrettyQuotes.LiteralBroken` | sqllite/shell.c:9396-9427 | in CREATE TABLE t(a DEFAULT '"',b DEFAULT 'x,y',c TEXT,d TEXT,e TEXT,f TEXT,g TEXT) the literal 'x,y' is changed |
| `PrettyQuotes.ParenInLiteral` | sqllite/shell.c:9408-9414 | a line ends in front of a closing parenthesis in a literal, whatever follows |
| `IdxTriggers.Sqlite3Expert.IdxAuthCallback` | sqllite/shell.c:7668-7704 | a write to a known table of the main database is recorded unless it is there already |
| `IdxTriggers.Sqlite3Expert.IdxProcessOneTrigger` | sqllite/shell.c:7706-7786 | the list grows by exactly the writes that are fired |
| `IdxTriggers.DistinctBound` | sqllite/shell.c:7788-7804 | distinct writes are at most three per table, so the worklist ends |
| `IdxTriggers.Sqlite3Expert.IdxProcessTriggers` | sqllite/shell.c:7788-7804 | ends; on success the list is the least set with the initial writes that is closed under firing, and each write has been processed once |
| `Fsdir.FsdirCursor.FsdirNext` | sqllite/shell.c:2652-2710 | one step forward in the preorder of files; fails exactly when the current file is a directory that cannot be opened or the next file is missing, and the cursor can then be closed |
| `Fsdir.FsdirCursor.Descend` | sqllite/shell.c:2657-2680 | a directory is opened on a new level, or the error when it cannot be |
| `Fsdir.FsdirCursor.Advance` | sqllite/shell.c:2682-2709 | skips . and .., closes directories that are read to their end, fails exactly when lstat does not find the next entry |
| `Fsdir.FsdirCursor.FsdirResetCursor` | sqllite/shell.c:2608-2624 | closes every open directory once, also after an error |
| `Fsdir.FsdirCursor.FsdirFilter` | sqllite/shell.c:2793-2833 | the start path from the arguments, or an error |
| `Fsdir.CutExactly` | sqllite/shell.c:2652-2710 | a listing fails if and only if a file is missing or a directory cannot be opened, and it is then the rows up to the first such file, with the row of the directory and without the missing file |
| `Fsdir.VisitedExactly` | sqllite/shell.c:2652-2710 | for every tree: a file is visited under a path if and only if a list of names leads to it, through directories only and without . and ..; hidden files are visited |
| `Fsdir.EntriesInOrder` | sqllite/shell.c:2682-2709 | the files of each entry stand behind those of the entries that were read before it |
| `Fsdir.VisitsBased` | sqllite/shell.c:2818-2823 | a base directory stands in front of all paths and nothing else changes |
| `Fsdir.Scan` | sqllite/shell.c:2608-2833 | for every finite tree, the rows and the result code of a scan are those of the recursive preorder listing without . and .., cut off at the first failure, and all directories have been closed |
| `CString.OutputCString` | sqllite/shell.c:8944-8970 | the text in quotes with its escapes |
| `CString.PrintedForm` | sqllite/shell.c:8944-8970 | for every character: itself, a backslash in front of it, the letter of a control character, or three octal digits; the text is printable |
| `CString.UnescapeEscape` | sqllite/shell.c:11252-11294 | resolving the escapes gives the text back |
| `CString.QuotedLengthEscape` | sqllite/shell.c:13104-13114 | the closing quote ends the token and no quote inside it does |
| `CString.ResolveBackslashes` | sqllite/shell.c:11252-11294 | a token is resolved in place and nothing outside it changes |
| `CString.Tokenize` | sqllite/shell.c:13101-13121 | the strings at the returned offsets are the arguments of the line, 50 at most; later tokens leave earlier ones alone |
| `CString.ArgumentsJoined` | sqllite/shell.c:13101-13121 | any number of quoted texts with spaces between them: the first 50 are the arguments |
| `CString.ArgumentsOfLine` | sqllite/shell.c:13101-13121 | any tokens in double quotes, in single quotes or bare, with any whitespace between them, are the arguments of their line, up to 50: quoted text as it was meant, bare words with their backslashes resolved; whitespace is needed only behind a bare word |
| `CString.PlainWord` | sqllite/shell.c:13115-13120 | a word without a backslash stands for itself |
| `CString.UnclosedToken` | sqllite/shell.c:13104-13114 | a token without its closing quote goes on to the end of the line |
| `CString.CommandLine` | sqllite/shell.c:13101-13121 | a command with at most 50 printed arguments finds them all |
| `CString.PrintThenTokenize` | sqllite/shell.c:13101-13121 | printing any number of arguments on a line and tokenizing it gives the first 50 back |
| `CString.ResolvesAsDocumented` | sqllite/shell.c:11236-11251 | for every token: it resolves as the comment says if and only if no escaping backslash in front of its end is followed by s |
| `CString.DecodesAsDocumented` | sqllite/shell.c:11236-11294 | for every escape: what the code makes of it is what the comment lists, but for the letter s |
| `CString.EscapedS` | sqllite/shell.c:11236-11294 | the token \s resolves to the letter s |
| `IdxHash.IdxHashString` | sqllite/shell.c:6695-6702 | 32-bit hash of the key, modulo 1023 |
| `IdxHash.BucketExactly` | sqllite/shell.c:6695-6702 | the bucket is the value of the bytes as digits to the base 9, cut to 32 bits once, modulo 1023 |
| `IdxHash.IdxHash.IdxHashFind` | sqllite/shell.c:6746-6759 | the entry of a key, or null just when the map has no such key |
| `IdxHash.IdxHash.IdxHashSearch` | sqllite/shell.c:6766-6770 | the payload of a key |
| `IdxHash.IdxHash.IdxHashAdd` | sqllite/shell.c:6709-6740 | an existing key is left alone; a new one is added to the map and to the front of the list; buckets and list stay in step |
| `IdxHash.IdxHash.IdxHashClear` | sqllite/shell.c:6677-6689 | every entry is freed once |
| `TaskVector.RunKeeps` | driver/brave_rewards_service_impl.cc:940-949 | in every interleaving, every started thread is in the vector, being joined or joined already, in one place and once; every unfinished one is in the vector or being joined |
| `TaskVector.EmptyMeansFinished` | driver/brave_rewards_service_impl.cc:1553-1572 | in every interleaving, when the join sees the vector empty, all tasks started so far have finished and were joined |
| `TaskVector.ReturnedMeansFinished` | driver/brave_rewards_service_impl.cc:1553-1572 | for every run: in each of its states in which the join has returned no task is unfinished, if and only if no other thread starts a task in such a state |
| `TaskVector.OtherSpawner` | driver/brave_rewards_service_impl.cc:1553-1572 | another thread can start a task after the last look at the vector |
| `TaskVector.JoinedOnce` | driver/brave_rewards_service_impl.cc:1557-1565 | no task is joined twice or before it has finished |
| `PublisherDatabase.PublisherInfoDatabase.InsertOrUpdatePublisherInfo` | driver/publisher_info_database.cc:322-423 | replaces the publisher, then updates or inserts the activity row; only the publisher without a month or a year |
| `PublisherDatabase.UpsertContents` | driver/publisher_info_database.cc:355-414 | select, then update or insert, is an update of the map from keys to amounts; keys stay distinct |
| `PublisherDatabase.StoreKeeps` | driver/publisher_info_database.cc:322-423 | a call keeps one row per key and one per publisher, and a publisher for every row |
| `PublisherQueries.NoPeriod` | driver/publisher_info_database.cc:322-354 | without a month or a year nothing is stored about a period |
| `PublisherDatabase.LastWriteWins` | driver/publisher_info_database.cc:322-423 | over every sequence of calls, the table holds under each key what was last stored; with foreign keys enforced, only if no later call was for the same publisher |
| `PublisherDatabase.CascadeForgets` | driver/publisher_info_database.cc:322-423 | two periods of one publisher: the first one is lost if and only if foreign keys are enforced |
| `PublisherDatabase.PublisherInfoDatabase.Find` | driver/publisher_info_database.cc:489-587 | the rows of the join that pass the filter, read one by one, without those in front of the offset and behind the limit |
| `PublisherQueries.AllRecords` | driver/publisher_info_database.cc:489-587 | a filter that asks for nothing gives one record for each row of activity_info with its publisher, in their order |
| `PublisherQueries.WithId` | driver/publisher_info_database.cc:513-515 | asking for an id keeps exactly the records of this publisher, whatever else the filter asks for |
| `PublisherQueries.WithCategory` | driver/publisher_info_database.cc:517-520 | asking for a category keeps exactly the records of this category |
| `PublisherQueries.WithMonth` | driver/publisher_info_database.cc:522-525 | asking for a month keeps exactly the records of this month |
| `PublisherQueries.WithYear` | driver/publisher_info_database.cc:527-530 | asking for a year keeps exactly the records of this year |
| `PublisherQueries.WithStamp` | driver/publisher_info_database.cc:532-535 | asking for a reconcile stamp keeps exactly the records with this stamp |
| `PublisherQueries.WithDuration` | driver/publisher_info_database.cc:537-540 | asking for a duration keeps exactly the records that reach it |
| `PublisherQueries.WithExcluded` | driver/publisher_info_database.cc:542-554 | asking for an exclusion keeps exactly the records that have it, or for one of its values those that do not have it |
| `PublisherQueries.PageExactly` | driver/publisher_info_database.cc:561-567 | record k of a page is record start + k of the whole list, up to the limit; start counts only from 2 on and with a limit |
| `PublisherDatabase.LookupFixedKey` | driver/brave_rewards_service_impl.cc:761-800 | a filter that fixes the key finds what was last stored under it and never reports too many results |
| `PublisherDatabase.LookupExactly` | driver/brave_rewards_service_impl.cc:761-800 | after any calls, the answer to a filter that fixes the key is what was last stored under it and last told about its publisher, if that passes the rest of the filter, and otherwise that there is none |
| `PublisherDatabase.FoundExactly` | driver/brave_rewards_service_impl.cc:761-800 | a filter that asks for nothing but the key finds a record if and only if amounts were stored under it and are still there |
| `PublisherQueries.StoredIsFound` | driver/brave_rewards_service_impl.cc:761-800 | a stored record with a period is found again field by field, whatever is stored later for other publishers |
| `PublisherDatabase.PublisherInfoDatabase.LoadPublisherInfo` | driver/brave_rewards_service_impl.cc:761-800 | the lookup with limit two and the result for the callback |
| `PublisherDatabase.TooManyExactly` | driver/brave_rewards_service_impl.cc:782-800 | too many results are reported just when two or more rows pass the filter |

## Left out

- Sizes and counters are unbounded except where a field, a hash or a packed time has a width of its own; strings of 2 GiB and more are not modelled.
- Allocation failures, I/O errors and interrupts, except a directory that cannot be opened and a file that cannot be found.
- Strings are free of NUL bytes; what the CSV importer does with a NUL byte in its input is not modelled.
- Character classes are those of the C locale.
- CSV separators with the high bit set, which never equal a byte that is read; NULL values in CSV output; line numbers and warnings of the importer; the failure of CREATE TABLE or INSERT.
- zlib: deflate and crc32 are opaque functions of the data, and inflating is not modelled.
- DosTime.TimeRoundTrip: the floating-point constants are exact rationals, so the rounding of their products is not modelled.
- ZIP: empty names (the code reads the byte in front of them), archives in files, and transactions that change an archive in place.
- ZipRecords.ScanExtraFields: an extra field that is cut off ends the scan, where the code reads behind it.
- ZipArchive: a directory record that points outside the blob gives the result PastEnd, where the code reads out of bounds.
- Append VFS: locking, shared memory, memory mapping and other operations that are passed on; holes are read as zeros by the model of the file below, and no law depends on it.
- PrettyQuotes: sqlite3.c, with the tokenizer, is not part of this model; the model has SQL's quotes, brackets and comments, and a block comment opens at every /*.
- IdxTriggers.Sqlite3Expert.IdxProcessOneTrigger: which writes a write fires is a parameter; the SQL that finds out is not modelled.
- IdxHash: the second payload of an entry.
- What C does when `sha3_query` measures a null text; the result is called undefined.
- Fsdir: the file system does not change during a scan; the columns mode, mtime and data.
- TaskVector: the two seconds of sleep between two joins, and threads that are not joinable. The steps are not tied to C++ code by a method.
- PublisherDatabase: errors of SQLite, quotes in the id of a filter, and the values of the enumerations, which are declared in a library that is not part of this model.
- PublisherDatabase.PublisherInfoDatabase.Find: a filter has no ORDER BY; rows come in the order of the tables, because SQLite does not promise another one.
- Dot-command dispatch, help, console handling, URL loading, timers, file storage and logging.
