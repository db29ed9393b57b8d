# isit: roster normalisation, modelled in Dafny

`isit` turns a school's roster export into an import file for IServ. It reads
one of two source shapes, chosen once per run by `--record-type`:

- **SchILD** rows (`Nachname`, `Vorname`, `Klasse`, GUID). Upper-school classes
  are cut down to their grade: a class starting with "11", "12" or "13"
  becomes exactly that prefix. Every other class passes through unchanged.
- **Guest-student** rows (`NAME, VORNAME`, `KLASSE`, `SCHÜLERNR`). The combined
  name is split at the first ", ". The surname is the part before it with its
  first (marker) character dropped. The given name is the next part with
  every " (G)" deleted.

Every output row (`RecordIserv`) gets a password made of two words from the
embedded word list, joined by "-" and never capitalised. The collectors for
CSV and spreadsheet input push one tagged record per row and stop at the
first row the reader rejects. `main` then converts the records in order.

Modules:

- `Wrappers` (`wrappers.dfy`): `Option` and `Result`.
- `Text` (`text.dfy`): the Rust `str` operations the core relies on:
  `starts_with`, `split` with a string pattern, `collect::<String>()` of the
  pieces, and `lines`.
- `Passphrase` (`passphrase.dfy`): the word list and the two-word password.
- `Records` (`records.dfy`): the record shapes, `RecordIserv::new` and the
  three `From` conversions.
- `Collectors` (`collect.dfy`): the row-collecting loops, written as methods
  and proved against the function `Collect`.
- `Pipeline` (`pipeline.dfy`): `main`'s dispatch on the file type and the
  order-preserving conversion of the collected records.

Strings are sequences of Unicode scalar values. The separators ", ", " (G)"
and "\n" are ASCII, so splitting on characters gives the same pieces as Rust's
splitting on UTF-8 bytes. The one byte-level operation is `&name[0][1..]`. It
is modelled by requiring the surname's first character to be a single byte
(`IsSingleByte`, code point below 0x80). On any other input that slice panics.

The model follows the code, including where its behaviour may be
unexpected:

- A row the reader rejects aborts the whole collection, because of the `?`
  at src/main.rs:197, 204, 237 and 243. Rows are not skipped. This is shown
  by `Collectors.CollectCharacterised` and `Pipeline.BadRowAbortsRun`.
- A guest-student name without ", ", or with an empty surname part, is not a
  per-row error. The indexing panics, so the model makes it a precondition
  (`ConvertibleName`). `Records.ConvertibleNameIff` shows that this
  precondition is exactly the panic condition.
- The first character of the surname part is always dropped. "Müller, Anna (G)"
  therefore gives the surname "üller" (`Records.UnmarkedSurnameLosesFirstLetter`).
  The surname "Müller" needs a marker, as in "#Müller, Anna (G)"
  (`Records.MuellerExample`).
- Every " (G)" is deleted, wherever it occurs, not only a trailing one
  (`Text.RemoveAllCuts`).
- The grade prefixes are the constants "11", "12" and "13"; "10…" passes
  through.

## Model

| member | source | states |
|---|---|---|
| `Text.IndexOf` | src/main.rs:137 | the result is an occurrence of the pattern, and no occurrence starts earlier; the result is None exactly when the pattern does not occur |
| `Text.Split` | src/main.rs:137 | there is at least one piece, the pieces joined with the separator give back the input, and no piece contains the separator |
| `Text.FirstOccurrenceAfter` | src/main.rs:137 | if `a` does not contain an unbordered separator, the first separator in `a + sep + t` starts right after `a`, whatever `t` is |
| `Text.SplitAfterFirst` | src/main.rs:137 | splitting `a + sep + t` gives `a` followed by the pieces of `t` |
| `Text.SplitWithout` | src/main.rs:137 | a string without the separator is a single piece |
| `Text.RemoveAllCuts` | src/main.rs:139 | `split(pat).collect()` deletes an occurrence anywhere in the string and keeps the text on both sides of it |
| `Text.RemoveTrailing` | src/main.rs:139 | a trailing marker is deleted and nothing else changes |
| `Text.RemoveAbsent` | src/main.rs:139 | a string without the marker is returned unchanged |
| `Text.Lines` | src/main.rs:99-102 | no line of the word file contains a newline, and there are no lines exactly when the file is empty |
| `Text.SplitTerminated` | src/main.rs:99-102 | a file of newline-terminated entries splits into the entries plus one empty piece |
| `Text.LinesOfTerminated` | src/main.rs:99-102 | the lines of a file of newline-terminated entries are exactly those entries, in order |
| `Text.SplitJoin` | src/main.rs:137 | for an unbordered separator, splitting the join of separator-free pieces gives back exactly those pieces |
| `Text.LinesOfUnterminated` | src/main.rs:99-102 | the final line ending is optional: entries joined by "\n" without a final newline are the lines, in order, when the last entry is non-empty |
| `Text.LinesOfCrlf` | src/main.rs:99-102 | a file whose lines all end in "\r\n" has exactly its entries as lines, with each carriage return stripped |
| `Passphrase.WordList` | src/main.rs:98-104 | no entry contains a newline, and the list is empty exactly when the word file is; which entries it holds for a file ended by "\n", by "\r\n" or by no final line ending is stated by the three `Text.LinesOf…` lemmas |
| `Passphrase.Generate` | src/main.rs:96-108 | the password is two word-list entries joined by "-", and its length is the two words' lengths plus one |
| `Passphrase.GenerateSplitsIntoWords` | src/main.rs:96-108 | if no word contains "-", splitting the password at "-" gives back exactly the two drawn words, uncapitalised and in order |
| `Records.NewIserv` | src/main.rs:94-117 | surname, given name, class and import id are stored as given, and the password is a two-word passphrase from the word list |
| `Records.GradeBucket` | src/main.rs:121-130 | the result is a prefix of the class; if the class starts with "11", "12" or "13", the result is exactly that prefix; otherwise it is the class unchanged |
| `Records.GradeBucketExamples` | src/main.rs:122-129 | "11b" becomes "11" and "13" stays "13"; "10a", "ABI" and "1" pass through |
| `Records.GradeBucketIdempotent` | src/main.rs:122-129 | bucketing a bucketed class changes nothing |
| `Records.FromSchild` | src/main.rs:119-133 | the names pass through, the class is bucketed, the import id is the GUID, and the password is a passphrase |
| `Records.ConvertibleNameIff` | src/main.rs:137-138 | the accepted names are exactly those where `name[1]` exists and `name[0]` is non-empty and starts with a one-byte character, so indexing does not panic |
| `Records.FromGastschueler` | src/main.rs:135-142 | the surname is the text between the first character and the first ", "; the given name is the text up to the next ", " with every " (G)" deleted; the class passes through; the import id is the pupil number |
| `Records.SeparatorsUnbordered` | src/main.rs:137-139 | neither ", " nor " (G)" can overlap itself |
| `Records.GastschuelerNameParts` | src/main.rs:137-139 | for "a, b" or "a, b, …", the surname is `a` without its first character and the given name is `b` without markers; text after a second ", " never reaches the record |
| `Records.GuestStudentName` | src/main.rs:137-139 | "<marker>Surname, Given (G)" gives exactly `Surname` and `Given` |
| `Records.MuellerExample` | src/main.rs:135-142 | "#Müller, Anna (G)" gives surname "Müller" and given name "Anna"; the class and pupil number pass through |
| `Records.UnmarkedSurnameLosesFirstLetter` | src/main.rs:138 | "Müller, Anna (G)" gives surname "üller", because the first character is dropped unconditionally |
| `Records.FromRecord` | src/main.rs:144-151 | a SchILD record goes to the SchILD conversion and a guest-student record to the guest-student conversion |
| `Collectors.CollectCharacterised` | src/main.rs:236-249 | collecting succeeds exactly when every row was read; it then holds one record per row, tagged, in row order; otherwise it returns the first bad row's error |
| `Collectors.PushRows` | src/main.rs:236-246 | the loop returns all rows tagged in order when all were read, else the first row's error, and this is `Collect` |
| `Collectors.CollectFirstError` | src/main.rs:237 | if every row before row `i` was read and row `i` was not, the result is row `i`'s error |
| `Collectors.CollectAsTagged` | src/main.rs:234-247 | every collected record has the variant that the record type selects |
| `Collectors.GetAllCsvRecords` | src/main.rs:213-250 | the result is the collection of the rows read as the selected shape |
| `Collectors.GetAllXlsxRecords` | src/main.rs:182-211 | a failure to open the workbook or find its sheet is returned unchanged; otherwise the result is the collection of the sheet's rows |
| `Pipeline.ConvertAll` | src/main.rs:171 | one IServ record per collected record, the k-th being the conversion of the k-th record with the k-th draw |
| `Pipeline.Run` | src/main.rs:157-178 | a collector error is returned unchanged; otherwise the result is every record converted, in order |
| `Pipeline.SchildRunPreservesRows` | src/main.rs:169-171 | a SchILD run over fully read rows gives one output row per input row, in order, with names and GUID passed through and the class bucketed |
| `Pipeline.GastschuelerRunPreservesRows` | src/main.rs:169-171 | a guest-student run over fully read, convertible rows gives one output row per input row, in order, each its row's conversion |
| `Pipeline.BadRowAbortsRun` | src/main.rs:236-246 | one unreadable row anywhere makes both the CSV and the spreadsheet collection fail |

## Left out

- CSV tokenising, the character decoding with `encoding_rs` and serde's header matching (src/main.rs:63-92, 222-233) are library behaviour. The reader is modelled as the sequence of per-row deserialisation results it yields (`Collectors.Rows`), one sequence per source shape.
- Opening the spreadsheet with `calamine`, looking up its first sheet and building the row deserialiser (src/main.rs:187-192, and once per shape at 195 and 202) are modelled as one `Result` input (`GetAllXlsxRecords`'s `sheet`). It stands for the outcome for the record type chosen for the run, since a header mismatch depends on the shape being read. The panic of `sheets[0]` on a workbook without sheets is not modelled.
- `File::open(path).unwrap()` (src/main.rs:218) panics on a missing file. The model starts after the file is open.
- The contents of the embedded word file (`res/words.txt`) are not part of this model. The file text is a parameter (`wordFile`).
- The random choice inside `chbs` is not modelled. The positions it picks are an input (`Passphrase.Draw`), one per converted record.
- `clap` argument parsing, `env_logger` and `info!` logging, and the `println!` of errors (src/main.rs:48-61, 153-179) are user-interface plumbing. `Pipeline.Run` returns the error that would be printed.
- `write_records_to_file` (src/main.rs:252-262) is output I/O. `Pipeline.Run` returns the records that would be written.
- A malformed guest-student name panics in the code. The model makes this a precondition (`ConvertibleName`) rather than an error value, because the code has no error path there.
