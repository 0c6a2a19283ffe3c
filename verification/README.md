# CSVParser row mapping, in Dafny

This project models the row-mapping engine of `CSVParser.java`. The engine
maps the lines of a CSV text onto instances of a record class:

- the first line is split on the delimiter to give the header names;
- each public field of the record class is matched to a header by its
  *binding name*: the value of its `@Serializable` annotation if it has one,
  else its declared name;
- the cell under that column is converted by the parser that the global
  `PARSERS` table holds for the field's class;
- the record is returned only when every field was bound. Any `Exception`
  thrown in between is caught and turns the whole line into `null`.

The model is functional. Reflection becomes an explicit `RecordType`: an
ordered list of `Field(declaredName, alias, fieldType)` and a flag saying
whether the class can be instantiated. `PARSERS` becomes a
`map<TypeTag, string -> Option<Value>>` passed to each call, with `None`
standing for a parser that throws an `Exception`. `parseRow` becomes
`ParseRow(parser, registry, line): Option<seq<Value>>`, with one value per
field in field order and `None` for `null`.

Modules:

- `JavaStrings` (`java_strings.dfy`) models the library behaviour the engine
  relies on. `String.split(delimiter)` with limit 0 is `Split`, and the
  JDK's split loop is the method `SplitLiteral`, proved equal to it. Split
  uses leftmost non-overlapping matches. A line with no match comes back
  whole, so `""` gives `[""]`. Trailing empty pieces are dropped. The file
  also has `List.indexOf` (`IndexOf`) and `String.equalsIgnoreCase`.
- `JavaParsers` (`java_parsers.dfy`) has `Integer.parseInt` (base 10), with
  its digit loop and 32-bit range check, and `Boolean.parseBoolean`.
- `ParserRegistry` (`registry.dfy`) has the `PARSERS` table, its four
  built-in entries, `registerParser` and lookup.
- `Schema` (`schema.dfy`) has fields, record classes and binding names.
- `CsvParser` (`csv_parser.dfy`) has the constructor's header handling,
  `parseRow`, `rows()` and the properties that relate them.
- `CsvExamples` (`csv_examples.dfy`) works through concrete lines. It uses
  the `Foo` class from the class comment, plus a few small classes for
  the edge cases.

This model follows the code, including these behaviours a reader may not
expect:

- A line shorter than a field's column makes the whole line `null`.
  `split[index]` throws `ArrayIndexOutOfBoundsException` and the exception
  is caught. The field is not left at a default. The `rows()` Javadoc
  (CSVParser.java:93) asks for lines with at least as many fields as the
  class has.
- `Boolean.parseBoolean` never fails. Any text other than "true" in some
  mix of cases gives `false`.
- No field is optional. A field whose binding name is not a header fails
  the line.
- A failure is `null` with no cause attached. A class that cannot be
  instantiated fails on every line, because `parseRow` instantiates it
  per line.
- Because `split` drops trailing empty strings, a line such as `x,` has
  only one cell. A field under its second column therefore fails, even a
  text field.

## Model

| member | source | states |
|---|---|---|
| `JavaStrings.SplitLiteral` | CSVParser.java:102 | The split loop (collect the piece before each match, return the line itself when nothing matched, add the tail, cut trailing empty pieces) computes exactly `Split(line, delimiter)` |
| `JavaStrings.CollectPieces` | CSVParser.java:102 | The match loop's pieces plus the tail are the raw pieces of the line, and its offset is 0 exactly when the delimiter never occurs |
| `JavaStrings.CutTrailingEmpty` | CSVParser.java:102 | The result-size loop returns the longest prefix of the pieces that does not end in an empty string |
| `JavaStrings.DropTrailingEmpty` | CSVParser.java:102 | Its result is a prefix of the input, everything cut is empty, and the last kept piece is non-empty |
| `JavaStrings.FindFrom` | CSVParser.java:102 | A match found by the delimiter search is a real occurrence at or after the start position |
| `JavaStrings.FindFromIsLeftmost` | CSVParser.java:102 | The search returns the leftmost occurrence, and returns none exactly when the delimiter does not occur again |
| `JavaStrings.PiecesJoin` | CSVParser.java:102 | Joining the raw pieces with the delimiter gives back the line (round trip) |
| `JavaStrings.PiecesAvoidDelimiter` | CSVParser.java:102 | No raw piece contains the delimiter |
| `JavaStrings.Split` | CSVParser.java:102 | `split` with limit 0: a line without the delimiter is its own single cell; otherwise the cells are the leading raw pieces, only empty pieces are cut, and the last cell is never empty. `PiecesJoin` shows the raw pieces join back to the line |
| `JavaStrings.SplitAvoidsDelimiter` | CSVParser.java:75 | No header name or cell contains the delimiter |
| `JavaStrings.TrailingDelimiterDropped` | CSVParser.java:102 | For a one-character delimiter, a delimiter at the end of a non-empty line changes nothing: the empty last cell is gone |
| `JavaStrings.SplitTwoFields` | CSVParser.java:102 | A line `a,b` with non-empty `b` and no other delimiter splits into exactly `[a, b]` |
| `JavaStrings.IndexOf` | CSVParser.java:112 | `indexOf` is -1 exactly when the name is not a header; otherwise it is the position of the first header equal to the name |
| `JavaStrings.FirstOccurrenceWins` | CSVParser.java:75 | With duplicate header names the first occurrence's position is used, never a later one |
| `JavaParsers.Accumulate` | CSVParser.java:54 | The digit loop succeeds exactly when the rest is all digits and their value stays within the bound, and then returns that value |
| `JavaParsers.ParseInt` | CSVParser.java:54 | `Integer.parseInt` succeeds exactly on an optionally signed run of decimal digits whose value lies in [-2^31, 2^31 - 1], and returns that value |
| `JavaParsers.ParseBoolean` | CSVParser.java:57 | `Boolean.parseBoolean` is true exactly for the sixteen case variants of "true" and false for every other text |
| `ParserRegistry.IntegerParser` | CSVParser.java:54 | The Integer entry succeeds exactly on an optionally signed run of decimal digits whose value lies in [-2^31, 2^31 - 1], and then holds the number the text denotes |
| `ParserRegistry.BooleanParser` | CSVParser.java:57 | The Boolean entry never fails, and holds true exactly for the case variants of "true" |
| `ParserRegistry.InitialRegistry` | CSVParser.java:53-58 | The initial table has exactly the Integer, Double, String and Boolean classes, mapped to their built-in parsers |
| `ParserRegistry.BuiltinParsers` | CSVParser.java:53-58 | The String entry (`StringParser`, `s -> s`) hands back every text unchanged, the empty text included; the Boolean entry never fails; the Integer entry accepts only in-range integer text |
| `ParserRegistry.Register` | CSVParser.java:67-69 | Registering adds the class to the table, maps it to the new parser, and keeps every other entry |
| `ParserRegistry.RegisterThenLookup` | CSVParser.java:67-69 | The next lookup of the registered class returns the new parser; lookups of other classes are unchanged |
| `ParserRegistry.LastRegistrationWins` | CSVParser.java:67-69 | Two registrations for the same class leave only the second one in effect |
| `ParserRegistry.RegisterKeepsClasses` | CSVParser.java:67-69 | Registration never removes an entry |
| `CsvParser.From` | CSVParser.java:71-76 | The headers are the first line split on the delimiter, so no header contains the delimiter |
| `CsvParser.FieldOutcome` | CSVParser.java:109-116 | A field whose binding name is not a header fails. Otherwise let `c` be the first header position holding that name: the field succeeds exactly when the line has a cell at `c`, its class has a parser, and that parser accepts the cell; whenever the cell and the parser exist, the outcome is the parser's result on cell `c` |
| `CsvParser.ParseFields` | CSVParser.java:108-117 | The field loop yields a record exactly when every field converts; the record has one value per field, each the parser's result on the field's cell |
| `CsvParser.ParseRow` | CSVParser.java:101-125 | A line becomes a record exactly when the class can be instantiated and every field converts; on success every field holds `PARSERS[type](split[indexOf(name)])`; otherwise the result is `null` |
| `CsvParser.Rows` | CSVParser.java:97-99 | `rows()` maps each line on its own, in order, with one result per line |
| `CsvParser.AnyBadFieldFailsRow` | CSVParser.java:112-124 | A missing header, a line too short for the column, a missing parser or a parser failure in any single field makes the whole line `null` |
| `CsvParser.AliasShadowsDeclaredName` | CSVParser.java:109-112 | The binding name (`Schema.BindingName`) of an aliased field is its alias: the field is matched by its alias only; if the alias is not a header the line fails, even when the declared name is one |
| `CsvParser.DeclaredNameBinds` | CSVParser.java:109-112 | The binding name (`Schema.BindingName`) of a field without an alias is its declared name: the field is matched by its declared name and reads the cell under that name's first column |
| `CsvParser.RegisteredParserIsUsed` | CSVParser.java:67-69 | After `registerParser(cls, p)`, every field of class `cls` is bound to `p` applied to its cell |
| `CsvParser.RegistryFrame` | CSVParser.java:115 | The field loop depends on the registry only at the classes of the fields |
| `CsvParser.UnrelatedRegistrationInvisible` | CSVParser.java:67-69 | Registering a parser for a class no field has leaves every line's result unchanged |
| `CsvParser.FieldOrderIrrelevant` | CSVParser.java:108 | Whether a line fails does not depend on the order in which the fields are visited |
| `CsvParser.FieldOrderKeepsValues` | CSVParser.java:108 | On success each field gets the same value whichever order the fields are visited in |
| `CsvExamples.FooParserFromHeaderLine` | CSVParser.java:75 | The header line `alpha,value` gives the headers `["alpha", "value"]` |
| `CsvExamples.DocumentedLine` | CSVParser.java:21-33 | For the class comment's `Foo`, the line `hello,42` gives `value = 42` and `s = "hello"` |
| `CsvExamples.ShortLineFails` | CSVParser.java:115 | The line `world` has no cell under `value` and gives `null` |
| `CsvExamples.MalformedIntegerFails` | CSVParser.java:115 | `hello,abc` gives `null` because `abc` is not an integer |
| `CsvExamples.TrailingEmptyCellFails` | CSVParser.java:102 | Under the header `a,b` with two text fields, `x,` gives `null` because `split` drops the empty last cell |
| `CsvExamples.LeadingEmptyCellIsText` | CSVParser.java:56 | Under the same header, `,y` gives `a = ""` and `b = "y"` |
| `CsvExamples.DuplicateHeaderReadsFirstColumn` | CSVParser.java:112 | Under the header `a,a`, the field `a` reads the first column |
| `CsvExamples.NamesAreCaseSensitive` | CSVParser.java:110-113 | A field `value` does not match a header `Value`, so the line gives `null` |
| `CsvExamples.PrimitiveFieldFails` | CSVParser.java:115 | A field of primitive class `int` has no parser, so every line gives `null` |
| `CsvExamples.BooleanFieldTakesAnyText` | CSVParser.java:57 | A Boolean field reading `yes` is bound to `false` rather than failing |

## Left out

- Reading lines. `BufferedReader.readLine` in the constructor and the lazy
  `reader.lines()` stream in `rows()` are I/O. The header line and the data
  lines are given as strings. `IOException`, and the
  `NullPointerException` when the input has no first line, are not
  modelled.
- Reflection mechanics. `getFields()`, `getAnnotation`, `field.set`,
  `getDeclaredConstructor` and `newInstance` are replaced by the explicit
  `RecordType`. Any constructor failure is the single flag `constructible`.
  The fields are the class's public fields, given in some order, and
  `FieldOrderIrrelevant` and `FieldOrderKeepsValues` show that the order
  does not change the outcome.
  A failure of `field.set` itself (a `final` field, for example) is not
  modelled.
- `Double::parseDouble`. Floating-point parsing is not modelled. The
  Double entry is a parameter of `InitialRegistry`, and doubles are
  `Opaque` values, as are the objects built by registered parsers.
- Regular-expression delimiters. `split` takes a regex. The model requires
  a non-empty delimiter with none of the characters `.$|()[{^?*+\`, for
  which the regex matches the delimiter text literally (`LiteralDelimiter`).
- `JavaParsers.ParseInt`: accepts only the ASCII digits `0`-`9`. Java's
  `Character.digit` also accepts the other Unicode decimal digits.
- `JavaStrings.EqualsIgnoreCase`: folds ASCII letters only, while Java
  uses full Unicode case mapping. The only use is comparing with `"true"`,
  and the model assumes that no non-ASCII character folds to one of its
  letters.
- Only `Exception`s become `null`. The catch at CSVParser.java:120 does not
  catch an `Error`: an `Error` thrown by a registered parser, or an
  `ExceptionInInitializerError` from `newInstance`, escapes `parseRow` and
  the stream. The model has no such outcome and gives `None` for every
  failing parser and for every class that cannot be instantiated. A
  registered parser that returns `null` does not fail: the field is set
  to `null` and the line succeeds, which the model represents as a value.
- Printing the stack trace in the catch block is logging and has no
  effect on the result.
- Concurrency. The static `HashMap` is shared mutable state and is not
  thread-safe. The model passes one registry to each call, so a
  registration made while a lazy stream is being consumed is not
  modelled: `Rows` uses one registry for all its lines.
- `CSVParser.h` is not part of this model. It is a thin wrapper over
  `std::istream` extraction and `std::getline`.
