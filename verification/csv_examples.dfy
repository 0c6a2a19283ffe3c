/** Worked lines for the record class of the `CSVParser` class comment,
    `Foo { Integer value; @Serializable("alpha") String s; }`, under the
    header `alpha,value` and the built-in registry. */
module CsvExamples {
  import opened Wrappers
  import opened JavaStrings
  import opened JavaParsers
  import opened ParserRegistry
  import opened Schema
  import opened CsvParser

  function Foo(): RecordType {
    RecordType([Field("value", None, IntegerClass), Field("s", Some("alpha"), StringClass)], true)
  }

  /** The parser `CSVParser.from` builds for `Foo` from the header line `alpha,value`. */
  function FooParser(): (p: ParserState)
    ensures Valid(p)
  {
    ParserState(Foo(), ",", ["alpha", "value"])
  }

  lemma FooParserFromHeaderLine()
    ensures From("alpha,value", Foo(), ",") == FooParser()
  {
    assert ',' !in "alpha" && ',' !in "value";
    Cells("alpha", "value");
    assert "alpha" + "," + "value" == "alpha,value";
  }

  /** `hello,42` becomes `Foo { value = 42, s = "hello" }`: each field reads
      the column of its binding name, not its position. */
  lemma DocumentedLine(parseDouble: Parser)
    ensures ParseRow(FooParser(), InitialRegistry(parseDouble), "hello,42")
      == Some([IntValue(42), TextValue("hello")])
  {
    var p, reg := FooParser(), InitialRegistry(parseDouble);
    assert ',' !in "hello" && ',' !in "42";
    Cells("hello", "42");
    assert "hello" + "," + "42" == "hello,42";
    var cells := ["hello", "42"];
    var fs := p.recordType.fields;
    FooColumns();
    Digits42();
    assert reg[IntegerClass]("42") == Some(IntValue(42));
    assert reg[StringClass]("hello") == Some(TextValue("hello"));
    assert Converts(reg, p.headers, cells, fs[0]) && Converts(reg, p.headers, cells, fs[1]);
    var r := ParseRow(p, reg, "hello,42");
    assert r.Some? && |r.value| == 2;
    assert r.value[0] == reg[IntegerClass](cells[1]).value;
    assert r.value[1] == reg[StringClass](cells[0]).value;
    assert r.value == [IntValue(42), TextValue("hello")];
  }

  lemma Cells(a: string, b: string)
    requires ',' !in a && ',' !in b && b != ""
    ensures Split(a + "," + b, ",") == [a, b]
  {
    SplitTwoFields(a, b, ',');
  }

  lemma FooColumns()
    ensures Column(["alpha", "value"], Foo().fields[0]) == 1
    ensures Column(["alpha", "value"], Foo().fields[1]) == 0
  {
  }

  lemma Digits42()
    ensures ParseInt("42") == Some(42)
  {
    assert "42"[..1] == "4";
    assert DecimalValue("42") == 42;
    ParseDigits("42");
  }

  /** `world` has no cell under `value`: the line fails instead of leaving
      `value` unset. */
  lemma ShortLineFails(reg: Registry)
    ensures ParseRow(FooParser(), reg, "world").None?
  {
    assert ',' !in "world";
    SplitOneField("world", ',');
    assert Split("world", ",") == ["world"];
    assert Column(FooParser().headers, Foo().fields[0]) == 1;
    AnyBadFieldFailsRow(FooParser(), reg, "world", 0);
  }

  /** `hello,abc` fails because `abc` is not an integer. */
  lemma MalformedIntegerFails(parseDouble: Parser)
    ensures ParseRow(FooParser(), InitialRegistry(parseDouble), "hello,abc").None?
  {
    var reg := InitialRegistry(parseDouble);
    assert ',' !in "hello" && ',' !in "abc";
    Cells("hello", "abc");
    assert "hello" + "," + "abc" == "hello,abc";
    FooColumns();
    assert !IsDigit('a');
    assert ParseInt("abc").None?;
    AnyBadFieldFailsRow(FooParser(), reg, "hello,abc", 0);
  }

  /** A record of two text fields `a` and `b` under the header `a,b`. */
  function PairParser(): (p: ParserState)
    ensures Valid(p)
  {
    ParserState(RecordType([Field("a", None, StringClass), Field("b", None, StringClass)], true), ",", ["a", "b"])
  }

  /** `x,` fails: `split` drops the empty last cell, so `b` has no cell even
      though the text field would accept the empty text. */
  lemma TrailingEmptyCellFails(reg: Registry)
    ensures ParseRow(PairParser(), reg, "x,").None?
  {
    TrailingDelimiterDropped("x", ',');
    assert "x" + [','] == "x,";
    SplitOneField("x", ',');
    assert Split("x,", ",") == ["x"];
    var p := PairParser();
    assert Column(p.headers, p.recordType.fields[1]) == 1;
    AnyBadFieldFailsRow(p, reg, "x,", 1);
  }

  /** `,y` succeeds: an empty cell that is not last is kept and the text
      parser takes it as the empty text. */
  lemma LeadingEmptyCellIsText(parseDouble: Parser)
    ensures ParseRow(PairParser(), InitialRegistry(parseDouble), ",y")
      == Some([TextValue(""), TextValue("y")])
  {
    var p, reg := PairParser(), InitialRegistry(parseDouble);
    Cells("", "y");
    assert "" + "," + "y" == ",y";
    var cells := ["", "y"];
    var fs := p.recordType.fields;
    assert Column(p.headers, fs[0]) == 0 && Column(p.headers, fs[1]) == 1;
    assert Converts(reg, p.headers, cells, fs[0]) && Converts(reg, p.headers, cells, fs[1]);
    var r := ParseRow(p, reg, ",y");
    assert r.Some? && |r.value| == 2;
    assert r.value[0] == reg[StringClass](cells[0]).value;
    assert r.value[1] == reg[StringClass](cells[1]).value;
    assert r.value == [TextValue(""), TextValue("y")];
  }

  /** Under the header `a,a` the field `a` reads the first column. */
  lemma DuplicateHeaderReadsFirstColumn(parseDouble: Parser)
    ensures ParseRow(ParserState(RecordType([Field("a", None, StringClass)], true), ",", ["a", "a"]),
                     InitialRegistry(parseDouble), "x,y")
      == Some([TextValue("x")])
  {
    var p := ParserState(RecordType([Field("a", None, StringClass)], true), ",", ["a", "a"]);
    var reg := InitialRegistry(parseDouble);
    Cells("x", "y");
    assert "x" + "," + "y" == "x,y";
    var cells := ["x", "y"];
    assert Column(p.headers, p.recordType.fields[0]) == 0;
    assert Converts(reg, p.headers, cells, p.recordType.fields[0]);
    var r := ParseRow(p, reg, "x,y");
    assert r.Some? && |r.value| == 1 && r.value[0] == TextValue("x");
    assert r.value == [TextValue("x")];
  }

  /** Names are compared verbatim: a field `value` does not match a header `Value`. */
  lemma NamesAreCaseSensitive(reg: Registry)
    ensures ParseRow(ParserState(RecordType([Field("value", None, StringClass)], true), ",", ["Value"]),
                     reg, "42").None?
  {
    var p := ParserState(RecordType([Field("value", None, StringClass)], true), ",", ["Value"]);
    assert "value" != "Value";
    assert "value" !in p.headers;
    AnyBadFieldFailsRow(p, reg, "42", 0);
  }

  /** A field of primitive type `int` has no entry in the table, so every line fails. */
  lemma PrimitiveFieldFails(parseDouble: Parser, line: string)
    ensures ParseRow(ParserState(RecordType([Field("n", None, Other("int"))], true), ",", ["n"]),
                     InitialRegistry(parseDouble), line).None?
  {
    var p := ParserState(RecordType([Field("n", None, Other("int"))], true), ",", ["n"]);
    AnyBadFieldFailsRow(p, InitialRegistry(parseDouble), line, 0);
  }

  /** A boolean field never fails on a present cell: `yes` is false. */
  lemma BooleanFieldTakesAnyText(parseDouble: Parser)
    ensures ParseRow(ParserState(RecordType([Field("flag", None, BooleanClass)], true), ",", ["flag"]),
                     InitialRegistry(parseDouble), "yes")
      == Some([BoolValue(false)])
  {
    var p := ParserState(RecordType([Field("flag", None, BooleanClass)], true), ",", ["flag"]);
    var reg := InitialRegistry(parseDouble);
    assert ',' !in "yes";
    SplitOneField("yes", ',');
    var cells := ["yes"];
    assert reg[BooleanClass]("yes") == Some(BoolValue(false));
    assert Column(p.headers, p.recordType.fields[0]) == 0;
    assert Converts(reg, p.headers, cells, p.recordType.fields[0]);
    var r := ParseRow(p, reg, "yes");
    assert r.Some? && |r.value| == 1 && r.value[0] == BoolValue(false);
    assert r.value == [BoolValue(false)];
  }
}
