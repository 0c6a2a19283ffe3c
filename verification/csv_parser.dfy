/** `CSVParser`: the header read once from the first line, and `parseRow`,
    which turns one data line into a fully populated record or `null`. */
module CsvParser {
  import opened Wrappers
  import opened JavaStrings
  import opened ParserRegistry
  import opened Schema

  /** The state a `CSVParser` keeps: the record class, the delimiter and the
      header names. The registry is global and is read at parse time, so it
      is passed to each operation instead. */
  datatype ParserState = ParserState(recordType: RecordType, delimiter: string, headers: seq<string>)

  predicate Valid(p: ParserState) {
    LiteralDelimiter(p.delimiter)
  }

  /** The constructor: the header names are the first line split on the
      delimiter, so none of them contains the delimiter. */
  function From(firstLine: string, rt: RecordType, delimiter: string): (p: ParserState)
    requires LiteralDelimiter(delimiter)
    ensures Valid(p) && p.recordType == rt && p.delimiter == delimiter
    ensures p.headers == Split(firstLine, delimiter)
    ensures forall i :: 0 <= i < |p.headers| ==> !Contains(p.headers[i], delimiter)
  {
    SplitAvoidsDelimiter(firstLine, delimiter);
    ParserState(rt, delimiter, Split(firstLine, delimiter))
  }

  /** The column a field reads: the first header equal to its binding name, or -1. */
  function Column(headers: seq<string>, f: Field): int {
    IndexOf(headers, BindingName(f))
  }

  /** A field can be bound: its binding name is a header, the line has a
      cell at that column, its type has a parser, and the parser accepts
      the cell. */
  predicate Converts(reg: Registry, headers: seq<string>, cells: seq<string>, f: Field) {
    var c := Column(headers, f);
    0 <= c < |cells| && f.fieldType in reg && reg[f.fieldType](cells[c]).Some?
  }

  /** The value a convertible field is bound to. */
  function BoundValue(reg: Registry, headers: seq<string>, cells: seq<string>, f: Field): Value
    requires Converts(reg, headers, cells, f)
  {
    reg[f.fieldType](cells[Column(headers, f)]).value
  }

  /** One iteration of the field loop, with each exception it can throw as
      `None`: `IllegalArgumentException` for a missing header,
      `ArrayIndexOutOfBoundsException` for a short line, `NullPointerException`
      for a missing parser, and whatever the parser throws. */
  function FieldOutcome(reg: Registry, headers: seq<string>, cells: seq<string>, f: Field): (r: Option<Value>)
    ensures BindingName(f) !in headers ==> r.None?
    ensures r.Some? <==>
      exists c :: IsFirstIndex(headers, BindingName(f), c) && c < |cells|
                  && f.fieldType in reg && reg[f.fieldType](cells[c]).Some?
    ensures forall c :: IsFirstIndex(headers, BindingName(f), c) && c < |cells| && f.fieldType in reg ==>
      r == reg[f.fieldType](cells[c])
    ensures r.Some? <==> Converts(reg, headers, cells, f)
    ensures r.Some? ==> r.value == BoundValue(reg, headers, cells, f)
  {
    IndexOfIsFirstIndex(headers, BindingName(f));
    var index := IndexOf(headers, BindingName(f));
    if index == -1 then None
    else if index >= |cells| then None
    else
      match Lookup(reg, f.fieldType)
      case None => None
      case Some(parse) => parse(cells[index])
  }

  /** The field loop: binds the fields in order and abandons the whole
      record at the first field that throws. */
  function ParseFields(reg: Registry, headers: seq<string>, cells: seq<string>, fields: seq<Field>)
    : (r: Option<seq<Value>>)
    ensures r.Some? <==> forall i :: 0 <= i < |fields| ==> Converts(reg, headers, cells, fields[i])
    ensures r.Some? ==> |r.value| == |fields|
    ensures r.Some? ==> forall i :: 0 <= i < |fields| ==> r.value[i] == BoundValue(reg, headers, cells, fields[i])
  {
    if |fields| == 0 then Some([])
    else
      match FieldOutcome(reg, headers, cells, fields[0])
      case None => None
      case Some(v) =>
        match ParseFields(reg, headers, cells, fields[1..])
        case None => None
        case Some(vs) => Some([v] + vs)
  }

  /** `parseRow(line)`: a record holding, for every field, its parser applied
      to the cell under its column, or `None` (Java's `null`) when the class
      cannot be instantiated or any single field cannot be bound. */
  function ParseRow(p: ParserState, reg: Registry, line: string): (r: Option<seq<Value>>)
    requires Valid(p)
    ensures var cells, fs := Split(line, p.delimiter), p.recordType.fields;
      r.Some? <==> p.recordType.constructible && forall i :: 0 <= i < |fs| ==> Converts(reg, p.headers, cells, fs[i])
    ensures var cells, fs := Split(line, p.delimiter), p.recordType.fields;
      r.Some? ==> (
        && |r.value| == |fs|
        && forall i :: 0 <= i < |fs| ==>
             r.value[i] == reg[fs[i].fieldType](cells[Column(p.headers, fs[i])]).value)
  {
    if !p.recordType.constructible then None
    else ParseFields(reg, p.headers, Split(line, p.delimiter), p.recordType.fields)
  }

  /** `rows()`: every remaining line mapped on its own, in order. No state is
      carried from one line to the next. */
  function Rows(p: ParserState, reg: Registry, lines: seq<string>): (r: seq<Option<seq<Value>>>)
    requires Valid(p)
    ensures |r| == |lines|
    ensures forall i :: 0 <= i < |lines| ==> r[i] == ParseRow(p, reg, lines[i])
  {
    if |lines| == 0 then [] else [ParseRow(p, reg, lines[0])] + Rows(p, reg, lines[1..])
  }

  /** Each way a single field can go wrong makes the whole line `None`; no
      partially filled record is ever returned. */
  lemma AnyBadFieldFailsRow(p: ParserState, reg: Registry, line: string, i: nat)
    requires Valid(p) && i < |p.recordType.fields|
    ensures var f, cells := p.recordType.fields[i], Split(line, p.delimiter);
      && (BindingName(f) !in p.headers ==> ParseRow(p, reg, line).None?)
      && (Column(p.headers, f) >= |cells| ==> ParseRow(p, reg, line).None?)
      && (f.fieldType !in reg ==> ParseRow(p, reg, line).None?)
      && ((0 <= Column(p.headers, f) < |cells| && f.fieldType in reg
           && reg[f.fieldType](cells[Column(p.headers, f)]).None?) ==> ParseRow(p, reg, line).None?)
  {
    var f := p.recordType.fields[i];
    assert f == p.recordType.fields[i];
  }

  /** An aliased field answers to its alias only: when the alias is not a
      header the line fails even if the declared name is one, and on success
      the field holds the cell under the alias's first column. */
  lemma AliasShadowsDeclaredName(p: ParserState, reg: Registry, line: string, i: nat, alias: string)
    requires Valid(p) && i < |p.recordType.fields|
    requires p.recordType.fields[i].alias == Some(alias)
    ensures alias !in p.headers ==> ParseRow(p, reg, line).None?
    ensures ParseRow(p, reg, line).Some? ==>
      var f, cells := p.recordType.fields[i], Split(line, p.delimiter);
      && 0 <= IndexOf(p.headers, alias) < |cells|
      && ParseRow(p, reg, line).value[i] == reg[f.fieldType](cells[IndexOf(p.headers, alias)]).value
  {
    AnyBadFieldFailsRow(p, reg, line, i);
  }

  /** A field without an alias is matched by its declared name, verbatim. */
  lemma DeclaredNameBinds(p: ParserState, reg: Registry, line: string, i: nat)
    requires Valid(p) && i < |p.recordType.fields|
    requires p.recordType.fields[i].alias.None?
    ensures p.recordType.fields[i].declaredName !in p.headers ==> ParseRow(p, reg, line).None?
    ensures ParseRow(p, reg, line).Some? ==>
      var f, cells := p.recordType.fields[i], Split(line, p.delimiter);
      && 0 <= IndexOf(p.headers, f.declaredName) < |cells|
      && ParseRow(p, reg, line).value[i] == reg[f.fieldType](cells[IndexOf(p.headers, f.declaredName)]).value
  {
    AnyBadFieldFailsRow(p, reg, line, i);
  }

  /** A parser registered for a class is the one the next parse uses for
      every field of that class, whatever was registered before. */
  lemma RegisteredParserIsUsed(p: ParserState, reg: Registry, t: TypeTag, parse: Parser, line: string, i: nat)
    requires Valid(p) && i < |p.recordType.fields| && p.recordType.fields[i].fieldType == t
    ensures var r, cells := ParseRow(p, Register(reg, t, parse), line), Split(line, p.delimiter);
      r.Some? ==> r.value[i] == parse(cells[Column(p.headers, p.recordType.fields[i])]).value
  {
  }

  /** Two registries agree on a class: both lack it or both map it to the same parser. */
  ghost predicate AgreeOn(reg1: Registry, reg2: Registry, t: TypeTag) {
    (t in reg1 <==> t in reg2) && (t in reg1 ==> reg1[t] == reg2[t])
  }

  /** The field loop reads the registry only at the classes of the fields. */
  lemma {:induction false} RegistryFrame(reg1: Registry, reg2: Registry, headers: seq<string>, cells: seq<string>, fields: seq<Field>)
    requires forall i :: 0 <= i < |fields| ==> AgreeOn(reg1, reg2, fields[i].fieldType)
    ensures ParseFields(reg1, headers, cells, fields) == ParseFields(reg2, headers, cells, fields)
  {
    if |fields| > 0 {
      assert AgreeOn(reg1, reg2, fields[0].fieldType);
      assert FieldOutcome(reg1, headers, cells, fields[0]) == FieldOutcome(reg2, headers, cells, fields[0]);
      RegistryFrame(reg1, reg2, headers, cells, fields[1..]);
    }
  }

  /** Registering a parser for a class no field has leaves every line's result unchanged. */
  lemma UnrelatedRegistrationInvisible(p: ParserState, reg: Registry, t: TypeTag, parse: Parser, line: string)
    requires Valid(p)
    requires forall i :: 0 <= i < |p.recordType.fields| ==> p.recordType.fields[i].fieldType != t
    ensures ParseRow(p, Register(reg, t, parse), line) == ParseRow(p, reg, line)
  {
    var fs := p.recordType.fields;
    forall i | 0 <= i < |fs|
      ensures AgreeOn(Register(reg, t, parse), reg, fs[i].fieldType)
    {
    }
    RegistryFrame(Register(reg, t, parse), reg, p.headers, Split(line, p.delimiter), fs);
  }

  /** Every field of `gs` also appears in `fs`, so if all of `fs` convert, all of `gs` do. */
  lemma AllConvertFromSuperset(reg: Registry, headers: seq<string>, cells: seq<string>, fs: seq<Field>, gs: seq<Field>)
    requires multiset(gs) <= multiset(fs)
    requires forall i :: 0 <= i < |fs| ==> Converts(reg, headers, cells, fs[i])
    ensures forall j :: 0 <= j < |gs| ==> Converts(reg, headers, cells, gs[j])
  {
    forall j | 0 <= j < |gs|
      ensures Converts(reg, headers, cells, gs[j])
    {
      assert gs[j] in multiset(gs);
      assert gs[j] in fs;
      var i :| 0 <= i < |fs| && fs[i] == gs[j];
    }
  }

  /** Java leaves the order of `getFields()` unspecified. It does not matter:
      whether a line fails is the same for any order of the fields, and on
      success every field gets the same value in any order. */
  lemma FieldOrderIrrelevant(reg: Registry, headers: seq<string>, cells: seq<string>, fs: seq<Field>, gs: seq<Field>)
    requires multiset(fs) == multiset(gs)
    ensures ParseFields(reg, headers, cells, fs).Some? <==> ParseFields(reg, headers, cells, gs).Some?
  {
    if ParseFields(reg, headers, cells, fs).Some? {
      AllConvertFromSuperset(reg, headers, cells, fs, gs);
    }
    if ParseFields(reg, headers, cells, gs).Some? {
      AllConvertFromSuperset(reg, headers, cells, gs, fs);
    }
  }

  /** On success, a field gets the same value whichever order the fields are visited in. */
  lemma FieldOrderKeepsValues(reg: Registry, headers: seq<string>, cells: seq<string>, fs: seq<Field>, gs: seq<Field>)
    requires multiset(fs) == multiset(gs)
    requires ParseFields(reg, headers, cells, fs).Some?
    ensures ParseFields(reg, headers, cells, gs).Some?
    ensures forall i, j :: 0 <= i < |fs| && 0 <= j < |gs| && fs[i] == gs[j] ==>
      ParseFields(reg, headers, cells, fs).value[i] == ParseFields(reg, headers, cells, gs).value[j]
  {
    FieldOrderIrrelevant(reg, headers, cells, fs, gs);
  }
}
