/** The process-wide parser table `PARSERS`: a map from a field's class to a
    conversion from text to a value. A conversion that throws an `Exception`
    is `None`; one that returns `null` returns a value (`Opaque`). */
module ParserRegistry {
  import opened Wrappers
  import JavaParsers

  /** A Java class used as a field type. `Other` covers every class without
      a built-in parser, primitive classes such as `int` included. */
  datatype TypeTag = IntegerClass | DoubleClass | StringClass | BooleanClass | Other(name: string)

  /** A field value. Doubles and objects made by registered parsers are
      `Opaque`: the model does not look inside them. */
  datatype Value = IntValue(i: int) | BoolValue(b: bool) | TextValue(s: string) | Opaque(handle: nat)

  type Parser = string -> Option<Value>

  type Registry = map<TypeTag, Parser>

  /** `Integer::parseInt`, boxed: an optionally signed run of decimal digits
      within `int` range becomes the number it denotes; any other text throws. */
  function IntegerParser(s: string): (r: Option<Value>)
    ensures r.Some? <==>
      JavaParsers.IsIntLiteral(s) && JavaParsers.IntMin <= JavaParsers.LiteralValue(s) <= JavaParsers.IntMax
    ensures r.Some? ==> r.value == IntValue(JavaParsers.LiteralValue(s))
  {
    match JavaParsers.ParseInt(s)
    case None => None
    case Some(n) => Some(IntValue(n))
  }

  /** `s -> s`: the identity, which accepts every text, the empty one included. */
  function StringParser(s: string): Option<Value> {
    Some(TextValue(s))
  }

  /** `Boolean::parseBoolean`, boxed: it never fails, and gives true exactly
      for the case variants of "true". */
  function BooleanParser(s: string): (r: Option<Value>)
    ensures r.Some? && r.value.BoolValue?
    ensures r.value.b <==> |s| == 4 && s[0] in "tT" && s[1] in "rR" && s[2] in "uU" && s[3] in "eE"
  {
    Some(BoolValue(JavaParsers.ParseBoolean(s)))
  }

  /** The table as the class initialiser leaves it. `Double::parseDouble` is
      not modelled and is passed in. */
  function InitialRegistry(parseDouble: Parser): (r: Registry)
    ensures r.Keys == {IntegerClass, DoubleClass, StringClass, BooleanClass}
    ensures r[DoubleClass] == parseDouble
    ensures r[IntegerClass] == IntegerParser
    ensures r[StringClass] == StringParser
    ensures r[BooleanClass] == BooleanParser
  {
    map[IntegerClass := IntegerParser, DoubleClass := parseDouble,
        StringClass := StringParser, BooleanClass := BooleanParser]
  }

  /** `PARSERS.get(cls)`, with `null` as `None`. */
  function Lookup(reg: Registry, t: TypeTag): (r: Option<Parser>)
    ensures r.Some? <==> t in reg
    ensures r.Some? ==> r.value == reg[t]
  {
    if t in reg then Some(reg[t]) else None
  }

  /** `registerParser(cls, parser)`: inserts or overwrites the entry for `cls`. */
  function Register(reg: Registry, t: TypeTag, p: Parser): (r: Registry)
    ensures r.Keys == reg.Keys + {t}
    ensures r[t] == p
    ensures forall u :: u in reg && u != t ==> r[u] == reg[u]
  {
    reg[t := p]
  }

  /** After registering, the next lookup of that class gives the new parser,
      and lookups of every other class are as before. */
  lemma RegisterThenLookup(reg: Registry, t: TypeTag, p: Parser, u: TypeTag)
    ensures Lookup(Register(reg, t, p), t) == Some(p)
    ensures u != t ==> Lookup(Register(reg, t, p), u) == Lookup(reg, u)
  {
  }

  /** Registration is last-write-wins: a second registration for the same
      class replaces the first entirely. */
  lemma LastRegistrationWins(reg: Registry, t: TypeTag, p: Parser, q: Parser)
    ensures Register(Register(reg, t, p), t, q) == Register(reg, t, q)
  {
  }

  /** Entries are never removed: every class that had a parser still has one. */
  lemma RegisterKeepsClasses(reg: Registry, t: TypeTag, p: Parser, u: TypeTag)
    requires u in reg
    ensures Lookup(Register(reg, t, p), u).Some?
  {
  }

  /** The built-in parsers: text is taken verbatim (the empty text too),
      a boolean never fails, and an integer is parsed only within `int` range. */
  lemma BuiltinParsers(parseDouble: Parser, s: string)
    ensures InitialRegistry(parseDouble)[StringClass](s) == Some(TextValue(s))
    ensures InitialRegistry(parseDouble)[BooleanClass](s).Some?
    ensures InitialRegistry(parseDouble)[BooleanClass](s).value.b <==>
      |s| == 4 && s[0] in "tT" && s[1] in "rR" && s[2] in "uU" && s[3] in "eE"
    ensures InitialRegistry(parseDouble)[IntegerClass](s).Some? <==>
      JavaParsers.IsIntLiteral(s) && JavaParsers.IntMin <= JavaParsers.LiteralValue(s) <= JavaParsers.IntMax
  {
  }
}
