/** The record class as the row mapper sees it through reflection: its
    public fields in order, each with a declared name, an optional
    `@Serializable` alias and a type. */
module Schema {
  import opened Wrappers
  import opened ParserRegistry

  datatype Field = Field(declaredName: string, alias: Option<string>, fieldType: TypeTag)

  /** `constructible` is false when `getDeclaredConstructor()` or
      `newInstance()` throws (no no-argument constructor, or one that fails). */
  datatype RecordType = RecordType(fields: seq<Field>, constructible: bool)

  /** The name a field is matched against in the header: its alias when it
      has one, else its declared name, both taken verbatim. */
  function BindingName(f: Field): string {
    match f.alias
    case Some(name) => name
    case None => f.declaredName
  }
}
