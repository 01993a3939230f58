/** The OpenAPI objects the generator builds: scalar schema types with their
    modifiers, schemas carrying an enum, and Parameter objects (section 4.8.12
    of the OpenAPI Specification 3.1.0). Only what Generator.php sets is
    represented. */
module Schema {
  import opened Wrappers

  /** The scalar schema classes Generator.php instantiates. */
  datatype Kind = StringType | IntegerType | NumberType | BooleanType

  /** A scalar type with the modifiers `nullable(true)`, `setMin`, `setMax`.
      A bound is kept as the text that would be cast with `(float)`. */
  datatype SchemaType = SchemaType(kind: Kind, nullable: bool, minimum: Option<string>, maximum: Option<string>)

  /** `Schema::fromType(type)->enum(values)`. */
  datatype Schema = Schema(ty: SchemaType, enumValues: seq<string>)

  datatype Location = Path | Query

  /** `Parameter::make(name, in)` with its description, required flag and schema. */
  datatype Parameter = Parameter(name: string, location: Location, description: string, required: bool, schema: Schema)

  /** `new XType`: not nullable and without bounds. */
  function Plain(kind: Kind): SchemaType {
    SchemaType(kind, false, None, None)
  }

  /** Whether `IntegerType` is a subclass of `NumberType`. That class is not
      part of this model, so the answer is left open. */
  const IntegerIsNumber: bool

  /** `$type instanceof NumberType` for a type of this kind. */
  predicate IsNumberInstance(kind: Kind) {
    kind == NumberType || (kind == IntegerType && IntegerIsNumber)
  }

  /** Bounds are only ever put on numeric types. */
  predicate BoundsOnlyOnNumbers(t: SchemaType) {
    t.kind !in {NumberType, IntegerType} ==> t.minimum.None? && t.maximum.None?
  }
}
