/** The block schema a provider supplies at run time (Terraform's
    `configschema.Block`), reduced to what the object model consults. */
module Schema {

  /** A cty type; the type system itself is not modelled, only its identity. */
  datatype CtyType = CtyType(name: string)

  /** The result of converting a value to cty (`Value.Cty()`), opaque. */
  datatype CtyValue = CtyValue(token: int)

  /** `configschema.Attribute`: its declared type and whether the provider
      computes it. */
  datatype Attribute = Attribute(typ: CtyType, computed: bool)

  /** `configschema.Block`: attributes and nested block types, both keyed by name. */
  datatype Block = Block(attributes: map<string, Attribute>, blockTypes: map<string, NestedBlock>)

  /** `configschema.NestedBlock`: the nested schema and its repetition limit;
      `maxItems == 1` is a singleton, anything else (0 meaning unbounded) a list. */
  datatype NestedBlock = NestedBlock(block: Block, maxItems: int)

  /** What a provider's schema validation guarantees: no name is both an
      attribute and a nested block type, at any depth. */
  ghost predicate WellFormed(b: Block)
  {
    && (forall k :: k in b.attributes ==> k !in b.blockTypes)
    && (forall k :: k in b.blockTypes ==> WellFormed(b.blockTypes[k].block))
  }
}
