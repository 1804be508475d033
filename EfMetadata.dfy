/**
 * A read-only snapshot of what the comment engine consumes from its host:
 * the CLR types behind the entities (reflection), the EF Core entity types
 * (metadata), and the model builder's comment store, which is the only
 * thing the engine changes.
 */
module EfMetadata {
  import opened Wrappers

  /** Index of a CLR type in `Model.types`. */
  type TypeId = nat

  /** Index of an entity type in `Model.entityTypes`; also its model order. */
  type EntityId = nat

  /**
   * A CLR type: its full name, its base type, the name of its assembly and
   * the text of its description attribute (`None` when the attribute is
   * missing or its `Description` is null).
   */
  datatype ClrType = ClrType(
    fullName: string,
    baseType: Option<TypeId>,
    assembly: string,
    description: Option<string>)

  /** A mapped property; `description` is read only when it is not a shadow property. */
  datatype Property = Property(name: string, isShadow: bool, description: Option<string>)

  /** A navigation to another entity type, single-valued or a collection. */
  datatype Navigation = Navigation(name: string, target: EntityId, isCollection: bool)

  /**
   * An EF Core entity type. `owner` is the principal of its ownership
   * (present exactly when the type is owned); `discriminator` is the name of
   * its discriminator property, if it has one.
   */
  datatype EntityType = EntityType(
    clrType: TypeId,
    baseType: Option<EntityId>,
    owner: Option<EntityId>,
    hasPrimaryKey: bool,
    isKeyless: bool,
    properties: seq<Property>,
    navigations: seq<Navigation>,
    discriminator: Option<string>)
  {
    predicate IsOwned() { owner.Some? }

    /** Comments are applied only to entities that have a key or are declared keyless. */
    predicate IsCommentable() { hasPrimaryKey || isKeyless }
  }

  /** The model: CLR types and entity types in model order. */
  datatype Model = Model(types: seq<ClrType>, entityTypes: seq<EntityType>)

  /** Every base type is numbered before its subclasses, so base chains are finite. */
  predicate TypesWellFormed(types: seq<ClrType>) {
    forall t :: 0 <= t < |types| && types[t].baseType.Some? ==> types[t].baseType.value < t
  }

  predicate EntityWellFormed(m: Model, e: EntityId)
    requires e < |m.entityTypes|
  {
    var et := m.entityTypes[e];
    && et.clrType < |m.types|
    && (et.baseType.Some? ==>
          et.baseType.value < |m.entityTypes|
          && m.entityTypes[et.baseType.value].clrType < et.clrType)
    && (et.owner.Some? ==> et.owner.value < |m.entityTypes|)
    && (forall k :: 0 <= k < |et.navigations| ==> et.navigations[k].target < |m.entityTypes|)
  }

  /**
   * Every reference in the snapshot points into it, the CLR base chain is
   * acyclic, and an EF base entity's CLR type is numbered before the
   * entity's own (it is one of its CLR ancestors).
   */
  predicate WellFormed(m: Model) {
    && TypesWellFormed(m.types)
    && forall e :: 0 <= e < |m.entityTypes| ==> EntityWellFormed(m, e)
  }

  /** Within one entity type, property names and navigation names are distinct, as EF Core enforces. */
  predicate UniqueMemberNames(m: Model) {
    forall e :: 0 <= e < |m.entityTypes| ==> DistinctNames(m.entityTypes[e])
  }

  predicate DistinctNames(et: EntityType) {
    && (forall a, b :: 0 <= a < b < |et.properties| ==> et.properties[a].name != et.properties[b].name)
    && (forall a, b :: 0 <= a < b < |et.navigations| ==> et.navigations[a].name != et.navigations[b].name)
  }

  /** `Type.IsSubclassOf`: `b` is reached from `a` by one or more base steps. */
  predicate IsSubclassOf(types: seq<ClrType>, a: TypeId, b: TypeId)
    requires TypesWellFormed(types) && a < |types|
    decreases a
  {
    match types[a].baseType
    case None => false
    case Some(p) => p == b || IsSubclassOf(types, p, b)
  }

  /** The CLR type followed by its base types, most derived first. */
  function BaseChain(types: seq<ClrType>, t: TypeId): (c: seq<TypeId>)
    requires TypesWellFormed(types) && t < |types|
    ensures |c| >= 1 && c[0] == t
    ensures forall j :: 0 <= j < |c| ==> c[j] < |types|
    ensures forall j :: 0 <= j < |c| - 1 ==> types[c[j]].baseType == Some(c[j + 1])
    ensures types[c[|c| - 1]].baseType.None?
    decreases t
  {
    match types[t].baseType
    case None => [t]
    case Some(p) => [t] + BaseChain(types, p)
  }

  /** The places a comment can be written: a table, a column, or a column of an owned type embedded through a navigation. */
  datatype Target =
    | Table(entity: EntityId)
    | Column(entity: EntityId, property: string)
    | OwnedColumn(owner: EntityId, navigation: string, isCollection: bool, property: string)

  /** `GetComment` on the element a target names. */
  function Lookup(store: map<Target, string>, k: Target): (r: Option<string>) {
    if k in store then Some(store[k]) else None
  }

  /** `string.IsNullOrEmpty`. */
  predicate IsNullOrEmpty(s: Option<string>) {
    s.None? || s.value == ""
  }

  /**
   * The host's model builder: the model it configures and the comments the
   * model currently carries (set by the engine or by anything else).
   */
  class ModelBuilder {
    const model: Model
    var comments: map<Target, string>

    constructor (model: Model, comments: map<Target, string>)
      ensures this.model == model && this.comments == comments
    {
      this.model := model;
      this.comments := comments;
    }

    /** `HasComment`: sets the comment of one element and leaves every other element alone. */
    method HasComment(k: Target, text: string)
      modifies this
      ensures comments == old(comments)[k := text]
    {
      comments := comments[k := text];
    }
  }
}
