/**
 * The comment tree of CommentModel.cs and its applier.
 *
 * The tree holds one node per entity type, each with one node per property
 * and per navigation; only the comment slots of the nodes ever change.
 * The applier walks the tree and issues `HasComment` calls against the
 * model builder. Which calls it may issue depends only on the snapshot and
 * the tree; whether a guarded call fires depends on the comments the model
 * carries at that moment. `EntitySteps` lists those calls in issue order and
 * `Run` gives their effect on the comment store.
 */
module CommentTree {
  import opened Wrappers
  import opened EfMetadata

  /** An entity comment together with the CLR type whose documentation supplied it. */
  datatype CommentFromType = CommentFromType(comment: string, holderType: TypeId)

  datatype PropertyComment = PropertyComment(property: Property, comment: Option<string>)

  datatype NavigationComment = NavigationComment(navigation: Navigation, comment: Option<string>)

  datatype EntityComment = EntityComment(
    entityType: EntityId,
    internalComment: Option<CommentFromType>,
    properties: seq<PropertyComment>,
    navigations: seq<NavigationComment>)
  {
    /** The visible comment: the text of `internalComment`, or null when there is none. */
    function Comment(): (r: Option<string>)
      ensures r.Some? <==> internalComment.Some?
      ensures r.Some? ==> r.value == internalComment.value.comment
    {
      match internalComment
      case None => None
      case Some(c) => Some(c.comment)
    }
  }

  /** Node `n` stands for entity type `e` and has exactly its properties and navigations, in order. */
  predicate NodeMatches(et: EntityType, e: EntityId, n: EntityComment) {
    && n.entityType == e
    && |n.properties| == |et.properties|
    && (forall j :: 0 <= j < |n.properties| ==> n.properties[j].property == et.properties[j])
    && |n.navigations| == |et.navigations|
    && (forall k :: 0 <= k < |n.navigations| ==> n.navigations[k].navigation == et.navigations[k])
  }

  /** One node per entity type of the model, in model order. */
  predicate Shaped(m: Model, tree: seq<EntityComment>) {
    && |tree| == |m.entityTypes|
    && forall i :: 0 <= i < |tree| ==> NodeMatches(m.entityTypes[i], i, tree[i])
  }

  predicate TreeValid(m: Model, tree: seq<EntityComment>) {
    WellFormed(m) && Shaped(m, tree)
  }

  /** No comment slot of the node is filled. */
  predicate Unfilled(n: EntityComment) {
    && n.internalComment.None?
    && (forall j :: 0 <= j < |n.properties| ==> n.properties[j].comment.None?)
    && (forall k :: 0 <= k < |n.navigations| ==> n.navigations[k].comment.None?)
  }

  /** `b` is `a` with possibly different comments: same entity, same property and navigation nodes. */
  predicate SameMembers(a: EntityComment, b: EntityComment) {
    && a.entityType == b.entityType
    && |a.properties| == |b.properties|
    && (forall j :: 0 <= j < |a.properties| ==> a.properties[j].property == b.properties[j].property)
    && |a.navigations| == |b.navigations|
    && (forall k :: 0 <= k < |a.navigations| ==> a.navigations[k].navigation == b.navigations[k].navigation)
  }

  /** Node for node, `b` has the membership of `a`. */
  predicate SameShape(a: seq<EntityComment>, b: seq<EntityComment>) {
    |a| == |b| && forall i :: 0 <= i < |a| ==> SameMembers(a[i], b[i])
  }

  lemma SameShapeKeepsValid(m: Model, a: seq<EntityComment>, b: seq<EntityComment>)
    requires TreeValid(m, a) && SameShape(a, b)
    ensures TreeValid(m, b)
  {
    forall i | 0 <= i < |b| ensures NodeMatches(m.entityTypes[i], i, b[i]) {
      assert NodeMatches(m.entityTypes[i], i, a[i]) && SameMembers(a[i], b[i]);
    }
  }

  function NewEntityComment(et: EntityType, e: EntityId): (n: EntityComment)
    ensures NodeMatches(et, e, n) && Unfilled(n)
  {
    EntityComment(
      e, None,
      seq(|et.properties|, j requires 0 <= j < |et.properties| => PropertyComment(et.properties[j], None)),
      seq(|et.navigations|, k requires 0 <= k < |et.navigations| => NavigationComment(et.navigations[k], None)))
  }

  /** The tree the `CommentModel` constructor builds: every entity type, property and navigation, no comment yet. */
  function NewTree(m: Model): (tree: seq<EntityComment>)
    ensures Shaped(m, tree)
    ensures forall i :: 0 <= i < |tree| ==> Unfilled(tree[i])
  {
    seq(|m.entityTypes|, i requires 0 <= i < |m.entityTypes| => NewEntityComment(m.entityTypes[i], i))
  }

  // ---------------------------------------------------------------------
  // The writes of AddCommentsToModel

  /**
   * A `HasComment` call the applier makes. A `Guarded` one is made only when
   * the element's current comment is null or empty; an `Unconditional` one
   * always.
   */
  datatype Step =
    | Guarded(target: Target, text: string)
    | Unconditional(target: Target, text: string)

  /** One `HasComment` call, made under its guard. */
  function Execute(x: Step, store: map<Target, string>): (r: map<Target, string>)
  {
    match x
    case Guarded(k, v) => if IsNullOrEmpty(Lookup(store, k)) then store[k := v] else store
    case Unconditional(k, v) => store[k := v]
  }

  /** A call sets its target (a guarded one only over a null or empty comment) and changes no other element. */
  lemma ExecuteEffect(x: Step, store: map<Target, string>)
    ensures Execute(x, store).Keys
            == if x.Guarded? && !IsNullOrEmpty(Lookup(store, x.target)) then store.Keys else store.Keys + {x.target}
    ensures forall k :: k != x.target ==> Lookup(Execute(x, store), k) == Lookup(store, k)
    ensures x.Unconditional? ==> Lookup(Execute(x, store), x.target) == Some(x.text)
    ensures x.Guarded? ==>
      Lookup(Execute(x, store), x.target)
      == if IsNullOrEmpty(Lookup(store, x.target)) then Some(x.text) else Lookup(store, x.target)
  {
  }

  /** The comment store after the steps run in order, each seeing the effect of the previous ones. */
  function Run(steps: seq<Step>, store: map<Target, string>): (r: map<Target, string>)
    decreases |steps|
  {
    if steps == [] then store
    else Execute(steps[|steps| - 1], Run(steps[..|steps| - 1], store))
  }

  /** Running calls never removes a comment: every element commented before still is. */
  lemma {:induction false} RunKeepsKeys(steps: seq<Step>, store: map<Target, string>)
    ensures store.Keys <= Run(steps, store).Keys
    decreases |steps|
  {
    if steps != [] {
      RunKeepsKeys(steps[..|steps| - 1], store);
    }
  }

  lemma RunSnoc(a: seq<Step>, x: Step, store: map<Target, string>)
    ensures Run(a + [x], store) == Execute(x, Run(a, store))
  {
    assert (a + [x])[..|a + [x]| - 1] == a;
  }

  lemma {:induction false} RunConcat(a: seq<Step>, b: seq<Step>, store: map<Target, string>)
    ensures Run(a + b, store) == Run(b, Run(a, store))
    decreases |b|
  {
    if b == [] {
      assert a + b == a;
    } else {
      var b' := b[..|b| - 1];
      assert b == b' + [b[|b| - 1]];
      assert a + b == (a + b') + [b[|b| - 1]];
      RunConcat(a, b', store);
      RunSnoc(a + b', b[|b| - 1], store);
      RunSnoc(b', b[|b| - 1], Run(a, store));
    }
  }

  /** The comment of an owned column: the owner navigation's comment and the property's, joined by ':'. */
  function Compose(navigationComment: Option<string>, propertyComment: string): (r: string)
  {
    match navigationComment
    case None => propertyComment
    case Some(n) => n + ":" + propertyComment
  }

  /** Without a navigation comment the property's stands alone; with one, it is followed by ':' and the property's. */
  lemma ComposeShape(navigationComment: Option<string>, propertyComment: string)
    ensures navigationComment.None? ==> Compose(navigationComment, propertyComment) == propertyComment
    ensures navigationComment.Some? ==>
      var r, n := Compose(navigationComment, propertyComment), navigationComment.value;
      |r| == |n| + 1 + |propertyComment| && r[..|n|] == n && r[|n|] == ':' && r[|n| + 1..] == propertyComment
  {
  }

  /**
   * CommentOwned for property `p` of owned entity `i`: over the first `k`
   * navigations of owner `o`, one write per navigation whose target is `i`.
   */
  function OwnedNavigationSteps(m: Model, tree: seq<EntityComment>, i: EntityId, o: EntityId, p: PropertyComment, k: nat): (r: seq<Step>)
    requires TreeValid(m, tree) && o < |tree| && k <= |m.entityTypes[o].navigations|
    requires !IsNullOrEmpty(p.comment)
  {
    if k == 0 then []
    else
      var nav := m.entityTypes[o].navigations[k - 1];
      OwnedNavigationSteps(m, tree, i, o, p, k - 1)
      + (if nav.target == i
         then [Unconditional(OwnedColumn(o, nav.name, nav.isCollection, p.property.name),
                             Compose(tree[o].navigations[k - 1].comment, p.comment.value))]
         else [])
  }

  /** The writes for the first `j` properties of owned entity `i`, whose owner is `o`. */
  function OwnedSteps(m: Model, tree: seq<EntityComment>, i: EntityId, o: EntityId, j: nat): (r: seq<Step>)
    requires TreeValid(m, tree) && i < |tree| && o < |tree| && j <= |tree[i].properties|
  {
    if j == 0 then []
    else
      var p := tree[i].properties[j - 1];
      OwnedSteps(m, tree, i, o, j - 1)
      + (if IsNullOrEmpty(p.comment) then []
         else OwnedNavigationSteps(m, tree, i, o, p, |m.entityTypes[o].navigations|))
  }

  /** The column writes for the first `j` properties of standalone entity `i`. */
  function ColumnSteps(m: Model, tree: seq<EntityComment>, i: EntityId, j: nat): (r: seq<Step>)
    requires TreeValid(m, tree) && i < |tree| && j <= |tree[i].properties|
  {
    if j == 0 then []
    else
      var p := tree[i].properties[j - 1];
      ColumnSteps(m, tree, i, j - 1)
      + (if IsNullOrEmpty(p.comment) then [] else [Guarded(Column(i, p.property.name), p.comment.value)])
  }

  /** The discriminator property name of the entity's base type, if it has a base type and that has one. */
  function DiscriminatorColumn(m: Model, i: EntityId): (r: Option<string>)
    requires i < |m.entityTypes| && WellFormed(m)
  {
    assert EntityWellFormed(m, i);
    match m.entityTypes[i].baseType
    case None => None
    case Some(b) => m.entityTypes[b].discriminator
  }

  /** At most one write: the unconditional stamp of the discriminator column, when there is one. */
  function DiscriminatorSteps(m: Model, i: EntityId, discriminatorComment: string): (r: seq<Step>)
    requires i < |m.entityTypes| && WellFormed(m)
  {
    match DiscriminatorColumn(m, i)
    case None => []
    case Some(d) => [Unconditional(Column(i, d), discriminatorComment)]
  }

  /** At most one write: the guarded table write of the entity's comment, when it is not null or empty. */
  function TableSteps(tree: seq<EntityComment>, i: EntityId): (r: seq<Step>)
    requires i < |tree|
  {
    var c := tree[i].Comment();
    if IsNullOrEmpty(c) then [] else [Guarded(Table(i), c.value)]
  }

  /** Every `HasComment` call AddCommentsToModel may make for entity `i`, in order. */
  function EntitySteps(m: Model, tree: seq<EntityComment>, discriminatorComment: string, i: EntityId): (r: seq<Step>)
    requires TreeValid(m, tree) && i < |tree|
  {
    var et := m.entityTypes[i];
    assert EntityWellFormed(m, i);
    if !et.IsCommentable() then []
    else if et.IsOwned() then OwnedSteps(m, tree, i, et.owner.value, |tree[i].properties|)
    else TableSteps(tree, i) + DiscriminatorSteps(m, i, discriminatorComment)
         + ColumnSteps(m, tree, i, |tree[i].properties|)
  }

  /** The calls for the first `n` entities, in tree order. */
  function PlanPrefix(m: Model, tree: seq<EntityComment>, discriminatorComment: string, n: nat): (r: seq<Step>)
    requires TreeValid(m, tree) && n <= |tree|
  {
    if n == 0 then []
    else PlanPrefix(m, tree, discriminatorComment, n - 1) + EntitySteps(m, tree, discriminatorComment, n - 1)
  }

  /** Every call AddCommentsToModel may make, entity by entity in tree order. */
  function Plan(m: Model, tree: seq<EntityComment>, discriminatorComment: string): (r: seq<Step>)
    requires TreeValid(m, tree)
  {
    PlanPrefix(m, tree, discriminatorComment, |tree|)
  }

  // ---------------------------------------------------------------------
  // The comment model object

  class CommentModel {
    const modelBuilder: ModelBuilder
    const discriminatorComment: string
    var entityComments: seq<EntityComment>

    ghost predicate Valid()
      reads this
    {
      TreeValid(modelBuilder.model, entityComments)
    }

    /** Builds one node per entity type, property and navigation of the model, all without comment. */
    constructor (modelBuilder: ModelBuilder, discriminatorComment: string)
      requires WellFormed(modelBuilder.model)
      ensures this.modelBuilder == modelBuilder && this.discriminatorComment == discriminatorComment
      ensures entityComments == NewTree(modelBuilder.model)
      ensures Valid()
    {
      this.modelBuilder := modelBuilder;
      this.discriminatorComment := discriminatorComment;
      this.entityComments := NewTree(modelBuilder.model);
    }

    /** Writes the resolved comments onto the model; the tree itself is left as it is. */
    method AddCommentsToModel()
      requires Valid()
      modifies modelBuilder
      ensures modelBuilder.comments
              == Run(Plan(modelBuilder.model, entityComments, discriminatorComment), old(modelBuilder.comments))
    {
      var m := modelBuilder.model;
      ghost var tree, start := entityComments, modelBuilder.comments;
      var i := 0;
      while i < |entityComments|
        invariant i <= |tree| && entityComments == tree
        invariant modelBuilder.comments == Run(PlanPrefix(m, tree, discriminatorComment, i), start)
      {
        var entity := entityComments[i];
        assert NodeMatches(m.entityTypes[i], i, entity) && EntityWellFormed(m, i);
        var et := m.entityTypes[entity.entityType];
        ghost var before := modelBuilder.comments;
        ghost var steps := EntitySteps(m, tree, discriminatorComment, i);
        if !et.hasPrimaryKey && !et.isKeyless {
          // neither a key nor declared keyless: nothing is written for it
          assert steps == [];
        } else if et.IsOwned() {
          CommentOnOwnedColumns(i, et.owner.value);
        } else {
          ghost var table, discriminator := TableSteps(tree, i), DiscriminatorSteps(m, i, discriminatorComment);
          ghost var columns := ColumnSteps(m, tree, i, |tree[i].properties|);
          assert steps == table + discriminator + columns;
          RunConcat(table, discriminator, before);
          RunConcat(table + discriminator, columns, before);
          var comment := entity.Comment();
          if IsNullOrEmpty(Lookup(modelBuilder.comments, Table(i))) && !IsNullOrEmpty(comment) {
            modelBuilder.HasComment(Table(i), comment.value);
          }
          assert modelBuilder.comments == Run(table, before);
          ghost var afterTable := modelBuilder.comments;
          CommentDiscriminator(i);
          assert modelBuilder.comments == Run(discriminator, afterTable);
          ghost var afterDiscriminator := modelBuilder.comments;
          CommentOnTableColumns(i);
          assert modelBuilder.comments == Run(columns, afterDiscriminator);
        }
        RunConcat(PlanPrefix(m, tree, discriminatorComment, i), steps, start);
        i := i + 1;
      }
    }

    /** Column comments of a standalone entity: written only over a null or empty existing comment. */
    method CommentOnTableColumns(i: EntityId)
      requires Valid() && i < |entityComments|
      modifies modelBuilder
      ensures modelBuilder.comments
              == Run(ColumnSteps(modelBuilder.model, entityComments, i, |entityComments[i].properties|),
                     old(modelBuilder.comments))
    {
      ghost var m, tree, start := modelBuilder.model, entityComments, modelBuilder.comments;
      var properties := entityComments[i].properties;
      var j := 0;
      while j < |properties|
        invariant j <= |properties| && properties == tree[i].properties && entityComments == tree
        invariant modelBuilder.comments == Run(ColumnSteps(m, tree, i, j), start)
      {
        var property := properties[j];
        ghost var done := ColumnSteps(m, tree, i, j);
        if !IsNullOrEmpty(property.comment) {
          var column := Column(i, property.property.name);
          ghost var step := Guarded(column, property.comment.value);
          assert ColumnSteps(m, tree, i, j + 1) == done + [step];
          RunSnoc(done, step, start);
          ghost var before := modelBuilder.comments;
          if IsNullOrEmpty(Lookup(modelBuilder.comments, column)) {
            modelBuilder.HasComment(column, property.comment.value);
          }
          assert modelBuilder.comments == Execute(step, before);
        } else {
          assert ColumnSteps(m, tree, i, j + 1) == done + [] == done;
        }
        j := j + 1;
      }
    }

    /** Columns of owned entity `i` embedded in owner `o`: one write per property and matching owner navigation. */
    method CommentOnOwnedColumns(i: EntityId, o: EntityId)
      requires Valid() && i < |entityComments| && o < |entityComments|
      modifies modelBuilder
      ensures modelBuilder.comments
              == Run(OwnedSteps(modelBuilder.model, entityComments, i, o, |entityComments[i].properties|),
                     old(modelBuilder.comments))
    {
      ghost var m, tree, start := modelBuilder.model, entityComments, modelBuilder.comments;
      var properties := entityComments[i].properties;
      var j := 0;
      while j < |properties|
        invariant j <= |properties| && properties == tree[i].properties && entityComments == tree
        invariant modelBuilder.comments == Run(OwnedSteps(m, tree, i, o, j), start)
      {
        var property := properties[j];
        ghost var done := OwnedSteps(m, tree, i, o, j);
        if !IsNullOrEmpty(property.comment) {
          ghost var steps := OwnedNavigationSteps(m, tree, i, o, property, |m.entityTypes[o].navigations|);
          CommentOwned(i, o, property);
          RunConcat(done, steps, start);
          assert OwnedSteps(m, tree, i, o, j + 1) == done + steps;
        } else {
          assert OwnedSteps(m, tree, i, o, j + 1) == done + [] == done;
        }
        j := j + 1;
      }
    }

    /**
     * CommentOwned: for every navigation of the owner whose target is the
     * owned entity, set the embedded column's comment, prefixed with the
     * navigation's comment when the owner's node has one.
     */
    method CommentOwned(i: EntityId, o: EntityId, property: PropertyComment)
      requires Valid() && i < |entityComments| && o < |entityComments|
      requires !IsNullOrEmpty(property.comment)
      modifies modelBuilder
      ensures modelBuilder.comments
              == Run(OwnedNavigationSteps(modelBuilder.model, entityComments, i, o, property,
                                          |modelBuilder.model.entityTypes[o].navigations|),
                     old(modelBuilder.comments))
    {
      ghost var m, tree, start := modelBuilder.model, entityComments, modelBuilder.comments;
      var navigations := modelBuilder.model.entityTypes[o].navigations;
      var ownerEntityComment := entityComments[o];
      assert NodeMatches(m.entityTypes[o], o, ownerEntityComment);
      var k := 0;
      while k < |navigations|
        invariant k <= |navigations| == |ownerEntityComment.navigations|
        invariant navigations == m.entityTypes[o].navigations && ownerEntityComment == tree[o] && entityComments == tree
        invariant modelBuilder.comments == Run(OwnedNavigationSteps(m, tree, i, o, property, k), start)
      {
        var navigation := navigations[k];
        ghost var done := OwnedNavigationSteps(m, tree, i, o, property, k);
        if navigation.target == i {
          // OwnsMany for a collection, OwnsOne otherwise; the target records which
          var column := OwnedColumn(o, navigation.name, navigation.isCollection, property.property.name);
          var navigationComment := ownerEntityComment.navigations[k].comment;
          var comment := Compose(navigationComment, property.comment.value);
          assert OwnedNavigationSteps(m, tree, i, o, property, k + 1) == done + [Unconditional(column, comment)];
          RunSnoc(done, Unconditional(column, comment), start);
          modelBuilder.HasComment(column, comment);
        } else {
          assert OwnedNavigationSteps(m, tree, i, o, property, k + 1) == done + [] == done;
        }
        k := k + 1;
      }
    }

    /** Stamps the discriminator column named by the entity's base type, whatever comment it had. */
    method CommentDiscriminator(i: EntityId)
      requires Valid() && i < |entityComments|
      modifies modelBuilder
      ensures modelBuilder.comments
              == Run(DiscriminatorSteps(modelBuilder.model, i, discriminatorComment), old(modelBuilder.comments))
    {
      var et := modelBuilder.model.entityTypes[i];
      assert EntityWellFormed(modelBuilder.model, i);
      var discriminatorColumn :=
        if et.baseType.Some? then modelBuilder.model.entityTypes[et.baseType.value].discriminator else None;
      if discriminatorColumn.None? {
        return;
      }
      modelBuilder.HasComment(Column(i, discriminatorColumn.value), discriminatorComment);
      RunSnoc([], Unconditional(Column(i, discriminatorColumn.value), discriminatorComment), old(modelBuilder.comments));
    }
  }
}
