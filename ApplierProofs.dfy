/**
 * What AddCommentsToModel does to the comments the model carries, stated
 * element by element: which element each call may write, the guard on
 * table and column comments, the discriminator stamp, the composition of
 * owned columns, the skip rule for entities without a key, and that a
 * second application changes nothing.
 */
module ApplierProofs {
  import opened Wrappers
  import opened EfMetadata
  import opened CommentTree

  // ---------------------------------------------------------------------
  // The effect of a step sequence on one element

  function StepAt(x: Step, k: Target, current: Option<string>): (r: Option<string>) {
    if x.target != k then current
    else match x
      case Guarded(_, v) => if IsNullOrEmpty(current) then Some(v) else current
      case Unconditional(_, v) => Some(v)
  }

  /** The comment of element `k` after the steps run, when it started as `current`. */
  function At(steps: seq<Step>, k: Target, current: Option<string>): (r: Option<string>)
    decreases |steps|
  {
    if steps == [] then current
    else StepAt(steps[|steps| - 1], k, At(steps[..|steps| - 1], k, current))
  }

  /** The rule of the guarded writes: a non-empty candidate fills an element whose comment is null or empty. */
  function FillIfBlank(current: Option<string>, candidate: Option<string>): (r: Option<string>) {
    if IsNullOrEmpty(current) && !IsNullOrEmpty(candidate) then candidate else current
  }

  predicate Untouched(steps: seq<Step>, k: Target) {
    forall x :: x in steps ==> x.target != k
  }

  lemma {:induction false} RunAt(steps: seq<Step>, store: map<Target, string>, k: Target)
    ensures Lookup(Run(steps, store), k) == At(steps, k, Lookup(store, k))
    decreases |steps|
  {
    if steps != [] {
      RunAt(steps[..|steps| - 1], store, k);
    }
  }

  lemma AtSnoc(a: seq<Step>, x: Step, k: Target, current: Option<string>)
    ensures At(a + [x], k, current) == StepAt(x, k, At(a, k, current))
  {
    assert (a + [x])[..|a + [x]| - 1] == a;
  }

  lemma {:induction false} AtConcat(a: seq<Step>, b: seq<Step>, k: Target, current: Option<string>)
    ensures At(a + b, k, current) == At(b, k, At(a, k, current))
    decreases |b|
  {
    if b == [] {
      assert a + b == a;
    } else {
      var b' := b[..|b| - 1];
      assert b == b' + [b[|b| - 1]];
      assert a + b == (a + b') + [b[|b| - 1]];
      AtConcat(a, b', k, current);
      AtSnoc(a + b', b[|b| - 1], k, current);
      AtSnoc(b', b[|b| - 1], k, At(a, k, current));
    }
  }

  lemma {:induction false} AtUntouched(steps: seq<Step>, k: Target, current: Option<string>)
    requires Untouched(steps, k)
    ensures At(steps, k, current) == current
    decreases |steps|
  {
    if steps != [] {
      var p := steps[..|steps| - 1];
      assert steps[|steps| - 1] in steps;
      assert forall x :: x in p ==> x in steps;
      AtUntouched(p, k, current);
    }
  }

  // ---------------------------------------------------------------------
  // Idempotence of a step sequence

  predicate GuardedTextsNonEmpty(steps: seq<Step>) {
    forall x :: x in steps && x.Guarded? ==> x.text != ""
  }

  predicate Stamps(steps: seq<Step>, k: Target) {
    exists x :: x in steps && x.Unconditional? && x.target == k
  }

  /**
   * After an unconditional write to `k` the outcome no longer depends on
   * the starting comment; without one, a non-empty starting comment is
   * kept and any other start either stays or becomes non-empty.
   */
  lemma {:induction false} AtShape(steps: seq<Step>, k: Target, c: Option<string>, c': Option<string>)
    requires GuardedTextsNonEmpty(steps)
    ensures Stamps(steps, k) ==> At(steps, k, c) == At(steps, k, c')
    ensures !Stamps(steps, k) && !IsNullOrEmpty(c) ==> At(steps, k, c) == c
    ensures !Stamps(steps, k) ==> At(steps, k, c) == c || !IsNullOrEmpty(At(steps, k, c))
    decreases |steps|
  {
    if steps != [] {
      var p, x := steps[..|steps| - 1], steps[|steps| - 1];
      assert steps == p + [x];
      assert x in steps;
      assert forall y :: y in p ==> y in steps;
      AtShape(p, k, c, c');
      if !(x.Unconditional? && x.target == k) {
        if Stamps(steps, k) {
          var y :| y in steps && y.Unconditional? && y.target == k;
          assert y in p;
        }
      }
    }
  }

  lemma AtIdempotent(steps: seq<Step>, k: Target, c: Option<string>)
    requires GuardedTextsNonEmpty(steps)
    ensures At(steps, k, At(steps, k, c)) == At(steps, k, c)
  {
    AtShape(steps, k, At(steps, k, c), c);
  }

  lemma MapsEqual(a: map<Target, string>, b: map<Target, string>)
    requires forall k :: Lookup(a, k) == Lookup(b, k)
    ensures a == b
  {
    assert forall k :: k in a <==> Lookup(a, k).Some?;
    assert forall k :: k in b <==> Lookup(b, k).Some?;
    assert a.Keys == b.Keys;
    forall k | k in a ensures a[k] == b[k] {
      assert Lookup(a, k) == Lookup(b, k);
    }
  }

  /** Running a sequence whose guarded writes are non-empty a second time changes nothing. */
  lemma RunIdempotent(steps: seq<Step>, store: map<Target, string>)
    requires GuardedTextsNonEmpty(steps)
    ensures Run(steps, Run(steps, store)) == Run(steps, store)
  {
    var once := Run(steps, store);
    forall k ensures Lookup(Run(steps, once), k) == Lookup(once, k) {
      RunAt(steps, once, k);
      RunAt(steps, store, k);
      AtIdempotent(steps, k, Lookup(store, k));
    }
    MapsEqual(Run(steps, once), once);
  }

  // ---------------------------------------------------------------------
  // Where each write comes from

  /** `x` is the column write for property node `p` of standalone entity `i`. */
  predicate WritesColumn(i: EntityId, p: PropertyComment, x: Step) {
    !IsNullOrEmpty(p.comment) && x == Guarded(Column(i, p.property.name), p.comment.value)
  }

  /** `x` is the write for property node `p` of owned entity `i` through navigation `q` of owner `o`. */
  predicate WritesOwnedColumn(m: Model, tree: seq<EntityComment>, i: EntityId, o: EntityId, p: PropertyComment, q: nat, x: Step) {
    && o < |m.entityTypes| && o < |tree|
    && q < |m.entityTypes[o].navigations| && q < |tree[o].navigations|
    && var nav := m.entityTypes[o].navigations[q];
    && nav.target == i
    && !IsNullOrEmpty(p.comment)
    && x == Unconditional(OwnedColumn(o, nav.name, nav.isCollection, p.property.name),
                          Compose(tree[o].navigations[q].comment, p.comment.value))
  }

  /** Every column write of a standalone entity is the write of one of its properties with a comment. */
  lemma {:induction false} ColumnStepsOrigin(m: Model, tree: seq<EntityComment>, i: EntityId, n: nat, x: Step) returns (j: nat)
    requires TreeValid(m, tree) && i < |tree| && n <= |tree[i].properties|
    requires x in ColumnSteps(m, tree, i, n)
    ensures j < n && WritesColumn(i, tree[i].properties[j], x)
  {
    if x in ColumnSteps(m, tree, i, n - 1) {
      j := ColumnStepsOrigin(m, tree, i, n - 1, x);
    } else {
      j := n - 1;
    }
  }

  /** Every write of CommentOwned is through one of the owner's navigations that targets the owned entity. */
  lemma {:induction false} OwnedNavigationStepsOrigin(
    m: Model, tree: seq<EntityComment>, i: EntityId, o: EntityId, p: PropertyComment, k: nat, x: Step) returns (q: nat)
    requires TreeValid(m, tree) && o < |tree| && k <= |m.entityTypes[o].navigations|
    requires !IsNullOrEmpty(p.comment)
    requires x in OwnedNavigationSteps(m, tree, i, o, p, k)
    ensures q < k && WritesOwnedColumn(m, tree, i, o, p, q, x)
  {
    assert NodeMatches(m.entityTypes[o], o, tree[o]);
    if x in OwnedNavigationSteps(m, tree, i, o, p, k - 1) {
      q := OwnedNavigationStepsOrigin(m, tree, i, o, p, k - 1, x);
    } else {
      q := k - 1;
    }
  }

  /** Every write for an owned entity is the embedded-column write of one of its properties through one owner navigation. */
  lemma {:induction false} OwnedStepsOrigin(m: Model, tree: seq<EntityComment>, i: EntityId, o: EntityId, n: nat, x: Step) returns (j: nat, q: nat)
    requires TreeValid(m, tree) && i < |tree| && o < |tree| && n <= |tree[i].properties|
    requires x in OwnedSteps(m, tree, i, o, n)
    ensures j < n && WritesOwnedColumn(m, tree, i, o, tree[i].properties[j], q, x)
  {
    if x in OwnedSteps(m, tree, i, o, n - 1) {
      j, q := OwnedStepsOrigin(m, tree, i, o, n - 1, x);
    } else {
      j := n - 1;
      q := OwnedNavigationStepsOrigin(m, tree, i, o, tree[i].properties[j], |m.entityTypes[o].navigations|, x);
    }
  }

  /**
   * Every call the applier makes for entity `i` comes from a non-empty
   * source: the entity has a key or is keyless; an owned entity only writes
   * embedded columns of its properties with a comment, through owner
   * navigations that target it; a standalone entity only writes its table
   * comment, the discriminator column its base type names, or the column
   * of a property with a comment.
   */
  lemma EntityStepOrigin(m: Model, tree: seq<EntityComment>, disc: string, i: EntityId, x: Step)
    requires TreeValid(m, tree) && i < |tree|
    requires x in EntitySteps(m, tree, disc, i)
    ensures m.entityTypes[i].IsCommentable()
    ensures m.entityTypes[i].IsOwned() ==>
      exists j, q :: 0 <= j < |tree[i].properties|
        && WritesOwnedColumn(m, tree, i, m.entityTypes[i].owner.value, tree[i].properties[j], q, x)
    ensures !m.entityTypes[i].IsOwned() ==>
      || (!IsNullOrEmpty(tree[i].Comment()) && x == Guarded(Table(i), tree[i].Comment().value))
      || (DiscriminatorColumn(m, i).Some? && x == Unconditional(Column(i, DiscriminatorColumn(m, i).value), disc))
      || (exists j :: 0 <= j < |tree[i].properties| && WritesColumn(i, tree[i].properties[j], x))
  {
    var et := m.entityTypes[i];
    assert EntityWellFormed(m, i);
    if et.IsOwned() {
      var j, q := OwnedStepsOrigin(m, tree, i, et.owner.value, |tree[i].properties|, x);
    } else if x in ColumnSteps(m, tree, i, |tree[i].properties|) {
      var j := ColumnStepsOrigin(m, tree, i, |tree[i].properties|, x);
    }
  }

  /** The elements whose comments entity `i` may write. */
  predicate BelongsTo(m: Model, i: EntityId, k: Target) {
    match k
    case Table(e) => e == i
    case Column(e, _) => e == i
    case OwnedColumn(o, n, _, _) =>
      && i < |m.entityTypes| && m.entityTypes[i].owner == Some(o) && o < |m.entityTypes|
      && exists q :: 0 <= q < |m.entityTypes[o].navigations|
           && m.entityTypes[o].navigations[q].name == n && m.entityTypes[o].navigations[q].target == i
  }

  lemma StepStaysWithEntity(m: Model, tree: seq<EntityComment>, disc: string, i: EntityId, x: Step)
    requires TreeValid(m, tree) && i < |tree|
    requires x in EntitySteps(m, tree, disc, i)
    ensures BelongsTo(m, i, x.target)
  {
    EntityStepOrigin(m, tree, disc, i, x);
  }

  /** No element belongs to two entities, since member names are unique within an entity type. */
  lemma ElementHasOneEntity(m: Model, i: EntityId, j: EntityId, k: Target)
    requires UniqueMemberNames(m)
    requires BelongsTo(m, i, k) && BelongsTo(m, j, k)
    ensures i == j
  {
    if k.OwnedColumn? {
      var o := k.owner;
      var qi :| 0 <= qi < |m.entityTypes[o].navigations|
        && m.entityTypes[o].navigations[qi].name == k.navigation && m.entityTypes[o].navigations[qi].target == i;
      var qj :| 0 <= qj < |m.entityTypes[o].navigations|
        && m.entityTypes[o].navigations[qj].name == k.navigation && m.entityTypes[o].navigations[qj].target == j;
      assert DistinctNames(m.entityTypes[o]);
      assert qi == qj;
    }
  }

  /** The calls made for another entity never touch an element of entity `i`. */
  lemma OtherEntityUntouched(m: Model, tree: seq<EntityComment>, disc: string, j: EntityId, i: EntityId, k: Target)
    requires TreeValid(m, tree) && UniqueMemberNames(m) && j < |tree| && j != i
    requires BelongsTo(m, i, k)
    ensures Untouched(EntitySteps(m, tree, disc, j), k)
  {
    forall x | x in EntitySteps(m, tree, disc, j) ensures x.target != k {
      StepStaysWithEntity(m, tree, disc, j, x);
      if x.target == k {
        ElementHasOneEntity(m, i, j, k);
      }
    }
  }

  function Flatten(chunks: seq<seq<Step>>): (steps: seq<Step>)
    decreases |chunks|
  {
    if chunks == [] then [] else Flatten(chunks[..|chunks| - 1]) + chunks[|chunks| - 1]
  }

  /** When only chunk `i` may touch `k`, the flattened steps leave `k` as chunk `i` alone does (or alone, when there is no chunk `i`). */
  lemma {:induction false} FlattenAt(chunks: seq<seq<Step>>, i: nat, k: Target, c: Option<string>)
    requires forall j :: 0 <= j < |chunks| && j != i ==> Untouched(chunks[j], k)
    ensures At(Flatten(chunks), k, c) == if i < |chunks| then At(chunks[i], k, c) else c
    decreases |chunks|
  {
    if chunks != [] {
      var n := |chunks| - 1;
      var prefix := chunks[..n];
      FlattenAt(prefix, i, k, c);
      AtConcat(Flatten(prefix), chunks[n], k, c);
      if n != i {
        AtUntouched(chunks[n], k, At(Flatten(prefix), k, c));
      }
    }
  }

  /** The plan's entity chunks, in tree order. */
  function PlanChunks(m: Model, tree: seq<EntityComment>, disc: string, n: nat): (r: seq<seq<Step>>)
    requires TreeValid(m, tree) && n <= |tree|
    ensures |r| == n
  {
    seq(n, j requires 0 <= j < n => EntitySteps(m, tree, disc, j))
  }

  lemma {:induction false} PlanPrefixIsFlatten(m: Model, tree: seq<EntityComment>, disc: string, n: nat)
    requires TreeValid(m, tree) && n <= |tree|
    ensures PlanPrefix(m, tree, disc, n) == Flatten(PlanChunks(m, tree, disc, n))
  {
    if n > 0 {
      PlanPrefixIsFlatten(m, tree, disc, n - 1);
      assert PlanChunks(m, tree, disc, n)[..n - 1] == PlanChunks(m, tree, disc, n - 1);
    }
  }

  lemma PlanPrefixAt(
    m: Model, tree: seq<EntityComment>, disc: string, n: nat, i: EntityId, k: Target, c: Option<string>)
    requires TreeValid(m, tree) && UniqueMemberNames(m) && n <= |tree| && i < |tree|
    requires BelongsTo(m, i, k)
    ensures At(PlanPrefix(m, tree, disc, n), k, c) == if n <= i then c else At(EntitySteps(m, tree, disc, i), k, c)
  {
    var chunks := PlanChunks(m, tree, disc, n);
    PlanPrefixIsFlatten(m, tree, disc, n);
    forall j | 0 <= j < |chunks| && j != i ensures Untouched(chunks[j], k) {
      OtherEntityUntouched(m, tree, disc, j, i, k);
    }
    FlattenAt(chunks, i, k, c);
  }

  /**
   * Entities are independent: an element that belongs to entity `i` ends up
   * as entity `i`'s own calls leave it, whatever the other entities do.
   */
  lemma EntitiesIndependent(m: Model, tree: seq<EntityComment>, disc: string, store: map<Target, string>, i: EntityId, k: Target)
    requires TreeValid(m, tree) && UniqueMemberNames(m) && i < |tree|
    requires BelongsTo(m, i, k)
    ensures Lookup(Run(Plan(m, tree, disc), store), k) == At(EntitySteps(m, tree, disc, i), k, Lookup(store, k))
  {
    RunAt(Plan(m, tree, disc), store, k);
    PlanPrefixAt(m, tree, disc, |tree|, i, k, Lookup(store, k));
  }

  // ---------------------------------------------------------------------
  // The rules for each kind of element

  /** An entity with no primary key that is not keyless gets no write of any kind. */
  lemma UncommentableEntityUntouched(m: Model, tree: seq<EntityComment>, disc: string, store: map<Target, string>, i: EntityId, k: Target)
    requires TreeValid(m, tree) && UniqueMemberNames(m) && i < |tree|
    requires !m.entityTypes[i].hasPrimaryKey && !m.entityTypes[i].isKeyless
    requires BelongsTo(m, i, k)
    ensures EntitySteps(m, tree, disc, i) == []
    ensures Lookup(Run(Plan(m, tree, disc), store), k) == Lookup(store, k)
  {
    EntitiesIndependent(m, tree, disc, store, i, k);
  }

  lemma {:induction false} ColumnStepsAt(m: Model, tree: seq<EntityComment>, i: EntityId, n: nat, j: nat, c: Option<string>)
    requires TreeValid(m, tree) && UniqueMemberNames(m) && i < |tree|
    requires n <= |tree[i].properties| && j < |tree[i].properties|
    ensures At(ColumnSteps(m, tree, i, n), Column(i, tree[i].properties[j].property.name), c)
         == if n <= j then c else FillIfBlank(c, tree[i].properties[j].comment)
  {
    if n > 0 {
      var k := Column(i, tree[i].properties[j].property.name);
      var p := tree[i].properties[n - 1];
      var prefix := ColumnSteps(m, tree, i, n - 1);
      ColumnStepsAt(m, tree, i, n - 1, j, c);
      if IsNullOrEmpty(p.comment) {
        assert ColumnSteps(m, tree, i, n) == prefix + [] == prefix;
        if n - 1 == j {
          assert FillIfBlank(c, p.comment) == c;
        }
      } else {
        var x := Guarded(Column(i, p.property.name), p.comment.value);
        assert ColumnSteps(m, tree, i, n) == prefix + [x];
        AtSnoc(prefix, x, k, c);
        if n - 1 != j {
          assert NodeMatches(m.entityTypes[i], i, tree[i]) && DistinctNames(m.entityTypes[i]);
          assert p.property.name != tree[i].properties[j].property.name;
          assert StepAt(x, k, At(prefix, k, c)) == At(prefix, k, c);
        }
      }
    }
  }

  lemma {:induction false} ColumnStepsKeepStamp(m: Model, tree: seq<EntityComment>, i: EntityId, n: nat, d: string, disc: string)
    requires TreeValid(m, tree) && i < |tree| && n <= |tree[i].properties|
    requires disc != "" || forall j :: (0 <= j < |tree[i].properties| && tree[i].properties[j].property.name == d)
                                         ==> IsNullOrEmpty(tree[i].properties[j].comment)
    ensures At(ColumnSteps(m, tree, i, n), Column(i, d), Some(disc)) == Some(disc)
  {
    if n > 0 {
      var p := tree[i].properties[n - 1];
      var prefix := ColumnSteps(m, tree, i, n - 1);
      ColumnStepsKeepStamp(m, tree, i, n - 1, d, disc);
      if IsNullOrEmpty(p.comment) {
        assert ColumnSteps(m, tree, i, n) == prefix + [] == prefix;
      } else {
        AtSnoc(prefix, Guarded(Column(i, p.property.name), p.comment.value), Column(i, d), Some(disc));
      }
    }
  }

  lemma ColumnStepsOffTable(m: Model, tree: seq<EntityComment>, i: EntityId, k: Target)
    requires TreeValid(m, tree) && i < |tree|
    requires !k.Column?
    ensures Untouched(ColumnSteps(m, tree, i, |tree[i].properties|), k)
  {
    forall x | x in ColumnSteps(m, tree, i, |tree[i].properties|) ensures x.target != k {
      var j := ColumnStepsOrigin(m, tree, i, |tree[i].properties|, x);
    }
  }

  lemma AtSingle(x: Step, k: Target, c: Option<string>)
    ensures At([x], k, c) == StepAt(x, k, c)
  {
    assert [x][..0] == [];
  }

  lemma TableStepsAt(tree: seq<EntityComment>, i: EntityId, k: Target, c: Option<string>)
    requires i < |tree|
    ensures At(TableSteps(tree, i), k, c) == if k == Table(i) then FillIfBlank(c, tree[i].Comment()) else c
  {
    var comment := tree[i].Comment();
    if !IsNullOrEmpty(comment) {
      AtSingle(Guarded(Table(i), comment.value), k, c);
    }
  }

  /** The discriminator column of an entity is the one its base type names; an entity without a base type has none. */
  lemma DiscriminatorColumnIsBases(m: Model, i: EntityId)
    requires i < |m.entityTypes| && WellFormed(m)
    ensures m.entityTypes[i].baseType.None? ==> DiscriminatorColumn(m, i).None?
    ensures m.entityTypes[i].baseType.Some? ==>
      && m.entityTypes[i].baseType.value < |m.entityTypes|
      && DiscriminatorColumn(m, i) == m.entityTypes[m.entityTypes[i].baseType.value].discriminator
  {
    assert EntityWellFormed(m, i);
  }

  lemma DiscriminatorStepsAt(m: Model, i: EntityId, disc: string, k: Target, c: Option<string>)
    requires i < |m.entityTypes| && WellFormed(m)
    ensures At(DiscriminatorSteps(m, i, disc), k, c)
         == if DiscriminatorColumn(m, i).Some? && k == Column(i, DiscriminatorColumn(m, i).value) then Some(disc) else c
  {
    var name := DiscriminatorColumn(m, i);
    if name.Some? {
      AtSingle(Unconditional(Column(i, name.value), disc), k, c);
    }
  }

  /** The calls for a standalone entity: table, then discriminator, then columns. */
  lemma StandaloneAt(m: Model, tree: seq<EntityComment>, disc: string, i: EntityId, k: Target, c: Option<string>)
    requires TreeValid(m, tree) && i < |tree|
    requires m.entityTypes[i].IsCommentable() && !m.entityTypes[i].IsOwned()
    ensures At(EntitySteps(m, tree, disc, i), k, c)
         == At(ColumnSteps(m, tree, i, |tree[i].properties|), k,
               At(DiscriminatorSteps(m, i, disc), k, At(TableSteps(tree, i), k, c)))
  {
    var t, d, cs := TableSteps(tree, i), DiscriminatorSteps(m, i, disc), ColumnSteps(m, tree, i, |tree[i].properties|);
    assert EntitySteps(m, tree, disc, i) == t + d + cs;
    AtConcat(t + d, cs, k, c);
    AtConcat(t, d, k, c);
  }

  /**
   * A standalone entity's table comment is written, with the entity's
   * resolved comment, only when the model's table comment is null or empty
   * and the resolved comment is not.
   */
  lemma TableCommentRule(m: Model, tree: seq<EntityComment>, disc: string, store: map<Target, string>, i: EntityId)
    requires TreeValid(m, tree) && UniqueMemberNames(m) && i < |tree|
    requires m.entityTypes[i].IsCommentable() && !m.entityTypes[i].IsOwned()
    ensures Lookup(Run(Plan(m, tree, disc), store), Table(i)) == FillIfBlank(Lookup(store, Table(i)), tree[i].Comment())
  {
    var k := Table(i);
    EntitiesIndependent(m, tree, disc, store, i, k);
    StandaloneAt(m, tree, disc, i, k, Lookup(store, k));
    TableStepsAt(tree, i, k, Lookup(store, k));
    DiscriminatorStepsAt(m, i, disc, k, FillIfBlank(Lookup(store, k), tree[i].Comment()));
    ColumnStepsOffTable(m, tree, i, k);
    AtUntouched(ColumnSteps(m, tree, i, |tree[i].properties|), k, FillIfBlank(Lookup(store, k), tree[i].Comment()));
  }

  /**
   * A column of a standalone entity (other than the discriminator stamped
   * through it) follows the same rule as the table: the property's
   * resolved comment fills it only when it is null or empty.
   */
  lemma ColumnCommentRule(m: Model, tree: seq<EntityComment>, disc: string, store: map<Target, string>, i: EntityId, j: nat)
    requires TreeValid(m, tree) && UniqueMemberNames(m) && i < |tree|
    requires m.entityTypes[i].IsCommentable() && !m.entityTypes[i].IsOwned()
    requires j < |tree[i].properties|
    requires DiscriminatorColumn(m, i) != Some(tree[i].properties[j].property.name)
    ensures var k := Column(i, tree[i].properties[j].property.name);
            Lookup(Run(Plan(m, tree, disc), store), k) == FillIfBlank(Lookup(store, k), tree[i].properties[j].comment)
  {
    var k := Column(i, tree[i].properties[j].property.name);
    EntitiesIndependent(m, tree, disc, store, i, k);
    StandaloneAt(m, tree, disc, i, k, Lookup(store, k));
    TableStepsAt(tree, i, k, Lookup(store, k));
    DiscriminatorStepsAt(m, i, disc, k, Lookup(store, k));
    ColumnStepsAt(m, tree, i, |tree[i].properties|, j, Lookup(store, k));
  }

  /**
   * When the base type of a standalone entity names a discriminator
   * property, that column ends up with the configured discriminator text,
   * whatever it carried before; only a property of the same name with a
   * comment can still fill it, and only when the text is empty.
   */
  lemma DiscriminatorStamped(m: Model, tree: seq<EntityComment>, disc: string, store: map<Target, string>, i: EntityId)
    requires TreeValid(m, tree) && UniqueMemberNames(m) && i < |tree|
    requires m.entityTypes[i].IsCommentable() && !m.entityTypes[i].IsOwned()
    requires DiscriminatorColumn(m, i).Some?
    requires disc != "" || forall j :: (0 <= j < |tree[i].properties|
                                         && tree[i].properties[j].property.name == DiscriminatorColumn(m, i).value)
                                         ==> IsNullOrEmpty(tree[i].properties[j].comment)
    ensures Lookup(Run(Plan(m, tree, disc), store), Column(i, DiscriminatorColumn(m, i).value)) == Some(disc)
  {
    var name := DiscriminatorColumn(m, i).value;
    var k := Column(i, name);
    EntitiesIndependent(m, tree, disc, store, i, k);
    StandaloneAt(m, tree, disc, i, k, Lookup(store, k));
    TableStepsAt(tree, i, k, Lookup(store, k));
    DiscriminatorStepsAt(m, i, disc, k, Lookup(store, k));
    ColumnStepsKeepStamp(m, tree, i, |tree[i].properties|, name, disc);
  }

  /** Without a base type, or with a base type that names no discriminator, no write is unconditional. */
  lemma StandaloneUnconditionalOnlyDiscriminator(m: Model, tree: seq<EntityComment>, disc: string, i: EntityId, x: Step)
    requires TreeValid(m, tree) && i < |tree|
    requires !m.entityTypes[i].IsOwned()
    requires x in EntitySteps(m, tree, disc, i) && x.Unconditional?
    ensures DiscriminatorColumn(m, i).Some?
    ensures x == Unconditional(Column(i, DiscriminatorColumn(m, i).value), disc)
  {
    EntityStepOrigin(m, tree, disc, i, x);
  }

  lemma {:induction false} OwnedNavigationStepsAt(
    m: Model, tree: seq<EntityComment>, i: EntityId, o: EntityId, p: PropertyComment, k: nat, q: nat, name: string, c: Option<string>)
    requires TreeValid(m, tree) && UniqueMemberNames(m) && o < |tree|
    requires k <= |m.entityTypes[o].navigations| && q < |m.entityTypes[o].navigations|
    requires !IsNullOrEmpty(p.comment)
    ensures var nav := m.entityTypes[o].navigations[q];
            At(OwnedNavigationSteps(m, tree, i, o, p, k), OwnedColumn(o, nav.name, nav.isCollection, name), c)
            == if k <= q || nav.target != i || name != p.property.name then c
               else Some(Compose(tree[o].navigations[q].comment, p.comment.value))
  {
    if k > 0 {
      var nav, navk := m.entityTypes[o].navigations[q], m.entityTypes[o].navigations[k - 1];
      var key := OwnedColumn(o, nav.name, nav.isCollection, name);
      var prefix := OwnedNavigationSteps(m, tree, i, o, p, k - 1);
      OwnedNavigationStepsAt(m, tree, i, o, p, k - 1, q, name, c);
      assert DistinctNames(m.entityTypes[o]);
      assert k - 1 != q ==> navk.name != nav.name;
      if navk.target == i {
        AtSnoc(prefix, Unconditional(OwnedColumn(o, navk.name, navk.isCollection, p.property.name),
                                     Compose(tree[o].navigations[k - 1].comment, p.comment.value)), key, c);
      } else {
        assert OwnedNavigationSteps(m, tree, i, o, p, k) == prefix + [] == prefix;
      }
    }
  }

  lemma {:induction false} OwnedStepsAt(
    m: Model, tree: seq<EntityComment>, i: EntityId, o: EntityId, n: nat, j: nat, q: nat, c: Option<string>)
    requires TreeValid(m, tree) && UniqueMemberNames(m) && i < |tree| && o < |tree|
    requires n <= |tree[i].properties| && j < |tree[i].properties|
    requires q < |m.entityTypes[o].navigations| && m.entityTypes[o].navigations[q].target == i
    ensures var nav, p := m.entityTypes[o].navigations[q], tree[i].properties[j];
            At(OwnedSteps(m, tree, i, o, n), OwnedColumn(o, nav.name, nav.isCollection, p.property.name), c)
            == if n <= j || IsNullOrEmpty(p.comment) then c
               else Some(Compose(tree[o].navigations[q].comment, p.comment.value))
  {
    if n > 0 {
      var nav, p, pn := m.entityTypes[o].navigations[q], tree[i].properties[j], tree[i].properties[n - 1];
      var key := OwnedColumn(o, nav.name, nav.isCollection, p.property.name);
      var prefix := OwnedSteps(m, tree, i, o, n - 1);
      OwnedStepsAt(m, tree, i, o, n - 1, j, q, c);
      assert NodeMatches(m.entityTypes[i], i, tree[i]) && DistinctNames(m.entityTypes[i]);
      assert n - 1 != j ==> pn.property.name != p.property.name;
      if IsNullOrEmpty(pn.comment) {
        assert OwnedSteps(m, tree, i, o, n) == prefix + [] == prefix;
      } else {
        var chunk := OwnedNavigationSteps(m, tree, i, o, pn, |m.entityTypes[o].navigations|);
        AtConcat(prefix, chunk, key, c);
        OwnedNavigationStepsAt(m, tree, i, o, pn, |m.entityTypes[o].navigations|, q, p.property.name, At(prefix, key, c));
      }
    }
  }

  /**
   * For an owned entity, each property with a comment gets, through every
   * owner navigation that targets the entity, the embedded column comment
   * "navigation comment:property comment", or the property comment alone
   * when the owner's node has no comment for that navigation.
   */
  lemma OwnedColumnComposition(
    m: Model, tree: seq<EntityComment>, disc: string, store: map<Target, string>, i: EntityId, j: nat, q: nat)
    requires TreeValid(m, tree) && UniqueMemberNames(m) && i < |tree|
    requires m.entityTypes[i].IsCommentable() && m.entityTypes[i].IsOwned()
    requires j < |tree[i].properties| && !IsNullOrEmpty(tree[i].properties[j].comment)
    requires var o := m.entityTypes[i].owner.value;
             o < |m.entityTypes| && q < |m.entityTypes[o].navigations| && m.entityTypes[o].navigations[q].target == i
    ensures var o := m.entityTypes[i].owner.value;
            var nav, p := m.entityTypes[o].navigations[q], tree[i].properties[j];
            Lookup(Run(Plan(m, tree, disc), store), OwnedColumn(o, nav.name, nav.isCollection, p.property.name))
            == Some(if tree[o].navigations[q].comment.None? then p.comment.value
                    else tree[o].navigations[q].comment.value + ":" + p.comment.value)
  {
    var o := m.entityTypes[i].owner.value;
    var nav, p := m.entityTypes[o].navigations[q], tree[i].properties[j];
    var key := OwnedColumn(o, nav.name, nav.isCollection, p.property.name);
    assert BelongsTo(m, i, key);
    EntitiesIndependent(m, tree, disc, store, i, key);
    OwnedStepsAt(m, tree, i, o, |tree[i].properties|, j, q, Lookup(store, key));
  }

  /** An owned entity never gets a table or column comment of its own; all its writes are embedded columns. */
  lemma OwnedEntityWritesOnlyEmbeddedColumns(m: Model, tree: seq<EntityComment>, disc: string, i: EntityId, x: Step)
    requires TreeValid(m, tree) && i < |tree|
    requires m.entityTypes[i].IsOwned()
    requires x in EntitySteps(m, tree, disc, i)
    ensures x.Unconditional? && x.target.OwnedColumn? && x.target.owner == m.entityTypes[i].owner.value
  {
    EntityStepOrigin(m, tree, disc, i, x);
  }

  /**
   * A property whose resolved comment is null or empty triggers no write:
   * the only write that can name its column is the discriminator stamp.
   */
  lemma BlankPropertyNotWritten(m: Model, tree: seq<EntityComment>, disc: string, i: EntityId, j: nat, x: Step)
    requires TreeValid(m, tree) && UniqueMemberNames(m) && i < |tree|
    requires j < |tree[i].properties| && IsNullOrEmpty(tree[i].properties[j].comment)
    requires x in EntitySteps(m, tree, disc, i)
    requires (x.target.Column? || x.target.OwnedColumn?) && x.target.property == tree[i].properties[j].property.name
    ensures !m.entityTypes[i].IsOwned()
    ensures x == Unconditional(Column(i, tree[i].properties[j].property.name), disc)
    ensures DiscriminatorColumn(m, i) == Some(tree[i].properties[j].property.name)
  {
    EntityStepOrigin(m, tree, disc, i, x);
    assert NodeMatches(m.entityTypes[i], i, tree[i]) && DistinctNames(m.entityTypes[i]);
  }

  // ---------------------------------------------------------------------
  // A second application

  lemma {:induction false} PlanPrefixGuardedTextsNonEmpty(m: Model, tree: seq<EntityComment>, disc: string, n: nat)
    requires TreeValid(m, tree) && n <= |tree|
    ensures GuardedTextsNonEmpty(PlanPrefix(m, tree, disc, n))
  {
    if n > 0 {
      PlanPrefixGuardedTextsNonEmpty(m, tree, disc, n - 1);
      var before, steps := PlanPrefix(m, tree, disc, n - 1), EntitySteps(m, tree, disc, n - 1);
      assert PlanPrefix(m, tree, disc, n) == before + steps;
      forall x: Step | x in before + steps && x.Guarded? ensures x.text != "" {
        if x !in before {
          assert x in steps;
          EntityStepOrigin(m, tree, disc, n - 1, x);
        }
      }
    }
  }

  /**
   * Applying the same tree to the model the first application produced
   * changes no comment: guarded writes now find their element commented,
   * and unconditional ones repeat the same text.
   */
  lemma SecondApplicationChangesNothing(m: Model, tree: seq<EntityComment>, disc: string, store: map<Target, string>)
    requires TreeValid(m, tree)
    ensures var once := Run(Plan(m, tree, disc), store);
            Run(Plan(m, tree, disc), once) == once
  {
    PlanPrefixGuardedTextsNonEmpty(m, tree, disc, |tree|);
    RunIdempotent(Plan(m, tree, disc), store);
  }
}
