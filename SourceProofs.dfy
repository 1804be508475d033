/**
 * Properties of the comment sources: which dictionary entry wins for a
 * name, the order of the assemblies whose documentation is read, which
 * documentation index decides an entity's comment and a member's comment,
 * how the description pass overrides the XML pass, and what the fluent
 * configuration ends up holding.
 */
module SourceProofs {
  import opened Wrappers
  import opened EfMetadata
  import opened CommentTree
  import opened CommentSources

  // ---------------------------------------------------------------------
  // The comment dictionary of one file

  /** A name is in the dictionary iff some member carries it, and its value is the summary of the first such member. */
  lemma {:induction false} CommentDictFirstWins(members: seq<XmlMember>, key: string)
    ensures key in CommentDict(members) <==> exists j :: 0 <= j < |members| && members[j].name == Some(key)
    ensures forall j :: 0 <= j < |members| && members[j].name == Some(key)
                        && (forall q :: 0 <= q < j ==> members[q].name != Some(key))
                        ==> CommentDict(members)[key] == SummaryValue(members[j])
    decreases |members|
  {
    if members != [] {
      var tail := members[1..];
      CommentDictFirstWins(tail, key);
      assert forall j :: 1 <= j < |members| ==> members[j] == tail[j - 1];
      if members[0].name == Some(key) {
        assert key in CommentDict(members);
        assert CommentDict(members)[key] == SummaryValue(members[0]);
      } else {
        assert key in CommentDict(members) <==> key in CommentDict(tail);
        if key in CommentDict(tail) {
          var j :| 0 <= j < |tail| && tail[j].name == Some(key);
          assert members[j + 1].name == Some(key);
        }
        forall j | 0 <= j < |members| && members[j].name == Some(key)
                   && (forall q :: 0 <= q < j ==> members[q].name != Some(key))
          ensures CommentDict(members)[key] == SummaryValue(members[j])
        {
          assert j >= 1 && tail[j - 1] == members[j];
          assert forall q :: 0 <= q < j - 1 ==> tail[q].name != Some(key) by {
            forall q | 0 <= q < j - 1 ensures tail[q].name != Some(key) {
              assert tail[q] == members[q + 1];
            }
          }
        }
      }
    }
  }

  // ---------------------------------------------------------------------
  // Subclassing and base chains

  /** A strict subclass has a larger type id; in particular no type is a subclass of itself. */
  lemma {:induction false} SubclassBelow(types: seq<ClrType>, a: TypeId, b: TypeId)
    requires TypesWellFormed(types) && a < |types|
    ensures IsSubclassOf(types, a, b) ==> b < a
    decreases a
  {
    match types[a].baseType
    case None =>
    case Some(p) =>
      if p < |types| { SubclassBelow(types, p, b); }
  }

  /** `IsSubclassOf(a, b)` iff `b` occurs in the base chain of `a` after `a` itself. */
  lemma {:induction false} SubclassIffInChain(types: seq<ClrType>, a: TypeId, b: TypeId)
    requires TypesWellFormed(types) && a < |types|
    ensures IsSubclassOf(types, a, b) <==> b in BaseChain(types, a)[1..]
    decreases a
  {
    match types[a].baseType
    case None =>
    case Some(p) =>
      SubclassIffInChain(types, p, b);
      var c := BaseChain(types, p);
      assert BaseChain(types, a)[1..] == c;
      assert c == [p] + c[1..];
  }

  /** A candidate with the holder the entity already has never replaces its comment. */
  lemma SameHolderKeepsComment(m: Model, d: map<string, Option<string>>, n: EntityComment)
    requires WellFormed(m) && n.entityType < |m.entityTypes|
    requires n.internalComment.Some? && n.internalComment.value.holderType < |m.types|
    requires var c := GetEntityComment(m, d, n.entityType);
             c.Some? ==> c.value.holderType == n.internalComment.value.holderType
    ensures XmlInternalComment(m, d, n) == n.internalComment
  {
    var h := n.internalComment.value.holderType;
    SubclassBelow(m.types, h, h);
  }

  /** An entity and its EF base type share the root, and so the entity comment candidate of every index. */
  lemma BaseSharesRoot(m: Model, d: map<string, Option<string>>, e: EntityId)
    requires WellFormed(m) && e < |m.entityTypes| && m.entityTypes[e].baseType.Some?
    ensures m.entityTypes[e].baseType.value < |m.entityTypes|
    ensures EntityRoot(m, e) == EntityRoot(m, m.entityTypes[e].baseType.value)
    ensures GetEntityComment(m, d, e) == GetEntityComment(m, d, m.entityTypes[e].baseType.value)
  {
    assert EntityWellFormed(m, e);
  }

  /** Entities of one EF hierarchy (same root) get the same candidate from an index. */
  lemma HierarchySharesCandidate(m: Model, d: map<string, Option<string>>, a: EntityId, b: EntityId)
    requires WellFormed(m) && a < |m.entityTypes| && b < |m.entityTypes|
    requires EntityRoot(m, a) == EntityRoot(m, b)
    ensures GetEntityComment(m, d, a) == GetEntityComment(m, d, b)
  {
  }

  // ---------------------------------------------------------------------
  // Member lookup along the base chain

  /** The non-empty entry, if any, of type `t` for the member. */
  function MemberEntry(types: seq<ClrType>, d: map<string, Option<string>>, t: TypeId, member: string): (r: Option<string>)
    requires t < |types|
  {
    DictComment(d, MemberKey(types[t].fullName, member))
  }

  /** Index into `c` of the first type with an entry for the member. */
  predicate FirstEntryAt(types: seq<ClrType>, d: map<string, Option<string>>, c: seq<TypeId>, member: string, j: int)
    requires AllTypes(types, c)
  {
    && 0 <= j < |c|
    && MemberEntry(types, d, c[j], member).Some?
    && forall q :: 0 <= q < j ==> MemberEntry(types, d, c[q], member).None?
  }

  /**
   * GetPropertyComment finds a comment iff some type of the base chain has
   * a non-empty entry for the member, and then returns the entry of the
   * most derived such type.
   */
  lemma {:induction false} PropertyCommentFirstInChain(types: seq<ClrType>, d: map<string, Option<string>>, t: TypeId, member: string)
    requires TypesWellFormed(types) && t < |types|
    ensures GetPropertyComment(types, d, t, member).Some?
            <==> exists j :: 0 <= j < |BaseChain(types, t)| && MemberEntry(types, d, BaseChain(types, t)[j], member).Some?
    ensures forall j :: FirstEntryAt(types, d, BaseChain(types, t), member, j)
                        ==> GetPropertyComment(types, d, t, member) == MemberEntry(types, d, BaseChain(types, t)[j], member)
    decreases t
  {
    var c := BaseChain(types, t);
    if MemberEntry(types, d, t, member).None? && types[t].baseType.Some? {
      var b := types[t].baseType.value;
      PropertyCommentFirstInChain(types, d, b, member);
      ChainStep(types, d, t, member);
    } else if MemberEntry(types, d, t, member).None? {
      assert c == [t];
    } else {
      // The type's own entry is the comment; position 0 witnesses both directions.
      OwnEntryFirst(types, d, t, member);
      assert GetPropertyComment(types, d, t, member).Some?;
      assert MemberEntry(types, d, BaseChain(types, t)[0], member).Some?;
    }
  }

  /** A type with its own entry for the member: that entry is the comment, and it sits at position 0 of the chain. */
  lemma OwnEntryFirst(types: seq<ClrType>, d: map<string, Option<string>>, t: TypeId, member: string)
    requires TypesWellFormed(types) && t < |types|
    requires MemberEntry(types, d, t, member).Some?
    ensures GetPropertyComment(types, d, t, member) == MemberEntry(types, d, t, member)
    ensures 0 < |BaseChain(types, t)| && MemberEntry(types, d, BaseChain(types, t)[0], member).Some?
    ensures FirstEntryAt(types, d, BaseChain(types, t), member, 0)
    ensures forall j :: FirstEntryAt(types, d, BaseChain(types, t), member, j) ==> j == 0
  {
    var c := BaseChain(types, t);
    assert c[0] == t;
  }

  /** Moving from a type without an entry to its base shifts the first entry of the chain by one position. */
  lemma ChainStep(types: seq<ClrType>, d: map<string, Option<string>>, t: TypeId, member: string)
    requires TypesWellFormed(types) && t < |types| && types[t].baseType.Some?
    requires MemberEntry(types, d, t, member).None?
    ensures var c := BaseChain(types, t);
            var cb := BaseChain(types, types[t].baseType.value);
            && ((exists j :: 0 <= j < |c| && MemberEntry(types, d, c[j], member).Some?)
                <==> (exists j :: 0 <= j < |cb| && MemberEntry(types, d, cb[j], member).Some?))
            && forall j :: FirstEntryAt(types, d, c, member, j) ==> FirstEntryAt(types, d, cb, member, j - 1)
  {
    var c := BaseChain(types, t);
    var cb := BaseChain(types, types[t].baseType.value);
    assert c == [t] + cb;
    if exists j :: 0 <= j < |cb| && MemberEntry(types, d, cb[j], member).Some? {
      var j :| 0 <= j < |cb| && MemberEntry(types, d, cb[j], member).Some?;
      assert c[j + 1] == cb[j];
    }
    forall j | FirstEntryAt(types, d, c, member, j) ensures FirstEntryAt(types, d, cb, member, j - 1) {
      assert j >= 1;
      forall q | 0 <= q < j - 1 ensures MemberEntry(types, d, cb[q], member).None? {
        assert cb[q] == c[q + 1];
      }
    }
  }

  // ---------------------------------------------------------------------
  // Assembly enumeration

  function AssembliesOf(types: seq<ClrType>, c: seq<TypeId>): (names: seq<string>)
    requires AllTypes(types, c)
  {
    seq(|c|, j requires 0 <= j < |c| => types[c[j]].assembly)
  }

  /** The reference order: for each type in turn, the assemblies of its whole base chain, most derived first. */
  function AssemblyOrder(types: seq<ClrType>, ts: seq<TypeId>): (names: seq<string>)
    requires TypesWellFormed(types) && AllTypes(types, ts)
    decreases |ts|
  {
    if ts == [] then [] else AssembliesOf(types, BaseChain(types, ts[0])) + AssemblyOrder(types, ts[1..])
  }

  /** For one type, the assemblies enumerated are those of its base chain. */
  lemma {:induction false} TypeAssembliesIsChain(types: seq<ClrType>, t: TypeId)
    requires TypesWellFormed(types) && t < |types|
    ensures TypeAssemblies(types, t) == AssembliesOf(types, BaseChain(types, t))
    decreases t
  {
    match types[t].baseType
    case None =>
      assert BaseChain(types, t) == [t];
    case Some(b) =>
      TypeAssembliesIsChain(types, b);
      assert [b][1..] == [];
      assert EnumerateAssemblies(types, [b]) == TypeAssemblies(types, b) + EnumerateAssemblies(types, []);
      var cb := BaseChain(types, b);
      assert BaseChain(types, t) == [t] + cb;
      assert AssembliesOf(types, [t] + cb) == [types[t].assembly] + AssembliesOf(types, cb);
  }

  lemma {:induction false} EnumerateAssembliesIsChainOrder(types: seq<ClrType>, ts: seq<TypeId>)
    requires TypesWellFormed(types) && AllTypes(types, ts)
    ensures EnumerateAssemblies(types, ts) == AssemblyOrder(types, ts)
    decreases |ts|
  {
    if ts != [] {
      TypeAssembliesIsChain(types, ts[0]);
      EnumerateAssembliesIsChainOrder(types, ts[1..]);
    }
  }

  // ---------------------------------------------------------------------
  // Which documentation index decides an entity's comment

  /** One step of the XML pass: node `i` after one more assembly. */
  lemma XmlFillFromStep(m: Model, files: DocumentationFiles, assemblies: seq<string>, tree: seq<EntityComment>, i: nat)
    requires TreeValid(m, tree) && i < |tree| && assemblies != []
    ensures var t := XmlFillFrom(m, files, assemblies[..|assemblies| - 1], tree);
            && i < |t| && t[i].entityType == i && i < |m.entityTypes|
            && XmlFillFrom(m, files, assemblies, tree)[i]
               == match IndexAt(files, assemblies[|assemblies| - 1])
                  case None => t[i]
                  case Some(d) => XmlEntityComment(m, d, t[i])
  {
    var t := XmlFillFrom(m, files, assemblies[..|assemblies| - 1], tree);
    assert NodeMatches(m.entityTypes[i], i, t[i]);
  }

  /** The entity comment one assembly's documentation offers, if its file exists and has members. */
  function EntityCandidate(m: Model, files: DocumentationFiles, assembly: string, e: EntityId): (r: Option<CommentFromType>)
    requires WellFormed(m) && e < |m.entityTypes|
  {
    match IndexAt(files, assembly)
    case None => None
    case Some(d) => GetEntityComment(m, d, e)
  }

  /** `j` is the first assembly whose documentation offers a comment for entity `e`. */
  predicate FirstOfferAt(m: Model, files: DocumentationFiles, assemblies: seq<string>, e: EntityId, j: int)
    requires WellFormed(m) && e < |m.entityTypes|
  {
    && 0 <= j < |assemblies|
    && EntityCandidate(m, files, assemblies[j], e).Some?
    && forall q :: 0 <= q < j ==> EntityCandidate(m, files, assemblies[q], e).None?
  }

  /** Once an entity has a comment held by its root type, an index keeps it; without one, the index's offer is taken. */
  lemma InternalCommentStep(m: Model, files: DocumentationFiles, assembly: string, n: EntityComment)
    requires WellFormed(m) && n.entityType < |m.entityTypes|
    requires n.internalComment.Some? ==> n.internalComment.value.holderType == m.entityTypes[EntityRoot(m, n.entityType)].clrType
    ensures var r := match IndexAt(files, assembly)
                     case None => n
                     case Some(d) => XmlEntityComment(m, d, n);
            r.internalComment == if n.internalComment.Some? then n.internalComment else EntityCandidate(m, files, assembly, n.entityType)
  {
    match IndexAt(files, assembly)
    case None =>
    case Some(d) =>
      if n.internalComment.Some? {
        assert EntityWellFormed(m, EntityRoot(m, n.entityType));
        SameHolderKeepsComment(m, d, n);
      }
  }

  /** The entity's comment after the XML pass, one assembly at a time: kept once set, otherwise the assembly's offer. */
  lemma {:induction false} XmlEntityCommentStep(m: Model, files: DocumentationFiles, assemblies: seq<string>, tree: seq<EntityComment>, i: nat)
    requires TreeValid(m, tree) && i < |tree| && tree[i].internalComment.None?
    ensures i < |m.entityTypes|
    ensures var r := XmlFillFrom(m, files, assemblies, tree)[i].internalComment;
            && (r.Some? ==> r.value.holderType == m.entityTypes[EntityRoot(m, i)].clrType)
            && (assemblies == [] ==> r.None?)
            && (assemblies != [] ==>
                  var p := XmlFillFrom(m, files, assemblies[..|assemblies| - 1], tree)[i].internalComment;
                  r == if p.Some? then p else EntityCandidate(m, files, assemblies[|assemblies| - 1], i))
    decreases |assemblies|
  {
    assert NodeMatches(m.entityTypes[i], i, tree[i]);
    if assemblies != [] {
      var n := |assemblies| - 1;
      XmlEntityCommentStep(m, files, assemblies[..n], tree, i);
      XmlFillFromStep(m, files, assemblies, tree, i);
      var t := XmlFillFrom(m, files, assemblies[..n], tree);
      InternalCommentStep(m, files, assemblies[n], t[i]);
    }
  }

  /** The first present value of a sequence of offers, as a fold that keeps a value once it has one. */
  function FirstOffer<T>(offers: seq<Option<T>>): (r: Option<T>)
    decreases |offers|
  {
    if offers == [] then None
    else
      var p := FirstOffer(offers[..|offers| - 1]);
      if p.Some? then p else offers[|offers| - 1]
  }

  lemma {:induction false} FirstOfferIsFirst<T>(offers: seq<Option<T>>)
    ensures FirstOffer(offers).Some? <==> exists j :: 0 <= j < |offers| && offers[j].Some?
    ensures forall j :: 0 <= j < |offers| && offers[j].Some? && (forall q :: 0 <= q < j ==> offers[q].None?)
                        ==> FirstOffer(offers) == offers[j]
    decreases |offers|
  {
    if offers != [] {
      var n := |offers| - 1;
      var prefix := offers[..n];
      FirstOfferIsFirst(prefix);
      if FirstOffer(prefix).Some? {
        var j0 :| 0 <= j0 < n && prefix[j0].Some?;
        assert offers[j0].Some?;
        forall j | 0 <= j < |offers| && offers[j].Some? && (forall q :: 0 <= q < j ==> offers[q].None?)
          ensures FirstOffer(offers) == offers[j]
        {
          assert j <= j0;
          assert prefix[j] == offers[j];
          assert forall q :: 0 <= q < j ==> prefix[q].None?;
        }
      } else {
        forall j | 0 <= j < n ensures offers[j].None? {
          assert prefix[j] == offers[j];
        }
      }
    }
  }

  /** What each assembly's documentation offers entity `e`, in enumeration order. */
  function EntityOffers(m: Model, files: DocumentationFiles, assemblies: seq<string>, e: EntityId): (r: seq<Option<CommentFromType>>)
    requires WellFormed(m) && e < |m.entityTypes|
    ensures |r| == |assemblies|
  {
    seq(|assemblies|, j requires 0 <= j < |assemblies| => EntityCandidate(m, files, assemblies[j], e))
  }

  lemma {:induction false} XmlEntityCommentIsFirstOffer(m: Model, files: DocumentationFiles, assemblies: seq<string>, tree: seq<EntityComment>, i: nat)
    requires TreeValid(m, tree) && i < |tree| && tree[i].internalComment.None?
    ensures i < |m.entityTypes|
    ensures XmlFillFrom(m, files, assemblies, tree)[i].internalComment == FirstOffer(EntityOffers(m, files, assemblies, i))
    decreases |assemblies|
  {
    XmlEntityCommentStep(m, files, assemblies, tree, i);
    if assemblies != [] {
      var n := |assemblies| - 1;
      XmlEntityCommentIsFirstOffer(m, files, assemblies[..n], tree, i);
      assert EntityOffers(m, files, assemblies, i)[..n] == EntityOffers(m, files, assemblies[..n], i);
    }
  }

  /**
   * Starting without a comment, an entity ends up with a comment iff some
   * index offers one, and it is the one offered by the first such index:
   * later indexes offer the same holder (the root of the entity's base
   * chain), which is never a strict subclass of itself.
   */
  lemma XmlFirstIndexWins(m: Model, files: DocumentationFiles, assemblies: seq<string>, tree: seq<EntityComment>, i: nat)
    requires TreeValid(m, tree) && i < |tree| && tree[i].internalComment.None?
    ensures i < |m.entityTypes|
    ensures var r := XmlFillFrom(m, files, assemblies, tree)[i].internalComment;
            r.Some? <==> exists j :: 0 <= j < |assemblies| && EntityCandidate(m, files, assemblies[j], i).Some?
    ensures var r := XmlFillFrom(m, files, assemblies, tree)[i].internalComment;
            forall j :: FirstOfferAt(m, files, assemblies, i, j) ==> r == EntityCandidate(m, files, assemblies[j], i)
  {
    XmlEntityCommentIsFirstOffer(m, files, assemblies, tree, i);
    var offers := EntityOffers(m, files, assemblies, i);
    FirstOfferIsFirst(offers);
    assert forall j :: 0 <= j < |assemblies| ==> offers[j] == EntityCandidate(m, files, assemblies[j], i);
  }

  // ---------------------------------------------------------------------
  // Which documentation index decides a member's comment

  /** The member comment one assembly's documentation offers, looked up from type `clr` along its base chain. */
  function MemberCandidate(types: seq<ClrType>, files: DocumentationFiles, assembly: string, clr: TypeId, member: string): (r: Option<string>)
    requires TypesWellFormed(types) && clr < |types|
  {
    match IndexAt(files, assembly)
    case None => None
    case Some(d) => GetPropertyComment(types, d, clr, member)
  }

  /** A member's comment after the indexes of the assemblies, in order, starting from `init`: each offer overwrites. */
  function MemberAfter(types: seq<ClrType>, files: DocumentationFiles, assemblies: seq<string>, clr: TypeId, member: string, init: Option<string>): (r: Option<string>)
    requires TypesWellFormed(types) && clr < |types|
    decreases |assemblies|
  {
    if assemblies == [] then init
    else
      var c := MemberCandidate(types, files, assemblies[|assemblies| - 1], clr, member);
      if c.Some? then c else MemberAfter(types, files, assemblies[..|assemblies| - 1], clr, member, init)
  }

  /** `q` is the last assembly whose documentation offers a comment for the member. */
  predicate LastOfferAt(types: seq<ClrType>, files: DocumentationFiles, assemblies: seq<string>, clr: TypeId, member: string, q: int)
    requires TypesWellFormed(types) && clr < |types|
  {
    && 0 <= q < |assemblies|
    && MemberCandidate(types, files, assemblies[q], clr, member).Some?
    && forall q2 :: q < q2 < |assemblies| ==> MemberCandidate(types, files, assemblies[q2], clr, member).None?
  }

  /** The XML pass gives each property the comment `MemberAfter` computes for its name. */
  lemma {:induction false} XmlPropertyComment(m: Model, files: DocumentationFiles, assemblies: seq<string>, tree: seq<EntityComment>, i: nat, j: nat)
    requires TreeValid(m, tree) && i < |tree| && j < |tree[i].properties|
    ensures m.entityTypes[i].clrType < |m.types|
    ensures XmlFillFrom(m, files, assemblies, tree)[i].properties[j].comment
            == MemberAfter(m.types, files, assemblies, m.entityTypes[i].clrType, tree[i].properties[j].property.name, tree[i].properties[j].comment)
    decreases |assemblies|
  {
    assert NodeMatches(m.entityTypes[i], i, tree[i]) && EntityWellFormed(m, i);
    if assemblies != [] {
      var prefix := assemblies[..|assemblies| - 1];
      XmlPropertyComment(m, files, prefix, tree, i, j);
      XmlFillFromStep(m, files, assemblies, tree, i);
      var t := XmlFillFrom(m, files, prefix, tree);
      assert SameMembers(tree[i], t[i]);
    }
  }

  /** The XML pass gives each navigation the comment `MemberAfter` computes for its name. */
  lemma {:induction false} XmlNavigationComment(m: Model, files: DocumentationFiles, assemblies: seq<string>, tree: seq<EntityComment>, i: nat, k: nat)
    requires TreeValid(m, tree) && i < |tree| && k < |tree[i].navigations|
    ensures m.entityTypes[i].clrType < |m.types|
    ensures XmlFillFrom(m, files, assemblies, tree)[i].navigations[k].comment
            == MemberAfter(m.types, files, assemblies, m.entityTypes[i].clrType, tree[i].navigations[k].navigation.name, tree[i].navigations[k].comment)
    decreases |assemblies|
  {
    assert NodeMatches(m.entityTypes[i], i, tree[i]) && EntityWellFormed(m, i);
    if assemblies != [] {
      var prefix := assemblies[..|assemblies| - 1];
      XmlNavigationComment(m, files, prefix, tree, i, k);
      XmlFillFromStep(m, files, assemblies, tree, i);
      var t := XmlFillFrom(m, files, prefix, tree);
      assert SameMembers(tree[i], t[i]);
    }
  }

  /** A member keeps its initial comment when no index offers one, and otherwise takes the offer of the last index that has one. */
  lemma MemberLastIndexWins(types: seq<ClrType>, files: DocumentationFiles, assemblies: seq<string>, clr: TypeId, member: string, init: Option<string>)
    requires TypesWellFormed(types) && clr < |types|
    ensures (forall q :: 0 <= q < |assemblies| ==> MemberCandidate(types, files, assemblies[q], clr, member).None?)
            ==> MemberAfter(types, files, assemblies, clr, member, init) == init
    ensures forall q :: LastOfferAt(types, files, assemblies, clr, member, q)
                        ==> MemberAfter(types, files, assemblies, clr, member, init) == MemberCandidate(types, files, assemblies[q], clr, member)
  {
    if (forall q :: 0 <= q < |assemblies| ==> MemberCandidate(types, files, assemblies[q], clr, member).None?) {
      MemberNoOfferKeeps(types, files, assemblies, clr, member, init);
    }
    forall q | LastOfferAt(types, files, assemblies, clr, member, q)
      ensures MemberAfter(types, files, assemblies, clr, member, init) == MemberCandidate(types, files, assemblies[q], clr, member)
    {
      MemberLastOfferWins(types, files, assemblies, clr, member, init, q);
    }
  }

  /** Without any offer, a member keeps its initial comment. */
  lemma {:induction false} MemberNoOfferKeeps(types: seq<ClrType>, files: DocumentationFiles, assemblies: seq<string>, clr: TypeId, member: string, init: Option<string>)
    requires TypesWellFormed(types) && clr < |types|
    requires forall q :: 0 <= q < |assemblies| ==> MemberCandidate(types, files, assemblies[q], clr, member).None?
    ensures MemberAfter(types, files, assemblies, clr, member, init) == init
    decreases |assemblies|
  {
    if assemblies != [] {
      var prefix := assemblies[..|assemblies| - 1];
      forall q | 0 <= q < |prefix| ensures MemberCandidate(types, files, prefix[q], clr, member).None? {
        assert prefix[q] == assemblies[q];
      }
      MemberNoOfferKeeps(types, files, prefix, clr, member, init);
    }
  }

  /** The offer of the last index that has one is the member's comment. */
  lemma {:induction false} MemberLastOfferWins(types: seq<ClrType>, files: DocumentationFiles, assemblies: seq<string>, clr: TypeId, member: string, init: Option<string>, q: int)
    requires TypesWellFormed(types) && clr < |types|
    requires LastOfferAt(types, files, assemblies, clr, member, q)
    ensures MemberAfter(types, files, assemblies, clr, member, init) == MemberCandidate(types, files, assemblies[q], clr, member)
    decreases |assemblies|
  {
    var n := |assemblies| - 1;
    if q < n {
      var prefix := assemblies[..n];
      assert prefix[q] == assemblies[q];
      forall q2 | q < q2 < n ensures MemberCandidate(types, files, prefix[q2], clr, member).None? {
        assert prefix[q2] == assemblies[q2];
      }
      assert MemberCandidate(types, files, assemblies[n], clr, member).None?;
      MemberLastOfferWins(types, files, prefix, clr, member, init, q);
    }
  }

  // ---------------------------------------------------------------------
  // Description comments after XML comments

  /** With descriptions enabled, an entity whose CLR type has a description takes it (holder: its own type); otherwise the XML result stays. */
  lemma DescriptionOverridesEntity(m: Model, files: DocumentationFiles, xml: bool, i: nat)
    requires WellFormed(m) && i < |m.entityTypes|
    ensures m.entityTypes[i].clrType < |m.types|
    ensures var clr := m.entityTypes[i].clrType;
            var r := Resolve(m, files, xml, true)[i].internalComment;
            match m.types[clr].description
            case Some(text) => r == Some(CommentFromType(text, clr))
            case None => r == Resolve(m, files, xml, false)[i].internalComment
  {
    assert EntityWellFormed(m, i);
    var before := Resolve(m, files, xml, false);
    assert NodeMatches(m.entityTypes[i], i, before[i]);
  }

  /** With descriptions enabled, a non-shadow property with a description takes it; any other property keeps the XML result. */
  lemma DescriptionOverridesProperty(m: Model, files: DocumentationFiles, xml: bool, i: nat, j: nat)
    requires WellFormed(m) && i < |m.entityTypes| && j < |m.entityTypes[i].properties|
    ensures var p := m.entityTypes[i].properties[j];
            var r := Resolve(m, files, xml, true)[i];
            j < |r.properties|
            && (!p.isShadow && p.description.Some? ==> r.properties[j].comment == p.description)
            && (p.isShadow || p.description.None? ==> r.properties[j].comment == Resolve(m, files, xml, false)[i].properties[j].comment)
  {
    var before := Resolve(m, files, xml, false);
    var after := Resolve(m, files, xml, true);
    assert NodeMatches(m.entityTypes[i], i, before[i]);
    assert NodeMatches(m.entityTypes[i], i, after[i]);
  }

  /** The description pass never changes a navigation's comment. */
  lemma DescriptionKeepsNavigations(m: Model, files: DocumentationFiles, xml: bool, i: nat)
    requires WellFormed(m) && i < |m.entityTypes|
    ensures Resolve(m, files, xml, true)[i].navigations == Resolve(m, files, xml, false)[i].navigations
  {
    var before := Resolve(m, files, xml, false);
    assert NodeMatches(m.entityTypes[i], i, before[i]);
  }

  // ---------------------------------------------------------------------
  // Configuration

  /** A configuration setting is given by calls in order: its last setter wins. */
  lemma {:induction false} XmlEnabledIffCalled(calls: seq<ConfigurationCall>)
    ensures ConfigureAll(calls).enableXmlComments == if WithXmlComments in calls then Some(true) else None
    decreases |calls|
  {
    if calls != [] {
      var n := |calls| - 1;
      XmlEnabledIffCalled(calls[..n]);
      assert calls == calls[..n] + [calls[n]];
    }
  }

  lemma {:induction false} DescriptionEnabledIffCalled(calls: seq<ConfigurationCall>)
    ensures ConfigureAll(calls).enableDescriptionComments == if WithDescriptionComments in calls then Some(true) else None
    decreases |calls|
  {
    if calls != [] {
      var n := |calls| - 1;
      DescriptionEnabledIffCalled(calls[..n]);
      assert calls == calls[..n] + [calls[n]];
    }
  }

  /** `j` is the last `WithDiscriminatorComment` call. */
  predicate LastDiscriminatorCallAt(calls: seq<ConfigurationCall>, j: int) {
    && 0 <= j < |calls|
    && calls[j].WithDiscriminatorComment?
    && forall q :: j < q < |calls| ==> !calls[q].WithDiscriminatorComment?
  }

  /** The discriminator text is the value of the last `WithDiscriminatorComment` call, or "Discriminator" without one. */
  lemma {:induction false} DiscriminatorFromCalls(calls: seq<ConfigurationCall>)
    ensures (forall j :: 0 <= j < |calls| ==> !calls[j].WithDiscriminatorComment?)
            ==> DiscriminatorText(ConfigureAll(calls)) == DefaultDiscriminatorComment
    ensures forall j :: LastDiscriminatorCallAt(calls, j) ==> DiscriminatorText(ConfigureAll(calls)) == calls[j].value
    decreases |calls|
  {
    if calls != [] {
      var n := |calls| - 1;
      var prefix := calls[..n];
      DiscriminatorFromCalls(prefix);
      if !calls[n].WithDiscriminatorComment? {
        assert DiscriminatorText(ConfigureAll(calls)) == DiscriminatorText(ConfigureAll(prefix));
        forall j | 0 <= j < n ensures prefix[j] == calls[j] { }
        forall j | LastDiscriminatorCallAt(calls, j) ensures LastDiscriminatorCallAt(prefix, j) { }
      }
    }
  }
}
