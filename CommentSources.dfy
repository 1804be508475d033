/**
 * The pure parts of CommentModelBuilder.cs: the configuration the fluent
 * setters build, the dictionary made from one XML documentation file, the
 * lookups of entity and member comments in it, the enumeration of the
 * assemblies whose documentation is read, and what one documentation
 * index and the description attributes do to the comment tree.
 */
module CommentSources {
  import opened Wrappers
  import opened EfMetadata
  import opened CommentTree

  // ---------------------------------------------------------------------
  // Configuration

  const DefaultDiscriminatorComment: string := "Discriminator"

  /** The builder's private fields; the `bool?` flags are only ever set to `true`. */
  datatype Configuration = Configuration(
    discriminatorComment: Option<string>,
    enableXmlComments: Option<bool>,
    enableDescriptionComments: Option<bool>)

  /** A call of one of the fluent `With*` setters. */
  datatype ConfigurationCall =
    | WithDiscriminatorComment(value: string)
    | WithXmlComments
    | WithDescriptionComments

  /** One setter call sets its own setting and leaves the other two. */
  function Configure(c: Configuration, call: ConfigurationCall): (r: Configuration)
    ensures r.discriminatorComment == if call.WithDiscriminatorComment? then Some(call.value) else c.discriminatorComment
    ensures r.enableXmlComments == if call.WithXmlComments? then Some(true) else c.enableXmlComments
    ensures r.enableDescriptionComments == if call.WithDescriptionComments? then Some(true) else c.enableDescriptionComments
  {
    match call
    case WithDiscriminatorComment(v) => c.(discriminatorComment := Some(v))
    case WithXmlComments => c.(enableXmlComments := Some(true))
    case WithDescriptionComments => c.(enableDescriptionComments := Some(true))
  }

  /** The configuration of a fresh builder after the calls, in order. */
  function ConfigureAll(calls: seq<ConfigurationCall>): (r: Configuration)
    ensures r.enableXmlComments != Some(false) && r.enableDescriptionComments != Some(false)
    decreases |calls|
  {
    if calls == [] then Configuration(None, None, None)
    else Configure(ConfigureAll(calls[..|calls| - 1]), calls[|calls| - 1])
  }

  /** The discriminator text `Build` passes to the comment model. */
  function DiscriminatorText(c: Configuration): (r: string)
    ensures c.discriminatorComment.None? ==> r == DefaultDiscriminatorComment
    ensures c.discriminatorComment.Some? ==> r == c.discriminatorComment.value
  {
    match c.discriminatorComment
    case None => DefaultDiscriminatorComment
    case Some(v) => v
  }

  // ---------------------------------------------------------------------
  // XML documentation

  /** One `member` element: its `name` attribute and the text of its `summary` element, when present. */
  datatype XmlMember = XmlMember(name: Option<string>, summary: Option<string>)

  /** A loaded documentation file; `members` is absent when the file has no `doc/members` element. */
  datatype XmlDocument = XmlDocument(members: Option<seq<XmlMember>>)

  /** The documentation files present in the application's base directory, by assembly name. */
  type DocumentationFiles = map<string, XmlDocument>

  predicate IsWhiteSpace(c: char) {
    c == ' ' || c == '\t' || c == '\n' || c == '\r'
  }

  /** `s` without its leading white space: what is dropped is all white space, and what remains does not start with any. */
  function TrimStart(s: string): (r: string)
    ensures |r| <= |s| && r == s[|s| - |r|..]
    ensures forall j :: 0 <= j < |s| - |r| ==> IsWhiteSpace(s[j])
    ensures r == [] || !IsWhiteSpace(r[0])
    decreases |s|
  {
    if s != [] && IsWhiteSpace(s[0]) then TrimStart(s[1..]) else s
  }

  /** `s` without its trailing white space: what is dropped is all white space, and what remains does not end with any. */
  function TrimEnd(s: string): (r: string)
    ensures |r| <= |s| && r == s[..|r|]
    ensures forall j :: |r| <= j < |s| ==> IsWhiteSpace(s[j])
    ensures r == [] || !IsWhiteSpace(r[|r| - 1])
    decreases |s|
  {
    if s != [] && IsWhiteSpace(s[|s| - 1]) then TrimEnd(s[..|s| - 1]) else s
  }

  /**
   * `string.Trim`, for the white-space characters space, tab, line feed and
   * carriage return: `r` is the slice of `s` at `TrimOffset(s)`, everything
   * before and after it is white space, and it neither starts nor ends with
   * white space.
   */
  function Trim(s: string): (r: string)
    ensures TrimOffset(s) + |r| <= |s| && r == s[TrimOffset(s)..TrimOffset(s) + |r|]
    ensures forall j :: 0 <= j < TrimOffset(s) ==> IsWhiteSpace(s[j])
    ensures forall j :: TrimOffset(s) + |r| <= j < |s| ==> IsWhiteSpace(s[j])
    ensures r == [] || (!IsWhiteSpace(r[0]) && !IsWhiteSpace(r[|r| - 1]))
  {
    var t := TrimStart(s);
    var r := TrimEnd(t);
    TrimSlice(s, t, r);
    r
  }

  /** Trimming the end of the trimmed start leaves a slice of `s` with white space on both sides of it. */
  lemma TrimSlice(s: string, t: string, r: string)
    requires |t| <= |s| && t == s[|s| - |t|..] && (t == [] || !IsWhiteSpace(t[0]))
    requires |r| <= |t| && r == t[..|r|]
    requires forall j :: |r| <= j < |t| ==> IsWhiteSpace(t[j])
    ensures |s| - |t| + |r| <= |s| && r == s[|s| - |t|..|s| - |t| + |r|]
    ensures forall j :: |s| - |t| + |r| <= j < |s| ==> IsWhiteSpace(s[j])
    ensures r == [] || !IsWhiteSpace(r[0])
  {
    var o := |s| - |t|;
    forall j | o + |r| <= j < |s| ensures IsWhiteSpace(s[j]) {
      assert s[j] == t[j - o];
    }
    if r != [] {
      assert r[0] == t[0];
    }
  }

  /** The number of leading white-space characters `Trim` drops. */
  function TrimOffset(s: string): (n: nat)
    ensures n <= |s|
  {
    |s| - |TrimStart(s)|
  }

  /** The dictionary value of a member: its trimmed summary, or null without a summary. */
  function SummaryValue(x: XmlMember): (r: Option<string>)
    ensures r.Some? <==> x.summary.Some?
    ensures r.Some? ==> r.value == Trim(x.summary.value)
    ensures r.Some? ==> |r.value| <= |x.summary.value| && (r.value == [] || !IsWhiteSpace(r.value[0]))
  {
    match x.summary
    case None => None
    case Some(t) => Some(Trim(t))
  }

  /** The comment dictionary of one file, grouped by name; entries without a name are dropped. */
  function CommentDict(members: seq<XmlMember>): (r: map<string, Option<string>>)
    decreases |members|
  {
    if members == [] then map[]
    else
      var rest := CommentDict(members[1..]);
      match members[0].name
      case None => rest
      case Some(n) => rest[n := SummaryValue(members[0])]
  }

  /** `TryGetValue` followed by the `IsNullOrEmpty` test: a non-empty text, or nothing. */
  function DictComment(d: map<string, Option<string>>, key: string): (r: Option<string>)
    ensures r.Some? <==> key in d && !IsNullOrEmpty(d[key])
    ensures r.Some? ==> r == d[key]
  {
    if key in d && !IsNullOrEmpty(d[key]) then d[key] else None
  }

  function TypeKey(fullName: string): (k: string) {
    "T:" + fullName
  }

  function MemberKey(fullName: string, member: string): (k: string) {
    "P:" + fullName + "." + member
  }

  /** The entity type at the top of the EF base chain of `e`. */
  function EntityRoot(m: Model, e: EntityId): (r: EntityId)
    requires WellFormed(m) && e < |m.entityTypes|
    ensures r < |m.entityTypes| && m.entityTypes[r].baseType.None?
    ensures m.entityTypes[e].baseType.None? ==> r == e
    ensures r == e || m.entityTypes[r].clrType < m.entityTypes[e].clrType
    decreases m.entityTypes[e].clrType
  {
    assert EntityWellFormed(m, e);
    match m.entityTypes[e].baseType
    case None => e
    case Some(b) => EntityRoot(m, b)
  }

  /**
   * GetEntityComment: only the `T:` entry of the root of the entity's EF
   * base chain is consulted; a non-empty text there comes back with the
   * root's CLR type as its holder.
   */
  function GetEntityComment(m: Model, d: map<string, Option<string>>, e: EntityId): (r: Option<CommentFromType>)
    requires WellFormed(m) && e < |m.entityTypes|
    ensures var root := m.entityTypes[EntityRoot(m, e)].clrType;
            root < |m.types|
            && r == match DictComment(d, TypeKey(m.types[root].fullName))
                    case None => None
                    case Some(text) => Some(CommentFromType(text, root))
    decreases m.entityTypes[e].clrType
  {
    assert EntityWellFormed(m, e);
    match m.entityTypes[e].baseType
    case Some(b) => GetEntityComment(m, d, b)
    case None =>
      var clr := m.entityTypes[e].clrType;
      match DictComment(d, TypeKey(m.types[clr].fullName))
      case None => None
      case Some(text) => Some(CommentFromType(text, clr))
  }

  /** GetPropertyComment: the first non-empty `P:` entry for `member`, starting at type `t` and walking its base types. */
  function GetPropertyComment(types: seq<ClrType>, d: map<string, Option<string>>, t: TypeId, member: string): (r: Option<string>)
    requires TypesWellFormed(types) && t < |types|
    ensures r.Some? ==> r.value != ""
    decreases t
  {
    var c := DictComment(d, MemberKey(types[t].fullName, member));
    if c.Some? then c
    else match types[t].baseType
      case None => None
      case Some(b) => GetPropertyComment(types, d, b, member)
  }

  function IdSum(ts: seq<TypeId>): (n: nat)
    decreases |ts|
  {
    if ts == [] then 0 else ts[0] + 1 + IdSum(ts[1..])
  }

  predicate AllTypes(types: seq<ClrType>, ts: seq<TypeId>) {
    forall j :: 0 <= j < |ts| ==> ts[j] < |types|
  }

  /** EnumerateAssemblies: for each type in turn, what `TypeAssemblies` yields for it; duplicates are kept. */
  function EnumerateAssemblies(types: seq<ClrType>, ts: seq<TypeId>): (r: seq<string>)
    requires TypesWellFormed(types) && AllTypes(types, ts)
    ensures |r| >= |ts|
    ensures forall j :: 0 <= j < |ts| ==> types[ts[j]].assembly in r
    decreases IdSum(ts), 1
  {
    if ts == [] then []
    else
      assert IdSum(ts) == ts[0] + 1 + IdSum(ts[1..]);
      TypeAssemblies(types, ts[0]) + EnumerateAssemblies(types, ts[1..])
  }

  /** The loop body of EnumerateAssemblies: the type's assembly, then the enumeration of its base type alone. */
  function TypeAssemblies(types: seq<ClrType>, t: TypeId): (r: seq<string>)
    requires TypesWellFormed(types) && t < |types|
    ensures |r| >= 1 && r[0] == types[t].assembly
    ensures types[t].baseType.Some? ==> |r| >= 2 && r[1] == types[types[t].baseType.value].assembly
    decreases t + 1, 0
  {
    [types[t].assembly]
    + match types[t].baseType
      case None => []
      case Some(b) =>
        assert IdSum([b]) == b + 1 + IdSum([b][1..]) && [b][1..] == [];
        EnumerateAssemblies(types, [b])
  }

  lemma NodeTypesInRange(m: Model, tree: seq<EntityComment>)
    requires TreeValid(m, tree)
    ensures forall i :: 0 <= i < |tree| ==>
      tree[i].entityType < |m.entityTypes| && m.entityTypes[tree[i].entityType].clrType < |m.types|
  {
    forall i | 0 <= i < |tree|
      ensures tree[i].entityType < |m.entityTypes| && m.entityTypes[tree[i].entityType].clrType < |m.types|
    {
      assert NodeMatches(m.entityTypes[i], i, tree[i]) && EntityWellFormed(m, i);
    }
  }

  /** The CLR types of the tree's entities, in tree order. */
  function EntityClrTypes(m: Model, tree: seq<EntityComment>): (ts: seq<TypeId>)
    requires TreeValid(m, tree)
    ensures |ts| == |tree| && AllTypes(m.types, ts)
    ensures forall i :: 0 <= i < |tree| ==> ts[i] == m.entityTypes[i].clrType
  {
    NodeTypesInRange(m, tree);
    seq(|tree|, i requires 0 <= i < |tree| => m.entityTypes[tree[i].entityType].clrType)
  }

  /** The comment dictionary of the assembly's documentation file, when the file exists and has `doc/members`. */
  function IndexAt(files: DocumentationFiles, assembly: string): (r: Option<map<string, Option<string>>>)
    ensures r.Some? <==> assembly in files && files[assembly].members.Some?
    ensures r.Some? ==> r.value == CommentDict(files[assembly].members.value)
  {
    if assembly in files && files[assembly].members.Some? then Some(CommentDict(files[assembly].members.value))
    else None
  }

  // ---------------------------------------------------------------------
  // One documentation index applied to the tree

  /** A member node from one index: a found comment overwrites, none leaves the node as it was. */
  function FillMember(types: seq<ClrType>, d: map<string, Option<string>>, clr: TypeId, member: string, current: Option<string>): (r: Option<string>)
    requires TypesWellFormed(types) && clr < |types|
    ensures r == current || (r.Some? && r.value != "")
    ensures GetPropertyComment(types, d, clr, member).None? ==> r == current
    ensures GetPropertyComment(types, d, clr, member).Some? ==> r == GetPropertyComment(types, d, clr, member)
  {
    var c := GetPropertyComment(types, d, clr, member);
    if c.Some? then c else current
  }

  function XmlProperty(types: seq<ClrType>, d: map<string, Option<string>>, clr: TypeId, p: PropertyComment): (r: PropertyComment)
    requires TypesWellFormed(types) && clr < |types|
    ensures r.property == p.property
    ensures r.comment == FillMember(types, d, clr, p.property.name, p.comment)
  {
    p.(comment := FillMember(types, d, clr, p.property.name, p.comment))
  }

  function XmlNavigation(types: seq<ClrType>, d: map<string, Option<string>>, clr: TypeId, n: NavigationComment): (r: NavigationComment)
    requires TypesWellFormed(types) && clr < |types|
    ensures r.navigation == n.navigation
    ensures r.comment == FillMember(types, d, clr, n.navigation.name, n.comment)
  {
    n.(comment := FillMember(types, d, clr, n.navigation.name, n.comment))
  }

  /** The entity's candidate replaces its comment when it has none, or when the candidate's holder is a strict subclass of the current one. */
  function XmlInternalComment(m: Model, d: map<string, Option<string>>, n: EntityComment): (r: Option<CommentFromType>)
    requires WellFormed(m) && n.entityType < |m.entityTypes|
    ensures r == n.internalComment || r == GetEntityComment(m, d, n.entityType)
    ensures n.internalComment.None? ==> r == GetEntityComment(m, d, n.entityType)
    ensures n.internalComment.Some? ==> r.Some?
    ensures r != n.internalComment ==>
      && GetEntityComment(m, d, n.entityType).Some?
      && (n.internalComment.None?
          || (n.internalComment.value.holderType < |m.types|
              && IsSubclassOf(m.types, GetEntityComment(m, d, n.entityType).value.holderType, n.internalComment.value.holderType)))
    ensures && GetEntityComment(m, d, n.entityType).Some?
            && n.internalComment.Some?
            && n.internalComment.value.holderType < |m.types|
            && IsSubclassOf(m.types, GetEntityComment(m, d, n.entityType).value.holderType, n.internalComment.value.holderType)
            ==> r == GetEntityComment(m, d, n.entityType)
  {
    var candidate := GetEntityComment(m, d, n.entityType);
    if candidate.Some?
       && (n.internalComment.None?
           || (n.internalComment.value.holderType < |m.types|
               && IsSubclassOf(m.types, candidate.value.holderType, n.internalComment.value.holderType)))
    then candidate
    else n.internalComment
  }

  /** One entity node after one documentation index; shadow properties are not skipped. */
  function XmlEntityComment(m: Model, d: map<string, Option<string>>, n: EntityComment): (r: EntityComment)
    requires WellFormed(m) && n.entityType < |m.entityTypes|
    ensures SameMembers(n, r)
  {
    assert EntityWellFormed(m, n.entityType);
    var clr := m.entityTypes[n.entityType].clrType;
    EntityComment(
      n.entityType,
      XmlInternalComment(m, d, n),
      seq(|n.properties|, j requires 0 <= j < |n.properties| => XmlProperty(m.types, d, clr, n.properties[j])),
      seq(|n.navigations|, k requires 0 <= k < |n.navigations| => XmlNavigation(m.types, d, clr, n.navigations[k])))
  }

  function XmlFillIndex(m: Model, d: map<string, Option<string>>, tree: seq<EntityComment>): (r: seq<EntityComment>)
    requires TreeValid(m, tree)
    ensures SameShape(tree, r) && TreeValid(m, r)
  {
    var r := seq(|tree|, i requires 0 <= i < |tree| =>
      assert NodeMatches(m.entityTypes[i], i, tree[i]);
      XmlEntityComment(m, d, tree[i]));
    SameShapeKeepsValid(m, tree, r);
    r
  }

  /** The tree after the indexes of the assemblies, in order; a missing file or one without `doc/members` is skipped. */
  function XmlFillFrom(m: Model, files: DocumentationFiles, assemblies: seq<string>, tree: seq<EntityComment>): (r: seq<EntityComment>)
    requires TreeValid(m, tree)
    ensures SameShape(tree, r) && TreeValid(m, r)
    decreases |assemblies|
  {
    if assemblies == [] then tree
    else
      var t := XmlFillFrom(m, files, assemblies[..|assemblies| - 1], tree);
      match IndexAt(files, assemblies[|assemblies| - 1])
      case None => t
      case Some(d) =>
        var r := XmlFillIndex(m, d, t);
        assert SameShape(tree, r) by {
          forall i | 0 <= i < |tree| ensures SameMembers(tree[i], r[i]) {
            assert SameMembers(tree[i], t[i]) && SameMembers(t[i], r[i]);
          }
        }
        r
  }

  lemma XmlFillFromSnoc(m: Model, files: DocumentationFiles, assemblies: seq<string>, name: string, tree: seq<EntityComment>)
    requires TreeValid(m, tree)
    ensures TreeValid(m, XmlFillFrom(m, files, assemblies, tree))
    ensures XmlFillFrom(m, files, assemblies + [name], tree)
            == match IndexAt(files, name)
               case None => XmlFillFrom(m, files, assemblies, tree)
               case Some(d) => XmlFillIndex(m, d, XmlFillFrom(m, files, assemblies, tree))
  {
    assert (assemblies + [name])[..|assemblies|] == assemblies;
  }

  /** FillCommentsFromXml: every index of the enumerated assemblies, in order. */
  function XmlFill(m: Model, files: DocumentationFiles, tree: seq<EntityComment>): (r: seq<EntityComment>)
    requires TreeValid(m, tree)
    ensures SameShape(tree, r) && TreeValid(m, r)
  {
    XmlFillFrom(m, files, EnumerateAssemblies(m.types, EntityClrTypes(m, tree)), tree)
  }

  // ---------------------------------------------------------------------
  // Description attributes applied to the tree

  /** A property node after the description pass: a non-shadow property with a (non-null) description takes it. */
  function DescriptionProperty(p: PropertyComment): (r: PropertyComment)
    ensures r.property == p.property
    ensures !p.property.isShadow && p.property.description.Some? ==> r.comment == p.property.description
    ensures p.property.isShadow || p.property.description.None? ==> r == p
  {
    if !p.property.isShadow && p.property.description.Some? then p.(comment := p.property.description) else p
  }

  /** One entity node after the description pass; navigations are left alone. */
  function DescriptionEntityComment(m: Model, n: EntityComment): (r: EntityComment)
    requires WellFormed(m) && n.entityType < |m.entityTypes|
    ensures SameMembers(n, r)
  {
    assert EntityWellFormed(m, n.entityType);
    var clr := m.entityTypes[n.entityType].clrType;
    EntityComment(
      n.entityType,
      match m.types[clr].description
      case None => n.internalComment
      case Some(text) => Some(CommentFromType(text, clr)),
      seq(|n.properties|, j requires 0 <= j < |n.properties| => DescriptionProperty(n.properties[j])),
      n.navigations)
  }

  function DescriptionFill(m: Model, tree: seq<EntityComment>): (r: seq<EntityComment>)
    requires TreeValid(m, tree)
    ensures SameShape(tree, r) && TreeValid(m, r)
  {
    var r := seq(|tree|, i requires 0 <= i < |tree| =>
      assert NodeMatches(m.entityTypes[i], i, tree[i]);
      DescriptionEntityComment(m, tree[i]));
    SameShapeKeepsValid(m, tree, r);
    r
  }

  /** The tree `Build` returns: a fresh tree, then XML filling, then description filling, each only when enabled. */
  function Resolve(m: Model, files: DocumentationFiles, xml: bool, description: bool): (r: seq<EntityComment>)
    requires WellFormed(m)
    ensures TreeValid(m, r) && SameShape(NewTree(m), r)
  {
    var initial := NewTree(m);
    var afterXml := if xml then XmlFill(m, files, initial) else initial;
    var r := if description then DescriptionFill(m, afterXml) else afterXml;
    assert SameShape(initial, r) by {
      forall i | 0 <= i < |initial| ensures SameMembers(initial[i], r[i]) {
        assert SameMembers(initial[i], afterXml[i]) && SameMembers(afterXml[i], r[i]);
      }
    }
    r
  }
}
