# EFCore.DbComments comment engine, in Dafny

This project models the comment resolution and propagation engine of EFCore.DbComments:

- the comment tree that `CommentModel` builds over an EF Core model;
- the `CommentModelBuilder` that fills the tree from XML documentation files and from `DescriptionAttribute`s;
- `AddCommentsToModel`, which writes the resolved comments back onto the model builder.

The project also proves what these promise.

Everything the engine reads from its host is a read-only snapshot (`EfMetadata`):

- **CLR types:** full name, base type, assembly name and description attribute.
- **EF entity types:** CLR type, EF base type, owner, key flags, properties, navigations and discriminator property name.
- **Model builder:** the comments the model currently carries, as a map from `Table`, `Column` and `OwnedColumn` targets to text. `HasComment` is an update of that map.
- **Documentation files:** present in the application's base directory, given as a map from assembly name to parsed document.

Modules:

- `Wrappers`: `Option`, `Result`, `Outcome`.
- `EfMetadata`: the snapshot, `IsSubclassOf`, base chains, the comment store and `ModelBuilder.HasComment`.
- `CommentTree`: the tree datatypes and the constructor's tree (`NewTree`). It also holds:
  - the applier as a plan of writes (`Step`s, each `Guarded` by "the element's comment is null or empty", or `Unconditional`), with `Run` giving their effect in order;
  - the class `CommentModel`, whose methods `AddCommentsToModel`, `CommentOnTableColumns`, `CommentOnOwnedColumns`, `CommentOwned` and `CommentDiscriminator` issue the writes with loops and are proved equal to `Run` of the plan.
- `ApplierProofs`: element-by-element consequences of the plan:
  - the guard rule for tables and columns;
  - the discriminator stamp;
  - owned-column composition;
  - keyless skipping;
  - blank properties;
  - independence of entities;
  - a second application changes nothing.
- `CommentSources`: the pure parts of `CommentModelBuilder.cs`:
  - configuration;
  - the comment dictionary of one file;
  - `GetEntityComment`, `GetPropertyComment` and `EnumerateAssemblies`;
  - one documentation index and the description pass applied to the tree;
  - `Resolve`, the tree `Build` produces.
- `SourceProofs`:
  - first-wins in the dictionary;
  - member lookup along the base chain;
  - the assembly order;
  - the first index with an entity comment wins;
  - the last index with a member comment wins;
  - description overriding XML;
  - the configuration a sequence of fluent calls produces.
- `Builder`: the class `CommentModelBuilder`, with its fluent setters, `Build`, `FillCommentsFromXml` and `FillCommentsFromDescription` as loops. It also has the entry points `CommentModelFromXml` and `CommentModelFromDescriptionAttr`, and writing their result onto the model builder.

The model follows the code, except for the differences listed under "## Left out", including where its behaviour may be unexpected:

- The discriminator column comes from the entity's *base* type, so a root entity gets no stamp and its subclasses do.
- The XML pass does not skip shadow properties.
- A description is taken when it is non-null, even when it is empty.
- Entity XML text is looked up only at the root of the EF base chain, so every candidate's holder is the root's CLR type. The strict-subclass replacement rule therefore never lets a later index replace an earlier one (`SourceProofs.XmlFirstIndexWins`).

Assumptions on the snapshot (`EfMetadata.WellFormed`, `EfMetadata.UniqueMemberNames`) are things EF Core and the CLR guarantee:

- references point into the snapshot;
- base chains are acyclic;
- an EF base entity's CLR type is a CLR ancestor;
- property and navigation names are unique within an entity type.

## Model

| member | source | states |
|---|---|---|
| CommentTree.EntityComment.Comment | DbComments/CommentModel.cs:42 | the visible comment is present exactly when the internal pair is, and is the pair's text |
| CommentTree.NewEntityComment | DbComments/CommentModel.cs:34-39 | the node has the entity type's properties and navigations, in order, none commented |
| CommentTree.NewTree | DbComments/CommentModel.cs:19 | one node per entity type, in model order, each matching its entity type and unfilled |
| CommentTree.CommentModel.constructor | DbComments/CommentModel.cs:15-20 | the model keeps the builder and the discriminator text and holds the fresh tree |
| CommentTree.CommentModel.AddCommentsToModel | DbComments/CommentModel.cs:119-159 | the comments afterwards are the effect of the whole plan on the comments before: per entity in tree order, nothing for an entity without key that is not keyless; owned columns for an owned entity; otherwise table, discriminator, then columns |
| CommentTree.CommentModel.CommentOnTableColumns | DbComments/CommentModel.cs:147-156 | the comments afterwards are the effect of one guarded write per property with a non-empty comment, in property order |
| CommentTree.CommentModel.CommentOnOwnedColumns | DbComments/CommentModel.cs:128-133 | the comments afterwards are the effect of the owned writes of every property with a non-empty comment, in property order |
| CommentTree.CommentModel.CommentOwned | DbComments/CommentModel.cs:174-198 | one unconditional write per owner navigation targeting the owned entity, of the composed comment, in navigation order |
| CommentTree.CommentModel.CommentDiscriminator | DbComments/CommentModel.cs:200-212 | the named discriminator column of the base type is set to the discriminator text; without a base type or name nothing changes |
| EfMetadata.ModelBuilder.HasComment | DbComments/CommentModel.cs:142 | the element gets the text and every other element keeps its comment |
| CommentTree.ExecuteEffect | DbComments/CommentModel.cs:140-155 | one `HasComment` call of the applier sets its element (a guarded one only over a null or empty comment, and otherwise leaves the store as it is) and changes no other element |
| CommentTree.RunKeepsKeys | DbComments/CommentModel.cs:119-159 | the applier's writes never remove a comment: every element commented before is still commented |
| CommentTree.ComposeShape | DbComments/CommentModel.cs:193-194 | without a navigation comment the embedded column gets the property comment; with one, the navigation comment, then ':', then the property comment |
| EfMetadata.BaseChain | DbComments/CommentModelBuilder.cs:194-196 | the type followed by its base types, each the base of the previous, ending at a type without base |
| ApplierProofs.EntityStepOrigin | DbComments/CommentModel.cs:121-158 | every write for an entity is for a commentable entity and is either an owned column of a property through an owner navigation (owned), or the table, the discriminator stamp or a property's column (standalone) |
| ApplierProofs.ColumnStepsOrigin | DbComments/CommentModel.cs:150-155 | every column write comes from one of the entity's properties and writes its comment to its column |
| ApplierProofs.OwnedNavigationStepsOrigin | DbComments/CommentModel.cs:178-196 | every owned write comes from one owner navigation targeting the owned entity |
| ApplierProofs.OwnedStepsOrigin | DbComments/CommentModel.cs:133 | every owned write comes from one property and one owner navigation |
| ApplierProofs.StepStaysWithEntity | DbComments/CommentModel.cs:121-158 | an entity writes only its own table, its own columns, or columns embedded in its owner through a navigation targeting it |
| ApplierProofs.ElementHasOneEntity | DbComments/CommentModel.cs:130-133 | no element belongs to two entities |
| ApplierProofs.OtherEntityUntouched | DbComments/CommentModel.cs:121-158 | the writes of one entity never touch an element of another |
| ApplierProofs.PlanPrefixAt | DbComments/CommentModel.cs:121-158 | an element's comment after the first n entities depends only on its own entity's writes |
| ApplierProofs.EntitiesIndependent | DbComments/CommentModel.cs:119-159 | after the whole application, each element holds what its own entity's writes make of its original comment |
| ApplierProofs.UncommentableEntityUntouched | DbComments/CommentModel.cs:123-126 | an entity with neither key nor keyless flag causes no write, so all its elements keep their comments |
| ApplierProofs.TableStepsAt | DbComments/CommentModel.cs:140-143 | the table write fills the table only when it is blank and the resolved comment is not |
| ApplierProofs.DiscriminatorStepsAt | DbComments/CommentModel.cs:202-211 | the discriminator write sets exactly the named column to the text |
| ApplierProofs.DiscriminatorColumnIsBases | DbComments/CommentModel.cs:202 | the discriminator column is the discriminator property name of the entity's base type, and there is none without a base type |
| ApplierProofs.StandaloneAt | DbComments/CommentModel.cs:137-156 | a standalone entity's writes are the table write, then the discriminator, then the columns |
| ApplierProofs.ColumnStepsAt | DbComments/CommentModel.cs:150-155 | after the column writes, a property's column holds its original comment filled, if blank, with the property's non-empty comment |
| ApplierProofs.ColumnStepsKeepStamp | DbComments/CommentModel.cs:145-156 | the column writes keep a discriminator stamp unless the stamp is empty and a same-named property has a comment |
| ApplierProofs.ColumnStepsOffTable | DbComments/CommentModel.cs:147-156 | column writes never touch a table or an owned column |
| ApplierProofs.TableCommentRule | DbComments/CommentModel.cs:140-143 | a standalone entity's table ends with the old comment if non-blank, otherwise the resolved comment if non-empty, otherwise the old one |
| ApplierProofs.ColumnCommentRule | DbComments/CommentModel.cs:150-155 | each non-discriminator column of a standalone entity follows the same fill-if-blank rule with the property's resolved comment |
| ApplierProofs.DiscriminatorStamped | DbComments/CommentModel.cs:200-212 | when the configured text is non-empty, or no property of the same name has a comment, the discriminator column ends with the configured text whatever it held before |
| ApplierProofs.StandaloneUnconditionalOnlyDiscriminator | DbComments/CommentModel.cs:202-207 | for a standalone entity the only unconditional write is the discriminator stamp, and none happens without a discriminator name |
| ApplierProofs.OwnedNavigationStepsAt | DbComments/CommentModel.cs:178-196 | an embedded column through a navigation targeting the owned entity gets the composed comment; others are untouched |
| ApplierProofs.OwnedStepsAt | DbComments/CommentModel.cs:161-171 | an embedded column of a property ends with the composed comment when the property's comment is non-empty, and untouched otherwise |
| ApplierProofs.OwnedColumnComposition | DbComments/CommentModel.cs:193-196 | the embedded column holds "navigation comment:property comment", or the property comment when the owner's navigation node has none, over any earlier comment |
| ApplierProofs.OwnedEntityWritesOnlyEmbeddedColumns | DbComments/CommentModel.cs:128-134 | an owned entity writes no table or column of its own; all its writes are unconditional embedded columns of its owner |
| ApplierProofs.BlankPropertyNotWritten | DbComments/CommentModel.cs:161-172 | a property with a blank comment causes no write; the only write naming its column is a discriminator stamp of the same name |
| ApplierProofs.AtShape | DbComments/CommentModel.cs:140-155 | for an element, unconditional writes fix its value whatever it held; otherwise a non-blank comment survives and a changed one is non-blank |
| ApplierProofs.AtIdempotent | DbComments/CommentModel.cs:140-155 | running the writes twice leaves an element as running them once does |
| ApplierProofs.RunIdempotent | DbComments/CommentModel.cs:140-155 | running writes with non-empty guarded texts twice gives the same comments as once |
| ApplierProofs.PlanPrefixGuardedTextsNonEmpty | DbComments/CommentModel.cs:140 | every guarded write of the plan carries a non-empty text |
| ApplierProofs.SecondApplicationChangesNothing | DbComments/CommentModel.cs:119-159 | applying the same tree to the model the first application produced changes no comment |
| CommentSources.TrimStart | DbComments/CommentModelBuilder.cs:115 | the result is a suffix of the input, everything dropped before it is white space, and it does not start with white space |
| CommentSources.TrimEnd | DbComments/CommentModelBuilder.cs:115 | the result is a prefix of the input, everything dropped after it is white space, and it does not end with white space |
| CommentSources.Trim | DbComments/CommentModelBuilder.cs:115 | the result is the slice of the input that starts at the trim offset; everything before and after that slice is white space, and the result neither starts nor ends with white space |
| CommentSources.Configure | DbComments/CommentModelBuilder.cs:26-46 | each fluent setter sets its own setting, the discriminator text to its value or a flag to true, and leaves the other two |
| CommentSources.ConfigureAll | DbComments/CommentModelBuilder.cs:19-46 | after any sequence of calls, neither flag is false: each is unset or true |
| CommentSources.DiscriminatorText | DbComments/CommentModelBuilder.cs:56 | the configured discriminator text, or "Discriminator" when none was set |
| CommentSources.SummaryValue | DbComments/CommentModelBuilder.cs:115 | a member has a dictionary text exactly when it has a summary, and that text is the summary trimmed of white space at both ends (so it is no longer than the summary and does not start with white space) |
| CommentSources.IndexAt | DbComments/CommentModelBuilder.cs:101-117 | an assembly has an index exactly when its documentation file exists and has a doc/members element, and the index is that file's comment dictionary |
| CommentSources.DictComment | DbComments/CommentModelBuilder.cs:179 | a text is found exactly when the key is present with a non-empty value, and it is that value |
| CommentSources.EntityRoot | DbComments/CommentModelBuilder.cs:174-177 | the top of the EF base chain has no base type; an entity without a base type is its own root, and any other root has a CLR type earlier in the type order than the entity's |
| CommentSources.GetEntityComment | DbComments/CommentModelBuilder.cs:172-185 | the candidate is the root's non-empty T: entry with the root's CLR type as holder, or none |
| CommentSources.GetPropertyComment | DbComments/CommentModelBuilder.cs:187-197 | a found member comment is never empty |
| CommentSources.FillMember | DbComments/CommentModelBuilder.cs:128-146 | a non-null lookup replaces the member's comment with that non-empty text; a null lookup keeps the comment |
| CommentSources.XmlProperty | DbComments/CommentModelBuilder.cs:128-136 | a property node keeps its property and takes the lookup by the property's name when that is non-null |
| CommentSources.XmlNavigation | DbComments/CommentModelBuilder.cs:138-146 | a navigation node keeps its navigation and takes the lookup by the navigation's name when that is non-null |
| CommentSources.XmlInternalComment | DbComments/CommentModelBuilder.cs:121-126 | the entity's comment is either kept or replaced by the candidate; an uncommented entity takes the candidate; a comment is never removed; the comment is replaced exactly when there is a candidate and either no comment or a candidate holder that is a strict subclass of the current holder (a replacement needs that condition, and that condition forces the replacement) |
| CommentSources.TypeAssemblies | DbComments/CommentModelBuilder.cs:156-168 | a type yields its own assembly first, and its base type's assembly next when it has a base type |
| CommentSources.EnumerateAssemblies | DbComments/CommentModelBuilder.cs:152-170 | at least one assembly per type, and every type's own assembly is among them |
| CommentSources.EntityClrTypes | DbComments/CommentModelBuilder.cs:97 | one CLR type per node, in node order, each the CLR type of that node's entity type |
| CommentSources.XmlEntityComment | DbComments/CommentModelBuilder.cs:119-147 | one index changes only the comments of a node, never its members |
| CommentSources.XmlFillIndex | DbComments/CommentModelBuilder.cs:119-147 | one index changes only comments, node for node |
| CommentSources.XmlFillFrom | DbComments/CommentModelBuilder.cs:99-148 | the indexes of the assemblies, in order, change only comments |
| CommentSources.XmlFill | DbComments/CommentModelBuilder.cs:95-149 | the XML pass changes only comments |
| CommentSources.DescriptionProperty | DbComments/CommentModelBuilder.cs:80-91 | a non-shadow property with a description takes it; a shadow or undescribed property is left as it is |
| CommentSources.DescriptionEntityComment | DbComments/CommentModelBuilder.cs:73-92 | the description pass changes only the comments of a node |
| CommentSources.DescriptionFill | DbComments/CommentModelBuilder.cs:71-93 | the description pass changes only comments, node for node |
| CommentSources.Resolve | DbComments/CommentModelBuilder.cs:56-66 | the built tree has the membership of the fresh tree: only comments differ |
| SourceProofs.CommentDictFirstWins | DbComments/CommentModelBuilder.cs:114-117 | a name is in the dictionary iff some member carries it, and its value is the trimmed summary (or null) of the first such member |
| SourceProofs.SubclassBelow | DbComments/CommentModelBuilder.cs:123 | a strict subclass comes later in the type order, so no type is a subclass of itself |
| SourceProofs.SubclassIffInChain | DbComments/CommentModelBuilder.cs:123 | IsSubclassOf(a, b) iff b is in a's base chain after a |
| SourceProofs.BaseSharesRoot | DbComments/CommentModelBuilder.cs:174-177 | an entity with a base type has the root and the entity-comment candidate of its base type |
| SourceProofs.HierarchySharesCandidate | DbComments/CommentModelBuilder.cs:172-185 | two entities with the same root get the same entity-comment candidate |
| SourceProofs.SameHolderKeepsComment | DbComments/CommentModelBuilder.cs:123-126 | a candidate with the current holder never replaces the entity's comment |
| SourceProofs.PropertyCommentFirstInChain | DbComments/CommentModelBuilder.cs:187-197 | a member comment is found iff some type of the base chain has a non-empty entry, and it is the most derived such entry |
| SourceProofs.OwnEntryFirst | DbComments/CommentModelBuilder.cs:189-192 | a type with its own non-empty entry returns that entry, and it is the first entry of its base chain, at position 0 |
| SourceProofs.ChainStep | DbComments/CommentModelBuilder.cs:194-196 | stepping past a type without an entry shifts the first entry of the chain by one |
| SourceProofs.TypeAssembliesIsChain | DbComments/CommentModelBuilder.cs:156-168 | one type yields the assemblies of its whole base chain, most derived first |
| SourceProofs.EnumerateAssembliesIsChainOrder | DbComments/CommentModelBuilder.cs:152-170 | the enumeration is, type by type, the assemblies of each base chain, duplicates kept |
| SourceProofs.XmlFillFromStep | DbComments/CommentModelBuilder.cs:99-147 | one more assembly applies its index to each node, or nothing without a file or doc/members |
| SourceProofs.InternalCommentStep | DbComments/CommentModelBuilder.cs:121-126 | an entity comment held by the root is kept by a further index; without one the index's offer is taken |
| SourceProofs.XmlEntityCommentStep | DbComments/CommentModelBuilder.cs:119-126 | across indexes, an entity's comment is kept once set and is always held by its root type |
| SourceProofs.XmlEntityCommentIsFirstOffer | DbComments/CommentModelBuilder.cs:99-126 | the entity's comment after the XML pass is the first offer among the indexes |
| SourceProofs.XmlFirstIndexWins | DbComments/CommentModelBuilder.cs:99-126 | an uncommented entity ends with a comment iff some index offers one, and it is the first index's offer |
| SourceProofs.XmlPropertyComment | DbComments/CommentModelBuilder.cs:128-136 | a property's comment after the XML pass is the sequential overwrite by each index's non-null lookup, shadow properties included |
| SourceProofs.XmlNavigationComment | DbComments/CommentModelBuilder.cs:138-146 | the same for navigations |
| SourceProofs.MemberLastIndexWins | DbComments/CommentModelBuilder.cs:128-146 | a member keeps its comment when no index offers one, and otherwise gets the last offering index's text |
| SourceProofs.DescriptionOverridesEntity | DbComments/CommentModelBuilder.cs:75-78 | with descriptions on, an entity with a described CLR type gets that text with its own type as holder, over the XML result; otherwise the XML result stays |
| SourceProofs.DescriptionOverridesProperty | DbComments/CommentModelBuilder.cs:80-91 | a non-shadow property with a description takes it; shadow or undescribed properties keep the XML result |
| SourceProofs.DescriptionKeepsNavigations | DbComments/CommentModelBuilder.cs:71-93 | the description pass never changes a navigation's comment |
| SourceProofs.XmlEnabledIffCalled | DbComments/CommentModelBuilder.cs:34-39 | XML comments are enabled iff WithXmlComments was called, whatever the order of the calls |
| SourceProofs.DescriptionEnabledIffCalled | DbComments/CommentModelBuilder.cs:42-46 | description comments are enabled iff WithDescriptionComments was called, whatever the order of the calls |
| SourceProofs.DiscriminatorFromCalls | DbComments/CommentModelBuilder.cs:17-31 | the discriminator text is the last WithDiscriminatorComment value, or "Discriminator" when there was none |
| Builder.FillEntityFromIndex | DbComments/CommentModelBuilder.cs:119-147 | the loops over one node compute the node one index makes of it |
| Builder.FillEntityFromDescription | DbComments/CommentModelBuilder.cs:75-91 | the loop over one node computes the node the description pass makes of it |
| Builder.CommentModelBuilder.constructor | DbComments/CommentModelBuilder.cs:19-23 | a fresh builder has no setting |
| Builder.CommentModelBuilder.WithDiscriminatorComment | DbComments/CommentModelBuilder.cs:26-31 | sets the discriminator text and returns the same builder |
| Builder.CommentModelBuilder.WithXmlComments | DbComments/CommentModelBuilder.cs:34-39 | enables XML comments and returns the same builder |
| Builder.CommentModelBuilder.WithDescriptionComments | DbComments/CommentModelBuilder.cs:42-46 | enables description comments and returns the same builder |
| Builder.CommentModelBuilder.Build | DbComments/CommentModelBuilder.cs:49-69 | a null model builder fails with ArgumentNullException("modelBuilder"); otherwise a fresh comment model with the configured or default discriminator text and the tree filled by XML then descriptions, each only when enabled |
| Builder.CommentModelBuilder.FillCommentsFromDescription | DbComments/CommentModelBuilder.cs:71-93 | the tree afterwards is the description pass of the tree before |
| Builder.CommentModelBuilder.FillCommentsFromXml | DbComments/CommentModelBuilder.cs:95-149 | the tree afterwards is the XML pass over the enumerated assemblies of the tree before |
| Builder.CommentModelBuilder.FillFromIndex | DbComments/CommentModelBuilder.cs:119-147 | the tree afterwards is one index applied to every node of the tree before |
| Builder.CommentModelFromXml | DbComments/CommentModel.cs:107-110 | a null model builder fails; otherwise the model's comments become the application of the XML-only tree with the default discriminator text |
| Builder.CommentModelFromDescriptionAttr | DbComments/CommentModel.cs:113-116 | a null model builder fails; otherwise the model's comments become the application of the description-only tree with the default discriminator text |

## Left out

- File system and XML parsing (`File.Exists`, `Path.Combine` with the base directory, `XDocument.Load`, element navigation): documentation files are a parameter, a map from assembly name to a document whose `doc/members` element is present or not. Each member is a name attribute and a summary text, both optional.
- Reflection:
  - Each CLR type's full name, base type, assembly name and `DescriptionAttribute` text are fields of the snapshot. The attribute text includes any inherited attribute, as `GetCustomAttribute` returns it.
  - Assemblies are identified by their simple name.
  - A property's description is a field of the snapshot.
  - A non-shadow property without a `PropertyInfo` (a field-only property): the source calls `GetCustomAttribute` on a null `PropertyInfo` and throws, so `Build` fails with description comments enabled. The model passes such a property through the description pass like any other, so it does not capture that failure.
- EF Core metadata and builder API:
  - Keys, ownership, navigations and discriminator names are read from the snapshot.
  - `Entity`, `OwnsOne`/`OwnsMany`, `Property`, `GetComment` and `HasComment` are reads and updates of a comment map keyed by table, column and owned column. An `OwnsMany`/`OwnsOne` embedding is told apart by the navigation's collection flag in the key.
- Shared columns: each entity's columns are separate elements. A property that several entity types of one hierarchy share (table-per-hierarchy) is not aliased across them. The independence lemmas rely on this separation.
- `SingleOrDefault` on the owner's node: the model always finds the owner's node, which exists because every entity type has one. The case where it is missing, and a duplicate match, are not modelled.
- `CommentSources.Trim`: white space is space, tab, line feed and carriage return only, not every Unicode white-space character `string.Trim` removes.
- The nodes are values held in the comment model's sequence, so object identity of nodes is not modelled. Nothing outside the comment model holds a node.
- `EnumerateAssemblies` is lazy in the source; the model computes the whole sequence before the loop, which yields the same order.
- DbComments/ModelBuilderExtensions.cs is not part of this model: it repeats the null guard and calls the two entry points.
