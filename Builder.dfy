/**
 * CommentModelBuilder: the fluent configuration, `Build`, and the two
 * passes that fill the comment tree, written as the loops they are, plus
 * the two entry points that build a comment model and apply it.
 */
module Builder {
  import opened Wrappers
  import opened EfMetadata
  import opened CommentTree
  import opened CommentSources

  /** The exception `Build` throws for a null model builder. */
  datatype Error = ArgumentNullException(paramName: string)

  /** The XML pass for one entity node and one documentation index. */
  method FillEntityFromIndex(m: Model, commentDict: map<string, Option<string>>, entity: EntityComment) returns (r: EntityComment)
    requires WellFormed(m) && entity.entityType < |m.entityTypes|
    ensures r == XmlEntityComment(m, commentDict, entity)
  {
    assert EntityWellFormed(m, entity.entityType);
    var clr := m.entityTypes[entity.entityType].clrType;
    var internalComment := entity.internalComment;
    var entityComment := GetEntityComment(m, commentDict, entity.entityType);
    if entityComment.Some?
       && (internalComment.None?
           || (internalComment.value.holderType < |m.types|
               && IsSubclassOf(m.types, entityComment.value.holderType, internalComment.value.holderType)))
    {
      internalComment := entityComment;
    }

    var properties := entity.properties;
    var j := 0;
    while j < |properties|
      invariant j <= |properties| == |entity.properties|
      invariant forall q :: 0 <= q < |properties| ==>
        properties[q] == if q < j then XmlProperty(m.types, commentDict, clr, entity.properties[q]) else entity.properties[q]
    {
      var property := properties[j];
      var propertyComment := GetPropertyComment(m.types, commentDict, clr, property.property.name);
      if propertyComment.Some? {
        properties := properties[j := property.(comment := propertyComment)];
      }
      j := j + 1;
    }

    var navigations := entity.navigations;
    var k := 0;
    while k < |navigations|
      invariant k <= |navigations| == |entity.navigations|
      invariant forall q :: 0 <= q < |navigations| ==>
        navigations[q] == if q < k then XmlNavigation(m.types, commentDict, clr, entity.navigations[q]) else entity.navigations[q]
    {
      var navigation := navigations[k];
      var comment := GetPropertyComment(m.types, commentDict, clr, navigation.navigation.name);
      if comment.Some? {
        navigations := navigations[k := navigation.(comment := comment)];
      }
      k := k + 1;
    }

    r := EntityComment(entity.entityType, internalComment, properties, navigations);
  }

  /** The description pass for one entity node. */
  method FillEntityFromDescription(m: Model, entity: EntityComment) returns (r: EntityComment)
    requires WellFormed(m) && entity.entityType < |m.entityTypes|
    ensures r == DescriptionEntityComment(m, entity)
  {
    assert EntityWellFormed(m, entity.entityType);
    var clr := m.entityTypes[entity.entityType].clrType;
    var internalComment := entity.internalComment;
    if m.types[clr].description.Some? {
      internalComment := Some(CommentFromType(m.types[clr].description.value, clr));
    }

    var properties := entity.properties;
    var j := 0;
    while j < |properties|
      invariant j <= |properties| == |entity.properties|
      invariant forall q :: 0 <= q < |properties| ==>
        properties[q] == if q < j then DescriptionProperty(entity.properties[q]) else entity.properties[q]
    {
      var property := properties[j];
      if !property.property.isShadow && property.property.description.Some? {
        properties := properties[j := property.(comment := property.property.description)];
      }
      j := j + 1;
    }

    r := EntityComment(entity.entityType, internalComment, properties, entity.navigations);
  }

  class CommentModelBuilder {
    var discriminatorComment: Option<string>
    var enableXmlComments: Option<bool>
    var enableDescriptionComments: Option<bool>

    /** The three settings as one value. */
    function Settings(): (c: Configuration)
      reads this
    {
      Configuration(discriminatorComment, enableXmlComments, enableDescriptionComments)
    }

    constructor ()
      ensures Settings() == ConfigureAll([])
    {
      discriminatorComment := None;
      enableXmlComments := None;
      enableDescriptionComments := None;
    }

    method WithDiscriminatorComment(value: string) returns (r: CommentModelBuilder)
      modifies this
      ensures r == this
      ensures Settings() == Configure(old(Settings()), ConfigurationCall.WithDiscriminatorComment(value))
    {
      discriminatorComment := Some(value);
      r := this;
    }

    method WithXmlComments() returns (r: CommentModelBuilder)
      modifies this
      ensures r == this
      ensures Settings() == Configure(old(Settings()), ConfigurationCall.WithXmlComments)
    {
      enableXmlComments := Some(true);
      r := this;
    }

    method WithDescriptionComments() returns (r: CommentModelBuilder)
      modifies this
      ensures r == this
      ensures Settings() == Configure(old(Settings()), ConfigurationCall.WithDescriptionComments)
    {
      enableDescriptionComments := Some(true);
      r := this;
    }

    /**
     * Build: a null model builder is an `ArgumentNullException`; otherwise a
     * fresh comment model over it, filled from XML and then from
     * descriptions, each only when enabled.
     */
    method Build(modelBuilder: ModelBuilder?, files: DocumentationFiles) returns (r: Result<CommentModel, Error>)
      requires modelBuilder != null ==> WellFormed(modelBuilder.model)
      ensures modelBuilder == null ==> r == Failure(ArgumentNullException("modelBuilder"))
      ensures modelBuilder != null ==>
        && r.Success? && fresh(r.value) && r.value.Valid()
        && r.value.modelBuilder == modelBuilder
        && r.value.discriminatorComment == DiscriminatorText(Settings())
        && r.value.entityComments
           == Resolve(modelBuilder.model, files, enableXmlComments == Some(true), enableDescriptionComments == Some(true))
    {
      if modelBuilder == null {
        return Failure(ArgumentNullException("modelBuilder"));
      }
      var discriminator := if discriminatorComment.Some? then discriminatorComment.value else DefaultDiscriminatorComment;
      var commentModel := new CommentModel(modelBuilder, discriminator);
      if enableXmlComments == Some(true) {
        FillCommentsFromXml(commentModel, files);
      }
      if enableDescriptionComments == Some(true) {
        FillCommentsFromDescription(commentModel);
      }
      return Success(commentModel);
    }

    /** Every node, in order, takes its description pass. */
    method FillCommentsFromDescription(commentModel: CommentModel)
      requires commentModel.Valid()
      modifies commentModel
      ensures commentModel.Valid()
      ensures commentModel.entityComments == DescriptionFill(commentModel.modelBuilder.model, old(commentModel.entityComments))
    {
      var m := commentModel.modelBuilder.model;
      ghost var before := commentModel.entityComments;
      var i := 0;
      while i < |commentModel.entityComments|
        invariant i <= |commentModel.entityComments| == |before|
        invariant TreeValid(m, before)
        invariant forall q :: 0 <= q < |before| ==>
          before[q].entityType < |m.entityTypes|
          && commentModel.entityComments[q] == if q < i then DescriptionEntityComment(m, before[q]) else before[q]
      {
        assert NodeMatches(m.entityTypes[i], i, before[i]);
        var entity := commentModel.entityComments[i];
        var filled := FillEntityFromDescription(m, entity);
        commentModel.entityComments := commentModel.entityComments[i := filled];
        i := i + 1;
      }
      assert commentModel.entityComments == DescriptionFill(m, before);
    }

    /**
     * For each enumerated assembly whose documentation file exists and has
     * `doc/members`, every node takes the XML pass with that file's
     * comment dictionary.
     */
    method FillCommentsFromXml(commentModel: CommentModel, files: DocumentationFiles)
      requires commentModel.Valid()
      modifies commentModel
      ensures commentModel.Valid()
      ensures commentModel.entityComments == XmlFill(commentModel.modelBuilder.model, files, old(commentModel.entityComments))
    {
      var m := commentModel.modelBuilder.model;
      ghost var start := commentModel.entityComments;
      var assemblies := EnumerateAssemblies(m.types, EntityClrTypes(m, commentModel.entityComments));
      var n := 0;
      while n < |assemblies|
        invariant n <= |assemblies| && TreeValid(m, start)
        invariant commentModel.entityComments == XmlFillFrom(m, files, assemblies[..n], start)
        invariant commentModel.Valid()
      {
        var name := assemblies[n];
        assert assemblies[..n + 1] == assemblies[..n] + [name];
        XmlFillFromSnoc(m, files, assemblies[..n], name, start);
        if name in files && files[name].members.Some? {
          var commentDict := CommentDict(files[name].members.value);
          FillFromIndex(commentModel, commentDict);
        }
        n := n + 1;
      }
      assert assemblies[..n] == assemblies;
    }

    /** The loop over the nodes for one documentation index. */
    method FillFromIndex(commentModel: CommentModel, commentDict: map<string, Option<string>>)
      requires commentModel.Valid()
      modifies commentModel
      ensures commentModel.Valid()
      ensures commentModel.entityComments == XmlFillIndex(commentModel.modelBuilder.model, commentDict, old(commentModel.entityComments))
    {
      var m := commentModel.modelBuilder.model;
      ghost var before := commentModel.entityComments;
      var i := 0;
      while i < |commentModel.entityComments|
        invariant i <= |commentModel.entityComments| == |before|
        invariant TreeValid(m, before)
        invariant forall q :: 0 <= q < |before| ==>
          before[q].entityType < |m.entityTypes|
          && commentModel.entityComments[q] == if q < i then XmlEntityComment(m, commentDict, before[q]) else before[q]
      {
        assert NodeMatches(m.entityTypes[i], i, before[i]);
        var entity := commentModel.entityComments[i];
        var filled := FillEntityFromIndex(m, commentDict, entity);
        commentModel.entityComments := commentModel.entityComments[i := filled];
        i := i + 1;
      }
      assert commentModel.entityComments == XmlFillIndex(m, commentDict, before);
    }
  }

  /** CommentModelFromXml: build with XML comments only and write the result onto the model builder. */
  method CommentModelFromXml(modelBuilder: ModelBuilder?, files: DocumentationFiles) returns (r: Outcome<Error>)
    requires modelBuilder != null ==> WellFormed(modelBuilder.model)
    modifies modelBuilder
    ensures modelBuilder == null ==> r == Fail(ArgumentNullException("modelBuilder"))
    ensures modelBuilder != null ==>
      && r == Pass
      && modelBuilder.comments
         == Run(Plan(modelBuilder.model, Resolve(modelBuilder.model, files, true, false), DefaultDiscriminatorComment),
                old(modelBuilder.comments))
  {
    var builder := new CommentModelBuilder();
    builder := builder.WithXmlComments();
    var built := builder.Build(modelBuilder, files);
    if built.Failure? {
      return Fail(built.error);
    }
    built.value.AddCommentsToModel();
    return Pass;
  }

  /** CommentModelFromDescriptionAttr: build with description comments only and write the result onto the model builder. */
  method CommentModelFromDescriptionAttr(modelBuilder: ModelBuilder?) returns (r: Outcome<Error>)
    requires modelBuilder != null ==> WellFormed(modelBuilder.model)
    modifies modelBuilder
    ensures modelBuilder == null ==> r == Fail(ArgumentNullException("modelBuilder"))
    ensures modelBuilder != null ==>
      && r == Pass
      && modelBuilder.comments
         == Run(Plan(modelBuilder.model, Resolve(modelBuilder.model, map[], false, true), DefaultDiscriminatorComment),
                old(modelBuilder.comments))
  {
    var builder := new CommentModelBuilder();
    builder := builder.WithDescriptionComments();
    var built := builder.Build(modelBuilder, map[]);
    if built.Failure? {
      return Fail(built.error);
    }
    built.value.AddCommentsToModel();
    return Pass;
  }
}
