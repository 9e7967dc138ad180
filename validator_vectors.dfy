/** The schema check of examples/example_usage.py:14-58: the project
    description, written as the value the parser is meant to build from the
    text at lines 13-27, satisfies the schema, and the same description
    without the required author name does not. */
module ValidatorVectors {
  import opened Exceptions
  import opened Values
  import opened Validator

  const StringName: JString := [115, 116, 114, 105, 110, 103]  // "string"
  const ProjectKey: JString := [112, 114, 111, 106, 101, 99, 116]  // "project"
  const VersionKey: JString := [118, 101, 114, 115, 105, 111, 110]  // "version"
  const FeaturesKey: JString := [102, 101, 97, 116, 117, 114, 101, 115]  // "features"
  const AuthorKey: JString := [97, 117, 116, 104, 111, 114]  // "author"
  const PerformanceKey: JString := [112, 101, 114, 102, 111, 114, 109, 97, 110, 99, 101]  // "performance"
  const NameKey: JString := [110, 97, 109, 101]  // "name"
  const EmailKey: JString := [101, 109, 97, 105, 108]  // "email"
  const BenchmarkKey: JString := [98, 101, 110, 99, 104, 109, 97, 114, 107]  // "benchmark"
  const MemoryKey: JString := [109, 101, 109, 111, 114, 121, 95, 101, 102, 102, 105, 99, 105, 101, 110, 116]  // "memory_efficient"

  /** `{"type": "string"}` */
  const StringSchema: Value := Obj([(TypeKey, Str(StringName))])

  /** `{"type": "string", "required": True}` */
  const RequiredStringSchema: Value := Obj([(TypeKey, Str(StringName)), (RequiredKey, Bool(true))])

  /** The schema of `author`. */
  const AuthorSchema: Value := ObjectSchemaOf(AuthorProperties)

  /** The schema of the whole description. */
  const ProjectSchema: Value := ObjectSchemaOf(ProjectProperties)

  const Author: Value := Obj([(NameKey, Str(Codes("Ваше Имя"))), (EmailKey, Str(Codes("you@example.com")))])

  const Performance: Value := Obj([(BenchmarkKey, Frac("95.5")), (MemoryKey, Bool(true))])

  const Features: Value := Arr([Str(Codes("parsing")), Str(Codes("validation")), Str(Codes("streaming"))])

  /** The description as a value, with `author` given.  It is written out by
      hand; no lemma here parses the indented text it comes from. */
  function Project(author: Value): Value
  {
    Obj([(ProjectKey, Str(Codes("My JSON Parser"))), (VersionKey, Str(Codes("1.0.0"))),
         (FeaturesKey, Features), (AuthorKey, author), (PerformanceKey, Performance)])
  }

  /** `d[key]` is the value of the first entry with that key. */
  lemma {:induction false} LookupAt(ms: seq<(JString, Value)>, i: nat, key: JString)
    requires i < |ms| && ms[i].0 == key && forall j :: 0 <= j < i ==> ms[j].0 != key
    ensures Lookup(ms, key) == Some(ms[i].1)
  {
    if i > 0 {
      LookupAt(ms[1..], i - 1, key);
    }
  }

  /** A string schema is a schema and accepts anything. */
  lemma {:induction false} StringSchemas()
    ensures IsSchema(StringSchema) && forall y :: Validate(y, StringSchema)
    ensures IsSchema(RequiredStringSchema) && forall y :: Validate(y, RequiredStringSchema)
    ensures Required(RequiredStringSchema) && !Required(StringSchema)
  {
    assert StringName[0] != ObjectName[0] && StringName[0] != ArrayName[0];
    assert TypeKey != RequiredKey by { assert |TypeKey| != |RequiredKey|; }
    LookupAt(RequiredStringSchema.members, 1, RequiredKey);
  }

  /** `{"type": "object", "properties": props}` */
  function ObjectSchemaOf(props: seq<(JString, Value)>): Value
  {
    Obj([(TypeKey, Str(ObjectName)), (PropertiesKey, Obj(props))])
  }

  /** Such a schema checks exactly the loop over `props`. */
  lemma {:induction false} ObjectSchemaOfHolds(props: seq<(JString, Value)>, data: Value)
    requires forall j :: 0 <= j < |props| ==> IsSchema(props[j].1)
    ensures IsSchema(ObjectSchemaOf(props)) && HasType(ObjectSchemaOf(props), ObjectName)
    ensures Validate(data, ObjectSchemaOf(props)) <==> data.Obj? && PropertiesHold(data.members, Obj(props), 0)
  {
    assert TypeKey != PropertiesKey by { assert |TypeKey| != |PropertiesKey|; }
    LookupAt(ObjectSchemaOf(props).members, 1, PropertiesKey);
  }

  /** The loop over two declared properties. */
  lemma {:induction false} TwoProperties(data: seq<(JString, Value)>, k: JString, s: Value, k': JString, s': Value)
    requires IsSchema(s) && IsSchema(s')
    ensures PropertiesHold(data, Obj([(k, s), (k', s')]), 0) <==> PropertyHolds(data, k, s) && PropertyHolds(data, k', s')
  {
    var p := Obj([(k, s), (k', s')]);
    PropertiesHoldAll(data, p, 0);
    assert p.members[0] == (k, s) && p.members[1] == (k', s');
  }

  /** The loop over three declared properties. */
  lemma {:induction false} ThreeProperties(data: seq<(JString, Value)>, k: JString, s: Value, k': JString, s': Value, k'': JString, s'': Value)
    requires IsSchema(s) && IsSchema(s') && IsSchema(s'')
    ensures PropertiesHold(data, Obj([(k, s), (k', s'), (k'', s'')]), 0) <==>
            PropertyHolds(data, k, s) && PropertyHolds(data, k', s') && PropertyHolds(data, k'', s'')
  {
    var p := Obj([(k, s), (k', s'), (k'', s'')]);
    PropertiesHoldAll(data, p, 0);
    assert p.members[0] == (k, s) && p.members[1] == (k', s') && p.members[2] == (k'', s'');
  }

  const AuthorProperties: seq<(JString, Value)> := [(NameKey, RequiredStringSchema), (EmailKey, StringSchema)]

  /** The author object with a name and an e-mail address passes. */
  lemma {:induction false} AuthorAccepted()
    ensures IsSchema(AuthorSchema) && Validate(Author, AuthorSchema)
  {
    StringSchemas();
    ObjectSchemaOfHolds(AuthorProperties, Author);
    TwoProperties(Author.members, NameKey, RequiredStringSchema, EmailKey, StringSchema);
    assert NameKey != EmailKey by { assert |NameKey| != |EmailKey|; }
    LookupAt(Author.members, 0, NameKey);
    LookupAt(Author.members, 1, EmailKey);
  }

  const NamelessAuthor: Value := Obj([(EmailKey, Str(Codes("you@example.com")))])

  /** An author object with only an e-mail address fails: `name` is required. */
  lemma {:induction false} NamelessAuthorRejected()
    ensures IsSchema(AuthorSchema) && !Validate(NamelessAuthor, AuthorSchema)
  {
    StringSchemas();
    ObjectSchemaOfHolds(AuthorProperties, NamelessAuthor);
    TwoProperties(NamelessAuthor.members, NameKey, RequiredStringSchema, EmailKey, StringSchema);
    assert NameKey != EmailKey by { assert |NameKey| != |EmailKey|; }
    assert Lookup(NamelessAuthor.members, NameKey) == None;
  }

  const ProjectProperties: seq<(JString, Value)> := [(ProjectKey, StringSchema), (VersionKey, StringSchema), (AuthorKey, AuthorSchema)]

  /** The entries of the description the project schema declares. */
  lemma {:induction false} ProjectLookups(author: Value)
    ensures Lookup(Project(author).members, ProjectKey).Some?
    ensures Lookup(Project(author).members, VersionKey).Some?
    ensures Lookup(Project(author).members, AuthorKey) == Some(author)
  {
    var data := Project(author).members;
    assert ProjectKey[0] != VersionKey[0];
    assert |AuthorKey| != |ProjectKey| && |AuthorKey| != |VersionKey| && |AuthorKey| != |FeaturesKey|;
    LookupAt(data, 0, ProjectKey);
    LookupAt(data, 1, VersionKey);
    LookupAt(data, 3, AuthorKey);
  }

  /** The project schema holds of the description exactly when the author
      schema holds of its `author`. */
  lemma {:induction false} ProjectAcceptedIff(author: Value)
    ensures IsSchema(ProjectSchema) && IsSchema(AuthorSchema)
    ensures Validate(Project(author), ProjectSchema) <==> Validate(author, AuthorSchema)
  {
    StringSchemas();
    ObjectSchemaOfHolds(AuthorProperties, Null);
    ObjectSchemaOfHolds(ProjectProperties, Project(author));
    var data := Project(author).members;
    ThreeProperties(data, ProjectKey, StringSchema, VersionKey, StringSchema, AuthorKey, AuthorSchema);
    ProjectLookups(author);
    assert Validate(Lookup(data, ProjectKey).value, StringSchema) && Validate(Lookup(data, VersionKey).value, StringSchema);
  }

  /** `validator.validate_schema` is true of the example description and schema. */
  lemma {:induction false} ExampleAccepted()
    ensures IsSchema(ProjectSchema) && Validate(Project(Author), ProjectSchema)
  {
    AuthorAccepted();
    ProjectAcceptedIff(Author);
  }

  /** Without the author's name the same description is rejected. */
  lemma {:induction false} ExampleWithoutNameRejected()
    ensures IsSchema(ProjectSchema) && !Validate(Project(NamelessAuthor), ProjectSchema)
  {
    NamelessAuthorRejected();
    ProjectAcceptedIff(NamelessAuthor);
  }
}
