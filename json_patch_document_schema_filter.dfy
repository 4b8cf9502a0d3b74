/**
 * JsonPatchDocumentSchemaFilter: gives the schema of every JsonPatchDocument<T>
 * an example list of JSON Patch operations and a link to their documentation.
 */
module JsonPatchSchema {
  import opened Wrappers
  import opened OpenApi

  /** The operation names defined in section 4 of RFC 6902. */
  const PatchOperationNames: set<string> := {"add", "remove", "replace", "move", "copy", "test"}

  /** The generic type definition JsonPatchDocument<> of the JsonPatchCore library. */
  const JsonPatchDocumentDefinition: string := "JsonPatchCore.JsonPatchDocument`1"

  const JsonPatchExternalDocs: ExternalDocs := ExternalDocs("JSON Patch Documentation", "http://jsonpatch.com/")

  /**
   * What reflection tells about the schema's type: its generic type
   * definition (read only when there are type arguments) and its type arguments.
   */
  datatype ClrType = ClrType(genericTypeDefinition: string, genericTypeArguments: seq<string>)

  datatype SchemaFilterContext = SchemaFilterContext(schemaType: ClrType)

  /** The type is constructed from the generic definition JsonPatchDocument<> (it has type arguments). */
  predicate IsJsonPatchDocumentType(t: ClrType)
  {
    |t.genericTypeArguments| > 0 && t.genericTypeDefinition == JsonPatchDocumentDefinition
  }

  predicate HasMember(v: AnyValue, name: string)
  {
    v.AObject? && name in v.members
  }

  /** The "op" member of an operation object, or "" when there is none. */
  function OpName(v: AnyValue): string
  {
    if v.AObject? && "op" in v.members && v.members["op"].AString? then v.members["op"].s else ""
  }

  /**
   * An operation object that carries the members section 4 of RFC 6902
   * requires (whether its target exists is not checked): a known "op"
   * and a string "path"; "value" for add, replace and test; "from" for move and copy.
   */
  predicate IsPatchOperation(v: AnyValue)
  {
    && v.AObject?
    && OpName(v) in PatchOperationNames
    && "path" in v.members && v.members["path"].AString?
    && (OpName(v) in {"add", "replace", "test"} ==> "value" in v.members)
    && (OpName(v) in {"move", "copy"} ==> "from" in v.members && v.members["from"].AString?)
  }

  /** An operation object with "op", "path" and "value" members. */
  function ValueOperation(op: string, path: string, value: string): (v: AnyValue)
    ensures v.AObject? && OpName(v) == op && v.members.Keys == {"op", "path", "value"}
    ensures v.members["path"].AString?
  {
    AObject(map["op" := AString(op), "path" := AString(path), "value" := AString(value)])
  }

  /** An operation object with "op", "from" and "path" members. */
  function FromOperation(op: string, from: string, path: string): (v: AnyValue)
    ensures v.AObject? && OpName(v) == op && v.members.Keys == {"op", "from", "path"}
    ensures v.members["path"].AString? && v.members["from"].AString?
  {
    AObject(map["op" := AString(op), "from" := AString(from), "path" := AString(path)])
  }

  /** An operation object with only "op" and "path" members. */
  function PathOperation(op: string, path: string): (v: AnyValue)
    ensures v.AObject? && OpName(v) == op && v.members.Keys == {"op", "path"}
    ensures v.members["path"].AString?
  {
    AObject(map["op" := AString(op), "path" := AString(path)])
  }

  /** The nine entries of the example, in the source's order. */
  const ExampleItems: seq<AnyValue> := [
    ValueOperation("replace", "/property", "New Value"),
    ValueOperation("add", "/property", "New Value"),
    PathOperation("remove", "/property"),
    FromOperation("copy", "/fromProperty", "/property"),
    FromOperation("move", "/fromProperty", "/property"),
    ValueOperation("test", "/property", "Has Value"),
    ValueOperation("test", "/property", "Has Value"),
    ValueOperation("replace", "/arrayProperty/0", "Replace First Array Item"),
    ValueOperation("replace", "/arrayProperty/-", "Replace Last Array Item")
  ]

  /** Entry by entry: the operation name and which members it carries. */
  lemma ExampleItemShapes()
    ensures |ExampleItems| == 9
    ensures OpName(ExampleItems[0]) == "replace" && ExampleItems[0].members.Keys == {"op", "path", "value"}
    ensures OpName(ExampleItems[1]) == "add" && ExampleItems[1].members.Keys == {"op", "path", "value"}
    ensures OpName(ExampleItems[2]) == "remove" && ExampleItems[2].members.Keys == {"op", "path"}
    ensures OpName(ExampleItems[3]) == "copy" && ExampleItems[3].members.Keys == {"op", "from", "path"}
    ensures OpName(ExampleItems[4]) == "move" && ExampleItems[4].members.Keys == {"op", "from", "path"}
    ensures OpName(ExampleItems[5]) == "test" && ExampleItems[5].members.Keys == {"op", "path", "value"}
    ensures OpName(ExampleItems[6]) == "test" && ExampleItems[6].members.Keys == {"op", "path", "value"}
    ensures OpName(ExampleItems[7]) == "replace" && ExampleItems[7].members.Keys == {"op", "path", "value"}
    ensures OpName(ExampleItems[8]) == "replace" && ExampleItems[8].members.Keys == {"op", "path", "value"}
    ensures forall i :: 0 <= i < 9 ==> ExampleItems[i].AObject? && ExampleItems[i].members["path"].AString?
    ensures forall i :: 3 <= i < 5 ==> ExampleItems[i].members["from"].AString?
  {
  }

  lemma ExampleItemsWellFormed()
    ensures forall i :: 0 <= i < |ExampleItems| ==> IsPatchOperation(ExampleItems[i])
  {
    ExampleItemShapes();
    forall i | 0 <= i < |ExampleItems| ensures IsPatchOperation(ExampleItems[i]) {
      if i == 3 || i == 4 {
        assert OpName(ExampleItems[i]) in {"move", "copy"};
      } else if i == 2 {
        assert OpName(ExampleItems[i]) !in {"add", "replace", "test"};
      }
    }
  }

  lemma ExampleItemsMembers()
    ensures forall i :: 0 <= i < |ExampleItems| && OpName(ExampleItems[i]) == "remove" ==> !HasMember(ExampleItems[i], "value")
    ensures forall i :: 0 <= i < |ExampleItems| ==>
              (HasMember(ExampleItems[i], "from") <==> OpName(ExampleItems[i]) in {"copy", "move"})
  {
    ExampleItemShapes();
    forall i | 0 <= i < |ExampleItems|
      ensures OpName(ExampleItems[i]) == "remove" ==> !HasMember(ExampleItems[i], "value")
      ensures HasMember(ExampleItems[i], "from") <==> OpName(ExampleItems[i]) in {"copy", "move"}
    {
      if i == 0 || i == 7 || i == 8 {
        assert OpName(ExampleItems[i]) == "replace";
      } else if i == 1 {
        assert OpName(ExampleItems[i]) == "add";
      } else if i == 5 || i == 6 {
        assert OpName(ExampleItems[i]) == "test";
      }
    }
  }

  lemma ExampleUsesEveryOperation()
    ensures forall op :: op in PatchOperationNames ==> exists i :: 0 <= i < |ExampleItems| && OpName(ExampleItems[i]) == op
  {
    ExampleItemShapes();
    forall op | op in PatchOperationNames ensures exists i :: 0 <= i < |ExampleItems| && OpName(ExampleItems[i]) == op {
      if op == "add" {
        assert OpName(ExampleItems[1]) == op;
      } else if op == "remove" {
        assert OpName(ExampleItems[2]) == op;
      } else if op == "replace" {
        assert OpName(ExampleItems[0]) == op;
      } else if op == "move" {
        assert OpName(ExampleItems[4]) == op;
      } else if op == "copy" {
        assert OpName(ExampleItems[3]) == op;
      } else {
        assert OpName(ExampleItems[5]) == op;
      }
    }
  }

  /**
   * The fixed example: nine operation objects, each carrying the members
   * section 4 of RFC 6902 requires for its operation, together using all six operation names; the "remove" entry
   * carries no "value" and only "copy" and "move" carry a "from".
   */
  function JsonPatchExample(): (example: AnyValue)
    ensures example.AArray? && |example.items| == 9
    ensures forall i :: 0 <= i < |example.items| ==> IsPatchOperation(example.items[i])
    ensures forall i :: 0 <= i < |example.items| && OpName(example.items[i]) == "remove" ==> !HasMember(example.items[i], "value")
    ensures forall i :: 0 <= i < |example.items| ==>
              (HasMember(example.items[i], "from") <==> OpName(example.items[i]) in {"copy", "move"})
    ensures forall op :: op in PatchOperationNames ==> exists i :: 0 <= i < |example.items| && OpName(example.items[i]) == op
  {
    ExampleItemShapes();
    ExampleItemsWellFormed();
    ExampleItemsMembers();
    ExampleUsesEveryOperation();
    AArray(ExampleItems)
  }

  /** The three schema fields the filter may assign, read together. */
  datatype SchemaDocumentation = SchemaDocumentation(
    defaultValue: Option<AnyValue>,
    example: Option<AnyValue>,
    externalDocs: Option<ExternalDocs>)

  function Documentation(schema: Schema): SchemaDocumentation
    reads schema
  {
    SchemaDocumentation(schema.defaultValue, schema.example, schema.externalDocs)
  }

  /**
   * The fields after the filter: for a JsonPatchDocument<T> the default and
   * the example are both the fixed example and the external docs are the
   * jsonpatch.com link; for any other type they are as they were.
   */
  function PatchedDocumentation(d: SchemaDocumentation, t: ClrType): (r: SchemaDocumentation)
    ensures IsJsonPatchDocumentType(t) ==>
              r.defaultValue == Some(JsonPatchExample()) && r.example == r.defaultValue &&
              r.externalDocs == Some(JsonPatchExternalDocs)
    ensures !IsJsonPatchDocumentType(t) ==> r == d
  {
    if IsJsonPatchDocumentType(t)
    then SchemaDocumentation(Some(JsonPatchExample()), Some(JsonPatchExample()), Some(JsonPatchExternalDocs))
    else d
  }

  /** Applying the filter a second time changes nothing. */
  lemma PatchedDocumentationIdempotent(d: SchemaDocumentation, t: ClrType)
    ensures PatchedDocumentation(PatchedDocumentation(d, t), t) == PatchedDocumentation(d, t)
  {
  }

  class JsonPatchDocumentSchemaFilter {

    constructor ()
    {
    }

    /**
     * Throws on a null schema or context; otherwise assigns the fields as
     * PatchedDocumentation says.
     */
    method Apply(schema: Schema?, context: Option<SchemaFilterContext>) returns (outcome: Outcome)
      modifies schema
      ensures schema == null ==> outcome == Fail(ArgumentNull("schema"))
      ensures schema != null && context.None? ==>
                outcome == Fail(ArgumentNull("context")) && Documentation(schema) == old(Documentation(schema))
      ensures schema != null && context.Some? ==>
                outcome == Pass &&
                Documentation(schema) == PatchedDocumentation(old(Documentation(schema)), context.value.schemaType)
    {
      if schema == null {
        return Fail(ArgumentNull("schema"));
      }
      if context.None? {
        return Fail(ArgumentNull("context"));
      }
      var t := context.value.schemaType;
      if |t.genericTypeArguments| > 0 && t.genericTypeDefinition == JsonPatchDocumentDefinition {
        var example := JsonPatchExample();
        schema.defaultValue := Some(example);
        schema.example := Some(example);
        schema.externalDocs := Some(JsonPatchExternalDocs);
      }
      return Pass;
    }
  }
}
