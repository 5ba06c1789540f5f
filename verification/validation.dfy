/**
 * The input schemas every RPC procedure validates its input against before a
 * handler runs. A schema is modelled as a parse function from a JSON-like
 * value to either the typed input or the list of issues found. Following the
 * object schemas' defaults: a non-object is rejected as a whole, every field of
 * the shape is checked in declaration order and contributes at most one issue,
 * and keys outside the shape are dropped. Title lengths count characters and
 * are not trimmed.
 */
module Validation {
  import opened Wrappers

  const TitleMinLength := 1
  const TitleMaxLength := 255
  const TitleEmptyMessage := "Title cannot be empty"
  const TitleTooLongMessage := "Title too long"

  /** A decoded request body. An absent key is absence from `fields` (`undefined`). */
  datatype Value =
    | VNumber(n: int)
    | VString(s: string)
    | VBool(b: bool)
    | VNull
    | VArray(items: seq<Value>)
    | VObject(fields: map<string, Value>)

  datatype IssueCode =
    | InvalidType
    | Required
    | TooSmall(minimum: nat, message: string)
    | TooBig(maximum: nat, message: string)

  /** One validation failure; `path` is the field name, or empty for the value as a whole. */
  datatype Issue = Issue(path: string, code: IssueCode)

  datatype Parsed<T> = Accepted(value: T) | Rejected(issues: seq<Issue>)

  datatype CreateTodoInput = CreateTodoInput(title: string)
  datatype UpdateTodoInput = UpdateTodoInput(id: int, title: Option<string>, completed: Option<bool>)
  datatype DeleteTodoInput = DeleteTodoInput(id: int)
  datatype GetTodoInput = GetTodoInput(id: int)

  /** The title bounds shared by the create and update schemas. */
  predicate ValidTitle(title: string) {
    TitleMinLength <= |title| <= TitleMaxLength
  }

  predicate ValidCreateInput(input: CreateTodoInput) {
    ValidTitle(input.title)
  }

  /** `id` is required by the type; `title` is absent or within bounds; `completed` is absent or a boolean. */
  predicate ValidUpdateInput(input: UpdateTodoInput) {
    input.title.None? || ValidTitle(input.title.value)
  }

  function Field(fields: map<string, Value>, key: string): Option<Value> {
    if key in fields then Some(fields[key]) else None
  }

  /** A required number field. */
  function NumberIssues(key: string, f: Option<Value>): (r: seq<Issue>)
    ensures r == [] <==> f.Some? && f.value.VNumber?
    ensures |r| <= 1
  {
    match f
    case None => [Issue(key, Required)]
    case Some(VNumber(_)) => []
    case Some(_) => [Issue(key, InvalidType)]
  }

  /** A title field: a string of 1 to 255 characters, required or optional. */
  function TitleIssues(f: Option<Value>, optional: bool): (r: seq<Issue>)
    ensures r == [] <==> (f.None? && optional) || (f.Some? && f.value.VString? && ValidTitle(f.value.s))
    ensures |r| <= 1
  {
    match f
    case None => if optional then [] else [Issue("title", Required)]
    case Some(VString(s)) =>
      (if |s| < TitleMinLength then [Issue("title", TooSmall(TitleMinLength, TitleEmptyMessage))] else [])
      + (if |s| > TitleMaxLength then [Issue("title", TooBig(TitleMaxLength, TitleTooLongMessage))] else [])
    case Some(_) => [Issue("title", InvalidType)]
  }

  /** An optional boolean field. */
  function OptionalBoolIssues(key: string, f: Option<Value>): (r: seq<Issue>)
    ensures r == [] <==> f.None? || f.value.VBool?
    ensures |r| <= 1
  {
    match f
    case None => []
    case Some(VBool(_)) => []
    case Some(_) => [Issue(key, InvalidType)]
  }

  /** `createTodoInputSchema`: `{ title: string(1..255) }`. */
  function ParseCreate(v: Value): (r: Parsed<CreateTodoInput>)
    ensures r.Accepted? ==> ValidCreateInput(r.value)
    ensures r.Accepted? <==>
      v.VObject? && "title" in v.fields && v.fields["title"].VString? && ValidTitle(v.fields["title"].s)
    ensures r.Accepted? ==> r.value.title == v.fields["title"].s
    ensures r.Rejected? ==> |r.issues| == 1
  {
    match v
    case VObject(fields) =>
      var issues := TitleIssues(Field(fields, "title"), false);
      if issues == [] then Accepted(CreateTodoInput(fields["title"].s)) else Rejected(issues)
    case _ => Rejected([Issue("", InvalidType)])
  }

  /** `updateTodoInputSchema`: `{ id: number, title?: string(1..255), completed?: boolean }`. */
  function ParseUpdate(v: Value): (r: Parsed<UpdateTodoInput>)
    ensures r.Accepted? ==> ValidUpdateInput(r.value)
    ensures r.Accepted? <==>
      && v.VObject?
      && "id" in v.fields && v.fields["id"].VNumber?
      && ("title" in v.fields ==> v.fields["title"].VString? && ValidTitle(v.fields["title"].s))
      && ("completed" in v.fields ==> v.fields["completed"].VBool?)
    ensures r.Accepted? ==>
      && r.value.id == v.fields["id"].n
      && r.value.title == (if "title" in v.fields then Some(v.fields["title"].s) else None)
      && r.value.completed == (if "completed" in v.fields then Some(v.fields["completed"].b) else None)
    ensures r.Rejected? ==> 1 <= |r.issues| <= 3
  {
    match v
    case VObject(fields) =>
      var issues := NumberIssues("id", Field(fields, "id"))
        + TitleIssues(Field(fields, "title"), true)
        + OptionalBoolIssues("completed", Field(fields, "completed"));
      if issues != [] then Rejected(issues)
      else
        Accepted(UpdateTodoInput(
          fields["id"].n,
          if "title" in fields then Some(fields["title"].s) else None,
          if "completed" in fields then Some(fields["completed"].b) else None))
    case _ => Rejected([Issue("", InvalidType)])
  }

  /** The `{ id: number }` shape that `deleteTodoInputSchema` and `getTodoInputSchema` share. */
  function ParseId(v: Value): (r: Parsed<int>)
    ensures r.Accepted? <==> v.VObject? && "id" in v.fields && v.fields["id"].VNumber?
    ensures r.Accepted? ==> r.value == v.fields["id"].n
    ensures r.Rejected? ==> |r.issues| == 1
  {
    match v
    case VObject(fields) =>
      var issues := NumberIssues("id", Field(fields, "id"));
      if issues == [] then Accepted(fields["id"].n) else Rejected(issues)
    case _ => Rejected([Issue("", InvalidType)])
  }

  /** `deleteTodoInputSchema`: `{ id: number }`. */
  function ParseDelete(v: Value): (r: Parsed<DeleteTodoInput>)
    ensures r.Accepted? <==> ParseId(v).Accepted?
    ensures r.Accepted? ==> r.value.id == v.fields["id"].n
  {
    match ParseId(v)
    case Accepted(id) => Accepted(DeleteTodoInput(id))
    case Rejected(issues) => Rejected(issues)
  }

  /** `getTodoInputSchema`: `{ id: number }`. */
  function ParseGet(v: Value): (r: Parsed<GetTodoInput>)
    ensures r.Accepted? <==> ParseId(v).Accepted?
    ensures r.Accepted? ==> r.value.id == v.fields["id"].n
  {
    match ParseId(v)
    case Accepted(id) => Accepted(GetTodoInput(id))
    case Rejected(issues) => Rejected(issues)
  }

  /** The request body a client sends for each input. */
  function EncodeCreate(input: CreateTodoInput): Value {
    VObject(map["title" := VString(input.title)])
  }

  function EncodeUpdate(input: UpdateTodoInput): Value {
    VObject(map["id" := VNumber(input.id)]
      + (if input.title.Some? then map["title" := VString(input.title.value)] else map[])
      + (if input.completed.Some? then map["completed" := VBool(input.completed.value)] else map[]))
  }

  function EncodeId(id: int): Value {
    VObject(map["id" := VNumber(id)])
  }

  /** A create input survives validation exactly when its title has 1 to 255 characters. */
  lemma CreateRoundTrip(input: CreateTodoInput)
    ensures ParseCreate(EncodeCreate(input)).Accepted? <==> ValidCreateInput(input)
    ensures ValidCreateInput(input) ==> ParseCreate(EncodeCreate(input)) == Accepted(input)
  {
  }

  /** An update input survives validation exactly when its title, if present, is in bounds. */
  lemma UpdateRoundTrip(input: UpdateTodoInput)
    ensures ParseUpdate(EncodeUpdate(input)).Accepted? <==> ValidUpdateInput(input)
    ensures ValidUpdateInput(input) ==> ParseUpdate(EncodeUpdate(input)) == Accepted(input)
  {
    var fields := EncodeUpdate(input).fields;
    assert "id" in fields && fields["id"] == VNumber(input.id);
    assert ("title" in fields) == input.title.Some?;
    assert input.title.Some? ==> fields["title"] == VString(input.title.value);
    assert ("completed" in fields) == input.completed.Some?;
    assert input.completed.Some? ==> fields["completed"] == VBool(input.completed.value);
  }

  /** Delete and get inputs carry a single required id, so every id is accepted. */
  lemma IdRoundTrip(id: int)
    ensures ParseDelete(EncodeId(id)) == Accepted(DeleteTodoInput(id))
    ensures ParseGet(EncodeId(id)) == Accepted(GetTodoInput(id))
  {
  }

  /** Keys outside the update shape are dropped and do not affect the outcome. */
  lemma UpdateIgnoresUnknownKeys(fields: map<string, Value>, key: string, extra: Value)
    requires key !in {"id", "title", "completed"}
    ensures ParseUpdate(VObject(fields[key := extra])) == ParseUpdate(VObject(fields))
  {
    var fields' := fields[key := extra];
    assert Field(fields', "id") == Field(fields, "id");
    assert Field(fields', "title") == Field(fields, "title");
    assert Field(fields', "completed") == Field(fields, "completed");
  }

  /** Validation does not trim: a title of a single space is accepted. */
  lemma WhitespaceTitleAccepted()
    ensures ParseCreate(VObject(map["title" := VString(" ")])) == Accepted(CreateTodoInput(" "))
  {
  }

  /** The two title bounds, with the messages the schema attaches to them. */
  lemma TitleBoundIssues()
    ensures ParseCreate(EncodeCreate(CreateTodoInput(""))) ==
      Rejected([Issue("title", TooSmall(1, "Title cannot be empty"))])
    ensures ParseCreate(EncodeCreate(CreateTodoInput(seq(256, _ => 'a')))) ==
      Rejected([Issue("title", TooBig(255, "Title too long"))])
    ensures ParseCreate(EncodeCreate(CreateTodoInput(seq(255, _ => 'a')))).Accepted?
  {
  }

  /** An explicit `null` is not an absent field: an update with `completed: null` is rejected. */
  lemma NullIsNotAbsent(id: int)
    ensures ParseUpdate(VObject(map["id" := VNumber(id), "completed" := VNull])) ==
      Rejected([Issue("completed", InvalidType)])
  {
  }
}
