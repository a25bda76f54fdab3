/** The two body validators of src/middleware/notemiddleware.js. Each either lets
    the request through to `next` or answers 400; the result type makes the two
    outcomes exclusive and exhaustive. */
module NoteMiddleware {
  import opened Js

  datatype Verdict = Next | Reject(status: nat, error: string)

  const MsgCreateRequired := "Title and content are required"
  const MsgUpdateRequired := "Title or content are required"

  /** The `title` field of the body, where a missing or falsy body reads as an
      empty object. */
  function Title(body: JsValue): JsValue {
    Prop(if Truthy(body) then body else Obj(map[]), "title")
  }

  function Content(body: JsValue): JsValue {
    Prop(if Truthy(body) then body else Obj(map[]), "content")
  }

  /** `validatesCreatedNotes`: rejects unless both title and content are truthy. */
  function ValidatesCreatedNotes(body: JsValue): Verdict {
    if !Truthy(Title(body)) || !Truthy(Content(body)) then Reject(400, MsgCreateRequired) else Next
  }

  /** `validatesUpdatedNotes`: rejects only when both are falsy. */
  function ValidatesUpdatedNotes(body: JsValue): Verdict {
    if !Truthy(Title(body)) && !Truthy(Content(body)) then Reject(400, MsgUpdateRequired) else Next
  }

  lemma CreateAcceptsIff(body: JsValue)
    ensures ValidatesCreatedNotes(body) == Next <==> Truthy(Prop(body, "title")) && Truthy(Prop(body, "content"))
    ensures ValidatesCreatedNotes(body) != Next ==> ValidatesCreatedNotes(body) == Reject(400, MsgCreateRequired)
  {
  }

  lemma UpdateAcceptsIff(body: JsValue)
    ensures ValidatesUpdatedNotes(body) == Next <==> Truthy(Prop(body, "title")) || Truthy(Prop(body, "content"))
    ensures ValidatesUpdatedNotes(body) != Next ==> ValidatesUpdatedNotes(body) == Reject(400, MsgUpdateRequired)
  {
  }

  /** A missing (or otherwise falsy) body is rejected by both validators. */
  lemma MissingBodyRejected(body: JsValue)
    requires !Truthy(body)
    ensures ValidatesCreatedNotes(body) == Reject(400, MsgCreateRequired)
    ensures ValidatesUpdatedNotes(body) == Reject(400, MsgUpdateRequired)
  {
  }

  /** Whatever the create validator accepts, the update validator accepts too. */
  lemma CreateAcceptedImpliesUpdateAccepted(body: JsValue)
    ensures ValidatesCreatedNotes(body) == Next ==> ValidatesUpdatedNotes(body) == Next
  {
  }

  /** `""`, `0`, `false` and `null` count as missing, just as an absent field does. */
  lemma FalsyFieldsMissing(v: JsValue)
    requires v in {Undefined, Null, Bool(false), Num(0), Str("")}
    ensures ValidatesCreatedNotes(Obj(map["title" := v, "content" := Str("hello")])) == Reject(400, MsgCreateRequired)
    ensures ValidatesUpdatedNotes(Obj(map["title" := v, "content" := v])) == Reject(400, MsgUpdateRequired)
  {
  }
}
