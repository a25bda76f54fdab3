/** The Express error handler of src/middleware/errorHandler.js: it maps a thrown
    error to one JSON response through two `||` defaults and never calls `next`.
    The `console.error` line is not modelled. */
module ErrorHandling {
  import opened Js

  const MsgUnexpected := "An unexpected error occurred"

  /** The response written: a status code and a JSON body with `status` and `message`.
      The status is whatever `err.statusCode` held when truthy. */
  datatype ErrorResponse = ErrorResponse(statusCode: JsValue, status: string, message: JsValue)

  /** `errorHandler(err, req, res, _next)`. Express hands an error handler only a
      truthy error; its result is one response, and there is no way to call `next`. */
  function ErrorHandler(err: JsValue): ErrorResponse
    requires Truthy(err)
  {
    var statusCode := if Truthy(Prop(err, "statusCode")) then Prop(err, "statusCode") else Num(500);
    var message := if Truthy(Prop(err, "message")) then Prop(err, "message") else Str(MsgUnexpected);
    ErrorResponse(statusCode, "error", message)
  }

  /** The status is the error's own `statusCode` when truthy, and 500 otherwise:
      an absent code, 0, "" and null all give 500. */
  lemma StatusDefault(err: JsValue)
    requires Truthy(err)
    ensures Truthy(Prop(err, "statusCode")) ==> ErrorHandler(err).statusCode == Prop(err, "statusCode")
    ensures !Truthy(Prop(err, "statusCode")) ==> ErrorHandler(err).statusCode == Num(500)
    ensures Truthy(ErrorHandler(err).statusCode)
  {
  }

  /** The message is the error's own `message` when truthy, and the generic text otherwise. */
  lemma MessageDefault(err: JsValue)
    requires Truthy(err)
    ensures Truthy(Prop(err, "message")) ==> ErrorHandler(err).message == Prop(err, "message")
    ensures !Truthy(Prop(err, "message")) ==> ErrorHandler(err).message == Str(MsgUnexpected)
    ensures Truthy(ErrorHandler(err).message)
  {
  }

  /** The body's `status` field is always "error". */
  lemma StatusFieldIsError(err: JsValue)
    requires Truthy(err)
    ensures ErrorHandler(err).status == "error"
  {
  }

  /** An error with `statusCode: 0` and an empty message gets the two defaults. */
  lemma ZeroCodeAndEmptyMessage()
    ensures ErrorHandler(Obj(map["statusCode" := Num(0), "message" := Str("")])) ==
      ErrorResponse(Num(500), "error", Str(MsgUnexpected))
  {
  }
}
