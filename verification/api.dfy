/**
 * The two helpers that turn what the HTTP client hands back into the app's uniform
 * `ApiResponse` record (src/services/api.ts:50-85): one for a response, one for a thrown error.
 * Both take an untyped JavaScript value, so the model works on JavaScript values and their
 * truthiness.
 */
module Api {
  import opened Wrappers

  /** A JavaScript value, as far as these helpers look into it. */
  datatype JsValue =
    | Undefined
    | Null
    | Bool(b: bool)
    | Number(n: int)
    | NaN
    | Str(s: string)
    | Object(props: map<string, JsValue>)

  /** JavaScript's `ToBoolean`: false, 0, NaN, "", null and undefined are falsy; every object is truthy. */
  predicate Truthy(v: JsValue) {
    match v
    case Undefined => false
    case Null => false
    case Bool(b) => b
    case Number(n) => n != 0
    case NaN => false
    case Str(s) => s != []
    case Object(_) => true
  }

  predicate Nullish(v: JsValue) {
    v == Undefined || v == Null
  }

  /** What evaluating an expression did: produced a value, or threw a `TypeError`. */
  datatype Thrown = TypeError

  /** `v.key`: throws on null and undefined; an absent property reads as undefined. */
  function Prop(v: JsValue, key: string): (r: Result<JsValue, Thrown>)
    ensures r.Err? <==> Nullish(v)
  {
    match v
    case Undefined => Err(TypeError)
    case Null => Err(TypeError)
    case Object(props) => Ok(if key in props then props[key] else Undefined)
    case _ => Ok(Undefined)
  }

  /** `v?.key`: undefined instead of a throw when `v` is null or undefined. */
  function OptionalProp(v: JsValue, key: string): JsValue {
    if Nullish(v) then Undefined else Prop(v, key).value
  }

  /** `ApiResponse<T>`: `data` and `error` are optional fields of the record. */
  datatype ApiResponse = ApiResponse(success: bool, data: Option<JsValue>, error: Option<JsValue>)

  const NoDataMessage: string := "No data received"
  const UnexpectedMessage: string := "An unexpected error occurred"

  /**
   * `handleApiResponse(response)`: success carrying `response.data` exactly when that is
   * truthy, otherwise a failure saying no data was received. Reading `data` of null or
   * undefined throws.
   */
  function HandleApiResponse(response: JsValue): (r: Result<ApiResponse, Thrown>)
    ensures r.Err? <==> Nullish(response)
    ensures r.Ok? ==> (r.value.success <==> Truthy(Prop(response, "data").value))
    ensures r.Ok? && r.value.success ==> r.value == ApiResponse(true, Some(Prop(response, "data").value), None)
    ensures r.Ok? && !r.value.success ==> r.value == ApiResponse(false, None, Some(Str(NoDataMessage)))
  {
    match Prop(response, "data")
    case Err(e) => Err(e)
    case Ok(data) =>
      if Truthy(data) then Ok(ApiResponse(true, Some(data), None))
      else Ok(ApiResponse(false, None, Some(Str(NoDataMessage))))
  }

  /** `error.response?.data?.message`. */
  function ResponseMessage(error: JsValue): JsValue
    requires !Nullish(error)
  {
    OptionalProp(OptionalProp(Prop(error, "response").value, "data"), "message")
  }

  /**
   * `handleApiError(error)`: always a failure with no data. Its message is the server's
   * `response.data.message` when truthy, else the error's own `message` when truthy, else a
   * fixed text. Reading `response` of null or undefined throws.
   */
  function HandleApiError(error: JsValue): (r: Result<ApiResponse, Thrown>)
    ensures r.Err? <==> Nullish(error)
    ensures r.Ok? ==> !r.value.success && r.value.data.None? && r.value.error.Some?
    ensures r.Ok? ==> Truthy(r.value.error.value)
    ensures r.Ok? && Truthy(ResponseMessage(error)) ==> r.value.error == Some(ResponseMessage(error))
    ensures r.Ok? && !Truthy(ResponseMessage(error)) && Truthy(Prop(error, "message").value)
            ==> r.value.error == Some(Prop(error, "message").value)
    ensures r.Ok? && !Truthy(ResponseMessage(error)) && !Truthy(Prop(error, "message").value)
            ==> r.value.error == Some(Str(UnexpectedMessage))
  {
    if Nullish(error) then Err(TypeError)
    else
      var serverMessage := ResponseMessage(error);
      if Truthy(serverMessage) then Ok(ApiResponse(false, None, Some(serverMessage)))
      else
        var message := Prop(error, "message").value;
        if Truthy(message) then Ok(ApiResponse(false, None, Some(message)))
        else Ok(ApiResponse(false, None, Some(Str(UnexpectedMessage))))
  }

  /** An object with a single property. */
  function With(key: string, v: JsValue): JsValue {
    Object(map[key := v])
  }

  /** The server's message wins over the error's own. */
  lemma ServerMessageWins(server: string, own: string)
    requires server != [] && own != []
    ensures var withBoth := Object(map["response" := With("data", With("message", Str(server))), "message" := Str(own)]);
      HandleApiError(withBoth) == Ok(ApiResponse(false, None, Some(Str(server))))
  {
  }

  /** An empty server message counts as none and gives way to the error's own. */
  lemma EmptyServerMessageGivesWay(own: string)
    requires own != []
    ensures var emptyServer := Object(map["response" := With("data", With("message", Str([]))), "message" := Str(own)]);
      HandleApiError(emptyServer) == Ok(ApiResponse(false, None, Some(Str(own))))
  {
  }

  /** An error with no message, or an empty one, gets the fixed text. */
  lemma NoMessageGivesFixedText()
    ensures HandleApiError(With("message", Str([]))) == Ok(ApiResponse(false, None, Some(Str(UnexpectedMessage))))
    ensures HandleApiError(Object(map[])) == Ok(ApiResponse(false, None, Some(Str(UnexpectedMessage))))
  {
  }

  /** A response without `data`, or whose `data` is the empty string, is not a success. */
  lemma MissingDataIsFailure()
    ensures HandleApiResponse(Object(map[])) == Ok(ApiResponse(false, None, Some(Str(NoDataMessage))))
    ensures HandleApiResponse(With("data", Str([]))) == Ok(ApiResponse(false, None, Some(Str(NoDataMessage))))
  {
  }
}
