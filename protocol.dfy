/**
 * The two event bodies of the bridge and the pure steps around them:
 * building and encoding the outbound request, decoding the inbound reply,
 * and turning the reply a caller receives into that caller's result.
 */
module Protocol {
  import opened Wrappers
  import opened Json

  /** Largest value of the 64-bit unsigned id on the wire. */
  const U64Max: int := 0xFFFF_FFFF_FFFF_FFFF

  /** Placeholder used when a failed reply carries no error text. */
  const UnknownError: string := "unknown error"

  /** Body of the outbound `request` event. */
  datatype Request = Request(id: nat, methodName: string, payload: Option<Value>)

  /** Body of the inbound `response` event. */
  datatype Response = Response(id: nat, success: bool, data: Option<Value>, error: Option<string>)

  /** The errors a call can end with; each gives the text shown to the caller. */
  datatype Error =
    | SerializePayload
    | EmitRequest
    | Dropped(methodName: string)
    | Failed(methodName: string, message: string)

  function Describe(e: Error): string {
    match e
    case SerializePayload => "serialize frontend payload"
    case EmitRequest => "emit frontend invoke event"
    case Dropped(m) => "frontend invoke " + m + " dropped without response"
    case Failed(m, msg) => "frontend invoke " + m + " failed: " + msg
  }

  /** `t` occurs in `s` as a contiguous piece. */
  predicate Contains(s: string, t: string) {
    exists i, j :: 0 <= i <= j <= |s| && s[i..j] == t
  }

  // ---------------------------------------------------------------------
  // Outbound request
  // ---------------------------------------------------------------------

  /** The request for an allocated id: a null payload is left out. */
  function NewRequest(id: nat, methodName: string, payloadValue: Value): Request {
    Request(id, methodName, if payloadValue.Null? then None else Some(payloadValue))
  }

  /** Wire form of a request: an object whose `payload` key is skipped when there is none. */
  function EncodeRequest(r: Request): Value {
    var base := map["id" := Number(r.id), "method" := Str(r.methodName)];
    Obj(if r.payload.Some? then base["payload" := r.payload.value] else base)
  }

  /** What a reader of the wire form takes as the payload: the `payload` key, or null without one. */
  function PayloadOnWire(wire: Value): Value {
    if wire.Obj? && "payload" in wire.fields then wire.fields["payload"] else Null
  }

  /** The built request carries the id and the method name, and its payload is absent exactly for null. */
  lemma NewRequestShape(id: nat, methodName: string, p: Value)
    ensures NewRequest(id, methodName, p).id == id
    ensures NewRequest(id, methodName, p).methodName == methodName
    ensures NewRequest(id, methodName, p).payload.None? <==> p == Null
    ensures NewRequest(id, methodName, p).payload.Some? ==> NewRequest(id, methodName, p).payload.value == p
  {
  }

  /**
   * The encoded request has `id` and `method`, has a `payload` key exactly when the
   * payload is not null, and a reader recovers the payload either way.
   */
  lemma EncodedRequestRoundTrip(id: nat, methodName: string, p: Value)
    ensures var wire := EncodeRequest(NewRequest(id, methodName, p));
      && wire.Obj?
      && "id" in wire.fields && wire.fields["id"] == Number(id)
      && "method" in wire.fields && wire.fields["method"] == Str(methodName)
      && ("payload" in wire.fields <==> p != Null)
      && PayloadOnWire(wire) == p
  {
  }

  // ---------------------------------------------------------------------
  // Inbound reply
  // ---------------------------------------------------------------------

  predicate IsU64(v: Value) {
    v.Number? && 0 <= v.n <= U64Max
  }

  /** An optional field: absent and null both read as `None`. */
  function OptionalField(f: map<string, Value>, key: string): Option<Value> {
    if key !in f || f[key] == Null then None else Some(f[key])
  }

  /** A field of an object body; a missing key reads as null. */
  function FieldOr(f: map<string, Value>, key: string): Value {
    if key in f then f[key] else Null
  }

  /** An element of an array body; a missing position reads as null. */
  function ItemOr(a: seq<Value>, k: nat): Value {
    if k < |a| then a[k] else Null
  }

  /**
   * The reply is well formed: an object with the fields by name, or an array of two
   * to four elements with the fields by position (`id`, `success`, `data`, `error`);
   * `id` is a 64-bit unsigned number, `success` a boolean, and `error`, when there,
   * null or a string.
   */
  predicate WellFormedResponse(v: Value) {
    match v
    case Obj(f) =>
      && "id" in f && IsU64(f["id"])
      && "success" in f && f["success"].Bool?
      && ("error" in f ==> f["error"].Null? || f["error"].Str?)
    case Arr(a) =>
      && 2 <= |a| <= 4
      && IsU64(a[0])
      && a[1].Bool?
      && (|a| == 4 ==> a[3].Null? || a[3].Str?)
    case _ => false
  }

  /** The four decoded fields; a null `data` or `error` reads as `None`. */
  function DecodeFields(id: Value, success: Value, data: Value, error: Value): Option<Response> {
    if IsU64(id) && success.Bool? && (error.Null? || error.Str?) then
      Some(Response(id.n, success.b,
                    if data.Null? then None else Some(data),
                    if error.Str? then Some(error.s) else None))
    else None
  }

  /**
   * Decoding of the inbound body, as the derived deserializer does it: the fields
   * come by name from an object (other keys are ignored) or by position from an
   * array of at most four elements; `data` and `error` may be missing or null.
   */
  function DecodeResponse(v: Value): (r: Option<Response>)
    ensures r.Some? <==> WellFormedResponse(v)
    ensures r.Some? && v.Obj? ==>
      && r.value.id == v.fields["id"].n
      && r.value.success == v.fields["success"].b
      && r.value.data == OptionalField(v.fields, "data")
      && r.value.error == if "error" in v.fields && v.fields["error"].Str? then Some(v.fields["error"].s) else None
    ensures r.Some? && v.Arr? ==>
      && r.value.id == v.items[0].n
      && r.value.success == v.items[1].b
      && r.value.data == (if |v.items| >= 3 && v.items[2] != Null then Some(v.items[2]) else None)
      && r.value.error == if |v.items| == 4 && v.items[3].Str? then Some(v.items[3].s) else None
  {
    match v
    case Obj(f) =>
      DecodeFields(FieldOr(f, "id"), FieldOr(f, "success"), FieldOr(f, "data"), FieldOr(f, "error"))
    case Arr(a) =>
      if 2 <= |a| <= 4 then DecodeFields(a[0], a[1], ItemOr(a, 2), ItemOr(a, 3)) else None
    case _ => None
  }

  /** Wire form of a reply as the frontend emits it: absent fields are left out. */
  function EncodeResponse(r: Response): Value {
    var base := map["id" := Number(r.id), "success" := Bool(r.success)];
    var withData := if r.data.Some? then base["data" := r.data.value] else base;
    Obj(if r.error.Some? then withData["error" := Str(r.error.value)] else withData)
  }

  /** A reply the frontend can emit decodes to itself. */
  lemma DecodeEncodeResponse(r: Response)
    requires r.id <= U64Max
    requires r.data != Some(Null)
    ensures DecodeResponse(EncodeResponse(r)) == Some(r)
  {
    var f := EncodeResponse(r).fields;
    assert f["id"] == Number(r.id) && f["success"] == Bool(r.success);
    assert OptionalField(f, "data") == r.data;
  }

  /** An object body without `id`, or whose `id` is not a 64-bit unsigned number, decodes to nothing. */
  lemma MissingIdIsMalformed(v: Value)
    requires v.Obj? && ("id" !in v.fields || !IsU64(v.fields["id"]))
    ensures DecodeResponse(v) == None
  {
  }

  /** An array body of all four fields decodes as the object with those fields by name. */
  lemma ArrayFormMatchesObjectForm(id: Value, success: Value, data: Value, error: Value)
    ensures DecodeResponse(Arr([id, success, data, error])) ==
      DecodeResponse(Obj(map["id" := id, "success" := success, "data" := data, "error" := error]))
  {
  }

  /** An array body with fewer than two or more than four elements decodes to nothing. */
  lemma ArrayLengthOutOfRange(a: seq<Value>)
    requires |a| < 2 || 4 < |a|
    ensures DecodeResponse(Arr(a)) == None
  {
  }

  // ---------------------------------------------------------------------
  // The caller's result
  // ---------------------------------------------------------------------

  /** A delivered reply as the caller's result: `data` (null when absent) or an error naming the method. */
  function Interpret(methodName: string, resp: Response): Result<Value, Error> {
    if resp.success then Success(resp.data.GetOr(Null))
    else Failure(Failed(methodName, resp.error.GetOr(UnknownError)))
  }

  /** What the waiting call ends with: `None` means its handle closed with no reply. */
  function Await(methodName: string, received: Option<Response>): Result<Value, Error> {
    match received
    case None => Failure(Dropped(methodName))
    case Some(resp) => Interpret(methodName, resp)
  }

  /** A successful reply yields its data, or null when the reply has none. */
  lemma SuccessYieldsData(methodName: string, resp: Response)
    requires resp.success
    ensures Interpret(methodName, resp) == Success(if resp.data.Some? then resp.data.value else Null)
  {
  }

  /**
   * A failed reply yields an error whose text names the method and carries the
   * reply's error, or "unknown error" when the reply has none.
   */
  lemma FailureNamesMethodAndCause(methodName: string, resp: Response)
    requires !resp.success
    ensures Interpret(methodName, resp).Failure?
    ensures var text := Describe(Interpret(methodName, resp).error);
      && Contains(text, methodName)
      && Contains(text, if resp.error.Some? then resp.error.value else "unknown error")
  {
    var cause := resp.error.GetOr(UnknownError);
    var text := "frontend invoke " + methodName + " failed: " + cause;
    assert Describe(Interpret(methodName, resp).error) == text;
    var k := |"frontend invoke "|;
    assert text[k..k + |methodName|] == methodName;
    assert text[|text| - |cause|..|text|] == cause;
  }

  /** A closed handle yields an error naming the method. */
  lemma DroppedNamesMethod(methodName: string)
    ensures Await(methodName, None).Failure?
    ensures Contains(Describe(Await(methodName, None).error), methodName)
  {
    var text := Describe(Dropped(methodName));
    var k := |"frontend invoke "|;
    assert text[k..k + |methodName|] == methodName;
  }
}
