/** Decoding (`FromJSON::parse`): from a `JsonValue` to a native value of a
    statically known type. Decoding is partial: a value of the wrong shape is
    reported as a `ParseError`. */
module FromJson {
  import opened Native
  import opened Json

  /** `ParseError`: the value was `Null` where a value was required, or its
      tag does not fit the requested type. */
  datatype ParseError = TypeMismatch | UnexpectedNull

  /** Rust's `Result<T, ParseError>`, the crate's `JsonResult<T>`. */
  datatype JsonResult<T> = Ok(value: T) | Err(error: ParseError)

  /** The `parse` function of one `FromJSON` implementation. */
  type Decoder<T> = JsonValue -> JsonResult<T>

  /** The policy every decoder except the `Option` one follows: `Null` is
      refused with `UnexpectedNull`, and every other tag that the decoder does
      not take is refused with `TypeMismatch`. `tagTaken` says whether the
      decoder takes the tag of `j`. */
  predicate RefusesOthers<T>(j: JsonValue, tagTaken: bool, r: JsonResult<T>) {
    && (j.Null? ==> r == Err(UnexpectedNull))
    && (!j.Null? && !tagTaken ==> r == Err(TypeMismatch))
  }

  /** `parse` for `f32`. The conversion `From<Number> for f32` belongs to the
      `json` crate; `toF32` stands for it. */
  function DecodeF32(toF32: Num -> F32, j: JsonValue): (r: JsonResult<F32>)
    ensures RefusesOthers(j, j.Number?, r)
    ensures r.Ok? <==> j.Number?
    ensures r.Ok? ==> r.value == toF32(j.num)
  {
    match j
    case Number(n) => Ok(toF32(n))
    case Null => Err(UnexpectedNull)
    case _ => Err(TypeMismatch)
  }

  /** `parse` for `f64`, with `toF64` standing for `From<Number> for f64`. */
  function DecodeF64(toF64: Num -> F64, j: JsonValue): (r: JsonResult<F64>)
    ensures RefusesOthers(j, j.Number?, r)
    ensures r.Ok? <==> j.Number?
    ensures r.Ok? ==> r.value == toF64(j.num)
  {
    match j
    case Number(n) => Ok(toF64(n))
    case Null => Err(UnexpectedNull)
    case _ => Err(TypeMismatch)
  }

  /** `parse` for `String`: both string variants are accepted and give the
      text they carry. */
  function DecodeString(j: JsonValue): (r: JsonResult<string>)
    ensures RefusesOthers(j, IsText(j), r)
    ensures r.Ok? <==> IsText(j)
    ensures r.Ok? ==> r.value == j.text
  {
    match j
    case String(s) => Ok(s)
    case Short(s) => Ok(s)
    case Null => Err(UnexpectedNull)
    case _ => Err(TypeMismatch)
  }

  /** `parse` for `bool`. */
  function DecodeBool(j: JsonValue): (r: JsonResult<bool>)
    ensures RefusesOthers(j, j.Boolean?, r)
    ensures r.Ok? <==> j.Boolean?
    ensures r.Ok? ==> j == Boolean(r.value)
  {
    match j
    case Boolean(b) => Ok(b)
    case Null => Err(UnexpectedNull)
    case _ => Err(TypeMismatch)
  }

  /** True if `k` is the lowest index of `elems` that `dec` rejects. */
  predicate IsFirstRejected<T>(dec: Decoder<T>, elems: seq<JsonValue>, k: int) {
    && 0 <= k < |elems|
    && dec(elems[k]).Err?
    && forall i :: 0 <= i < k ==> dec(elems[i]).Ok?
  }

  /** `elems.iter().map(parse).collect()`: collecting into a `Result` decodes
      the elements from left to right and stops at the first error. */
  function DecodeElems<T>(dec: Decoder<T>, elems: seq<JsonValue>): (r: JsonResult<seq<T>>)
    ensures AllAccepted(dec, elems) ==> r.Ok?
    ensures r.Ok? ==> |r.value| == |elems|
    ensures r.Ok? ==> forall i :: 0 <= i < |elems| ==> dec(elems[i]) == Ok(r.value[i])
    ensures forall k :: IsFirstRejected(dec, elems, k) ==> r == Err(dec(elems[k]).error)
  {
    if elems == [] then Ok([])
    else
      match dec(elems[0])
      case Err(e) => Err(e)
      case Ok(x) =>
        var rest := DecodeElems(dec, elems[1..]);
        assert forall k :: IsFirstRejected(dec, elems, k) ==> k > 0 && IsFirstRejected(dec, elems[1..], k - 1);
        match rest
        case Err(e) => Err(e)
        case Ok(xs) => Ok([x] + xs)
  }

  /** True if `dec` accepts every one of `elems`. */
  predicate AllAccepted<T>(dec: Decoder<T>, elems: seq<JsonValue>) {
    forall i :: 0 <= i < |elems| ==> dec(elems[i]).Ok?
  }

  /** `parse` for `Vec<T>`, given `T`'s decoder. */
  function DecodeVec<T>(dec: Decoder<T>, j: JsonValue): (r: JsonResult<seq<T>>)
    ensures RefusesOthers(j, j.Array?, r)
    ensures r.Ok? <==> j.Array? && AllAccepted(dec, j.elems)
    ensures j == Array([]) ==> r == Ok([])
    ensures j.Array? && r.Ok? ==> |r.value| == |j.elems|
    ensures j.Array? && r.Ok? ==> forall i :: 0 <= i < |j.elems| ==> dec(j.elems[i]) == Ok(r.value[i])
    ensures j.Array? ==> forall k :: IsFirstRejected(dec, j.elems, k) ==> r == Err(dec(j.elems[k]).error)
  {
    match j
    case Array(a) => DecodeElems(dec, a)
    case Null => Err(UnexpectedNull)
    case _ => Err(TypeMismatch)
  }

  /** A failed element decode always reports the error of the lowest-index
      element the element decoder rejects; `k` is that index. */
  lemma {:induction false} ElemsErrorIsFirstRejected<T>(dec: Decoder<T>, elems: seq<JsonValue>) returns (k: int)
    requires DecodeElems(dec, elems).Err?
    ensures IsFirstRejected(dec, elems, k)
    ensures DecodeElems(dec, elems).error == dec(elems[k]).error
  {
    if dec(elems[0]).Err? {
      k := 0;
    } else {
      var k' := ElemsErrorIsFirstRejected(dec, elems[1..]);
      assert elems[1..][k'] == elems[k' + 1];
      k := k' + 1;
    }
  }

  /** What one activation of `Option<T>`'s `parse` does: return a result, or
      call `parse` for `Option<T>` again on `arg`. As written, `parse` calls
      `FromJSON::parse(v)` on every non-null value. The expected result type
      there is `JsonResult<Option<T>>`, so the call resolves to `Option<T>`'s
      own `parse` on the same value: it re-enters itself without progress
      instead of delegating to `T`. */
  datatype OptionStep<T> = Return(result: JsonResult<Option<T>>) | Reenter(arg: JsonValue)

  /** The body of `parse` for `Option<T>`, as written. `T`'s decoder `dec` is
      in scope (the `T: FromJSON` bound) but is never called. */
  function ParseOptionStep<T>(dec: Decoder<T>, j: JsonValue): OptionStep<T> {
    match j
    case Null => Return(Ok(None))
    case v => Reenter(v)
  }

  /** The outcome of running a computation with a bound on its call depth. */
  datatype Evaluation<R> = Returned(value: R) | OutOfDepth

  /** `parse` for `Option<T>`, as written, run with at most `depth` nested
      activations. It returns only on `Null`, and then with `Ok(None)`; on any
      other value no call depth is enough. */
  function ParseOptionWithin<T>(dec: Decoder<T>, j: JsonValue, depth: nat): (r: Evaluation<JsonResult<Option<T>>>)
    ensures r.Returned? <==> j.Null? && depth > 0
    ensures r.Returned? ==> r.value == Ok(None)
    decreases depth
  {
    if depth == 0 then OutOfDepth
    else
      match ParseOptionStep(dec, j)
      case Return(res) => Returned(res)
      case Reenter(v) => ParseOptionWithin(dec, v, depth - 1)
  }

  /** A concrete input that shows the non-termination: `true` decoded as
      `Option<bool>` never returns, whatever depth is allowed. */
  lemma OptionBoolOnTrueNeverReturns(depth: nat)
    ensures ParseOptionWithin(DecodeBool, Boolean(true), depth) == OutOfDepth
  {
  }

  /** `parse` for `Option<T>` as evidently intended: `Null` is absent,
      any other value is decoded by `T`'s decoder and a success is wrapped as
      present. On `Null` it agrees with the code as written. */
  function DecodeOptionCorrected<T>(dec: Decoder<T>, j: JsonValue): (r: JsonResult<Option<T>>)
    ensures j.Null? ==> r == Ok(None)
    ensures !j.Null? ==> (r.Ok? <==> dec(j).Ok?)
    ensures !j.Null? && r.Ok? ==> r.value == Some(dec(j).value)
    ensures !j.Null? && r.Err? ==> r.error == dec(j).error
  {
    match j
    case Null => Ok(None)
    case v =>
      match dec(v)
      case Ok(x) => Ok(Some(x))
      case Err(e) => Err(e)
  }

  /** On `Null`, the corrected decoder gives what the code as written returns. */
  lemma CorrectedAgreesOnNull<T>(dec: Decoder<T>, depth: nat)
    requires depth > 0
    ensures ParseOptionWithin(dec, Null, depth) == Returned(DecodeOptionCorrected(dec, Null))
  {
  }

  /** `Null` is refused with `UnexpectedNull` by every decoder except the
      `Option` one, which maps it to `Ok(None)`. */
  lemma NullPolicy<T>(toF32: Num -> F32, toF64: Num -> F64, dec: Decoder<T>, depth: nat)
    requires depth > 0
    ensures DecodeF32(toF32, Null) == Err(UnexpectedNull)
    ensures DecodeF64(toF64, Null) == Err(UnexpectedNull)
    ensures DecodeString(Null) == Err(UnexpectedNull)
    ensures DecodeBool(Null) == Err(UnexpectedNull)
    ensures DecodeVec(dec, Null) == Err(UnexpectedNull)
    ensures ParseOptionWithin(dec, Null, depth) == Returned(Ok(None))
  {
  }

  /** No decoder accepts an `Object`. */
  lemma ObjectRejected<T>(toF32: Num -> F32, toF64: Num -> F64, dec: Decoder<T>, entries: seq<(string, JsonValue)>)
    ensures DecodeF32(toF32, Object(entries)) == Err(TypeMismatch)
    ensures DecodeF64(toF64, Object(entries)) == Err(TypeMismatch)
    ensures DecodeString(Object(entries)) == Err(TypeMismatch)
    ensures DecodeBool(Object(entries)) == Err(TypeMismatch)
    ensures DecodeVec(dec, Object(entries)) == Err(TypeMismatch)
  {
  }
}
