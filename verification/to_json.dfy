/** Encoding (`ToJSON::to_json`): from a native value to a `JsonValue`.
    Encoding is total: every value of a supported type has an encoding. */
module ToJson {
  import opened Native
  import opened Json

  /** The `to_json` function of one `ToJSON` implementation. */
  type Encoder<!T> = T -> JsonValue

  /** `to_json` for `bool`. */
  function EncodeBool(b: bool): (r: JsonValue)
    ensures r.Boolean? && r.b == b
  {
    Boolean(b)
  }

  /** `to_json` for `u8`; `fromU8` stands for the `json` crate's
      `From<u8> for Number`. */
  function EncodeU8(fromU8: U8 -> Num, x: U8): (r: JsonValue)
    ensures r.Number? && r.num == fromU8(x)
  {
    Number(fromU8(x))
  }

  /** `to_json` for `f32`, with `fromF32` standing for `From<f32> for Number`. */
  function EncodeF32(fromF32: F32 -> Num, x: F32): (r: JsonValue)
    ensures r.Number? && r.num == fromF32(x)
  {
    Number(fromF32(x))
  }

  /** `to_json` for `f64`, with `fromF64` standing for `From<f64> for Number`. */
  function EncodeF64(fromF64: F64 -> Num, x: F64): (r: JsonValue)
    ensures r.Number? && r.num == fromF64(x)
  {
    Number(fromF64(x))
  }

  /** `to_json` for `String`, through the crate's `JsonValue::from(&str)`.
      The crate decides whether the text is stored inline (`Short`) or on the
      heap (`String`); `storesShort` stands for that decision. Either way the
      text is the one given. */
  function EncodeString(storesShort: string -> bool, s: string): (r: JsonValue)
    ensures IsText(r) && r.text == s
    ensures r.Short? <==> storesShort(s)
  {
    if storesShort(s) then Short(s) else String(s)
  }

  /** `to_json` for `Option<T>`, given `T`'s encoder: absence is `Null`, a
      present value is encoded exactly as `T` encodes it. */
  function EncodeOption<T>(enc: Encoder<T>, o: Option<T>): (r: JsonValue)
    ensures o.None? ==> r == Null
    ensures o.Some? ==> r == enc(o.value)
  {
    match o
    case Some(v) => enc(v)
    case None => Null
  }

  /** `self.iter().map(to_json).collect()`: the encodings of `xs`, in order. */
  function EncodeElems<T>(enc: Encoder<T>, xs: seq<T>): (r: seq<JsonValue>)
    ensures |r| == |xs|
    ensures forall i :: 0 <= i < |xs| ==> r[i] == enc(xs[i])
  {
    if xs == [] then [] else [enc(xs[0])] + EncodeElems(enc, xs[1..])
  }

  /** `to_json` for `Vec<T>`, given `T`'s encoder. */
  function EncodeVec<T>(enc: Encoder<T>, xs: seq<T>): (r: JsonValue)
    ensures r.Array? && |r.elems| == |xs|
    ensures forall i :: 0 <= i < |xs| ==> r.elems[i] == enc(xs[i])
  {
    Array(EncodeElems(enc, xs))
  }

  /** Encoding a vector commutes with concatenation: the encoding of `xs + ys`
      lists the encodings of `xs` and then those of `ys`. */
  lemma {:induction false} EncodeVecAppend<T>(enc: Encoder<T>, xs: seq<T>, ys: seq<T>)
    ensures EncodeVec(enc, xs + ys).elems == EncodeVec(enc, xs).elems + EncodeVec(enc, ys).elems
  {
    var l, a, b := EncodeVec(enc, xs + ys).elems, EncodeVec(enc, xs).elems, EncodeVec(enc, ys).elems;
    assert |l| == |a + b|;
    forall i | 0 <= i < |l|
      ensures l[i] == (a + b)[i]
    {
      if i < |xs| {
        assert (xs + ys)[i] == xs[i];
      } else {
        assert (xs + ys)[i] == ys[i - |xs|];
      }
    }
  }

  /** The scalar encoders never produce `Null` and never produce an `Object`,
      whatever the crate's numeric conversions and string representation. */
  lemma ScalarEncodingsAreObjectFree(
    fromU8: U8 -> Num, fromF32: F32 -> Num, fromF64: F64 -> Num, storesShort: string -> bool,
    b: bool, u: U8, x: F32, y: F64, s: string)
    ensures ObjectFree(EncodeBool(b)) && !EncodeBool(b).Null?
    ensures ObjectFree(EncodeU8(fromU8, u)) && !EncodeU8(fromU8, u).Null?
    ensures ObjectFree(EncodeF32(fromF32, x)) && !EncodeF32(fromF32, x).Null?
    ensures ObjectFree(EncodeF64(fromF64, y)) && !EncodeF64(fromF64, y).Null?
    ensures ObjectFree(EncodeString(storesShort, s)) && !EncodeString(storesShort, s).Null?
  {
  }

  /** The container encoders never introduce an `Object`: if the element
      encodings are free of objects, so are the encodings of `Option<T>` and
      `Vec<T>`. With the scalar case this covers every supported type. */
  lemma ContainerEncodingsAreObjectFree<T>(enc: Encoder<T>, o: Option<T>, xs: seq<T>)
    requires o.Some? ==> ObjectFree(enc(o.value))
    requires forall i :: 0 <= i < |xs| ==> ObjectFree(enc(xs[i]))
    ensures ObjectFree(EncodeOption(enc, o))
    ensures ObjectFree(EncodeVec(enc, xs))
  {
    var r := EncodeVec(enc, xs);
    assert forall i :: 0 <= i < |r.elems| ==> ObjectFree(r.elems[i]) by {
      forall i | 0 <= i < |r.elems|
        ensures ObjectFree(r.elems[i])
      {
        assert r.elems[i] == enc(xs[i]);
      }
    }
  }

  /** `Option<Option<T>>` loses information: a present absence encodes
      exactly as an absence does. */
  lemma NestedOptionCollapses<T>(enc: Encoder<T>)
    ensures EncodeOption(o => EncodeOption(enc, o), Some(None)) == EncodeOption(o => EncodeOption(enc, o), None)
  {
  }
}
