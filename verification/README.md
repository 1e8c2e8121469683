# pelias JSON conversion layer, in Dafny

This project models the conversion layer between native Rust values and the
`json` crate's `JsonValue`. The layer has two parts.

- **Decoding** is `FromJSON::parse` in `src/from_json.rs`. It is partial and
  returns `Result<T, ParseError>`. `ParseError` is either `TypeMismatch` or
  `UnexpectedNull`. There are decoders for `f32`, `f64`, `String`, `bool`,
  `Vec<T>` and `Option<T>`.
- **Encoding** is `ToJSON::to_json` in `src/to_json.rs`. It is total. There
  are encoders for `bool`, `u8`, `f32`, `f64`, `String`, `Option<T>` and
  `Vec<T>`.

`u8` can be encoded but has no decoder in the source.

The project has five modules:

- `Native` holds the Rust value types. `f32` and `f64` are abstract types, `u8` is a newtype, and `Option` is a datatype.
- `Json` holds `JsonValue`. Its `Number` payload, `Num`, is kept abstract.
- `FromJson` holds the decoders.
- `ToJson` holds the encoders.
- `RoundTrip` holds the lemmas that connect the two directions.

Each generic implementation, for `Vec<T>` and `Option<T>`, is a higher-order
function. It takes the element type's decoder or encoder as an argument.

Some functions belong to the `json` crate, which is not part of this model.
They become parameters:

- the number conversions `From<Number> for f32/f64` and `From<u8/f32/f64> for Number`;
- the choice `JsonValue::from(&str)` makes between the inline `Short` variant and the heap `String` variant.

Every property is proved for all possible values of these parameters.

The `T: FromJSON` bound on the `Option<T>` decoder, and the way the other
container impls delegate to their element type, point to the intended
decoder: `Null` is absent, any other value goes to `T`'s `parse`, and a
success is wrapped in `Some`. The code does something else. Its non-null branch calls `FromJSON::parse(v)`. The expected type there
is `JsonResult<Option<T>>`, so Rust resolves that call to `Option<T>`'s own
`parse`, on the same value. The model follows the code: `ParseOptionWithin`
runs that decoder with a bound on call depth, and it is proved never to return
on non-null input. The intended decoder is listed under "## Findings".

## Model

| member | source | states |
|---|---|---|
| FromJson.DecodeF32 | src/from_json.rs:16-24 | succeeds if and only if the value is `Number`, with the crate's conversion of that number; `Null` gives `UnexpectedNull`; any other tag gives `TypeMismatch` (no coercion from text or booleans) |
| FromJson.DecodeF64 | src/from_json.rs:26-34 | the same as for `f32`, at 64-bit width |
| FromJson.DecodeString | src/from_json.rs:36-45 | succeeds if and only if the value is `String` or `Short`, and both give the text they carry; `Null` gives `UnexpectedNull`; any other tag gives `TypeMismatch` |
| FromJson.DecodeBool | src/from_json.rs:47-55 | gives `Ok(b)` exactly for `Boolean(b)`; `Null` gives `UnexpectedNull`; any other tag gives `TypeMismatch` |
| FromJson.DecodeElems | src/from_json.rs:61-63 | collecting the decoded elements succeeds if and only if every element decodes; the result then has the same length and its i-th item is the decoding of the i-th element; otherwise the result is the error of the lowest-index element that fails |
| FromJson.DecodeVec | src/from_json.rs:57-68 | an `Array` decodes as its elements do (order, length, first error); `Array([])` gives `Ok([])` for every element decoder; `Null` gives `UnexpectedNull`; any other tag gives `TypeMismatch` |
| FromJson.ElemsErrorIsFirstRejected | src/from_json.rs:61-63 | a failed collect always carries the error of an element the element decoder rejects while accepting every earlier element; the lemma gives that index |
| FromJson.ParseOptionWithin | src/from_json.rs:70-78 | the `Option<T>` decoder as written returns if and only if the value is `Null` (given a call depth of at least one), and then returns `Ok(None)`; on any other value no call depth is enough |
| FromJson.OptionBoolOnTrueNeverReturns | src/from_json.rs:75 | decoding `Boolean(true)` as `Option<bool>` does not return at any call depth |
| FromJson.CorrectedAgreesOnNull | src/from_json.rs:74 | on `Null` the code as written returns the same result as the intended decoder, `Ok(None)` |
| FromJson.NullPolicy | src/from_json.rs:16-78 | `Null` gives `UnexpectedNull` for `f32`, `f64`, `String`, `bool` and `Vec<T>`, and gives `Ok(None)` for `Option<T>` |
| FromJson.ObjectRejected | src/from_json.rs:16-68 | every decoder other than the `Option` one rejects an `Object` with `TypeMismatch` |
| ToJson.EncodeBool | src/to_json.rs:8-12 | gives a `Boolean` that carries the same value |
| ToJson.EncodeU8 | src/to_json.rs:14-18 | always gives a `Number`: the crate's conversion of the byte |
| ToJson.EncodeF32 | src/to_json.rs:20-24 | always gives a `Number`: the crate's conversion of the float |
| ToJson.EncodeF64 | src/to_json.rs:26-30 | always gives a `Number`: the crate's conversion of the float |
| ToJson.EncodeString | src/to_json.rs:32-36 | gives a text variant (`Short` or `String`) that carries exactly the given text |
| ToJson.EncodeOption | src/to_json.rs:38-46 | `None` gives `Null`; `Some(v)` gives exactly what the element encoder gives for `v` |
| ToJson.EncodeElems | src/to_json.rs:51-53 | mapping the encoder over the elements keeps the length, and the i-th encoding is that of the i-th element |
| ToJson.EncodeVec | src/to_json.rs:48-55 | gives an `Array` of the same length whose i-th element encodes the i-th input |
| ToJson.EncodeVecAppend | src/to_json.rs:51-53 | encoding preserves order: encoding `xs + ys` gives the encodings of `xs` followed by those of `ys` |
| ToJson.ScalarEncodingsAreObjectFree | src/to_json.rs:8-36 | the `bool`, `u8`, `f32`, `f64` and `String` encoders never give `Null` and never give an `Object` |
| ToJson.ContainerEncodingsAreObjectFree | src/to_json.rs:38-55 | the `Option` and `Vec` encoders introduce no `Object` when the element encodings contain none; so no encoding of a supported type contains an `Object` |
| ToJson.NestedOptionCollapses | src/to_json.rs:41-44 | `Some(None)` and `None` of type `Option<Option<T>>` have the same encoding, `Null` |
| RoundTrip.BoolRoundTrip | src/to_json.rs:8-12 | decoding the encoding of a `bool` gives it back |
| RoundTrip.StringRoundTrip | src/to_json.rs:32-36 | decoding the encoding of a `String` gives it back, whichever text variant the crate chose |
| RoundTrip.FloatRoundTrip | src/to_json.rs:20-30 | an `f32` or `f64` comes back from encoding and decoding if and only if the crate's conversions to and from `Number`, at the same width, undo each other on it |
| RoundTrip.VecRoundTrip | src/to_json.rs:48-55 | decoding the encoding of a `Vec<T>` gives it back whenever that holds for each of its elements |
| RoundTrip.BoolVecRoundTrip | src/to_json.rs:51-53 | decoding the encoding of a `Vec<bool>` gives it back |
| RoundTrip.StringVecRoundTrip | src/to_json.rs:51-53 | decoding the encoding of a `Vec<String>` gives it back |
| RoundTrip.NestedBoolVecRoundTrip | src/to_json.rs:51-53 | decoding the encoding of a `Vec<Vec<bool>>` gives it back |
| RoundTrip.OptionBoolAsWrittenNoRoundTrip | src/from_json.rs:75 | the encoding of a present `Option<bool>` is never decoded by the code as written, at any call depth |

## Left out

- The crate's number conversions are parameters here. They are `From<Number> for f32/f64` (src/from_json.rs:19,29) and `From<u8/f32/f64> for Number` (src/to_json.rs:16,22,28). They involve floating point and another crate, so the model states only which tag is produced or accepted, not which number.
- The representation of `json::number::Number`, and of `f32` and `f64`, is abstract. No numeric value or precision is modelled.
- The crate's choice between `Short` and `String` in `JsonValue::from(&str)` is a parameter. Its length threshold, and the fixed capacity of `Short`, are not modelled.
- FromJson.ParseOptionWithin: the runaway recursion is modelled as "no bounded call depth returns". What happens when Rust's stack is exhausted at run time is not modelled.
- Ownership and cloning are not modelled, because values are immutable here. This covers `s.clone()`, `as_str().to_string()` and the borrowed `&JsonValue`.
- Decoding into `u8`, and object/map decoding, are not modelled because they do not exist in the source. JSON text parsing and printing belong to the `json` crate and are not part of this model.

## Findings

| source | as written | input that shows it | evidently intended | confidence | as-written member | corrected member |
|---|---|---|---|---|---|---|
| src/from_json.rs:75 | The non-null branch `v => FromJSON::parse(v)` resolves to `Option<T>`'s own `parse`. It re-enters itself on the same value and never returns. | `Boolean(true)` decoded as `Option<bool>` | delegate to `T`'s `parse` and wrap a success in `Some`, passing an error through unchanged | high; not executed | FromJson.OptionBoolOnTrueNeverReturns | FromJson.DecodeOptionCorrected |

`FromJson.DecodeOptionCorrected` is the intended `Option<T>` decoder. These
are proved about it:

- `Null` gives `Ok(None)`.
- Any other value succeeds exactly when `T`'s decoder does, and the success is wrapped in `Some`.
- An error is passed through unchanged.
- `RoundTrip.OptionRoundTripCorrected` proves that an `Option<T>` comes back from encoding and decoding. This holds when `T` round-trips and never encodes to `Null`, so it does not hold for `Option<Option<T>>`.
