/** How decoding and encoding fit together: for the types that have both a
    decoder and an encoder, decoding an encoding gives back the value. */
module RoundTrip {
  import opened Native
  import opened Json
  import opened FromJson
  import opened ToJson

  /** True if `dec` undoes `enc` on `x`. */
  ghost predicate Inverts<T>(dec: Decoder<T>, enc: Encoder<T>, x: T) {
    dec(enc(x)) == Ok(x)
  }

  /** A `bool` survives encoding and decoding. */
  lemma BoolRoundTrip(b: bool)
    ensures DecodeBool(EncodeBool(b)) == Ok(b)
  {
  }

  /** A `String` survives encoding and decoding, whichever variant the crate
      stores it in. */
  lemma StringRoundTrip(storesShort: string -> bool, s: string)
    ensures DecodeString(EncodeString(storesShort, s)) == Ok(s)
  {
  }

  /** A float decodes back to itself exactly when the crate's conversions to
      and from `Number` for the same width undo each other on it. */
  lemma FloatRoundTrip(toF32: Num -> F32, fromF32: F32 -> Num, x: F32, toF64: Num -> F64, fromF64: F64 -> Num, y: F64)
    ensures DecodeF32(toF32, EncodeF32(fromF32, x)) == Ok(x) <==> toF32(fromF32(x)) == x
    ensures DecodeF64(toF64, EncodeF64(fromF64, y)) == Ok(y) <==> toF64(fromF64(y)) == y
  {
  }

  /** A vector survives encoding and decoding whenever each of its elements
      does. */
  lemma {:induction false} VecRoundTrip<T>(dec: Decoder<T>, enc: Encoder<T>, xs: seq<T>)
    requires forall i :: 0 <= i < |xs| ==> Inverts(dec, enc, xs[i])
    ensures DecodeVec(dec, EncodeVec(enc, xs)) == Ok(xs)
  {
    var j := EncodeVec(enc, xs);
    assert AllAccepted(dec, j.elems) by {
      forall i | 0 <= i < |j.elems|
        ensures dec(j.elems[i]).Ok?
      {
        assert Inverts(dec, enc, xs[i]);
      }
    }
    var r := DecodeVec(dec, j);
    assert r.value == xs by {
      forall i | 0 <= i < |xs|
        ensures r.value[i] == xs[i]
      {
        assert Inverts(dec, enc, xs[i]);
      }
    }
  }

  /** A `Vec<bool>` survives encoding and decoding. */
  lemma BoolVecRoundTrip(bs: seq<bool>)
    ensures DecodeVec(DecodeBool, EncodeVec(EncodeBool, bs)) == Ok(bs)
  {
    forall i | 0 <= i < |bs|
      ensures Inverts(DecodeBool, EncodeBool, bs[i])
    {
      BoolRoundTrip(bs[i]);
    }
    VecRoundTrip(DecodeBool, EncodeBool, bs);
  }

  /** A `Vec<String>` survives encoding and decoding. */
  lemma StringVecRoundTrip(storesShort: string -> bool, ss: seq<string>)
    ensures DecodeVec(DecodeString, EncodeVec(s => EncodeString(storesShort, s), ss)) == Ok(ss)
  {
    var enc := s => EncodeString(storesShort, s);
    forall i | 0 <= i < |ss|
      ensures Inverts(DecodeString, enc, ss[i])
    {
      StringRoundTrip(storesShort, ss[i]);
    }
    VecRoundTrip(DecodeString, enc, ss);
  }

  /** The container laws compose: a `Vec<Vec<bool>>` survives encoding and
      decoding too. */
  lemma NestedBoolVecRoundTrip(bss: seq<seq<bool>>)
    ensures DecodeVec(j => DecodeVec(DecodeBool, j), EncodeVec(bs => EncodeVec(EncodeBool, bs), bss)) == Ok(bss)
  {
    var dec: Decoder<seq<bool>> := j => DecodeVec(DecodeBool, j);
    var enc: Encoder<seq<bool>> := bs => EncodeVec(EncodeBool, bs);
    forall i | 0 <= i < |bss|
      ensures Inverts(dec, enc, bss[i])
    {
      BoolVecRoundTrip(bss[i]);
    }
    VecRoundTrip(dec, enc, bss);
  }

  /** With the corrected `Option` decoder, an `Option<T>` survives encoding and
      decoding when `T`'s encoding of the present value round-trips and is not
      `Null` (so not for `Option<Option<T>>`). */
  lemma OptionRoundTripCorrected<T>(dec: Decoder<T>, enc: Encoder<T>, o: Option<T>)
    requires o.Some? ==> Inverts(dec, enc, o.value) && !enc(o.value).Null?
    ensures DecodeOptionCorrected(dec, EncodeOption(enc, o)) == Ok(o)
  {
  }

  /** The code as written cannot decode what it encodes for a present
      `Option<bool>`: it never returns on it. */
  lemma OptionBoolAsWrittenNoRoundTrip(b: bool, depth: nat)
    ensures ParseOptionWithin(DecodeBool, EncodeOption(EncodeBool, Some(b)), depth) == OutOfDepth
  {
  }
}
