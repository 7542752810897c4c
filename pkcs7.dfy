/** PKCS#7 block padding (section 6.3 of RFC 5652, the same scheme as section
    10.3 of RFC 2315), with the extra parameter checks of src/padding/pkcs7.rs:
    empty data is refused, and so is a block size outside 1..255. */
module Pkcs7 {
  import opened Prelude
  import opened Padding
  import Arith

  /** The block sizes the strategy accepts: `block_size == 0 || block_size > u8::MAX` is refused. */
  predicate ValidBlockSize(blockSize: nat) {
    0 < blockSize <= 255
  }

  /** The last byte of `data`, read as the claimed number of padding bytes. */
  function LastByte(data: seq<u8>): u8
    requires |data| > 0
  {
    data[|data| - 1]
  }

  /** `data` ends in `p` copies of `p`, where `p` is its last byte and lies in 1..blockSize. */
  predicate WellPadded(data: seq<u8>, blockSize: nat)
    requires |data| > 0
  {
    var p := LastByte(data) as int;
    0 < p <= blockSize && p <= |data| &&
    forall i :: |data| - p <= i < |data| ==> data[i] as int == p
  }

  /** `apply_padding`: append `p = b - |data| mod b` bytes of value `p`. */
  function ApplyPadding(data: seq<u8>, blockSize: nat): (r: Result<seq<u8>, PaddingValidationError>)
    ensures r.Err? <==> |data| == 0 || !ValidBlockSize(blockSize)
    ensures r.Err? ==> r.error == ParameterError
    // on success: the input is kept as a prefix ...
    ensures r.Ok? ==> |r.value| > |data| && r.value[..|data|] == data
    // ... the length is the least multiple of the block size strictly above |data| ...
    ensures r.Ok? ==> |r.value| % blockSize == 0 && |r.value| <= |data| + blockSize
    // ... and every appended byte holds the number of bytes appended
    ensures r.Ok? ==> forall i :: |data| <= i < |r.value| ==> r.value[i] as int == |r.value| - |data|
  {
    if |data| == 0 then
      Err(ParameterError)
    else if blockSize == 0 || blockSize > 255 then
      Err(ParameterError)
    else
      var paddingValue := blockSize - |data| % blockSize;
      Arith.PaddedLength(|data|, blockSize);
      Ok(data + seq(paddingValue, _ => paddingValue as u8))
  }

  /** `validate_padding`. The source indexes `data[len - 1]` and computes
      `len - p`, so it panics on empty data and when a last byte `p` that
      passes the range check exceeds the length: both are excluded here. */
  function ValidatePadding(data: seq<u8>, blockSize: u8): (r: Result<(), PaddingValidationError>)
    requires |data| > 0
    requires var p := LastByte(data); p == 0 || p > blockSize || p as int <= |data|
    ensures r.Ok? <==> WellPadded(data, blockSize as nat)
    ensures r.Err? ==> r.error == PaddingError
  {
    var paddingValue := LastByte(data);
    if paddingValue == 0 || paddingValue > blockSize then
      Err(PaddingError)
    else
      var paddingStart := |data| - paddingValue as int;
      if forall i :: paddingStart <= i < |data| ==> data[i] == paddingValue then
        Ok(())
      else
        Err(PaddingError)
  }

  /** `strip_padding`: check the parameters, validate, and drop the last `p` bytes. */
  function StripPadding(data: seq<u8>, blockSize: nat): (r: Result<seq<u8>, PaddingValidationError>)
    ensures |data| == 0 || !ValidBlockSize(blockSize) || |data| % blockSize != 0 ==> r == Err(ParameterError)
    ensures |data| > 0 && ValidBlockSize(blockSize) && |data| % blockSize == 0 ==>
              (r.Ok? <==> WellPadded(data, blockSize))
    ensures |data| > 0 && ValidBlockSize(blockSize) && |data| % blockSize == 0 && !WellPadded(data, blockSize) ==>
              r == Err(PaddingError)
    ensures r.Err? ==> r.error == ParameterError || r.error == PaddingError
    // on success the result is a prefix of the input, shorter by the last byte's value
    ensures r.Ok? ==> |r.value| == |data| - LastByte(data) as int && r.value == data[..|r.value|]
  {
    if |data| == 0 then
      Err(ParameterError)
    else if blockSize == 0 || blockSize > 255 then
      Err(ParameterError)
    else if |data| % blockSize != 0 then
      Err(ParameterError)
    else
      // |data| >= blockSize >= p, so validate_padding cannot panic here
      Arith.MultipleAtLeast(|data|, blockSize);
      match ValidatePadding(data, blockSize as u8)
      case Err(e) => Err(e)
      case Ok(_) =>
        var paddingValue := LastByte(data);
        Ok(data[0..|data| - paddingValue as int])
  }

  /** Stripping undoes applying, for every input that `apply_padding` accepts. */
  lemma StripApply(data: seq<u8>, blockSize: nat)
    requires |data| > 0 && ValidBlockSize(blockSize)
    ensures ApplyPadding(data, blockSize).Ok?
    ensures StripPadding(ApplyPadding(data, blockSize).value, blockSize) == Ok(data)
  {
    var padded := ApplyPadding(data, blockSize).value;
    assert LastByte(padded) as int == |padded| - |data|;
    assert WellPadded(padded, blockSize);
  }

  /** Conversely, applying undoes stripping, whenever stripping left some data
      (`apply_padding` refuses empty data, so an input that is one full block of
      padding strips to `[]` and has no preimage). */
  lemma ApplyStrip(data: seq<u8>, blockSize: nat)
    requires StripPadding(data, blockSize).Ok?
    requires |StripPadding(data, blockSize).value| > 0
    ensures ApplyPadding(StripPadding(data, blockSize).value, blockSize) == Ok(data)
  {
    var stripped := StripPadding(data, blockSize).value;
    var n, p := |data|, LastByte(data) as int;
    assert ValidBlockSize(blockSize) && n % blockSize == 0 && WellPadded(data, blockSize);
    assert blockSize <= n by { Arith.MultipleAtLeast(n, blockSize); }
    Arith.ModOfDifference(n, p, blockSize);
    var padded := ApplyPadding(stripped, blockSize).value;
    assert padded == stripped + seq(p, _ => p as u8);
    assert padded == data by {
      assert data == data[..n - p] + data[n - p..];
      assert data[n - p..] == seq(p, _ => p as u8);
    }
  }

  /** The cases of tests/pkcs7_test.rs and two more: a block-aligned input gets a full
      block, and one full block of padding strips to the empty sequence. */
  lemma Examples()
    ensures ApplyPadding([1, 2, 3], 4) == Ok([1, 2, 3, 1])
    ensures ApplyPadding([1, 2, 3, 4], 4) == Ok([1, 2, 3, 4, 4, 4, 4, 4])
    ensures StripPadding([1, 2, 3, 1], 4) == Ok([1, 2, 3])
    ensures StripPadding([4, 4, 4, 4], 4) == Ok([])
    ensures StripPadding([1, 2, 3, 0], 4) == Err(PaddingError)
    ensures StripPadding([1, 2, 3, 5], 4) == Err(PaddingError)
    ensures StripPadding([1, 2, 1, 2], 4) == Err(PaddingError)
    ensures StripPadding([1, 2, 3], 4) == Err(ParameterError)
  {
    var a: seq<u8> := [1, 2, 3];
    assert seq(1, _ => 1 as u8) == [1];
    assert a + [1] == [1, 2, 3, 1];
    var b: seq<u8> := [1, 2, 3, 4];
    assert seq(4, _ => 4 as u8) == [4, 4, 4, 4];
    assert b + [4, 4, 4, 4] == [1, 2, 3, 4, 4, 4, 4, 4];
    var s: seq<u8> := [1, 2, 3, 1];
    assert s[0..3] == [1, 2, 3];
    var t: seq<u8> := [1, 2, 1, 2];
    assert t[2] != 2;
  }
}
