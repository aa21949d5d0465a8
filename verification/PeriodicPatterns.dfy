/** Periodic index patterns of the mining configuration: nested strides, their canonical bytes, and the
    tiling of the naturals that lets a row or a column be covered by exactly one offset. */
module PeriodicPatterns {
  import opened Arithmetic
  import opened OrderedSets
  import opened Wrappers

  const NUM_DIMS: nat := 3

  const MAX_PERIOD: nat := 0x100_0000

  datatype Dim = Dim(stride: u32, length: u32)

  type Pattern = shape: seq<Dim> | |shape| == NUM_DIMS witness seq(NUM_DIMS, _ => Dim(1, 1))

  datatype PatternError =
    | WrongLength | NonCanonical | BrokenStride | PeriodTooLong
    | Empty | NotSorted | NotFromZero | NotPeriodic | Invalid
    | Panicked // an `unwrap` or a division by zero

  /** the period of the dimensions below k, when `inner` is the period inside the first */
  function Inner(shape: seq<Dim>, k: nat, inner: nat): nat
    requires k <= |shape|
  {
    if k == 0 then inner
    else
      MulNat(shape[k - 1].stride, shape[k - 1].length);
      shape[k - 1].stride * shape[k - 1].length
  }

  function Period(shape: seq<Dim>): nat { Inner(shape, |shape|, 1) }

  /** the product of the lengths */
  function Size(shape: seq<Dim>): nat {
    if shape == [] then 1
    else
      MulNat(Size(shape[..|shape| - 1]), shape[|shape| - 1].length);
      Size(shape[..|shape| - 1]) * shape[|shape| - 1].length
  }

  /** A dimension in canonical form around a period `inner`: the dimensions after one of length 1 repeat
      the period, and a stride that only continues the one inside it is not split off. */
  ghost predicate CanonicalDim(d: Dim, inner: nat, done: bool) {
    && inner > 0 && d.stride % inner == 0
    && 1 <= d.stride / inner <= 256 && 1 <= d.length <= 256
    && (if d.length == 1 || done then d.length == 1 && d.stride / inner == 1 else inner == 1 || d.stride / inner >= 2)
    && d.stride * d.length <= MAX_PERIOD
  }

  ghost predicate CanonicalAt(shape: seq<Dim>, k: nat, inner: nat, done: bool)
    requires k < |shape|
  {
    CanonicalDim(shape[k], Inner(shape, k, inner), if k == 0 then done else shape[k - 1].length == 1)
  }

  ghost predicate CanonicalFrom(shape: seq<Dim>, inner: nat, done: bool) {
    forall k :: 0 <= k < |shape| ==> CanonicalAt(shape, k, inner, done)
  }

  ghost predicate Canonical(shape: seq<Dim>) { CanonicalFrom(shape, 1, false) }

  /** a dimension seen from the shape without the first one */
  lemma CanonicalAtPeel(shape: seq<Dim>, k: nat, inner: nat, done: bool)
    requires k + 1 < |shape|
    ensures CanonicalAt(shape, k + 1, inner, done) <==>
            CanonicalAt(shape[1..], k, Inner(shape, 1, inner), shape[0].length == 1)
  {
    hide CanonicalDim;
    assert Inner(shape[1..], k, Inner(shape, 1, inner)) == Inner(shape, k + 1, inner);
  }

  lemma CanonicalPeel(shape: seq<Dim>, inner: nat, done: bool)
    requires shape != []
    ensures CanonicalFrom(shape, inner, done) <==>
            && CanonicalDim(shape[0], inner, done)
            && CanonicalFrom(shape[1..], Inner(shape, 1, inner), shape[0].length == 1)
  {
    assert CanonicalAt(shape, 0, inner, done) <==> CanonicalDim(shape[0], inner, done);
    hide CanonicalAt, Inner, CanonicalDim;
    var rest, after, last := shape[1..], Inner(shape, 1, inner), shape[0].length == 1;
    if CanonicalFrom(shape, inner, done) {
      forall k: nat | k < |rest|
        ensures CanonicalAt(rest, k, after, last)
      {
        CanonicalAtPeel(shape, k, inner, done);
        assert CanonicalAt(shape, k + 1, inner, done);
      }
    } else if CanonicalDim(shape[0], inner, done) && CanonicalFrom(rest, after, last) {
      forall k: nat | k < |shape|
        ensures CanonicalAt(shape, k, inner, done)
      {
        if k > 0 {
          CanonicalAtPeel(shape, k - 1, inner, done);
        }
      }
    }
  }

  // ----- from_bytes and to_bytes -----

  /** the size check of the decoder, without its division */
  lemma PeriodCheck(inner: nat, factor: nat, length: nat)
    requires factor > 0 && length > 0
    ensures factor * length > 0 && factor * inner >= 0 && factor * inner * length >= 0
    ensures inner <= MAX_PERIOD / (factor * length) <==> factor * inner * length <= MAX_PERIOD
    ensures factor * inner * length <= MAX_PERIOD ==> factor * inner <= MAX_PERIOD
  {
    var f := factor * length;
    MulNat(factor, inner);
    MulNat(factor * inner, length);
    MulMonotone(1, length, factor * inner);
    MulMonotone(1, length, factor);
    assert factor * inner * length == inner * f;
    DivNat(MAX_PERIOD, f);
    if inner <= MAX_PERIOD / f {
      MulMonotone(inner, MAX_PERIOD / f, f);
    } else {
      MulMonotone(MAX_PERIOD / f + 1, inner, f);
      assert (MAX_PERIOD / f + 1) * f == (MAX_PERIOD / f) * f + f;
    }
  }

  /** one dimension, from its two bytes; it is built from the factor to the period inside it */
  function DecodedDim(first: byte, second: byte, inner: nat, done: bool): Result<Dim, PatternError> {
    var factor, length := 1 + first as nat, 1 + second as nat;
    PeriodCheck(inner, factor, length);
    if (length == 1 || done) && !(factor == 1 && length == 1) then Err(NonCanonical)
    else if !(length == 1 || done) && factor <= 1 && inner != 1 then Err(BrokenStride)
    else if inner > MAX_PERIOD / (factor * length) then Err(PeriodTooLong)
    else Ok(Dim(factor * inner, length))
  }

  function Decoded(data: seq<byte>, inner: nat, done: bool): Result<seq<Dim>, PatternError>
    requires |data| % 2 == 0
  {
    if data == [] then Ok([])
    else match DecodedDim(data[0], data[1], inner, done)
      case Err(e) => Err(e)
      case Ok(d) =>
        MulNat(d.stride, d.length);
        Continued([d], Decoded(data[2..], d.stride * d.length, done || d.length == 1))
  }

  /** what the decoder returns when the dimensions before the rest are known */
  function Continued(shape: seq<Dim>, rest: Result<seq<Dim>, PatternError>): Result<seq<Dim>, PatternError> {
    match rest
    case Err(e) => Err(e)
    case Ok(more) => Ok(shape + more)
  }

  method FromBytes(data: seq<byte>) returns (r: Result<Pattern, PatternError>)
    ensures |data| != 2 * NUM_DIMS ==> r == Err(WrongLength)
    ensures |data| == 2 * NUM_DIMS ==> r == Decoded(data, 1, false)
  {
    if |data| != 2 * NUM_DIMS {
      return Err(WrongLength);
    }
    var shape: seq<Dim>, minStride: nat, isDone := [], 1, false;
    DecodingStart(data);
    for i := 0 to NUM_DIMS
      invariant Decoding(data, i, shape, minStride, isDone)
    {
      DecodingNext(data, i, shape, minStride, isDone);
      hide Decoded, Decoding;
      var factor, length := 1 + data[2 * i] as nat, 1 + data[2 * i + 1] as nat;
      PeriodCheck(minStride, factor, length);
      ghost var expected := DecodedDim(data[2 * i], data[2 * i + 1], minStride, isDone);
      if length == 1 || isDone {
        if !(factor == 1 && length == 1) {
          return Err(NonCanonical);
        }
        isDone := true;
      } else if factor <= 1 && minStride != 1 {
        return Err(BrokenStride);
      }
      if minStride > MAX_PERIOD / (factor * length) {
        return Err(PeriodTooLong);
      }
      var stride := factor * minStride;
      assert expected == Ok(Dim(stride, length));
      shape := shape + [Dim(stride, length)];
      minStride := stride * length;
    }
    DecodingDone(data, shape, minStride, isDone);
    return Ok(shape);
  }

  /** after i dimensions, the decoder finishes what is left of the bytes */
  ghost predicate Decoding(data: seq<byte>, i: nat, shape: seq<Dim>, inner: nat, done: bool) {
    && |data| == 2 * NUM_DIMS && i <= NUM_DIMS && |shape| == i
    && Continued(shape, Decoded(data[2 * i..], inner, done)) == Decoded(data, 1, false)
  }

  lemma DecodingStart(data: seq<byte>)
    requires |data| == 2 * NUM_DIMS
    ensures Decoding(data, 0, [], 1, false)
  {
    hide Decoded;
    assert data[0..] == data;
    ContinuedStart(Decoded(data, 1, false));
  }

  lemma DecodingDone(data: seq<byte>, shape: seq<Dim>, inner: nat, done: bool)
    requires Decoding(data, NUM_DIMS, shape, inner, done)
    ensures Decoded(data, 1, false) == Ok(shape)
  {
    assert data[2 * NUM_DIMS..] == [];
    assert Decoded(data[2 * NUM_DIMS..], inner, done) == Ok([]);
    hide Decoded;
    assert shape + [] == shape;
  }

  lemma DecodingNext(data: seq<byte>, i: nat, shape: seq<Dim>, inner: nat, done: bool)
    requires Decoding(data, i, shape, inner, done) && i < NUM_DIMS
    ensures var r := DecodedDim(data[2 * i], data[2 * i + 1], inner, done);
            && (r.Err? ==> Decoded(data, 1, false) == Err(r.error))
            && (r.Ok? ==> r.value.stride * r.value.length >= 0
                          && Decoding(data, i + 1, shape + [r.value], r.value.stride * r.value.length, done
                             || r.value.length == 1))
  {
    var here := data[2 * i..];
    assert here[2..] == data[2 * (i + 1)..] && here[0] == data[2 * i] && here[1] == data[2 * i + 1];
    DecodedStep(here, inner, done);
    hide Decoded, DecodedDim;
    var r := DecodedDim(here[0], here[1], inner, done);
    if r.Ok? {
      ContinuedStep(shape, r.value, Decoded(here[2..], r.value.stride * r.value.length, done || r.value.length == 1));
    }
  }

  lemma DecodedStep(data: seq<byte>, inner: nat, done: bool)
    requires |data| % 2 == 0 && data != []
    ensures var r := DecodedDim(data[0], data[1], inner, done);
            && (r.Err? ==> Decoded(data, inner, done) == Err(r.error))
            && (r.Ok? ==> r.value.stride * r.value.length >= 0
                          && Decoded(data, inner, done) ==
                             Continued([r.value], Decoded(data[2..], r.value.stride * r.value.length, done
                               || r.value.length == 1)))
  {
    hide DecodedDim;
  }

  lemma ContinuedStart(r: Result<seq<Dim>, PatternError>)
    ensures Continued([], r) == r
  {
    if r.Ok? {
      assert [] + r.value == r.value;
    }
  }

  lemma ContinuedStep(shape: seq<Dim>, d: Dim, rest: Result<seq<Dim>, PatternError>)
    ensures Continued(shape, Continued([d], rest)) == Continued(shape + [d], rest)
  {
    if rest.Ok? {
      assert shape + ([d] + rest.value) == (shape + [d]) + rest.value;
    }
  }

  /** the dimensions of an accepted encoding, byte by byte */
  lemma {:induction false} DecodedDims(data: seq<byte>, inner: nat, done: bool, i: nat)
    requires |data| % 2 == 0 && Decoded(data, inner, done).Ok? && i < |data| / 2
    ensures var shape := Decoded(data, inner, done).value;
            && |shape| == |data| / 2 && shape[i].length == 1 + data[2 * i + 1] as nat
            && shape[i].stride == (1 + data[2 * i] as nat) * Inner(shape, i, inner)
    decreases |data|
  {
    var shape, d := Decoded(data, inner, done).value, DecodedDim(data[0], data[1], inner, done).value;
    MulNat(d.stride, d.length);
    var rest := Decoded(data[2..], d.stride * d.length, done || d.length == 1).value;
    assert shape == [d] + rest;
    DecodedLength(data[2..], d.stride * d.length, done || d.length == 1);
    if i > 0 {
      hide Decoded, DecodedDim;
      DecodedDims(data[2..], d.stride * d.length, done || d.length == 1, i - 1);
      assert shape[i] == rest[i - 1];
      assert Inner(rest, i - 1, d.stride * d.length) == Inner(shape, i, inner);
    }
  }

  lemma {:induction false} DecodedLength(data: seq<byte>, inner: nat, done: bool)
    requires |data| % 2 == 0
    ensures Decoded(data, inner, done).Ok? ==> 2 * |Decoded(data, inner, done).value| == |data|
    decreases |data|
  {
    if data != [] && DecodedDim(data[0], data[1], inner, done).Ok? {
      var d := DecodedDim(data[0], data[1], inner, done).value;
      MulNat(d.stride, d.length);
      DecodedLength(data[2..], d.stride * d.length, done || d.length == 1);
    }
  }

  /** why a dimension is refused, given the period inside it and whether one of length 1 came before */
  ghost predicate Refused(factor: nat, length: nat, inner: nat, done: bool, e: PatternError) {
    var long := done || length == 1;
    MulNat(factor, inner);
    match e
    case NonCanonical => long && (factor > 1 || length > 1)
    case BrokenStride => !long && factor == 1 && inner != 1
    case PeriodTooLong =>
      && (long ==> factor == 1 && length == 1) && (!long ==> factor > 1 || inner == 1)
      && factor * inner * length > MAX_PERIOD
    case _ => false
  }

  /** the first refused dimension is dimension i, after others that are accepted */
  ghost predicate RefusedAt(data: seq<byte>, inner: nat, done: bool, i: nat, e: PatternError) {
    && |data| % 2 == 0 && i < |data| / 2 && Decoded(data[..2 * i], inner, done).Ok?
    && var before := Decoded(data[..2 * i], inner, done).value;
       && |before| == i
       && Refused(1 + data[2 * i] as nat, 1 + data[2 * i + 1] as nat, Inner(before, i, inner),
                  done || exists j :: 0 <= j < i && before[j].length == 1, e)
  }

  lemma DimErrors(first: byte, second: byte, inner: nat, done: bool, e: PatternError)
    ensures DecodedDim(first, second, inner, done) == Err(e) <==>
            Refused(1 + first as nat, 1 + second as nat, inner, done, e)
  {
    PeriodCheck(inner, 1 + first as nat, 1 + second as nat);
  }

  /** each error of `from_bytes` on six bytes, and exactly the bytes that get it */
  lemma {:induction false} ErrorsOfBytes(data: seq<byte>, inner: nat, done: bool, e: PatternError)
    requires |data| % 2 == 0
    ensures Decoded(data, inner, done) == Err(e) <==> exists i: nat :: RefusedAt(data, inner, done, i, e)
    decreases |data|
  {
    if data != [] {
      var r := DecodedDim(data[0], data[1], inner, done);
      DimErrors(data[0], data[1], inner, done, e);
      DecodedStep(data, inner, done);
      FirstRefused(data, inner, done, e);
      if r.Ok? {
        var inner', done' := r.value.stride * r.value.length, done || r.value.length == 1;
        ErrorsOfBytes(data[2..], inner', done', e);
        forall i: nat
          ensures RefusedAt(data, inner, done, i + 1, e) <==> RefusedAt(data[2..], inner', done', i, e)
        {
          LaterRefused(data, inner, done, i, e);
        }
        hide Decoded, DecodedDim, RefusedAt;
        if i: nat :| RefusedAt(data, inner, done, i, e) {
          assert i > 0;
          assert RefusedAt(data[2..], inner', done', i - 1, e);
        }
        if i: nat :| RefusedAt(data[2..], inner', done', i, e) {
          assert RefusedAt(data, inner, done, i + 1, e);
        }
      } else {
        NoneAfterRefused(data, inner, done, e);
        hide Decoded, DecodedDim, RefusedAt;
      }
    }
  }

  lemma FirstRefused(data: seq<byte>, inner: nat, done: bool, e: PatternError)
    requires |data| % 2 == 0 && data != []
    ensures RefusedAt(data, inner, done, 0, e) <==> DecodedDim(data[0], data[1], inner, done) == Err(e)
  {
    assert data[..0] == [];
    DimErrors(data[0], data[1], inner, done, e);
  }

  lemma NoneAfterRefused(data: seq<byte>, inner: nat, done: bool, e: PatternError)
    requires |data| % 2 == 0 && data != [] && DecodedDim(data[0], data[1], inner, done).Err?
    ensures forall i: nat :: i > 0 ==> !RefusedAt(data, inner, done, i, e)
  {
    forall i: nat | 0 < i <= |data| / 2
      ensures Decoded(data[..2 * i], inner, done).Err?
    {
      DecodedStep(data[..2 * i], inner, done);
    }
    hide Decoded, DecodedDim;
  }

  lemma LaterRefused(data: seq<byte>, inner: nat, done: bool, i: nat, e: PatternError)
    requires |data| % 2 == 0 && data != [] && DecodedDim(data[0], data[1], inner, done).Ok?
    ensures var d := DecodedDim(data[0], data[1], inner, done).value;
            && d.stride * d.length >= 0
            && (RefusedAt(data, inner, done, i + 1, e) <==>
                RefusedAt(data[2..], d.stride * d.length, done || d.length == 1, i, e))
  {
    var d := DecodedDim(data[0], data[1], inner, done).value;
    MulNat(d.stride, d.length);
    if i + 1 < |data| / 2 {
      var inner', done' := d.stride * d.length, done || d.length == 1;
      hide DecodedDim, Refused;
      LaterDecoded(data, inner, done, i, d, inner', done');
      hide Decoded;
      var r := Decoded(data[2..][..2 * i], inner', done');
      if r.Ok? && |r.value| == i {
        assert Inner([d] + r.value, i + 1, inner) == Inner(r.value, i, inner');
        SameLengths(d, r.value, i);
      }
    }
  }

  /** the dimensions before the next one, from the first two bytes and from the rest */
  lemma LaterDecoded(data: seq<byte>, inner: nat, done: bool, i: nat, d: Dim, inner': nat, done': bool)
    requires |data| % 2 == 0 && i + 1 < |data| / 2 && DecodedDim(data[0], data[1], inner, done) == Ok(d)
    requires inner' == d.stride * d.length && done' == (done || d.length == 1)
    ensures Decoded(data[..2 * (i + 1)], inner, done) == Continued([d], Decoded(data[2..][..2 * i], inner', done'))
  {
    var head := data[..2 * (i + 1)];
    assert head[2..] == data[2..][..2 * i];
    DecodedStep(head, inner, done);
  }

  lemma SameLengths(d: Dim, after: seq<Dim>, i: nat)
    requires |after| == i
    ensures (exists j :: 0 <= j < i + 1 && ([d] + after)[j].length == 1)
       <==> d.length == 1 || exists j :: 0 <= j < i && after[j].length == 1
  {
    var before := [d] + after;
    assert before[0] == d && forall j :: 0 <= j < i ==> before[j + 1] == after[j];
    if j :| 0 <= j < i + 1 && before[j].length == 1 {
      assert j > 0 ==> after[j - 1].length == 1;
    }
    if j :| 0 <= j < i && after[j].length == 1 {
      assert before[j + 1].length == 1;
    }
  }

  /** The bytes of a shape. The subtractions and the narrowing casts wrap around; a period of zero inside
      a dimension divides by zero. */
  function Encoded(shape: seq<Dim>, inner: nat): Option<seq<byte>> {
    if shape == [] then Some([])
    else if inner == 0 then None
    else
      MulNat(shape[0].stride, shape[0].length);
      DivNat(shape[0].stride, inner);
      match Encoded(shape[1..], shape[0].stride * shape[0].length % 0x1_0000_0000)
      case None => None
      case Some(rest) => Some([(shape[0].stride / inner + 255) % 256, (shape[0].length + 255) % 256] + rest)
  }

  method ToBytes(shape: Pattern) returns (r: Option<seq<byte>>)
    ensures r == Encoded(shape, 1)
  {
    var data: seq<byte>, minStride: nat := [], 1;
    assert shape[0..] == shape && forall s: seq<byte> :: [] + s == s;
    for i := 0 to NUM_DIMS
      invariant Joined(data, Encoded(shape[i..], minStride)) == Encoded(shape, 1)
    {
      var d := shape[i];
      assert shape[i..][1..] == shape[i + 1..];
      if minStride == 0 {
        return None;
      }
      MulNat(d.stride, d.length);
      DivNat(d.stride, minStride);
      var factor := d.stride / minStride;
      var two: seq<byte> := [(factor + 255) % 256, (d.length + 255) % 256];
      ghost var rest := Encoded(shape[i + 1..], d.stride * d.length % 0x1_0000_0000);
      if rest.Some? {
        assert data + (two + rest.value) == (data + two) + rest.value;
      }
      data := data + two;
      minStride := d.stride * d.length % 0x1_0000_0000;
    }
    assert data + [] == data;
    return Some(data);
  }

  function Joined(data: seq<byte>, rest: Option<seq<byte>>): Option<seq<byte>> {
    match rest
    case None => None
    case Some(more) => Some(data + more)
  }

  /** what the decoder accepts is canonical, and encoding it gives the same bytes back */
  lemma {:induction false} EncodeOfDecoded(data: seq<byte>, inner: nat, done: bool)
    requires |data| % 2 == 0 && inner > 0 && Decoded(data, inner, done).Ok?
    ensures var shape := Decoded(data, inner, done).value;
            && CanonicalFrom(shape, inner, done) && Encoded(shape, inner) == Some(data) && 2 * |shape| == |data|
    decreases data
  {
    if data != [] {
      var d := DecodedDim(data[0], data[1], inner, done).value;
      DimOfBytes(data[0], data[1], inner, done);
      hide DecodedDim, CanonicalDim, CanonicalFrom;
      EncodeOfDecoded(data[2..], d.stride * d.length, done || d.length == 1);
      var shape := Decoded(data, inner, done).value;
      assert shape[0] == d && shape[1..] == Decoded(data[2..], d.stride * d.length, done || d.length == 1).value;
      CanonicalPeel(shape, inner, done);
      hide Decoded;
      EncodedStep(shape, inner);
      hide Encoded;
      assert data == [data[0], data[1]] + data[2..];
    }
  }

  lemma EncodedStep(shape: seq<Dim>, inner: nat)
    requires shape != [] && inner > 0 && 0 < shape[0].length <= 256 && 0 < shape[0].stride / inner <= 256
    requires 0 <= shape[0].stride * shape[0].length <= MAX_PERIOD
    ensures Encoded(shape, inner) ==
            Joined([shape[0].stride / inner - 1, shape[0].length - 1],
              Encoded(shape[1..], shape[0].stride * shape[0].length))
  {
  }

  lemma DimOfBytes(first: byte, second: byte, inner: nat, done: bool)
    requires inner > 0 && DecodedDim(first, second, inner, done).Ok?
    ensures var d := DecodedDim(first, second, inner, done).value;
            && CanonicalDim(d, inner, done) && (done ==> d.length == 1) && 0 < d.stride * d.length <= MAX_PERIOD
            && d.stride / inner == 1 + first && d.length == 1 + second
  {
    var d := DecodedDim(first, second, inner, done).value;
    PeriodCheck(inner, 1 + first as nat, 1 + second as nat);
    DivModUnique(d.stride, inner, 1 + first, 0);
    MulMonotone(1, 1 + first, inner);
    MulMonotone(1, d.length, d.stride);
  }

  /** a canonical shape is decoded from its own bytes */
  lemma {:induction false} DecodeOfEncoded(shape: seq<Dim>, inner: nat, done: bool)
    requires CanonicalFrom(shape, inner, done)
    ensures Encoded(shape, inner).Some?
    ensures var data := Encoded(shape, inner).value;
            |data| == 2 * |shape| && Decoded(data, inner, done) == Ok(shape)
    decreases shape
  {
    if shape != [] {
      CanonicalPeel(shape, inner, done);
      var d := shape[0];
      BytesOfDim(d, inner, done);
      DecodeOfEncoded(shape[1..], d.stride * d.length, d.length == 1);
      EncodedStep(shape, inner);
      hide Encoded, CanonicalFrom, CanonicalDim, Decoded, DecodedDim;
      var data, rest := Encoded(shape, inner).value, Encoded(shape[1..], d.stride * d.length).value;
      assert data == [d.stride / inner - 1, d.length - 1] + rest && data[2..] == rest;
      DecodedStep(data, inner, done);
      assert shape == [d] + shape[1..];
    }
  }

  lemma BytesOfDim(d: Dim, inner: nat, done: bool)
    requires CanonicalDim(d, inner, done)
    ensures DecodedDim(d.stride / inner - 1, d.length - 1, inner, done) == Ok(d) && (done ==> d.length == 1)
    ensures 0 <= d.stride * d.length <= MAX_PERIOD
  {
    DivNat(d.stride, inner);
    PeriodCheck(inner, d.stride / inner, d.length);
    MulNat(d.stride, d.length);
  }

  /** `is_valid`; no value when `to_bytes` panics */
  function IsValid(shape: Pattern): Option<bool> {
    match Encoded(shape, 1)
    case None => None
    case Some(data) => if |data| != 2 * NUM_DIMS then Some(false) else Some(Decoded(data, 1, false) == Ok(shape))
  }

  lemma ValidIsCanonical(shape: Pattern)
    ensures IsValid(shape) == Some(true) <==> Canonical(shape)
  {
    if Canonical(shape) {
      DecodeOfEncoded(shape, 1, false);
    }
    if IsValid(shape) == Some(true) {
      EncodeOfDecoded(Encoded(shape, 1).value, 1, false);
    }
  }

  // ----- to_list -----

  function Shifted(base: seq<nat>, shift: nat): (r: seq<nat>)
    ensures |r| == |base| && forall j :: 0 <= j < |base| ==> r[j] == base[j] + shift
  {
    seq(|base|, j requires 0 <= j < |base| => base[j] + shift)
  }

  function Repeated(base: seq<nat>, stride: nat, n: nat): seq<nat> {
    if n == 0 then [] else MulNat(n - 1, stride); Repeated(base, stride, n - 1) + Shifted(base, (n - 1) * stride)
  }

  lemma {:induction false} RepeatedLength(base: seq<nat>, stride: nat, n: nat)
    ensures |Repeated(base, stride, n)| == n * |base|
  {
    if n > 0 {
      RepeatedLength(base, stride, n - 1);
    }
  }

  lemma {:induction false} RepeatedHas(base: seq<nat>, stride: nat, n: nat, x: nat)
    ensures x in Repeated(base, stride, n) <==> exists i: nat, j: nat :: IsCopy(base, stride, n, x, i, j)
  {
    if n > 0 {
      RepeatedHas(base, stride, n - 1, x);
      MulNat(n - 1, stride);
      var last := Shifted(base, (n - 1) * stride);
      if x in last {
        var j :| 0 <= j < |last| && last[j] == x;
        assert IsCopy(base, stride, n, x, n - 1, j);
      } else if x in Repeated(base, stride, n - 1) {
        var i: nat, j: nat :| IsCopy(base, stride, n - 1, x, i, j);
        assert IsCopy(base, stride, n, x, i, j);
      }
      if i: nat, j: nat :| IsCopy(base, stride, n, x, i, j) {
        if i < n - 1 {
          assert IsCopy(base, stride, n - 1, x, i, j);
        } else {
          assert last[j] == x;
        }
      }
    }
  }

  ghost predicate IsCopy(base: seq<nat>, stride: nat, n: nat, x: nat, i: nat, j: nat) {
    i < n && j < |base| && x == base[j] + i * stride
  }

  function ListOf(shape: seq<Dim>): seq<nat> {
    if shape == [] then [0]
    else Repeated(ListOf(shape[..|shape| - 1]), shape[|shape| - 1].stride, shape[|shape| - 1].length)
  }

  /** a 32-bit word, as additions and multiplications leave it */
  function Wrap32(x: nat): (r: u32)
    ensures x < 0x1_0000_0000 ==> r == x
  {
    x % 0x1_0000_0000
  }

  function AllWrapped(s: seq<nat>): (r: seq<u32>)
    ensures |r| == |s| && forall k :: 0 <= k < |r| ==> r[k] == Wrap32(s[k])
  {
    seq(|s|, k requires 0 <= k < |s| => Wrap32(s[k]))
  }

  lemma WrapSum(x: nat, y: nat)
    ensures Wrap32(Wrap32(x) + Wrap32(y)) == Wrap32(x + y)
  {
  }

  /** one copy of the elements so far, shifted by i strides */
  method AppendCopy(newRes: seq<u32>, res: seq<u32>, i: nat, stride: u32, ghost base: seq<nat>, ghost before: seq<nat>)
    returns (r: seq<u32>)
    requires i * stride >= 0 && res == AllWrapped(base) && newRes == AllWrapped(before)
    ensures r == AllWrapped(before + Shifted(base, i * stride))
  {
    r := newRes;
    for j := 0 to |res|
      invariant r == AllWrapped(before + Shifted(base[..j], i * stride))
    {
      WrapSum(base[j], i * stride);
      assert base[..j + 1] == base[..j] + [base[j]];
      assert before + Shifted(base[..j + 1], i * stride)
        == (before + Shifted(base[..j], i * stride)) + [base[j] + i * stride];
      r := r + [Wrap32(res[j] + Wrap32(i * stride))];
    }
    assert base[..|base|] == base;
  }

  /** Every shape has a list, whose elements are 32-bit words; for canonical shapes none of them wraps around. */
  method ToList(shape: Pattern) returns (res: seq<u32>)
    ensures res == AllWrapped(ListOf(shape))
    ensures Canonical(shape) ==> res == ListOf(shape)
  {
    hide Repeated, ListOf, Shifted;
    res := [0];
    ListOfNone();
    for k := 0 to NUM_DIMS
      invariant res == AllWrapped(ListOf(shape[..k]))
    {
      var d := shape[k];
      ghost var base := ListOf(shape[..k]);
      var newRes: seq<u32> := [];
      RepeatedNone(base, d.stride);
      for i := 0 to d.length
        invariant newRes == AllWrapped(Repeated(base, d.stride, i))
      {
        MulNat(i, d.stride);
        newRes := AppendCopy(newRes, res, i, d.stride, base, Repeated(base, d.stride, i));
        RepeatedMore(base, d.stride, i);
      }
      ListOfMore(shape, k);
      res := newRes;
    }
    assert shape[..NUM_DIMS] == shape;
    if Canonical(shape) {
      CanonicalListFits(shape);
    }
  }

  lemma ListOfNone()
    ensures ListOf([]) == [0]
  {
  }

  lemma RepeatedNone(base: seq<nat>, stride: nat)
    ensures Repeated(base, stride, 0) == []
  {
  }

  lemma RepeatedMore(base: seq<nat>, stride: nat, i: nat)
    ensures i * stride >= 0 && Repeated(base, stride, i + 1) == Repeated(base, stride, i) + Shifted(base, i * stride)
  {
    MulNat(i, stride);
  }

  lemma ListOfMore(shape: seq<Dim>, k: nat)
    requires k < |shape|
    ensures ListOf(shape[..k + 1]) == Repeated(ListOf(shape[..k]), shape[k].stride, shape[k].length)
  {
    assert shape[..k + 1][..k] == shape[..k];
  }

  /** what the list needs of a shape: each stride is a multiple of the period inside it */
  ghost predicate NestedDim(d: Dim, inner: nat) {
    inner > 0 && d.stride > 0 && d.length > 0 && d.stride % inner == 0
  }

  ghost predicate Nested(shape: seq<Dim>) {
    forall k :: 0 <= k < |shape| ==> NestedDim(shape[k], Inner(shape, k, 1))
  }

  lemma CanonicalIsNested(shape: seq<Dim>)
    requires Canonical(shape)
    ensures Nested(shape)
  {
    forall k | 0 <= k < |shape|
      ensures NestedDim(shape[k], Inner(shape, k, 1))
    {
      assert CanonicalAt(shape, k, 1, false);
    }
  }

  /** the last dimension and the shape inside it */
  lemma NestedLast(shape: seq<Dim>)
    requires Nested(shape) && shape != []
    ensures var (init, d) := (shape[..|shape| - 1], shape[|shape| - 1]);
            && Nested(init) && NestedDim(d, Period(init)) && d.stride <= d.stride * d.length == Period(shape)
            && Period(init) <= d.stride && d.stride == (d.stride / Period(init)) * Period(init)
               && d.stride / Period(init) > 0
  {
    var init, d := shape[..|shape| - 1], shape[|shape| - 1];
    NestedInit(shape);
    hide Nested;
    LastStride(d, Period(init));
  }

  lemma NestedInit(shape: seq<Dim>)
    requires Nested(shape) && shape != []
    ensures var (init, d) := (shape[..|shape| - 1], shape[|shape| - 1]);
            Nested(init) && NestedDim(d, Period(init)) && d.stride * d.length == Period(shape)
  {
    var init, d := shape[..|shape| - 1], shape[|shape| - 1];
    hide NestedDim;
    assert NestedDim(d, Inner(shape, |init|, 1));
    forall k | 0 <= k < |init|
      ensures NestedDim(init[k], Inner(init, k, 1))
    {
      assert NestedDim(shape[k], Inner(shape, k, 1));
    }
  }

  lemma LastStride(d: Dim, inner: nat)
    requires NestedDim(d, inner)
    ensures d.stride <= d.stride * d.length && inner <= d.stride
    ensures d.stride == (d.stride / inner) * inner && d.stride / inner > 0
  {
    MulMonotone(1, d.length, d.stride);
    DivNat(d.stride, inner);
    MulMonotone(1, d.stride / inner, inner);
  }

  lemma {:induction false} RepeatedIncreasing(base: seq<nat>, stride: nat, n: nat)
    requires Increasing(base) && forall j :: 0 <= j < |base| ==> base[j] < stride
    ensures Increasing(Repeated(base, stride, n))
    ensures forall j :: 0 <= j < |Repeated(base, stride, n)| ==> Repeated(base, stride, n)[j] < n * stride
  {
    if n > 0 {
      RepeatedIncreasing(base, stride, n - 1);
      assert n * stride == (n - 1) * stride + stride;
    }
  }

  /** the list is strictly increasing from zero, below the period, with as many elements as the size */
  lemma {:induction false} ListIsIncreasing(shape: seq<Dim>)
    requires Nested(shape)
    ensures Increasing(ListOf(shape)) && |ListOf(shape)| == Size(shape) > 0 && ListOf(shape)[0] == 0
    ensures forall j :: 0 <= j < |ListOf(shape)| ==> ListOf(shape)[j] < Period(shape)
    decreases shape
  {
    if shape != [] {
      NestedLast(shape);
      var init, d := shape[..|shape| - 1], shape[|shape| - 1];
      ListIsIncreasing(init);
      RepeatedIncreasing(ListOf(init), d.stride, d.length);
      RepeatedLength(ListOf(init), d.stride, d.length);
      RepeatedStart(ListOf(init), d.stride, d.length);
    }
  }

  /** the first copy is the base itself */
  lemma {:induction false} RepeatedStart(base: seq<nat>, stride: nat, n: nat)
    requires n > 0
    ensures |base| <= |Repeated(base, stride, n)| && Repeated(base, stride, n)[..|base|] == base
  {
    if n > 1 {
      RepeatedStart(base, stride, n - 1);
    } else {
      assert Repeated(base, stride, 0) == [];
      assert Shifted(base, 0) == base;
    }
  }

  /** the size is the length of the list, and at most the period */
  lemma SizeIsListLength(shape: Pattern)
    requires Canonical(shape)
    ensures |ListOf(shape)| == Size(shape) <= Period(shape) <= MAX_PERIOD
  {
    CanonicalIsNested(shape);
    ListIsIncreasing(shape);
    IncreasingBound(ListOf(shape), Size(shape) - 1);
    assert CanonicalAt(shape, 2, 1, false);
  }

  // ----- offset_is_valid -----

  function OffsetValid(shape: seq<Dim>, offset: nat): bool
    requires Nested(shape)
  {
    shape == []
    ||
    (NestedLast(shape);
     var init, d := shape[..|shape| - 1], shape[|shape| - 1];
     var inside := offset % (d.stride * d.length);
     inside < d.stride && OffsetValid(init, inside))
  }

  /** `offset_is_valid` on any shape; no value when it divides by a period that is, or wraps around to, zero */
  function OffsetOutcome(shape: seq<Dim>, offset: nat): Option<bool> {
    if shape == [] then Some(true)
    else
      var d := shape[|shape| - 1];
      MulNat(d.stride, d.length);
      var period := Wrap32(d.stride * d.length);
      if period == 0 then None
      else if offset % period >= d.stride then Some(false)
      else OffsetOutcome(shape[..|shape| - 1], offset % period)
  }

  method OffsetIsValid(shape: Pattern, offset: u32) returns (r: Option<bool>)
    ensures r == OffsetOutcome(shape, offset)
    ensures Canonical(shape) ==> Nested(shape) && r == Some(OffsetValid(shape, offset))
  {
    var off: nat, k := offset, NUM_DIMS;
    assert shape[..NUM_DIMS] == shape;
    if Canonical(shape) {
      OutcomeOfCanonical(shape, offset);
    }
    hide OffsetValid, Canonical, Nested;
    while k > 0
      invariant 0 <= k <= NUM_DIMS
      invariant OffsetOutcome(shape[..k], off) == OffsetOutcome(shape, offset)
    {
      assert shape[..k][..k - 1] == shape[..k - 1];
      k := k - 1;
      var d := shape[k];
      MulNat(d.stride, d.length);
      var period := Wrap32(d.stride * d.length);
      if period == 0 {
        return None;
      }
      off := off % period;
      if off >= d.stride {
        return Some(false);
      }
    }
    return Some(true);
  }

  ghost predicate PeriodsFit(shape: seq<Dim>) {
    forall k :: 0 <= k < |shape| ==> shape[k].stride * shape[k].length <= MAX_PERIOD
  }

  lemma OutcomeOfCanonical(shape: seq<Dim>, offset: nat)
    requires Canonical(shape)
    ensures Nested(shape) && OffsetOutcome(shape, offset) == Some(OffsetValid(shape, offset))
  {
    CanonicalIsNested(shape);
    forall k | 0 <= k < |shape|
      ensures shape[k].stride * shape[k].length <= MAX_PERIOD
    {
      assert CanonicalAt(shape, k, 1, false);
    }
    OutcomeOfNested(shape, offset);
  }

  lemma {:induction false} OutcomeOfNested(shape: seq<Dim>, offset: nat)
    requires Nested(shape) && PeriodsFit(shape)
    ensures OffsetOutcome(shape, offset) == Some(OffsetValid(shape, offset))
    decreases |shape|
  {
    if shape != [] {
      NestedLast(shape);
      var init, d := shape[..|shape| - 1], shape[|shape| - 1];
      assert d.stride * d.length <= MAX_PERIOD;
      assert PeriodsFit(init);
      hide Nested, PeriodsFit;
      OutcomeOfNested(init, offset % (d.stride * d.length));
    }
  }

  lemma CanonicalListFits(shape: Pattern)
    requires Canonical(shape)
    ensures AllWrapped(ListOf(shape)) == ListOf(shape)
  {
    SizeIsListLength(shape);
    CanonicalIsNested(shape);
    ListIsIncreasing(shape);
    hide ListOf, Nested, Canonical, Period;
  }

  /** the valid offset whose pattern covers x */
  function Covering(shape: seq<Dim>, x: nat): (t: nat)
    requires Nested(shape)
    ensures t <= x
    decreases shape
  {
    if shape == [] then x
    else
      NestedLast(shape);
      var init, d := shape[..|shape| - 1], shape[|shape| - 1];
      var p := d.stride * d.length;
      DivNat(x, p);
      DivNat(x % p, d.stride);
      MulNat(x / p, p);
      (x / p) * p + Covering(init, x % p % d.stride)
  }

  /** a valid offset and an element of the list stay inside one period */
  lemma {:induction false} StaysInside(shape: seq<Dim>, t: nat, e: nat)
    requires Nested(shape) && OffsetValid(shape, t) && e in ListOf(shape)
    ensures Period(shape) > 0 && t % Period(shape) + e < Period(shape)
    decreases shape
  {
    if shape != [] {
      NestedLast(shape);
      var init, d := shape[..|shape| - 1], shape[|shape| - 1];
      var i, e' := CopyOf(ListOf(init), d.stride, d.length, e);
      var u := t % Period(shape);
      StaysInside(init, u, e');
      StaysInsideStride(u, e', Period(init), d.stride);
      CopyBelow(i, d.length, d.stride);
    }
  }

  lemma CopyBelow(i: nat, length: nat, stride: nat)
    requires i < length
    ensures i * stride + stride <= stride * length
  {
    MulMonotone(i + 1, length, stride);
    assert (i + 1) * stride == i * stride + stride;
  }

  lemma StaysInsideStride(u: nat, e: nat, inner: nat, stride: nat)
    requires inner > 0 && stride == (stride / inner) * inner && u < stride && u % inner + e < inner
    ensures u + e < stride
  {
    DivNat(u, inner);
    DivNat(stride, inner);
    DivBelow(u, inner, stride / inner);
    MulMonotone(u / inner + 1, stride / inner, inner);
    assert (u / inner + 1) * inner == (u / inner) * inner + inner;
  }

  /** which copy an element of the list belongs to */
  lemma CopyOf(base: seq<nat>, stride: nat, n: nat, e: nat) returns (i: nat, e': nat)
    requires e in Repeated(base, stride, n)
    ensures i < n && e' in base && e == e' + i * stride
  {
    RepeatedHas(base, stride, n, e);
    var i0: nat, j: nat :| IsCopy(base, stride, n, e, i0, j);
    i, e' := i0, base[j];
  }

  /** x is covered by its offset */
  lemma {:induction false} CoveringCovers(shape: seq<Dim>, x: nat)
    requires Nested(shape)
    ensures OffsetValid(shape, Covering(shape, x)) && x - Covering(shape, x) in ListOf(shape)
    decreases shape
  {
    if shape != [] {
      NestedLast(shape);
      var init, d := shape[..|shape| - 1], shape[|shape| - 1];
      var p := d.stride * d.length;
      DivNat(x, p);
      var q, y := x / p, x % p;
      DivNat(y, d.stride);
      var i, y' := y / d.stride, y % d.stride;
      CoveringCovers(init, y');
      var t' := Covering(init, y');
      MulNat(q, p);
      DivModUnique(q * p + t', p, q, t');
      assert d.length * d.stride == p;
      DivBelow(y, d.stride, d.length);
      RepeatedHas(ListOf(init), d.stride, d.length, x - Covering(shape, x));
      var j: nat :| j < |ListOf(init)| && ListOf(init)[j] == y' - t';
      assert IsCopy(ListOf(init), d.stride, d.length, x - Covering(shape, x), i, j);
    }
  }

  lemma CoveringStep(shape: seq<Dim>, x: nat)
    requires Nested(shape) && shape != []
    ensures Nested(shape[..|shape| - 1])
    ensures var d := shape[|shape| - 1]; var p := d.stride * d.length;
            p > 0 && d.stride > 0 && 0 <= x % p % d.stride
            && Covering(shape, x) == (x / p) * p + Covering(shape[..|shape| - 1], x % p % d.stride)
  {
    NestedLast(shape);
  }

  /** a valid offset in whole periods and the offset inside one */
  lemma SplitOffset(shape: seq<Dim>, t: nat) returns (q: nat, u: nat)
    requires Nested(shape) && shape != [] && OffsetValid(shape, t)
    ensures var (init, d) := (shape[..|shape| - 1], shape[|shape| - 1]);
            && d.stride * d.length > 0 && t == q * (d.stride * d.length) + u && u == t % (d.stride * d.length)
            && Nested(init) && OffsetValid(init, u) && u < d.stride
  {
    NestedLast(shape);
    hide Nested, NestedDim;
    var p := shape[|shape| - 1].stride * shape[|shape| - 1].length;
    DivNat(t, p);
    q, u := t / p, t % p;
  }

  /** the sum of an offset and an element, divided by the period and by the stride inside it */
  lemma SplitSum(p: nat, s: nat, q: nat, u: nat, i: nat, e': nat, t: nat, e: nat)
    requires p > 0 && s > 0 && t == q * p + u && e == e' + i * s && u + e < p && u + e' < s
    ensures (t + e) / p == q && (t + e) % p == u + e && (u + e) % s == u + e'
  {
    DivModUnique(t + e, p, q, u + e);
    DivModUnique(u + e, s, i, u + e');
  }

  /** and by no other */
  lemma {:induction false} CoveringIsUnique(shape: seq<Dim>, t: nat, e: nat)
    requires Nested(shape) && OffsetValid(shape, t) && e in ListOf(shape)
    ensures t == Covering(shape, t + e)
    decreases shape
  {
    if shape == [] {
      assert e == 0;
    } else {
      var init, d := shape[..|shape| - 1], shape[|shape| - 1];
      NestedLast(shape);
      var i, e' := CopyOf(ListOf(init), d.stride, d.length, e);
      hide Nested, OffsetValid, ListOf, Covering, NestedDim, Period;
      var q, u := SplitOffset(shape, t);
      StaysInside(init, u, e');
      StaysInsideStride(u, e', Period(init), d.stride);
      StaysInside(shape, t, e);
      SplitSum(d.stride * d.length, d.stride, q, u, i, e', t, e);
      CoveringStep(shape, t + e);
      CoveringIsUnique(init, u, e');
    }
  }

  /** The tiling: every x is the sum of a valid offset and an element of the list in exactly one way. */
  lemma Tiling(shape: Pattern, x: nat)
    requires Canonical(shape)
    ensures Nested(shape)
    ensures forall t: nat, e: nat :: t + e == x && OffsetValid(shape, t) && e in ListOf(shape) <==>
                                     t == Covering(shape, x) && e == x - t
  {
    CanonicalIsNested(shape);
    CoveringCovers(shape, x);
    forall t: nat, e: nat | t + e == x && OffsetValid(shape, t) && e in ListOf(shape)
      ensures t == Covering(shape, x)
    {
      CoveringIsUnique(shape, t, e);
    }
  }
}
