/** The encoder: b255/src/encode.rs. */
module B255Encode {
  import opened Positional
  import opened Vectors
  import opened B255Util
  import opened B255Codec

  lemma ToBytesCons(d: nat, digits: seq<nat>)
    requires d < 255 && DigitsBelow(digits, 255)
    ensures ToBytes([d] + digits) == [ToByte(d)] + ToBytes(digits)
  {}

  /** The next byte out is the remainder's, and what is left to write is the quotient's. */
  lemma NextByte(v: nat)
    requires v > 0
    ensures v / 255 < v
    ensures ToBytes(Digits(v, 255)) == [ToByte(v % 255)] + ToBytes(Digits(v / 255, 255))
  {
    ToBytesCons(v % 255, Digits(v / 255, 255));
  }

  lemma Regroup(done: seq<u8>, b: u8, rest: seq<u8>)
    ensures done + ([b] + rest) == (done + [b]) + rest
  {}

  /** The loop of `encode`: repeated division, each remainder a byte, until the value is zero. */
  method EmitDigits(num: Vec<u64>, encoded: Vec<u8>)
    requires num.Valid() && Canonical(num.Elems())
    requires encoded.Valid() && encoded.len + |Digits(Value(num.Elems()), 255)| <= encoded.data.Length
    modifies num, num.data, encoded, encoded.data
    ensures encoded.Valid() && encoded.data == old(encoded.data)
    ensures encoded.reallocs == old(encoded.reallocs)
    ensures encoded.Elems() == old(encoded.Elems()) + ToBytes(Digits(old(Value(num.Elems())), 255))
  {
    ghost var all := encoded.Elems() + ToBytes(Digits(Value(num.Elems()), 255));
    CanonicalZero(num.Elems());
    while num.len > 1 || num.data[0] != 0
      invariant num.data == old(num.data) && encoded.data == old(encoded.data)
      invariant num.Valid() && Canonical(num.Elems())
      invariant encoded.Valid() && encoded.reallocs == old(encoded.reallocs)
      invariant |all| <= encoded.data.Length
      invariant encoded.Elems() + ToBytes(Digits(Value(num.Elems()), 255)) == all
      decreases Value(num.Elems())
    {
      ghost var v, done := Value(num.Elems()), encoded.Elems();
      CanonicalZero(num.Elems());
      NextByte(v);
      var rem := DivRem255(num);
      if rem == FORBIDDEN {
        rem := 255;
      }
      encoded.Push(rem);
      Regroup(done, rem, ToBytes(Digits(v / 255, 255)));
    }
    CanonicalZero(num.Elems());
  }

  method Encode(data: seq<u8>) returns (encoded: Vec<u8>)
    ensures fresh(encoded) && encoded.Valid()
    ensures encoded.Elems() == Encoded(data)
    ensures encoded.reallocs == 0
    ensures encoded.data.Length == if Core(data) == [] then |data|
      else |Core(data)| + |Core(data)| / 256 + 4 + LeadingZeros(data)
  {
    if data == [] {
      encoded := new Vec.WithCapacity(0);
      return;
    }
    var leadingZeros := LeadingZeros(data);
    var coreData := data[leadingZeros..];
    if coreData == [] {
      encoded := new Vec.WithCapacity(leadingZeros);
      encoded.Resize(leadingZeros, 0);
      assert Reverse(coreData) == [];
      assert encoded.Elems() == Zeros(leadingZeros) == Encoded(data);
      return;
    }
    var num := FromBytesBe(coreData);
    var capacity := |coreData| + |coreData| / 256 + 4 + leadingZeros;
    encoded := new Vec.WithCapacity(capacity);
    EncodedLength(data);
    EmitDigits(num, encoded);
    encoded.Resize(encoded.len + leadingZeros, 0);
    assert encoded.Elems() == Encoded(data);
  }
}
