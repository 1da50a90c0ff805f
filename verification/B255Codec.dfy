/** What the codec means: the two string transformations of b255/src/encode.rs and
    b255/src/decode.rs as functions, and the laws that make them a bijection. */
module B255Codec {
  import opened Positional

  /** The colon, `b':'`. */
  const FORBIDDEN: u8 := 58

  datatype DecodeError = InvalidByte(b: u8)
  datatype Result<+T> = Ok(value: T) | Err(error: DecodeError)

  function ToByte(digit: nat): (b: u8)
    requires digit < 255
    ensures b != FORBIDDEN && (b == 0 <==> digit == 0)
  {
    if digit == FORBIDDEN then 255 else digit
  }

  function ToDigit(b: u8): (digit: nat)
    requires b != FORBIDDEN
    ensures digit < 255 && ToByte(digit) == b
  {
    if b == 255 then FORBIDDEN else b
  }

  function ToBytes(digits: seq<nat>): (bytes: seq<u8>)
    requires DigitsBelow(digits, 255)
    ensures |bytes| == |digits| && FORBIDDEN !in bytes
    ensures forall i :: 0 <= i < |digits| ==> bytes[i] == ToByte(digits[i])
  {
    seq(|digits|, i requires 0 <= i < |digits| => ToByte(digits[i]))
  }

  function ToDigits(bytes: seq<u8>): (digits: seq<nat>)
    requires FORBIDDEN !in bytes
    ensures |digits| == |bytes| && DigitsBelow(digits, 255)
    ensures forall i :: 0 <= i < |bytes| ==> digits[i] == ToDigit(bytes[i])
  {
    seq(|bytes|, i requires 0 <= i < |bytes| => ToDigit(bytes[i]))
  }

  /** How many zero bytes a string starts with. */
  function LeadingZeros(data: seq<u8>): (n: nat)
    ensures n <= |data| && forall i :: 0 <= i < n ==> data[i] == 0
    ensures n < |data| ==> data[n] != 0
  {
    if data != [] && data[0] == 0 then 1 + LeadingZeros(data[1..]) else 0
  }

  /** How many zero bytes a string ends with. */
  function TrailingZeros(data: seq<u8>): (n: nat)
    ensures n <= |data| && forall i :: |data| - n <= i < |data| ==> data[i] == 0
    ensures n < |data| ==> data[|data| - n - 1] != 0
  {
    var r := Reverse(data);
    var n := LeadingZeros(r);
    assert forall i :: 0 <= i < |data| ==> data[i] == r[|data| - 1 - i];
    n
  }

  function Zeros(n: nat): seq<u8>
  {
    seq(n, _ => 0)
  }

  /** The string without its leading zeros, and without its trailing zeros. */
  function Core(data: seq<u8>): seq<u8> { data[LeadingZeros(data)..] }
  function CodedCore(coded: seq<u8>): seq<u8> { coded[..|coded| - TrailingZeros(coded)] }

  /** The shortest big-endian bytes of a number. */
  function MinBytes(n: nat): (s: seq<u8>)
    ensures s != [] ==> s[0] != 0
  {
    var digits: seq<nat> := Digits(n, 256);
    var bytes: seq<u8> := seq(|digits|, i requires 0 <= i < |digits| => digits[i]);
    Reverse(bytes)
  }

  function Encoded(data: seq<u8>): (coded: seq<u8>)
    ensures FORBIDDEN !in coded
  {
    ToBytes(Digits(BytesValue(Core(data)), 255)) + Zeros(LeadingZeros(data))
  }

  function Decoded(coded: seq<u8>): Result<seq<u8>>
  {
    if FORBIDDEN in coded then Err(InvalidByte(FORBIDDEN))
    else Ok(Zeros(TrailingZeros(coded)) + MinBytes(Eval(ToDigits(CodedCore(coded)), 255)))
  }

  // ---------- bytes and numbers ----------

  lemma MinBytesOfValue(s: seq<u8>)
    requires s != [] ==> s[0] != 0
    ensures MinBytes(BytesValue(s)) == s
  {
    var r: seq<nat> := Reverse(s);
    DigitsEval(r, 256);
  }

  lemma ValueOfMinBytes(n: nat)
    ensures BytesValue(MinBytes(n)) == n
  {
    EvalDigits(n, 256);
    var digits: seq<nat> := Digits(n, 256);
    assert Reverse(MinBytes(n)) == digits;
  }

  lemma TrailingZerosOfPadded(core: seq<u8>, n: nat)
    requires Minimal(core)
    ensures TrailingZeros(core + Zeros(n)) == n
    ensures CodedCore(core + Zeros(n)) == core
  {
    var s := core + Zeros(n);
    assert core != [] ==> s[|core| - 1] != 0;
    assert forall i :: |core| <= i < |s| ==> s[i] == 0;
    assert TrailingZeros(s) == n;
  }

  lemma LeadingZerosOfPadded(n: nat, core: seq<u8>)
    requires core != [] ==> core[0] != 0
    ensures LeadingZeros(Zeros(n) + core) == n
    ensures Core(Zeros(n) + core) == core
  {
    var s := Zeros(n) + core;
    assert core != [] ==> s[n] != 0;
    assert forall i :: 0 <= i < n ==> s[i] == 0;
    assert LeadingZeros(s) == n;
  }

  // ---------- the codec laws ----------

  lemma EncodedOfPadded(z: nat, core: seq<u8>)
    requires core != [] ==> core[0] != 0
    ensures Encoded(Zeros(z) + core) == ToBytes(Digits(BytesValue(core), 255)) + Zeros(z)
  {
    LeadingZerosOfPadded(z, core);
  }

  lemma DecodedOfPadded(core: seq<u8>, z: nat)
    requires Minimal(core) && FORBIDDEN !in core
    ensures Decoded(core + Zeros(z)) == Ok(Zeros(z) + MinBytes(Eval(ToDigits(core), 255)))
  {
    TrailingZerosOfPadded(core, z);
  }

  lemma DigitBytes(digits: seq<nat>)
    requires DigitsBelow(digits, 255)
    ensures ToDigits(ToBytes(digits)) == digits
    ensures Minimal(digits) ==> Minimal(ToBytes(digits))
  {}

  lemma ByteDigits(bytes: seq<u8>)
    requires FORBIDDEN !in bytes
    ensures ToBytes(ToDigits(bytes)) == bytes
    ensures Minimal(bytes) ==> Minimal(ToDigits(bytes))
  {}

  /** Whatever was encoded decodes to itself: leading zeros, all-zero strings and the empty
      string included. */
  lemma RoundTrip(data: seq<u8>)
    ensures Decoded(Encoded(data)) == Ok(data)
  {
    var z, core := LeadingZeros(data), Core(data);
    assert data == Zeros(z) + core;
    var digits := Digits(BytesValue(core), 255);
    EncodedOfPadded(z, core);
    DigitBytes(digits);
    DecodedOfPadded(ToBytes(digits), z);
    EvalDigits(BytesValue(core), 255);
    MinBytesOfValue(core);
  }

  /** Every colon-free string is the encoding of what it decodes to. */
  lemma RoundTripBack(coded: seq<u8>)
    requires FORBIDDEN !in coded
    ensures Decoded(coded).Ok? && Encoded(Decoded(coded).value) == coded
  {
    var z, core := TrailingZeros(coded), CodedCore(coded);
    assert coded == core + Zeros(z);
    var digits := ToDigits(core);
    DecodedOfPadded(core, z);
    EncodedOfPadded(z, MinBytes(Eval(digits, 255)));
    ValueOfMinBytes(Eval(digits, 255));
    ByteDigits(core);
    DigitsEval(digits, 255);
  }

  /** The codec is a bijection between all byte strings and the colon-free ones. */
  lemma Bijection(data: seq<u8>, coded: seq<u8>)
    ensures Decoded(coded) == Ok(data) <==> coded == Encoded(data)
    ensures Decoded(coded).Err? <==> FORBIDDEN in coded
  {
    RoundTrip(data);
    if FORBIDDEN !in coded {
      RoundTripBack(coded);
    }
  }

  // ---------- the bytes themselves ----------

  /** Every byte of an encoding: first the base-255 digits of the core's value, least significant
      first and up to the last that is not zero, with 255 written for 58; then a zero for each
      zero the data starts with. */
  lemma EncodedBytes(data: seq<u8>, i: nat)
    requires i < |Encoded(data)|
    ensures |Encoded(data)| >= LeadingZeros(data)
    ensures var v, n := BytesValue(data[LeadingZeros(data)..]), |Encoded(data)| - LeadingZeros(data);
      && v < Pow(255, n) && (n > 0 ==> Pow(255, n - 1) <= v)
      && (i >= n ==> Encoded(data)[i] == 0)
      && (i < n ==> var digit := v / Pow(255, i) % 255;
                    Encoded(data)[i] == if digit == 58 then 255 else digit)
    ensures Encoded(data)[i] != 58
  {
    var v := BytesValue(Core(data));
    var digits := Digits(v, 255);
    DigitsLength(v, 255, |digits|);
    if |digits| > 0 {
      DigitsLength(v, 255, |digits| - 1);
    }
    if i < |digits| {
      DigitAt(v, 255, i);
    }
  }

  /** Decoding fails on a colon, byte 58, and on nothing else. */
  lemma DecodeRejectsColon(coded: seq<u8>)
    ensures Decoded(coded) == Err(InvalidByte(58)) <==> 58 in coded
    ensures Decoded(coded).Ok? <==> 58 !in coded
  {}

  // ---------- how long an encoding is ----------

  /** Bernoulli's inequality for 255/256. */
  lemma {:induction false} Bernoulli(k: nat)
    ensures Pow(256, k) * (256 - k) <= 256 * Pow(255, k)
  {
    if k == 0 {
    } else {
      Bernoulli(k - 1);
      var p, q := Pow(256, k - 1), Pow(255, k - 1);
      assert p * (257 - k) <= 256 * q;
      assert Pow(256, k) * (256 - k) == 256 * p * (256 - k) == 255 * (p * (257 - k)) + p * (1 - k);
      assert p * (1 - k) <= 0;
    }
  }

  lemma HalfBlock(k: nat)
    requires k <= 128
    ensures Pow(256, k) <= 2 * Pow(255, k)
  {
    Bernoulli(k);
    assert Pow(256, k) * 128 <= Pow(256, k) * (256 - k);
  }

  lemma DoubledProduct(a: nat, b: nat, c: nat, d: nat)
    requires a <= 2 * c && b <= 2 * d
    ensures a * b <= 255 * (c * d)
  {
    MulMonotone(a, 2 * c, b, 2 * d);
    assert (2 * c) * (2 * d) == 4 * (c * d);
  }

  /** Up to 256 places cost one extra base-255 digit. */
  lemma Block(k: nat)
    requires k <= 256
    ensures Pow(256, k) <= Pow(255, k + 1)
  {
    var h := k / 2;
    HalfBlock(h);
    HalfBlock(k - h);
    PowAdd(256, h, k - h);
    PowAdd(255, h, k - h);
    DoubledProduct(Pow(256, h), Pow(256, k - h), Pow(255, h), Pow(255, k - h));
  }

  lemma PowerProduct(m: nat, m': nat, n: nat, n': nat)
    requires Pow(256, m) <= Pow(255, m') && Pow(256, n) <= Pow(255, n')
    ensures Pow(256, m + n) <= Pow(255, m' + n')
  {
    PowAdd(256, m, n);
    PowAdd(255, m', n');
    MulMonotone(Pow(256, m), Pow(255, m'), Pow(256, n), Pow(255, n'));
  }

  lemma OneMoreBlock(k: nat, e: nat, f: nat)
    requires k <= 256 && Pow(256, e) <= Pow(255, f)
    ensures Pow(256, e + k) <= Pow(255, f + k + 1)
  {
    Block(k);
    PowerProduct(k, k + 1, e, f);
  }

  lemma {:induction false} Blocks(q: nat, e: nat, f: nat)
    requires e == 256 * q && f == 257 * q
    ensures Pow(256, e) <= Pow(255, f)
  {
    if q == 0 {
    } else {
      Blocks(q - 1, e - 256, f - 257);
      OneMoreBlock(256, e - 256, f - 257);
    }
  }

  /** 256^n <= 255^(n + n/256 + 1) for every n. */
  lemma ExtraDigits(n: nat, q: nat)
    requires q == n / 256
    ensures Pow(256, n) <= Pow(255, n + q + 1)
  {
    var r := n - 256 * q;
    Blocks(q, n - r, n - r + q);
    OneMoreBlock(r, n - r, n - r + q);
  }

  /** Encoding never shortens, and costs at most one byte plus one per 256: three fewer than
      the source reserves. */
  lemma EncodedLength(data: seq<u8>)
    ensures |data| <= |Encoded(data)| <= |data| + |Core(data)| / 256 + 1
  {
    var core := Core(data);
    var n, v := |core|, BytesValue(core);
    BytesValueBound(core);
    ExtraDigits(n, n / 256);
    DigitsLength(v, 255, n + n / 256 + 1);
    if n > 0 {
      EvalLowerBound(Reverse(core), 256);
      PowBaseMonotone(255, 256, n - 1);
      DigitsLength(v, 255, n - 1);
    }
  }

  /** Exactly when encoding adds no byte: when the core's value fits as many base-255 digits as
      it has bytes. */
  lemma EncodingGrows(data: seq<u8>)
    ensures |Encoded(data)| == |data| <==> BytesValue(Core(data)) < Pow(255, |Core(data)|)
  {
    EncodedLength(data);
    DigitsLength(BytesValue(Core(data)), 255, |Core(data)|);
  }
}
