/** The decoder: b255/src/decode.rs. */
module B255Decode {
  import opened Positional
  import opened Vectors
  import opened B255Util
  import opened B255Codec

  // ---------- byte widths ----------

  function BitLength(x: nat): nat
  {
    if x == 0 then 0 else 1 + BitLength(x / 2)
  }

  lemma {:induction false} BitLengthBounds(x: nat, k: nat)
    ensures x < Pow(2, k) <==> BitLength(x) <= k
  {
    if x == 0 || k == 0 {
    } else {
      BitLengthBounds(x / 2, k - 1);
    }
  }

  lemma {:induction false} PowBits(k: nat)
    ensures Pow(2, 8 * k) == Pow(256, k)
  {
    if k == 0 {
    } else {
      PowBits(k - 1);
      PowAdd(2, 8, 8 * (k - 1));
      assert Pow(2, 8) == 256;
    }
  }

  /** `u64::leading_zeros`. */
  function LeadingZeroBits(x: u64): (n: nat)
    ensures n <= 64
  {
    BitLengthBounds(x, 64);
    PowBits(8);
    PowByteWidth();
    64 - BitLength(x)
  }

  /** The bytes of the top limb that are written: those below its leading zero bytes. */
  function LastBytes(last: u64): (n: nat)
    ensures n <= 8
  {
    8 - LeadingZeroBits(last) / 8
  }

  lemma LastBytesExact(last: u64)
    ensures last < Pow(256, LastBytes(last))
    ensures last > 0 ==> LastBytes(last) > 0 && Pow(256, LastBytes(last) - 1) <= last
  {
    var w := LastBytes(last);
    BitLengthBounds(last, 8 * w);
    PowBits(w);
    if last > 0 {
      BitLengthBounds(last, 8 * (w - 1));
      PowBits(w - 1);
    }
  }

  /** The number of bytes `decode` allots to a number. */
  function ByteLen(limbs: seq<u64>): (n: nat)
    ensures n <= 8 * |limbs|
  {
    if limbs == [] then 0 else 8 * (|limbs| - 1) + LastBytes(limbs[|limbs| - 1])
  }

  lemma TopNonZero(limbs: seq<u64>)
    requires Canonical(limbs) && Value(limbs) > 0
    ensures limbs[|limbs| - 1] > 0
  {
    CanonicalZero(limbs);
  }

  lemma Between(p: nat, a: nat, b: nat, low: nat, last: nat)
    requires low < p && a <= last < b
    ensures p * a <= low + p * last < p * b
  {
    MulMonotone(p, p, last + 1, b);
    MulMonotone(p, p, a, last);
  }

  /** `low` fills the first `m` byte places and `last` the next `w`. */
  lemma TopLimb(m: nat, w: nat, n: nat, low: nat, last: nat, v: nat)
    requires low < Pow(256, m) && w > 0 && Pow(256, w - 1) <= last < Pow(256, w)
    requires n == m + w && v == low + Pow(256, m) * last
    ensures Pow(256, n - 1) <= v < Pow(256, n)
  {
    PowAdd(256, m, w);
    PowAdd(256, m, w - 1);
    Between(Pow(256, m), Pow(256, w - 1), Pow(256, w), low, last);
  }

  /** The allotted length is exactly that of the shortest bytes. */
  lemma ByteLenExact(limbs: seq<u64>)
    requires Canonical(limbs) && Value(limbs) > 0
    ensures ByteLen(limbs) > 0
    ensures Pow(256, ByteLen(limbs) - 1) <= Value(limbs) < Pow(256, ByteLen(limbs))
  {
    var k := |limbs| - 1;
    var low, last := limbs[..k], limbs[k];
    assert limbs == low + [last];
    EvalPush(low, last, B64);
    EvalBound(low, B64);
    PowLimb(k);
    TopNonZero(limbs);
    LastBytesExact(last);
    TopLimb(8 * k, LastBytes(last), ByteLen(limbs), Value(low), last, Value(limbs));
  }

  // ---------- writing bytes ----------

  /** `u64::to_be_bytes`, for any width that holds the number. */
  function ToBeBytes(n: nat, width: nat): (bytes: seq<u8>)
    requires n < Pow(256, width)
    ensures |bytes| == width && BytesValue(bytes) == n
  {
    if width == 0 then []
    else
      var high := ToBeBytes(n / 256, width - 1);
      BytesValuePush(high, n % 256);
      high + [n % 256]
  }

  /** Copies the eight bytes of a limb to the places of the slice `out[start..]` before `end`. */
  method WriteLimb(out: array<u8>, start: nat, end: nat, d: u64)
    requires 8 <= end <= out.Length - start
    modifies out
    ensures forall k :: 0 <= k < start + end - 8 ==> out[k] == old(out[k])
    ensures out[start + end..] == old(out[start + end..])
    ensures BytesValue(out[start + end - 8..start + end]) == d
  {
    PowByteWidth();
    var bytes := ToBeBytes(d, 8);
    var startIdx: nat := end - 8;
    forall k | 0 <= k < 8 {
      out[start + startIdx + k] := bytes[k];
    }
    assert out[start + startIdx..start + end] == bytes;
  }

  lemma ShiftByte(p: nat, val: nat)
    ensures p * val == p * (val % 256) + (256 * p) * (val / 256)
  {
    assert val == val % 256 + 256 * (val / 256);
    Distribute(p, val % 256, 256, val / 256);
  }

  /** Writes the `width` low bytes of `d`, last byte first, so that they end before `end` in the
      slice `out[start..]`. */
  method WriteBytes(out: array<u8>, start: nat, end: nat, d: u64, width: nat)
    requires width <= end <= out.Length - start && d < Pow(256, width)
    modifies out
    ensures forall k :: 0 <= k < start + end - width ==> out[k] == old(out[k])
    ensures out[start + end..] == old(out[start + end..])
    ensures BytesValue(out[start + end - width..start + end]) == d
  {
    var val := d;
    ghost var hi := start + end;
    for j := 0 to width
      invariant 0 <= val
      invariant forall k :: 0 <= k < hi - j ==> out[k] == old(out[k])
      invariant out[hi..] == old(out[hi..])
      invariant BytesValue(out[hi - j..hi]) + Pow(256, j) * val == d
    {
      ghost var written := out[hi - j..hi];
      var idx: nat := end - 1 - j;
      out[start + idx] := val % 256;
      assert out[start + idx..hi] == [val % 256] + written;
      BytesValueCons(val % 256, written);
      ShiftByte(Pow(256, j), val);
      val := val / 256;
    }
    if val > 0 {
      MulMonotone(Pow(256, width), Pow(256, width), 1, val);
      assert false;
    }
  }

  lemma NextLimb(limbs: seq<u64>, i: nat, chunk: seq<u8>, rest: seq<u8>)
    requires i < |limbs| && |rest| == 8 * i
    requires BytesValue(chunk) == limbs[i] && BytesValue(rest) == Value(limbs[..i])
    ensures BytesValue(chunk + rest) == Value(limbs[..i + 1])
  {
    PushedChunk(limbs[..i], limbs[i], chunk, rest);
    assert limbs[..i] + [limbs[i]] == limbs[..i + 1];
  }

  /** Limb `i`, ending before `end` in the slice `out[start..]`: the top limb's low bytes or all
      eight of any other. */
  method WriteNext(ghost limbs: seq<u64>, i: nat, out: array<u8>, start: nat, end: nat, d: u64, top: bool,
                   lastBytes: nat) returns (ghost lo: nat)
    requires i < |limbs| && limbs[i] == d
    requires start + end == out.Length - 8 * i && BytesValue(out[start + end..]) == Value(limbs[..i])
    requires if top then lastBytes <= end && d < Pow(256, lastBytes) else 8 <= end
    modifies out
    ensures lo == start + end - if top then lastBytes else 8
    ensures forall k :: 0 <= k < lo ==> out[k] == old(out[k])
    ensures BytesValue(out[lo..]) == Value(limbs[..i + 1])
  {
    ghost var hi := start + end;
    ghost var rest := out[hi..];
    if top {
      WriteBytes(out, start, end, d, lastBytes);
      lo := hi - lastBytes;
    } else {
      WriteLimb(out, start, end, d);
      lo := hi - 8;
    }
    assert out[lo..] == out[lo..hi] + out[hi..];
    NextLimb(limbs, i, out[lo..hi], rest);
  }

  lemma NothingToWrite(limbs: seq<u64>)
    requires limbs == [] || limbs == [0]
    ensures ByteLen(limbs) == 0 && Value(limbs) == 0 && BytesValue([]) == 0
  {
    LastBytesExact(0);
    if limbs == [0] {
      CanonicalZero(limbs);
    }
  }

  /** The loop over the limbs, lowest first. */
  method WriteLimbs(num: Vec<u64>, out: array<u8>, start: nat)
    requires num.Valid() && num.len > 0 && start <= out.Length
    requires ByteLen(num.Elems()) <= out.Length - start
    modifies out
    ensures var split := out.Length - ByteLen(num.Elems());
      && start <= split && (forall k :: 0 <= k < split ==> out[k] == old(out[k]))
      && BytesValue(out[split..]) == Value(num.Elems())
  {
    var len, numLen := out.Length - start, num.len;
    var last := num.data[numLen - 1];
    var lastBytes := LastBytes(last);
    LastBytesExact(last);
    ghost var limbs, hi := num.Elems(), out.Length;
    ghost var split := out.Length - 8 * (numLen - 1) - lastBytes;
    assert split == out.Length - ByteLen(limbs);
    NothingToWrite([]);
    assert out[out.Length..] == [] && limbs[..0] == [];
    for i := 0 to numLen
      invariant num.Elems() == limbs
      invariant hi == if i < numLen then out.Length - 8 * i else split
      invariant forall k :: 0 <= k < hi ==> out[k] == old(out[k])
      invariant BytesValue(out[hi..]) == Value(limbs[..i])
    {
      hi := WriteNext(limbs, i, out, start, len - i * 8, num.data[i], i == numLen - 1, lastBytes);
    }
    assert limbs[..numLen] == limbs;
  }

  /** Fills the end of the slice `out[start..]` with the number's bytes. */
  method WriteBytesBe(num: Vec<u64>, out: array<u8>, start: nat)
    requires num.Valid() && start <= out.Length
    requires ByteLen(num.Elems()) <= out.Length - start
    modifies out
    ensures var split := out.Length - ByteLen(num.Elems());
      && start <= split && (forall k :: 0 <= k < split ==> out[k] == old(out[k]))
      && BytesValue(out[split..]) == Value(num.Elems())
  {
    if num.len == 0 || (num.len == 1 && num.data[0] == 0) {
      NothingToWrite(num.Elems());
      assert out[out.Length..] == [];
      return;
    }
    WriteLimbs(num, out, start);
  }

  // ---------- Horner's rule ----------

  lemma CarryOver(p: nat, carry: nat, d: nat, limb: nat, carry': nat)
    requires carry + 255 * d == limb + B64 * carry'
    ensures p * carry + 255 * (p * d) == p * limb + (B64 * p) * carry'
  {
    Distribute(p, carry, 255, d);
    Distribute(p, limb, B64, carry');
  }

  /** One more limb of the product: what is carried moves up a place. */
  lemma NextProduct(low: seq<u64>, before: seq<u64>, i: nat, d: nat, carry: nat, limb: u64,
                    carry': nat, addVal: nat)
    requires i == |low| < |before| && d == before[i]
    requires Value(low) + Pow(B64, i) * carry == 255 * Value(before[..i]) + addVal
    requires carry + 255 * d == limb + B64 * carry'
    ensures Value(low + [limb]) + Pow(B64, i + 1) * carry' == 255 * Value(before[..i + 1]) + addVal
  {
    assert before[..i] + [before[i]] == before[..i + 1];
    EvalPush(before[..i], before[i], B64);
    EvalPush(low, limb, B64);
    CarryOver(Pow(B64, i), carry, d, limb, carry');
  }

  /** Multiplies in place by 255 and adds `addVal`, whatever the number of limbs. */
  method MulAdd255(num: Vec<u64>, addVal: u64)
    requires num.Valid()
    modifies num, num.data
    ensures num.Valid()
    ensures Value(num.Elems()) == 255 * old(Value(num.Elems())) + addVal
    ensures old(Canonical(num.Elems())) ==> Canonical(num.Elems())
    ensures num.len <= old(num.data.Length) ==>
      num.data == old(num.data) && num.reallocs == old(num.reallocs)
    ensures num.data == old(num.data) || fresh(num.data)
  {
    ghost var before := num.Elems();
    var carry: u128 := addVal;
    for i := 0 to num.len
      invariant num.Valid() && num.data == old(num.data) && num.len == |before|
      invariant num.reallocs == old(num.reallocs)
      invariant carry < B64 && num.data[i..num.len] == before[i..]
      invariant Value(num.data[..i]) + Pow(B64, i) * carry == 255 * Value(before[..i]) + addVal
      invariant i > 0 && carry == 0 && before[i - 1] != 0 ==> num.data[i - 1] != 0
    {
      var d := num.data[i];
      ghost var low, carry0 := num.data[..i], carry;
      var wide: u128 := d;
      carry := carry + wide * 255;
      var limb: u64 := carry % B64;
      num.data[i] := limb;
      carry := carry / B64;
      assert num.data[..i + 1] == low + [limb];
      NextProduct(low, before, i, d, carry0, limb, carry, addVal);
    }
    assert before[..|before|] == before;
    if carry != 0 {
      EvalPush(num.Elems(), carry, B64);
      num.Push(carry);
    }
  }

  /** A canonical number below 255^k fits the ceil(k/8) limbs that are reserved for it. */
  lemma LimbCount(limbs: seq<u64>, k: nat)
    requires Canonical(limbs) && Value(limbs) < Pow(255, k) && k > 0
    ensures |limbs| <= DivCeil(k, 8)
  {
    if |limbs| > 1 {
      var m := |limbs| - 1;
      EvalLowerBound(limbs, B64);
      PowLimb(m);
      PowBaseMonotone(255, 256, k);
      if k <= 8 * m {
        PowMonotone(256, k, 8 * m);
        assert false;
      }
    }
  }

  /** The loop of `decode`: from the last byte to the first, until a colon turns up. */
  method Horner(core: seq<u8>) returns (ok: bool, num: Vec<u64>)
    requires core != []
    ensures fresh(num) && num.Valid() && num.reallocs == 0 && num.data.Length == DivCeil(|core|, 8)
    ensures ok <==> FORBIDDEN !in core
    ensures ok ==> Canonical(num.Elems()) && Value(num.Elems()) == Eval(ToDigits(core), 255)
  {
    num := new Vec.WithCapacity(DivCeil(|core|, 8));
    ghost var limbs := num.data;
    num.Push(0);
    EvalCons(0, [], B64);
    assert num.Elems() == [0] + [];
    var i := |core|;
    while i > 0
      invariant 0 <= i <= |core| && FORBIDDEN !in core[i..]
      invariant fresh(num) && fresh(limbs) && num.data == limbs && num.Valid()
      invariant num.reallocs == 0 && limbs.Length == DivCeil(|core|, 8)
      invariant Canonical(num.Elems())
      invariant Value(num.Elems()) == Eval(ToDigits(core[i..]), 255)
    {
      i := i - 1;
      var byte := core[i];
      assert core[i..] == [byte] + core[i + 1..];
      if byte == FORBIDDEN {
        return false, num;
      }
      var digit: u64 := if byte == 255 then FORBIDDEN else byte;
      EvalCons(digit, ToDigits(core[i + 1..]), 255);
      assert ToDigits(core[i..]) == [digit] + ToDigits(core[i + 1..]);
      MulAdd255(num, digit);
      EvalBound(ToDigits(core[i..]), 255);
      LimbCount(num.Elems(), |core| - i);
    }
    assert core[0..] == core;
    ok := true;
  }

  lemma LeadingZeroShrinks(s: seq<u8>)
    requires s != []
    ensures s[0] == 0 ==> BytesValue(s) < Pow(256, |s| - 1)
  {
    var t := s[1..];
    assert s == [s[0]] + t;
    BytesValueCons(s[0], t);
    BytesValueBound(t);
  }

  /** Bytes of the right value and length are the shortest ones. */
  lemma MinimalByLength(s: seq<u8>, v: nat)
    requires s != [] && BytesValue(s) == v && Pow(256, |s| - 1) <= v
    ensures s == MinBytes(v)
  {
    LeadingZeroShrinks(s);
    MinBytesOfValue(s);
  }

  /** The last step of `decode`: the number's shortest bytes behind `pad` zero bytes. */
  method PaddedBytes(num: Vec<u64>, pad: nat) returns (result: array<u8>)
    requires num.Valid() && Canonical(num.Elems()) && Value(num.Elems()) > 0
    ensures result[..] == Zeros(pad) + MinBytes(Value(num.Elems()))
  {
    ByteLenExact(num.Elems());
    var numLen := num.len;
    var last := num.data[numLen - 1];
    var lastBytes := LastBytes(last);
    var len := (numLen - 1) * 8 + lastBytes;
    var totalLen := pad + len;
    result := new u8[totalLen](_ => 0);
    WriteBytesBe(num, result, pad);
    MinimalByLength(result[pad..], Value(num.Elems()));
    assert result[..] == Zeros(pad) + result[pad..];
  }

  lemma DecodedZeros(z: nat)
    ensures Decoded(Zeros(z)) == Ok(Zeros(z))
  {
    DecodedOfPadded([], z);
    assert ToDigits([]) == [];
    assert [] + Zeros(z) == Zeros(z) + MinBytes(0) == Zeros(z);
  }

  method Decode(data: seq<u8>) returns (r: Result<seq<u8>>)
    ensures r == Decoded(data)
  {
    if data == [] {
      DecodedZeros(0);
      assert data == Zeros(0);
      return Ok([]);
    }
    var trailingZeros := TrailingZeros(data);
    var coreData := data[..|data| - trailingZeros];
    assert data == coreData + Zeros(trailingZeros);
    if coreData == [] {
      DecodedZeros(trailingZeros);
      assert data == Zeros(trailingZeros);
      return Ok(Zeros(trailingZeros));
    }
    var ok, num := Horner(coreData);
    if !ok {
      return Err(InvalidByte(FORBIDDEN));
    }
    DecodedOfPadded(coreData, trailingZeros);
    EvalLowerBound(ToDigits(coreData), 255);
    var result := PaddedBytes(num, trailingZeros);
    r := Ok(result[..]);
  }
}
