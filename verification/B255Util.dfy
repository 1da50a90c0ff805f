/** Multi-limb arithmetic: b255/src/util.rs. */
module B255Util {
  import opened Positional
  import opened Vectors

  /** K, with 2^64 == 255 * K + 1. */
  const K := 0x0101010101010101

  /** Neither empty nor padded at the top: the shape the `get_unchecked` calls rely on. */
  ghost predicate Canonical(limbs: seq<u64>)
  {
    limbs != [] && (|limbs| > 1 ==> limbs[|limbs| - 1] != 0)
  }

  ghost function Value(limbs: seq<u64>): nat
  {
    Eval(limbs, B64)
  }

  lemma ValueCons(d: u64, limbs: seq<u64>)
    ensures Value([d] + limbs) == d + B64 * Value(limbs)
  {
    EvalCons(d, limbs, B64);
  }

  /** A canonical number is zero exactly when it is the single limb 0. */
  lemma CanonicalZero(limbs: seq<u64>)
    requires Canonical(limbs)
    ensures Value(limbs) == 0 <==> |limbs| == 1 && limbs[0] == 0
  {
    if |limbs| > 1 {
      EvalLowerBound(limbs, B64);
    } else {
      ValueCons(limbs[0], []);
      assert limbs == [limbs[0]] + [];
    }
  }

  function DivCeil(n: nat, d: nat): nat
    requires d > 0
  {
    (n + d - 1) / d
  }

  lemma BytesValueSingle(b: u8)
    ensures BytesValue([b]) == b
  {
    assert Reverse([b]) == [b] + [];
    EvalCons(b, [], 256);
  }

  lemma BytesValuePush(s: seq<u8>, b: u8)
    ensures BytesValue(s + [b]) == 256 * BytesValue(s) + b
  {
    BytesValueConcat(s, [b]);
    BytesValueSingle(b);
    assert Pow(256, 1) == 256;
  }

  /** The shift-or loop that reads a chunk shorter than a limb. */
  method ChunkValue(chunk: seq<u8>) returns (val: u64)
    requires |chunk| < 8
    ensures val == BytesValue(chunk)
  {
    val := 0;
    for i := 0 to |chunk|
      invariant val == BytesValue(chunk[..i])
    {
      var b := chunk[i];
      BytesValuePush(chunk[..i], b);
      assert chunk[..i] + [b] == chunk[..i + 1];
      BytesValueBound(chunk[..i + 1]);
      PowMonotone(256, i + 1, 8);
      PowByteWidth();
      val := val * 256 % B64 + b;
    }
    assert chunk[..|chunk|] == chunk;
  }

  lemma BytesValueCons(b: u8, s: seq<u8>)
    ensures BytesValue([b] + s) == BytesValue(s) + Pow(256, |s|) * b
  {
    BytesValueConcat([b], s);
    BytesValueSingle(b);
  }

  lemma PushedChunk(limbs: seq<u64>, val: u64, chunk: seq<u8>, rest: seq<u8>)
    requires |rest| == 8 * |limbs| && Value(limbs) == BytesValue(rest)
    requires val == BytesValue(chunk)
    ensures Value(limbs + [val]) == BytesValue(chunk + rest)
  {
    EvalPush(limbs, val, B64);
    BytesValueConcat(chunk, rest);
    PowLimb(|limbs|);
  }

  lemma LeadingByteNonZero(s: seq<u8>)
    requires s != [] && s[0] != 0
    ensures BytesValue(s) >= Pow(256, |s| - 1) > 0
  {
    EvalLowerBound(Reverse(s), 256);
  }

  method FromBytesBe(bytes: seq<u8>) returns (digits: Vec<u64>)
    ensures fresh(digits) && fresh(digits.data) && digits.Valid()
    ensures Value(digits.Elems()) == BytesValue(bytes)
    ensures digits.len == digits.data.Length == DivCeil(|bytes|, 8) && digits.reallocs == 0
    ensures bytes != [] && bytes[0] != 0 ==> Canonical(digits.Elems())
  {
    digits := new Vec.WithCapacity(if bytes == [] then 0 else DivCeil(|bytes|, 8));
    var hi := |bytes|;
    while hi > 0
      invariant 0 <= hi <= |bytes|
      invariant fresh(digits) && fresh(digits.data) && digits.Valid() && digits.reallocs == 0
      invariant digits.data.Length == DivCeil(|bytes|, 8)
      invariant hi > 0 ==> |bytes| - hi == 8 * digits.len
      invariant hi == 0 ==> digits.len == DivCeil(|bytes|, 8)
      invariant Value(digits.Elems()) == BytesValue(bytes[hi..])
      invariant bytes != [] && bytes[0] != 0 && hi == 0 ==> Canonical(digits.Elems())
    {
      var lo := if hi >= 8 then hi - 8 else 0;
      var chunk := bytes[lo..hi];
      assert chunk + bytes[hi..] == bytes[lo..];
      var val: u64;
      if |chunk| == 8 {
        BytesValueBound(chunk);
        PowByteWidth();
        val := BytesValue(chunk);
      } else {
        val := ChunkValue(chunk);
      }
      if lo == 0 && bytes[0] != 0 {
        LeadingByteNonZero(chunk);
      }
      PushedChunk(digits.Elems(), val, chunk, bytes[hi..]);
      digits.Push(val);
      hi := lo;
    }
    assert bytes[0..] == bytes;
  }

  /** One limb of the division: the quotient fits a limb because 2^64 == 255 * K + 1. */
  method DivLimb(d: u64, rem: u64) returns (q: u64, r: u64)
    requires rem < 255
    ensures 255 * q + r == d + B64 * rem && r < 255
  {
    var sumLow: u64, overflow := (d + rem) % B64, d + rem >= B64;
    if !overflow {
      q := rem * K + sumLow / 255;
      r := sumLow % 255;
    } else {
      q := (rem + 1) * K;
      r := sumLow + 1;
    }
  }

  /** Drops zero limbs from the top, keeping at least one limb. */
  method TrimTop(num: Vec<u64>)
    requires num.Valid()
    modifies num`len
    ensures num.Valid() && Value(num.Elems()) == old(Value(num.Elems()))
    ensures old(num.len) > 0 ==> Canonical(num.Elems())
  {
    while num.len > 1 && num.data[num.len - 1] == 0
      invariant num.Valid() && Value(num.Elems()) == old(Value(num.Elems()))
      invariant old(num.len) > 0 ==> num.len > 0
    {
      ghost var s := num.Elems();
      assert s == s[..num.len - 1] + [0];
      EvalPush(s[..num.len - 1], 0, B64);
      num.Pop();
    }
  }

  /** Divides in place by 255, most significant limb first, and trims the top. */
  method DivRem255(num: Vec<u64>) returns (r: u8)
    requires num.Valid()
    modifies num, num.data
    ensures num.Valid() && num.data == old(num.data) && num.reallocs == old(num.reallocs)
    ensures Value(num.Elems()) == old(Value(num.Elems())) / 255
    ensures r == old(Value(num.Elems())) % 255
    ensures old(num.len) > 0 ==> Canonical(num.Elems())
  {
    ghost var before := num.Elems();
    var rem: u64 := 0;
    var i := num.len;
    while i > 0
      invariant 0 <= i <= num.len == |before| && num.data == old(num.data)
      invariant num.Valid() && rem < 255 && num.reallocs == old(num.reallocs)
      invariant num.data[..i] == before[..i]
      invariant 255 * Value(num.data[i..num.len]) + rem == Value(before[i..])
    {
      i := i - 1;
      ghost var done := num.data[i + 1..num.len];
      var d := num.data[i];
      assert before[i..] == [d] + before[i + 1..];
      ValueCons(d, before[i + 1..]);
      var q: u64;
      q, rem := DivLimb(d, rem);
      num.data[i] := q;
      assert num.data[i..num.len] == [q] + done;
      ValueCons(q, done);
    }
    assert before[0..] == before;
    DivModUnique(Value(before), 255, Value(num.Elems()), rem);
    TrimTop(num);
    r := rem;
  }
}
