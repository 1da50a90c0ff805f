/** Machine integers and positional notation.  Digit sequences are little-endian:
    index 0 is the least significant digit. */
module Positional {
  const B64 := 0x1_0000_0000_0000_0000

  type u8 = x: int | 0 <= x < 256
  type u64 = x: int | 0 <= x < 0x1_0000_0000_0000_0000
  type u128 = x: int | 0 <= x < 0x1_0000_0000_0000_0000_0000_0000_0000_0000

  function Pow(b: nat, e: nat): (p: nat)
    ensures b > 0 ==> p > 0
  {
    if e == 0 then 1 else b * Pow(b, e - 1)
  }

  lemma MulAssociate(x: nat, y: nat, z: nat)
    ensures x * (y * z) == (x * y) * z
  {}

  lemma {:induction false} PowAdd(b: nat, m: nat, n: nat)
    ensures Pow(b, m + n) == Pow(b, m) * Pow(b, n)
  {
    if m == 0 {
    } else {
      PowAdd(b, m - 1, n);
      MulAssociate(b, Pow(b, m - 1), Pow(b, n));
    }
  }

  lemma {:induction false} PowMonotone(b: nat, m: nat, n: nat)
    requires b >= 1 && m <= n
    ensures Pow(b, m) <= Pow(b, n)
  {
    PowAdd(b, m, n - m);
    assert Pow(b, m) * 1 <= Pow(b, m) * Pow(b, n - m);
  }

  lemma MulMonotone(a: nat, b: nat, x: nat, y: nat)
    requires a <= b && x <= y
    ensures a * x <= b * y
  {
    assert a * x <= b * x <= b * y;
  }

  lemma {:induction false} PowBaseMonotone(a: nat, b: nat, n: nat)
    requires a <= b
    ensures Pow(a, n) <= Pow(b, n)
  {
    if n == 0 {
    } else {
      PowBaseMonotone(a, b, n - 1);
      MulMonotone(a, b, Pow(a, n - 1), Pow(b, n - 1));
    }
  }

  lemma PowByteWidth()
    ensures Pow(256, 8) == B64
  {
    assert Pow(256, 4) == 0x1_0000_0000;
    PowAdd(256, 4, 4);
  }

  /** 2^64 is eight base-256 places. */
  lemma {:induction false} PowLimb(k: nat)
    ensures Pow(256, 8 * k) == Pow(B64, k)
  {
    if k == 0 {
    } else {
      PowLimb(k - 1);
      PowAdd(256, 8, 8 * (k - 1));
      PowByteWidth();
    }
  }

  /** The number denoted by a little-endian digit sequence. */
  function Eval(s: seq<nat>, b: nat): nat
  {
    if s == [] then 0 else s[0] + b * Eval(s[1..], b)
  }

  ghost predicate DigitsBelow(s: seq<nat>, b: nat)
  {
    forall i :: 0 <= i < |s| ==> s[i] < b
  }

  /** No zero in the most significant place. */
  predicate Minimal(s: seq<nat>)
  {
    s == [] || s[|s| - 1] != 0
  }

  lemma EvalCons(d: nat, s: seq<nat>, b: nat)
    ensures Eval([d] + s, b) == d + b * Eval(s, b)
  {
    assert ([d] + s)[1..] == s;
  }

  lemma Distribute(b: nat, e: nat, p: nat, v: nat)
    ensures b * (e + p * v) == b * e + (b * p) * v
  {}

  lemma {:induction false} EvalConcat(s: seq<nat>, t: seq<nat>, b: nat)
    ensures Eval(s + t, b) == Eval(s, b) + Pow(b, |s|) * Eval(t, b)
  {
    if s == [] {
      assert s + t == t;
    } else {
      EvalConcat(s[1..], t, b);
      assert (s + t)[1..] == s[1..] + t;
      Distribute(b, Eval(s[1..], b), Pow(b, |s| - 1), Eval(t, b));
    }
  }

  /** Appending a most significant digit. */
  lemma EvalPush(s: seq<nat>, d: nat, b: nat)
    ensures Eval(s + [d], b) == Eval(s, b) + Pow(b, |s|) * d
  {
    EvalConcat(s, [d], b);
    assert [d][1..] == [];
    assert Eval([d], b) == d + b * Eval([], b) == d;
  }

  lemma {:induction false} EvalBound(s: seq<nat>, b: nat)
    requires DigitsBelow(s, b)
    ensures Eval(s, b) < Pow(b, |s|)
  {
    if s == [] {
    } else {
      EvalBound(s[1..], b);
      var e, p := Eval(s[1..], b), Pow(b, |s| - 1);
      MulMonotone(b, b, e + 1, p);
      assert b * (e + 1) == b * e + b;
    }
  }

  /** A non-zero top digit makes the value as large as its place. */
  lemma EvalLowerBound(s: seq<nat>, b: nat)
    requires s != [] && Minimal(s)
    ensures Pow(b, |s| - 1) <= Eval(s, b)
  {
    var k := |s| - 1;
    assert s == s[..k] + [s[k]];
    EvalPush(s[..k], s[k], b);
    MulMonotone(Pow(b, k), Pow(b, k), 1, s[k]);
  }

  lemma DivShrinks(n: nat, b: nat)
    requires b >= 2 && n > 0
    ensures 0 <= n / b < n
    ensures n / b == 0 ==> n % b == n
  {
    var q := n / b;
    assert n == b * q + n % b;
    if q >= n {
      MulMonotone(2, b, n, q);
      assert false;
    }
  }

  /** The minimal digits of a number. */
  function Digits(n: nat, b: nat): (s: seq<nat>)
    requires b >= 2
    ensures DigitsBelow(s, b) && Minimal(s)
    ensures s == [] <==> n == 0
  {
    if n == 0 then []
    else
      DivShrinks(n, b);
      [n % b] + Digits(n / b, b)
  }

  lemma DivModIdentity(n: nat, b: nat)
    requires b >= 1
    ensures n == n % b + b * (n / b)
  {}

  lemma {:induction false} EvalDigits(n: nat, b: nat)
    requires b >= 2
    ensures Eval(Digits(n, b), b) == n
  {
    if n == 0 {
    } else {
      DivShrinks(n, b);
      EvalDigits(n / b, b);
      EvalCons(n % b, Digits(n / b, b), b);
      DivModIdentity(n, b);
    }
  }

  lemma DivModUnique(n: nat, b: nat, q: nat, r: nat)
    requires n == b * q + r && r < b
    ensures n / b == q && n % b == r
  {
    var q', r' := n / b, n % b;
    assert n == b * q' + r' && 0 <= r' < b;
    assert b * (q - q') == r' - r;
    if q > q' {
      MulMonotone(b, b, 1, q - q');
      assert false;
    } else if q < q' {
      MulMonotone(b, b, 1, q' - q);
      assert false;
    }
  }

  /** Minimal digit sequences are unique: `Digits` inverts `Eval` on them. */
  lemma {:induction false} DigitsEval(s: seq<nat>, b: nat)
    requires b >= 2 && DigitsBelow(s, b) && Minimal(s)
    ensures Digits(Eval(s, b), b) == s
  {
    if s == [] {
    } else {
      var e := Eval(s[1..], b);
      DigitsEval(s[1..], b);
      DivModUnique(Eval(s, b), b, e, s[0]);
      if e == 0 {
        assert s[1..] == [];
      } else {
        MulMonotone(1, b, e, e);
      }
      assert s == [s[0]] + s[1..];
    }
  }

  lemma DivTwice(n: nat, b: nat, p: nat)
    requires b >= 1 && p >= 1
    ensures b * p >= 1 && n / (b * p) == (n / b) / p
  {
    var q, r := n / b, n % b;
    var q', r' := q / p, q % p;
    DivModIdentity(n, b);
    DivModIdentity(q, p);
    Distribute(b, r', p, q');
    MulMonotone(b, b, r' + 1, p);
    DivModUnique(n, b * p, q', b * r' + r);
  }

  /** Each digit by itself. */
  lemma {:induction false} EvalAt(s: seq<nat>, b: nat, i: nat)
    requires b >= 1 && DigitsBelow(s, b) && i < |s|
    ensures Eval(s, b) / Pow(b, i) % b == s[i]
  {
    var v, rest := Eval(s, b), Eval(s[1..], b);
    DivModUnique(v, b, rest, s[0]);
    if i == 0 {
      assert v / 1 == v;
    } else {
      EvalAt(s[1..], b, i - 1);
      DivTwice(v, b, Pow(b, i - 1));
    }
  }

  lemma DigitAt(n: nat, b: nat, i: nat)
    requires b >= 2 && i < |Digits(n, b)|
    ensures Digits(n, b)[i] == n / Pow(b, i) % b
  {
    EvalDigits(n, b);
    EvalAt(Digits(n, b), b, i);
  }

  /** How many digits a number needs. */
  lemma DigitsLength(n: nat, b: nat, m: nat)
    requires b >= 2
    ensures |Digits(n, b)| <= m <==> n < Pow(b, m)
  {
    var s := Digits(n, b);
    EvalDigits(n, b);
    if |s| <= m {
      EvalBound(s, b);
      PowMonotone(b, |s|, m);
    } else {
      EvalLowerBound(s, b);
      PowMonotone(b, m, |s| - 1);
    }
  }

  function Reverse<T>(s: seq<T>): (r: seq<T>)
    ensures |r| == |s|
    ensures forall i :: 0 <= i < |s| ==> r[i] == s[|s| - 1 - i]
  {
    seq(|s|, i requires 0 <= i < |s| => s[|s| - 1 - i])
  }

  lemma ReverseTwice<T>(s: seq<T>)
    ensures Reverse(Reverse(s)) == s
  {}

  lemma ReverseConcat<T>(s: seq<T>, t: seq<T>)
    ensures Reverse(s + t) == Reverse(t) + Reverse(s)
  {}

  /** The number a byte string denotes read big-endian. */
  function BytesValue(bytes: seq<u8>): nat
  {
    Eval(Reverse(bytes), 256)
  }

  lemma BytesValueConcat(s: seq<u8>, t: seq<u8>)
    ensures BytesValue(s + t) == BytesValue(t) + Pow(256, |t|) * BytesValue(s)
  {
    ReverseConcat(s, t);
    EvalConcat(Reverse(t), Reverse(s), 256);
  }

  /** The value is bounded by the width. */
  lemma BytesValueBound(s: seq<u8>)
    ensures BytesValue(s) < Pow(256, |s|)
  {
    EvalBound(Reverse(s), 256);
  }

  /** Big-endian: the last byte counts ones, the one before it 256s, and so on. */
  lemma BytesValueAt(s: seq<u8>, i: nat)
    requires i < |s|
    ensures BytesValue(s) < Pow(256, |s|)
    ensures s[|s| - 1 - i] == BytesValue(s) / Pow(256, i) % 256
  {
    BytesValueBound(s);
    EvalAt(Reverse(s), 256, i);
  }
}
