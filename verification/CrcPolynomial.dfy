/** The checksum as polynomial arithmetic over GF(2).

    A polynomial is its coefficients, highest power first.  The message is multiplied by x^32, its
    first 32 coefficients are inverted, and the register is what remains after dividing by the
    generator. */
module CrcPolynomial {
  import opened Bytes
  import opened Crc32

  /** x^32 + x^26 + x^23 + ... + 1: the leading term and the constant of the source. */
  function Generator(): (g: seq<bool>)
    ensures |g| == 33
  {
    [true] + POLYNOMIAL
  }

  function Dividend(m: seq<bool>): (d: seq<bool>)
    ensures |d| == |m| + 32
    ensures forall i :: 0 <= i < |d| ==> (d[i] <==> (i < |m| && m[i]) != (i < 32))
  {
    Xor(m + Zeros(32), ALL_ONES + Zeros(|m|))
  }

  /** Schoolbook product of `q` and the generator. */
  function Product(q: seq<bool>): (p: seq<bool>)
    ensures |p| == |q| + 32
  {
    if q == [] then Zeros(32)
    else
      var n := |q| - 1;
      Xor(Product(q[..n]) + [false], Zeros(n) + (if q[n] then Generator() else Zeros(33)))
  }

  /** `d` equals `q` times the generator plus `r`, a polynomial of degree below 32. */
  predicate Divides(d: seq<bool>, q: seq<bool>, r: Word)
  {
    |d| == |q| + 32 && d == Xor(Product(q), Zeros(|q|) + r)
  }

  /** The quotient bits: the bit that leaves the register at each step. */
  function Quotient(m: seq<bool>): (q: seq<bool>)
    ensures |q| == |m|
  {
    if m == [] then []
    else
      var n := |m| - 1;
      Quotient(m[..n]) + [Run(ALL_ONES, m[..n])[0] != m[n]]
  }

  lemma DividendStep(m: seq<bool>, b: bool)
    ensures Dividend(m + [b]) == Xor(Dividend(m) + [false], Zeros(|m|) + [b] + Zeros(32))
  {
  }

  /** One step of long division is one step of the register. */
  lemma DivisionStep(d: seq<bool>, q: seq<bool>, r: Word, b: bool)
    requires Divides(d, q, r)
    ensures var t := r[0] != b;
            var r' := BitStep(Xor(r, Widen([b])));
            Divides(Xor(d + [false], Zeros(|q|) + [b] + Zeros(32)), q + [t], r')
  {
    var n, t := |q|, r[0] != b;
    var x := Xor(r, Widen([b]));
    var r' := BitStep(x);
    var p := Product(q);
    assert (q + [t])[..n] == q;
    var lhs := Xor(d + [false], Zeros(n) + [b] + Zeros(32));
    var rhs := Xor(Product(q + [t]), Zeros(n + 1) + r');
    forall k | 0 <= k < n + 33 ensures lhs[k] == rhs[k] {
      assert Product(q + [t])[k] == ((p + [false])[k] != (Zeros(n) + (if t then Generator() else Zeros(33)))[k]);
      if k > n {
        BitStepAt(x, k - n - 1);
      }
    }
  }

  lemma {:induction false} RegisterDivides(m: seq<bool>)
    ensures Divides(Dividend(m), Quotient(m), Run(ALL_ONES, m))
  {
    if m == [] {
    } else {
      var n := |m| - 1;
      var r, b := Run(ALL_ONES, m[..n]), m[n];
      RegisterDivides(m[..n]);
      assert m == m[..n] + [b];
      DividendStep(m[..n], b);
      RunAppend(ALL_ONES, m[..n], [b]);
      assert Run(r, [b]) == BitStep(Xor(r, Widen([b])));
      DivisionStep(Dividend(m[..n]), Quotient(m[..n]), r, b);
    }
  }

  // ---- Division with remainder has one answer ------------------------------------------------

  lemma {:induction false} ProductOfZeros(q: seq<bool>)
    requires AllFalse(q)
    ensures Product(q) == Zeros(|q| + 32)
  {
    if q != [] {
      ProductOfZeros(q[..|q| - 1]);
    }
  }

  lemma {:induction false} ProductLinear(u: seq<bool>, v: seq<bool>)
    requires |u| == |v|
    ensures Product(Xor(u, v)) == Xor(Product(u), Product(v))
  {
    if u != [] {
      var n := |u| - 1;
      ProductLinear(u[..n], v[..n]);
      assert Xor(u, v)[..n] == Xor(u[..n], v[..n]);
    }
  }

  /** A multiple of the generator whose high coefficients vanish is zero. */
  lemma {:induction false} LowMultipleIsZero(q: seq<bool>)
    requires AllFalse(Product(q)[..|q|])
    ensures AllFalse(q)
  {
    if q != [] {
      var n := |q| - 1;
      var p := Product(q[..n]);
      forall k | 0 <= k < n ensures !p[..n][k] {
        assert Product(q)[..n + 1][k] == (p[k] != false);
      }
      LowMultipleIsZero(q[..n]);
      ProductOfZeros(q[..n]);
      assert Product(q)[..n + 1][n] == ((p + [false])[n] != q[n]);
      assert q == q[..n] + [q[n]];
    }
  }

  lemma RemainderUnique(d: seq<bool>, q: seq<bool>, r: Word, q': seq<bool>, r': Word)
    requires Divides(d, q, r) && Divides(d, q', r')
    ensures q == q' && r == r'
  {
    var n := |q|;
    var e := Xor(q, q');
    ProductLinear(q, q');
    forall k | 0 <= k < n ensures !Product(e)[..n][k] {
      assert d[k] == (Product(q)[k] != (Zeros(n) + r)[k]);
      assert d[k] == (Product(q')[k] != (Zeros(n) + r')[k]);
    }
    LowMultipleIsZero(e);
    assert forall k :: 0 <= k < n ==> e[k] == (q[k] != q'[k]);
    assert q == q';
    forall i | 0 <= i < 32 ensures r[i] == r'[i] {
      assert d[n + i] == (Product(q)[n + i] != (Zeros(n) + r)[n + i]);
      assert d[n + i] == (Product(q')[n + i] != (Zeros(n) + r')[n + i]);
    }
  }

  /** The checksum is the complement of the remainder of the message, and no other word is. */
  lemma CrcIsRemainder(data: bytes, r: Word)
    ensures (exists q :: Divides(Dividend(MessageBits(data)), q, r))
            <==> forall i :: 0 <= i < 32 ==> r[i] != Crc(data)[i]
  {
    var m := MessageBits(data);
    RegisterIsBitSerial(ALL_ONES, data);
    RegisterDivides(m);
    if q :| Divides(Dividend(m), q, r) {
      RemainderUnique(Dividend(m), q, r, Quotient(m), Run(ALL_ONES, m));
    }
    Complement(Register(ALL_ONES, data), r);
  }

  lemma Complement(c: Word, r: Word)
    ensures c == r <==> forall i :: 0 <= i < 32 ==> r[i] != Xor(c, ALL_ONES)[i]
  {
    assert forall i :: 0 <= i < 32 ==> Xor(c, ALL_ONES)[i] == !c[i];
  }
}
