/**
 * The pieces of JavaScript's `Math` object that the geometry utilities call.
 *
 * Numbers are modelled as mathematical reals. `Math.sin`, `Math.cos`,
 * `Math.tan`, `Math.log`, `Math.sqrt` and `Math.pow` are library code outside the model:
 * they are passed in as a `MathLib` value, and every fact about them that a
 * proof needs is stated as a predicate that the proof requires.
 */
module JsMath {

  /** `Math.PI`: the IEEE-754 double nearest to pi, written out exactly. */
  const Pi: real := 3.141592653589793115997963468544185161590576171875

  /** The library functions `Math.sin`, `Math.cos`, `Math.tan`, `Math.log`, `Math.sqrt`, `Math.pow`. */
  datatype MathLib = MathLib(
    sin: real -> real,
    cos: real -> real,
    tan: real -> real,
    log: real -> real,
    sqrt: real -> real,
    pow: (real, real) -> real)

  /** sin(t)^2 + cos(t)^2 == 1 for every angle t. */
  ghost predicate PythagoreanIdentity(m: MathLib)
  {
    forall t :: m.sin(t) * m.sin(t) + m.cos(t) * m.cos(t) == 1.0
  }

  /** sin(-t) == -sin(t) and cos(-t) == cos(t). */
  ghost predicate Parity(m: MathLib)
  {
    (forall t :: m.sin(-t) == -m.sin(t)) && (forall t :: m.cos(-t) == m.cos(t))
  }

  /** `Math.sqrt` returns the non-negative square root of every non-negative argument. */
  ghost predicate SqrtIsExact(m: MathLib)
  {
    forall v :: 0.0 <= v ==> 0.0 <= m.sqrt(v) && m.sqrt(v) * m.sqrt(v) == v
  }

  /** `Math.pow(v, 2)` is v * v for every v. */
  ghost predicate SquareIsExact(m: MathLib)
  {
    forall v :: m.pow(v, 2.0) == v * v
  }

  /** The non-negative square root is unique: the root of h = q * q is q itself. */
  lemma SqrtOfSquare(m: MathLib, q: real, h: real)
    requires SqrtIsExact(m)
    requires 0.0 <= q && h == q * q
    ensures m.sqrt(h) == q
  {
    var s := m.sqrt(h);
    assert 0.0 <= s && s * s == q * q;
    assert (s - q) * (s + q) == s * s - q * q;
    if s + q == 0.0 {
      assert s == 0.0 && q == 0.0;
    } else {
      assert s + q > 0.0;
      assert (s - q) * (s + q) == 0.0;
      assert s - q == ((s - q) * (s + q)) / (s + q);
    }
  }

  /** Only zero has square root zero. */
  lemma SqrtZeroIffZero(m: MathLib, v: real)
    requires SqrtIsExact(m)
    requires 0.0 <= v
    ensures m.sqrt(v) == 0.0 <==> v == 0.0
  {
    if v == 0.0 {
      SqrtOfSquare(m, 0.0, 0.0);
    }
  }
}
