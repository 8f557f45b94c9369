/**
 * Little-endian byte encodings, as produced by Go's
 * binary.LittleEndian.PutUint32/PutUint64 and read back by Uint16/Uint32/Uint64.
 */
module LittleEndian {

  /** A Go `byte`. */
  type byte = x: int | 0 <= x < 256

  /** 256^k, the number of values k bytes can hold. */
  function Pow256(k: nat): (r: nat)
    ensures r > 0
  {
    if k == 0 then 1 else 256 * Pow256(k - 1)
  }

  /** The k low-order bytes of n, least significant first. */
  function LE(n: nat, k: nat): (s: seq<byte>)
    ensures |s| == k
  {
    if k == 0 then [] else [n % 256] + LE(n / 256, k - 1)
  }

  /** The unsigned number whose little-endian bytes are s. */
  function FromLE(s: seq<byte>): (n: nat)
    ensures n < Pow256(|s|)
  {
    if s == [] then 0
    else
      var rest := FromLE(s[1..]);
      assert rest <= Pow256(|s| - 1) - 1;
      s[0] + 256 * rest
  }

  /** A positive multiple of d is at least d. */
  lemma MulAtLeast(d: int, x: int)
    requires d > 0 && x >= 1
    ensures d * x >= d
    decreases x
  {
    if x > 1 {
      MulAtLeast(d, x - 1);
      assert d * x == d * (x - 1) + d;
    }
  }

  /** Euclidean division is determined by its defining equation. */
  lemma DivModUnique(n: int, d: int, q: int, r: int)
    requires d > 0 && 0 <= r < d && n == d * q + r
    ensures n / d == q && n % d == r
  {
    var q', r' := n / d, n % d;
    assert n == d * q' + r';
    assert d * (q - q') == r' - r by {
      assert d * (q - q') == d * q - d * q';
    }
    if q' > q {
      MulAtLeast(d, q' - q);
    } else if q' < q {
      MulAtLeast(d, q - q');
    }
  }

  /** Reducing modulo a multiple of a first does not change the residue modulo a. */
  lemma ModOfMultipleMod(v: int, a: int, b: int)
    requires a > 0 && b > 0
    ensures (v % (a * b)) % a == v % a
  {
    var q, r := v / (a * b), v % (a * b);
    assert v == (a * b) * q + r;
    var q2, r2 := r / a, r % a;
    assert r == a * q2 + r2;
    assert v == a * (b * q + q2) + r2;
    DivModUnique(v, a, b * q + q2, r2);
  }

  /** The residue modulo 256p splits into the low byte and the residue of the
      rest modulo p. */
  lemma ModStep(n: nat, p: nat)
    requires p > 0
    ensures n % (256 * p) == n % 256 + 256 * ((n / 256) % p)
  {
    var q := n / 256;
    var b := q % p;
    var a := q / p;
    assert q == p * a + b;
    assert n == 256 * q + n % 256;
    assert n == (256 * p) * a + (256 * b + n % 256) by {
      assert 256 * q == 256 * (p * a) + 256 * b;
      assert 256 * (p * a) == (256 * p) * a;
    }
    DivModUnique(n, 256 * p, a, 256 * b + n % 256);
  }

  /** Decoding the k bytes of n gives n modulo 256^k. */
  lemma {:induction false} FromLEOfLE(n: nat, k: nat)
    ensures FromLE(LE(n, k)) == n % Pow256(k)
  {
    if k > 0 {
      var s := LE(n, k);
      assert s[1..] == LE(n / 256, k - 1);
      FromLEOfLE(n / 256, k - 1);
      ModStep(n, Pow256(k - 1));
    }
  }

  /** Bytes below 256^k round-trip exactly. */
  lemma FromLEOfLESmall(n: nat, k: nat)
    requires n < Pow256(k)
    ensures FromLE(LE(n, k)) == n
  {
    FromLEOfLE(n, k);
    DivModUnique(n, Pow256(k), 0, n);
  }

  /** The first j of the k low-order bytes are the j low-order bytes. */
  lemma {:induction false} LEPrefix(n: nat, k: nat, j: nat)
    requires j <= k
    ensures LE(n, k)[..j] == LE(n, j)
  {
    if j > 0 {
      LEPrefix(n / 256, k - 1, j - 1);
      assert LE(n, k)[..j] == [n % 256] + LE(n / 256, k - 1)[..j - 1];
    }
  }

  /** Encoding is injective on numbers below 256^k: bytes determine the number. */
  lemma {:induction false} LEOfFromLE(s: seq<byte>)
    ensures LE(FromLE(s), |s|) == s
  {
    if s != [] {
      var n := FromLE(s);
      var rest := FromLE(s[1..]);
      assert n == s[0] + 256 * rest;
      DivModUnique(n, 256, rest, s[0]);
      LEOfFromLE(s[1..]);
    }
  }
}
