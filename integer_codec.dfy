/** Fixed-width integers: masking to n bytes, two's-complement reinterpretation,
    and the big-endian and little-endian byte layouts of an n-byte unsigned value.
    Widths are counted in bytes (1, 2, 4 and 8 in the buffer). */
module IntegerCodec {

  /** One octet of buffer content. */
  type byte = b: int | 0 <= b < 256

  /** 256^n: the number of distinct n-byte values. */
  function Pow256(n: nat): (r: nat)
    ensures r >= 1
  {
    if n == 0 then 1 else 256 * Pow256(n - 1)
  }

  /** The least value beyond the signed n-byte range (2^(8n-1)). */
  function Half(n: nat): (r: int)
    requires n >= 1
    ensures r >= 1 && Pow256(n) == 2 * r
  {
    128 * Pow256(n - 1)
  }

  /** Masks v to its low 8n bits, read as an unsigned number
      (Dafny's % is Euclidean, so negative v gives its two's-complement bits). */
  function ToUnsigned(v: int, n: nat): (u: nat)
    ensures u < Pow256(n)
  {
    v % Pow256(n)
  }

  /** Reads an unsigned n-byte value as two's complement: the top bit is the sign. */
  function ToSigned(u: nat, n: nat): (r: int)
    requires 1 <= n && u < Pow256(n)
    ensures -Half(n) <= r < Half(n)
    ensures r >= 0 <==> u < Half(n)
  {
    if u < Half(n) then u else u - Pow256(n)
  }

  /** A non-zero multiple of a positive m is at least m away from zero. */
  lemma MultipleBounds(k: int, m: int)
    requires m > 0
    ensures k >= 1 ==> k * m >= m
    ensures k <= -1 ==> k * m <= -m
  {
    if k >= 1 {
      assert k * m == (k - 1) * m + m;
      assert (k - 1) * m >= 0;
    } else if k <= -1 {
      assert k * m == -((-k - 1) * m) - m;
      assert (-k - 1) * m >= 0;
    }
  }

  /** Two numbers congruent modulo m and less than m apart are equal. */
  lemma CongruentAndClose(a: int, b: int, m: int)
    requires m > 0 && a % m == b % m && -m < a - b < m
    ensures a == b
  {
    var k := a / m - b / m;
    assert a == (a / m) * m + a % m;
    assert b == (b / m) * m + b % m;
    assert a - b == (a / m) * m - (b / m) * m;
    assert (a / m) * m - (b / m) * m == k * m;
    MultipleBounds(k, m);
  }

  /** a % m is the r of any decomposition a == q * m + r with 0 <= r < m. */
  lemma ModOfDecomposition(a: int, m: int, q: int, r: int)
    requires m > 0 && 0 <= r < m && a == q * m + r
    ensures a % m == r
  {
    var d := a / m;
    assert a == d * m + a % m;
    assert (q - d) * m == q * m - d * m;
    assert (q - d) * m == a % m - r;
    MultipleBounds(q - d, m);
  }

  /** Narrowing: reduce an arbitrary integer to the signed n-byte range by keeping
      its low 8n bits and reinterpreting the top one as the sign. It never fails. */
  function Narrow(v: int, n: nat): (r: int)
    requires n >= 1
    ensures -Half(n) <= r < Half(n)
    ensures ToUnsigned(r, n) == ToUnsigned(v, n)
  {
    var u := ToUnsigned(v, n);
    SignedKeepsLowBits(u, n);
    ToSigned(u, n)
  }

  /** Reinterpreting the sign does not change the low 8n bits. */
  lemma SignedKeepsLowBits(u: nat, n: nat)
    requires 1 <= n && u < Pow256(n)
    ensures ToUnsigned(ToSigned(u, n), n) == u
  {
    var r := ToSigned(u, n);
    if r < 0 {
      ModOfDecomposition(r, Pow256(n), -1, u);
    } else {
      ModOfDecomposition(r, Pow256(n), 0, u);
    }
  }

  /** The two properties of Narrow determine its value: a number in the signed
      range with the same low bits as v is Narrow(v). */
  lemma NarrowUnique(v: int, n: nat, r: int)
    requires n >= 1
    requires -Half(n) <= r < Half(n) && ToUnsigned(r, n) == ToUnsigned(v, n)
    ensures r == Narrow(v, n)
  {
    CongruentAndClose(r, Narrow(v, n), Pow256(n));
  }

  /** A value already in the signed range is left alone; hence Narrow is idempotent. */
  lemma NarrowInRange(v: int, n: nat)
    requires n >= 1 && -Half(n) <= v < Half(n)
    ensures Narrow(v, n) == v
    ensures Narrow(Narrow(v, n), n) == Narrow(v, n)
  {
    NarrowUnique(v, n, v);
  }

  lemma NarrowIdempotent(v: int, n: nat)
    requires n >= 1
    ensures Narrow(Narrow(v, n), n) == Narrow(v, n)
  {
    NarrowInRange(Narrow(v, n), n);
  }

  /** An unsigned n-byte value narrows to its two's-complement reading. */
  lemma NarrowOfUnsigned(u: nat, n: nat)
    requires n >= 1 && u < Pow256(n)
    ensures Narrow(u, n) == ToSigned(u, n)
  {
    ModOfDecomposition(u, Pow256(n), 0, u);
  }

  /** The k-th least significant byte of u (k = 0 is the lowest). */
  function ByteOf(u: nat, k: nat): byte
  {
    if k == 0 then u % 256 else ByteOf(u / 256, k - 1)
  }

  /** Big-endian layout of the low n bytes of u: most significant byte first. */
  function EncodeBE(u: nat, n: nat): (r: seq<byte>)
    requires u < Pow256(n)
    ensures |r| == n
  {
    if n == 0 then [] else EncodeBE(u / 256, n - 1) + [u % 256]
  }

  /** Little-endian layout of the low n bytes of u: least significant byte first. */
  function EncodeLE(u: nat, n: nat): (r: seq<byte>)
    requires u < Pow256(n)
    ensures |r| == n
  {
    if n == 0 then [] else [u % 256] + EncodeLE(u / 256, n - 1)
  }

  /** The unsigned value of a big-endian byte string. */
  function DecodeBE(b: seq<byte>): (u: nat)
    ensures u < Pow256(|b|)
  {
    if b == [] then 0 else DecodeBE(b[..|b| - 1]) * 256 + b[|b| - 1]
  }

  /** The unsigned value of a little-endian byte string. */
  function DecodeLE(b: seq<byte>): (u: nat)
    ensures u < Pow256(|b|)
  {
    if b == [] then 0 else b[0] + 256 * DecodeLE(b[1..])
  }

  /** Byte i of the big-endian layout is byte n-1-i of the value. */
  lemma {:induction false} EncodeBEBytes(u: nat, n: nat)
    requires u < Pow256(n)
    ensures forall i :: 0 <= i < n ==> EncodeBE(u, n)[i] == ByteOf(u, n - 1 - i)
  {
    if n > 0 {
      EncodeBEBytes(u / 256, n - 1);
      var r := EncodeBE(u, n);
      forall i | 0 <= i < n
        ensures r[i] == ByteOf(u, n - 1 - i)
      {
        if i < n - 1 {
          assert r[i] == EncodeBE(u / 256, n - 1)[i];
        }
      }
    }
  }

  /** Byte i of the little-endian layout is byte i of the value. */
  lemma {:induction false} EncodeLEBytes(u: nat, n: nat)
    requires u < Pow256(n)
    ensures forall i :: 0 <= i < n ==> EncodeLE(u, n)[i] == ByteOf(u, i)
  {
    if n > 0 {
      EncodeLEBytes(u / 256, n - 1);
      var r := EncodeLE(u, n);
      forall i | 0 <= i < n
        ensures r[i] == ByteOf(u, i)
      {
        if i > 0 {
          assert r[i] == EncodeLE(u / 256, n - 1)[i - 1];
        }
      }
    }
  }

  /** The two layouts are mirror images of each other. */
  lemma EncodeLEIsReversedBE(u: nat, n: nat)
    requires u < Pow256(n)
    ensures forall i :: 0 <= i < n ==> EncodeLE(u, n)[i] == EncodeBE(u, n)[n - 1 - i]
  {
    EncodeBEBytes(u, n);
    EncodeLEBytes(u, n);
  }

  /** k zero bytes. */
  function Zeros(k: nat): (r: seq<byte>)
    ensures |r| == k && forall i :: 0 <= i < k ==> r[i] == 0
  {
    seq(k, _ => 0)
  }

  /** A value that fits in m bytes is laid out in m + k bytes by padding with
      zeros on the most significant side. */
  lemma {:induction false} EncodeBEWiden(u: nat, m: nat, k: nat)
    requires u < Pow256(m)
    ensures u < Pow256(m + k)
    ensures EncodeBE(u, m + k) == Zeros(k) + EncodeBE(u, m)
  {
    if m == 0 {
      EncodeZeroBE(k);
    } else {
      EncodeBEWiden(u / 256, m - 1, k);
      assert m + k - 1 == (m - 1) + k;
      assert EncodeBE(u, m + k) == EncodeBE(u / 256, m - 1 + k) + [u % 256];
    }
  }

  lemma {:induction false} EncodeZeroBE(k: nat)
    ensures 0 < Pow256(k) && EncodeBE(0, k) == Zeros(k)
  {
    if k > 0 {
      EncodeZeroBE(k - 1);
      assert Zeros(k) == Zeros(k - 1) + [0];
    }
  }

  lemma {:induction false} EncodeLEWiden(u: nat, m: nat, k: nat)
    requires u < Pow256(m)
    ensures u < Pow256(m + k)
    ensures EncodeLE(u, m + k) == EncodeLE(u, m) + Zeros(k)
  {
    if m == 0 {
      EncodeZeroLE(k);
    } else {
      EncodeLEWiden(u / 256, m - 1, k);
      assert m + k - 1 == (m - 1) + k;
      assert EncodeLE(u, m + k) == [u % 256] + EncodeLE(u / 256, m - 1 + k);
    }
  }

  lemma {:induction false} EncodeZeroLE(k: nat)
    ensures 0 < Pow256(k) && EncodeLE(0, k) == Zeros(k)
  {
    if k > 0 {
      EncodeZeroLE(k - 1);
      assert Zeros(k) == [0] + Zeros(k - 1);
    }
  }

  lemma {:induction false} DecodeEncodeBE(u: nat, n: nat)
    requires u < Pow256(n)
    ensures DecodeBE(EncodeBE(u, n)) == u
  {
    if n > 0 {
      var r := EncodeBE(u, n);
      DecodeEncodeBE(u / 256, n - 1);
      assert r[..|r| - 1] == EncodeBE(u / 256, n - 1);
    }
  }

  lemma {:induction false} DecodeEncodeLE(u: nat, n: nat)
    requires u < Pow256(n)
    ensures DecodeLE(EncodeLE(u, n)) == u
  {
    if n > 0 {
      var r := EncodeLE(u, n);
      DecodeEncodeLE(u / 256, n - 1);
      assert r[1..] == EncodeLE(u / 256, n - 1);
    }
  }

  lemma {:induction false} EncodeDecodeBE(b: seq<byte>)
    ensures EncodeBE(DecodeBE(b), |b|) == b
  {
    if b != [] {
      var init := b[..|b| - 1];
      EncodeDecodeBE(init);
      var u := DecodeBE(b);
      assert u / 256 == DecodeBE(init) && u % 256 == b[|b| - 1];
      assert b == init + [b[|b| - 1]];
    }
  }

  lemma {:induction false} EncodeDecodeLE(b: seq<byte>)
    ensures EncodeLE(DecodeLE(b), |b|) == b
  {
    if b != [] {
      EncodeDecodeLE(b[1..]);
      var u := DecodeLE(b);
      assert u / 256 == DecodeLE(b[1..]) && u % 256 == b[0];
      assert b == [b[0]] + b[1..];
    }
  }
}
