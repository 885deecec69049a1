/** Bytes and the fixed-width integer encodings used on the wire and on disk. */
module Bytes {
  type byte = b: int | 0 <= b < 256

  type Bytes16 = s: seq<byte> | |s| == 16 witness seq(16, _ => 0)

  type Bytes32 = s: seq<byte> | |s| == 32 witness seq(32, _ => 0)

  datatype Option<+T> = None | Some(value: T)

  datatype Result<+T, +E> = Ok(value: T) | Err(error: E) {
    predicate IsFailure() {
      Err?
    }

    function PropagateFailure<U>(): Result<U, E>
      requires Err?
    {
      Err(error)
    }

    function Extract(): T
      requires Ok?
    {
      value
    }
  }

  lemma Assoc<T>(a: seq<T>, b: seq<T>, c: seq<T>)
    ensures a + (b + c) == (a + b) + c
  {
  }

  function Pow256(k: nat): (p: nat)
    ensures p > 0
  {
    if k == 0 then 1 else 256 * Pow256(k - 1)
  }

  /** The low `k` bytes of `n`, least significant first; higher bytes are cut off, as a narrowing cast does. */
  function LeBytes(n: nat, k: nat): (s: seq<byte>)
    ensures |s| == k
  {
    if k == 0 then [] else [n % 256] + LeBytes(n / 256, k - 1)
  }

  function LeValue(s: seq<byte>): nat {
    if s == [] then 0 else s[0] + 256 * LeValue(s[1..])
  }

  /** The low `k` bytes of `n`, most significant first. */
  function BeBytes(n: nat, k: nat): (s: seq<byte>)
    ensures |s| == k
  {
    if k == 0 then [] else BeBytes(n / 256, k - 1) + [n % 256]
  }

  function BeValue(s: seq<byte>): nat {
    if s == [] then 0 else 256 * BeValue(s[..|s| - 1]) + s[|s| - 1]
  }

  lemma {:induction false} LeRoundTrip(n: nat, k: nat)
    requires n < Pow256(k)
    ensures LeValue(LeBytes(n, k)) == n
  {
    if k > 0 {
      LeRoundTrip(n / 256, k - 1);
      assert LeBytes(n, k)[1..] == LeBytes(n / 256, k - 1);
    }
  }

  lemma {:induction false} LeCanonical(s: seq<byte>)
    ensures LeValue(s) < Pow256(|s|)
    ensures LeBytes(LeValue(s), |s|) == s
  {
    if s != [] {
      LeCanonical(s[1..]);
      assert s == [s[0]] + s[1..];
    }
  }

  lemma {:induction false} BeRoundTrip(n: nat, k: nat)
    requires n < Pow256(k)
    ensures BeValue(BeBytes(n, k)) == n
  {
    if k > 0 {
      BeRoundTrip(n / 256, k - 1);
      assert BeBytes(n, k)[..k - 1] == BeBytes(n / 256, k - 1);
    }
  }

  lemma {:induction false} BeCanonical(s: seq<byte>)
    ensures BeValue(s) < Pow256(|s|)
    ensures BeBytes(BeValue(s), |s|) == s
  {
    if s != [] {
      BeCanonical(s[..|s| - 1]);
      assert s == s[..|s| - 1] + [s[|s| - 1]];
    }
  }

  lemma Pow256Small()
    ensures Pow256(0) == 1 && Pow256(1) == 0x100 && Pow256(2) == 0x1_0000 && Pow256(3) == 0x100_0000 && Pow256(4) == 0x1_0000_0000
    ensures Pow256(8) == 0x1_0000_0000_0000_0000
  {
    assert Pow256(3) == 256 * Pow256(2);
    assert Pow256(4) == 256 * Pow256(3);
    assert Pow256(5) == 256 * Pow256(4);
    assert Pow256(6) == 256 * Pow256(5);
    assert Pow256(7) == 256 * Pow256(6);
  }

  lemma {:induction false} Pow256Add(j: nat, k: nat)
    ensures Pow256(j + k) == Pow256(j) * Pow256(k)
  {
    if j > 0 {
      Pow256Add(j - 1, k);
    }
  }

  const TWO_TO_256: nat := 0x1_0000_0000_0000_0000_0000_0000_0000_0000_0000_0000_0000_0000_0000_0000_0000_0000

  lemma Pow256Of32()
    ensures Pow256(32) == TWO_TO_256
  {
    Pow256Small();
    Pow256Add(8, 8);
    Pow256Add(16, 16);
  }

  /** Byte `i` of the little-endian form is the i-th digit to the base 256. */
  lemma {:induction false} LeByteAt(n: nat, k: nat, i: nat)
    requires i < k
    ensures LeBytes(n, k)[i] == (n / Pow256(i)) % 256
  {
    if i > 0 {
      LeByteAt(n / 256, k - 1, i - 1);
      DivideTwice(n, Pow256(i - 1));
    }
  }

  lemma DivideTwice(n: nat, p: nat)
    requires p > 0
    ensures n / 256 / p == n / (256 * p)
  {
    var d, r := n / 256, n % 256;
    var e, t := d / p, d % p;
    assert n == 256 * d + r && d == p * e + t;
    assert n == (256 * p) * e + (256 * t + r);
    assert 0 <= 256 * t + r < 256 * p;
    DivisionIs(n, 256 * p, e, 256 * t + r);
  }

  lemma DivisionIs(n: nat, b: nat, e: nat, rest: nat)
    requires b > 0 && n == b * e + rest && rest < b
    ensures n / b == e
  {
    var d := n / b - e;
    assert b * d == rest - n % b by { assert b * d == b * (n / b) - b * e; }
    MultipleBound(b, d);
  }

  lemma MultipleBound(b: int, d: int)
    requires b > 0
    ensures d >= 1 ==> b * d >= b
    ensures d <= -1 ==> b * d <= -b
  {
  }

  /** The big-endian form is the little-endian form backwards. */
  lemma {:induction false} BeByteAt(n: nat, k: nat, i: nat)
    requires i < k
    ensures BeBytes(n, k)[i] == LeBytes(n, k)[k - 1 - i]
  {
    if i < k - 1 {
      BeByteAt(n / 256, k - 1, i);
    }
  }
}
