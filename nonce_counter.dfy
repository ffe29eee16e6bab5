/** The encryptor's nonce as a fixed-width little-endian counter.

    `Increment` is libsodium's sodium_increment: byte 0 is the least significant,
    a carry ripples towards the last byte, and a carry out of the last byte is
    dropped, so the counter wraps modulo 256^width. */
module NonceCounter {
  import opened Bytes

  /** 256 to the power n: the number of distinct values of an n-byte counter. */
  function Pow256(n: nat): (p: nat)
    ensures p > 0
  {
    if n == 0 then 1 else 256 * Pow256(n - 1)
  }

  /** The unsigned number a byte string denotes, least significant byte first. */
  function LeValue(s: seq<uint8>): nat
  {
    if s == [] then 0 else s[0] as int + 256 * LeValue(s[1..])
  }

  /** sodium_increment: add one with carry, keeping the width. */
  function Increment(s: seq<uint8>): (r: seq<uint8>)
    ensures |r| == |s|
  {
    if s == [] then []
    else if s[0] == 255 then [0] + Increment(s[1..])
    else [s[0] + 1] + s[1..]
  }

  /** The counter after k increments. */
  function Advance(s: seq<uint8>, k: nat): (r: seq<uint8>)
    ensures |r| == |s|
  {
    if k == 0 then s else Increment(Advance(s, k - 1))
  }

  /** An n-byte string denotes a number below 256^n. */
  lemma {:induction false} LeValueBound(s: seq<uint8>)
    ensures LeValue(s) < Pow256(|s|)
  {
    if s != [] {
      LeValueBound(s[1..]);
    }
  }

  /** Two byte strings of one width that denote the same number are equal. */
  lemma {:induction false} LeValueInjective(s: seq<uint8>, t: seq<uint8>)
    requires |s| == |t| && LeValue(s) == LeValue(t)
    ensures s == t
  {
    if s != [] {
      LeValueBound(s[1..]);
      LeValueBound(t[1..]);
      // The low byte is the value modulo 256, the rest the value divided by 256.
      assert s[0] == t[0] && LeValue(s[1..]) == LeValue(t[1..]) by {
        DivModUnique(s[0] as int, LeValue(s[1..]), t[0] as nat, LeValue(t[1..]));
      }
      LeValueInjective(s[1..], t[1..]);
      assert s == [s[0]] + s[1..] && t == [t[0]] + t[1..];
    }
  }

  lemma DivModUnique(a: nat, x: nat, b: nat, y: nat)
    requires a < 256 && b < 256 && a + 256 * x == b + 256 * y
    ensures a == b && x == y
  {
  }

  /** sodium_increment adds one modulo 256^width. */
  lemma {:induction false} IncrementValue(s: seq<uint8>)
    ensures LeValue(Increment(s)) == (LeValue(s) + 1) % Pow256(|s|)
  {
    if s == [] {
      ModUnique(1, 1, 0, 1);
    } else {
      var t := s[1..];
      var m := Pow256(|t|);
      var v, w := LeValue(s), LeValue(Increment(s));
      assert Pow256(|s|) == 256 * m;
      IncrementValue(t);
      LeValueBound(t);
      if s[0] == 255 {
        assert Increment(s)[1..] == Increment(t);
        assert v == 255 + 256 * LeValue(t);
        assert w == 256 * LeValue(Increment(t));
        if LeValue(t) + 1 == m {
          // Every byte was 255: the counter wraps to zero.
          ModUnique(LeValue(t) + 1, 1, 0, m);
          ModUnique(v + 1, 1, 0, 256 * m);
        } else {
          ModUnique(LeValue(t) + 1, 0, LeValue(t) + 1, m);
          ModUnique(v + 1, 0, v + 1, 256 * m);
        }
      } else {
        assert Increment(s)[1..] == t;
        assert w == v + 1;
        ModUnique(v + 1, 0, v + 1, 256 * m);
      }
    }
  }

  /** Increment is the only string of its width whose value is one more, modulo
      256^width: with IncrementValue, the value alone determines sodium_increment. */
  lemma IncrementUnique(s: seq<uint8>, t: seq<uint8>)
    requires |t| == |s| && LeValue(t) == (LeValue(s) + 1) % Pow256(|s|)
    ensures t == Increment(s)
  {
    IncrementValue(s);
    LeValueInjective(t, Increment(s));
  }

  /** k increments add k modulo 256^width. */
  lemma {:induction false} AdvanceValue(s: seq<uint8>, k: nat)
    ensures LeValue(Advance(s, k)) == (LeValue(s) + k) % Pow256(|s|)
  {
    if k == 0 {
      LeValueBound(s);
      ModUnique(LeValue(s), 0, LeValue(s), Pow256(|s|));
    } else {
      var previous := Advance(s, k - 1);
      AdvanceValue(s, k - 1);
      IncrementValue(previous);
      ModAddOne(LeValue(s) + k - 1, Pow256(|s|));
    }
  }

  /** x is q * m + r with 0 <= r < m exactly when x % m == r. */
  lemma ModUnique(x: int, q: int, r: int, m: int)
    requires m > 0 && 0 <= r < m && x == q * m + r
    ensures x % m == r
  {
    var q0, r0 := x / m, x % m;
    assert x == q0 * m + r0;
    assert (q - q0) * m == r0 - r;
    if q > q0 {
      MulAtLeast(q - q0, m);
    } else if q < q0 {
      MulAtLeast(q0 - q, m);
    }
  }

  lemma MulAtLeast(k: int, m: int)
    requires k >= 1 && m > 0
    ensures k * m >= m
  {
  }

  lemma ModAddOne(x: nat, m: nat)
    requires m > 0
    ensures (x % m + 1) % m == (x + 1) % m
  {
    var q, r := x / m, x % m;
    assert x == q * m + r;
    if r + 1 == m {
      ModUnique(r + 1, 1, 0, m);
      ModUnique(x + 1, q + 1, 0, m);
    } else {
      ModUnique(r + 1, 0, r + 1, m);
      ModUnique(x + 1, q, r + 1, m);
    }
  }

  /** While fewer than 256^width increments separate them, two counter values
      differ: an n-byte nonce does not repeat within 256^n encryptions. */
  lemma NoncesNeverRepeat(s: seq<uint8>, i: nat, j: nat)
    requires i < j < i + Pow256(|s|)
    ensures Advance(s, i) != Advance(s, j)
  {
    var m := Pow256(|s|);
    AdvanceValue(s, i);
    AdvanceValue(s, j);
    LeValueBound(s);
    if Advance(s, i) == Advance(s, j) {
      var x, d := LeValue(s) + i, j - i;
      assert (x + d) % m == x % m;
      SameModulus(x, d, m);
      assert false;
    }
  }

  lemma SameModulus(x: nat, d: nat, m: nat)
    requires 0 < d < m
    ensures (x + d) % m != x % m
  {
    var q, r := x / m, x % m;
    ModUnique(x, q, r, m);
    if r + d < m {
      ModUnique(x + d, q, r + d, m);
    } else {
      ModUnique(x + d, q + 1, r + d - m, m);
    }
  }
}
