/** Result types and octet arithmetic shared by the protocol models. */
module Wrappers {
  datatype Option<+T> = None | Some(value: T) {
    function GetOr(default: T): T {
      if Some? then value else default
    }
  }

  datatype Result<+T, +E> = Ok(value: T) | Err(error: E)
}

module Octets {
  type byte = b: int | 0 <= b < 256
  type word = w: int | 0 <= w < 0x1_0000

  /** Big-endian ("!H") packing of a 16-bit word. */
  function Be16(w: word): (s: seq<byte>)
    ensures |s| == 2 && 256 * s[0] as int + s[1] == w
  {
    [w / 256, w % 256]
  }

  function ReadBe16(hi: byte, lo: byte): word {
    hi * 256 + lo
  }

  lemma {:induction false} Be16RoundTrip(w: word)
    ensures ReadBe16(Be16(w)[0], Be16(w)[1]) == w
  {
  }

  /** The octets of `n` in base 256, most significant first, cut to `len` octets. */
  function BigEndian(n: int, len: nat): (s: seq<byte>)
    ensures |s| == len
    decreases len
  {
    if len == 0 then [] else BigEndian(n / 256, len - 1) + [n % 256]
  }

  /** `int.from_bytes(s, "big")`. */
  function FromBigEndian(s: seq<byte>): nat {
    if s == [] then 0 else FromBigEndian(s[..|s| - 1]) * 256 + s[|s| - 1]
  }

  function Pow256(len: nat): (p: nat)
    ensures p >= 1
  {
    if len == 0 then 1 else 256 * Pow256(len - 1)
  }

  lemma {:induction false} MulAtLeast(d: int, z: int)
    requires d >= 1 && z >= 1
    ensures d * z >= d
  {
    assert d * z == d * (z - 1) + d;
    assert d * (z - 1) >= 0;
  }

  lemma {:induction false} DivModUnique(n: int, d: int, q: int, r: int)
    requires d >= 1 && 0 <= r < d && n == d * q + r
    ensures n / d == q && n % d == r
  {
    var dq, dr := n / d, n % d;
    assert n == d * dq + dr;
    assert d * (dq - q) == d * dq - d * q;
    assert d * (q - dq) == d * q - d * dq;
    if dq > q {
      MulAtLeast(d, dq - q);
    } else if dq < q {
      MulAtLeast(d, q - dq);
    }
  }

  lemma {:induction false} ModStep(n: int, p: int)
    requires p >= 1
    ensures (n / 256 % p) * 256 + n % 256 == n % (256 * p)
  {
    var q, r := n / 256, n % 256;
    var q1, r1 := q / p, q % p;
    assert q == p * q1 + r1;
    assert 256 * (p * q1) == (256 * p) * q1;
    DivModUnique(n, 256 * p, q1, r1 * 256 + r);
  }

  /** Packing keeps exactly the value modulo 256^len (Python's floor modulus, also for negatives). */
  lemma {:induction false} BigEndianValue(n: int, len: nat)
    ensures FromBigEndian(BigEndian(n, len)) == n % Pow256(len)
    decreases len
  {
    if len > 0 {
      var s := BigEndian(n, len);
      assert s[..len - 1] == BigEndian(n / 256, len - 1);
      BigEndianValue(n / 256, len - 1);
      ModStep(n, Pow256(len - 1));
    }
  }

  lemma {:induction false} DivStep(n: int, p: int)
    requires p >= 1
    ensures n / 256 / p == n / (256 * p)
  {
    var q, r := n / 256, n % 256;
    var q1, r1 := q / p, q % p;
    assert q == p * q1 + r1;
    assert 256 * (p * q1) == (256 * p) * q1;
    DivModUnique(n, 256 * p, q1, r1 * 256 + r);
  }

  /** Octet by octet: place `i` of `len` weighs 256 to the power of the places after it. */
  lemma {:induction false} BigEndianAt(n: int, len: nat, i: nat)
    requires i < len
    ensures BigEndian(n, len)[i] as int == n / Pow256(len - 1 - i) % 256
    decreases len
  {
    if i < len - 1 {
      BigEndianAt(n / 256, len - 1, i);
      DivStep(n, Pow256(len - 2 - i));
      assert BigEndian(n, len)[i] == BigEndian(n / 256, len - 1)[i];
    }
  }
}

module Sequences {
  lemma {:induction false} Assoc<T>(a: seq<T>, b: seq<T>, c: seq<T>)
    ensures (a + b) + c == a + (b + c)
  {
  }

  predicate Distinct<T(==)>(s: seq<T>) {
    forall i, j | 0 <= i < j < |s| :: s[i] != s[j]
  }

  /** The octets of several fragments, one after the other. */
  function Flatten<T>(parts: seq<seq<T>>): seq<T> {
    if parts == [] then [] else parts[0] + Flatten(parts[1..])
  }

  /** Python's `s[lo:hi]` with bounds that are not negative. */
  function Slice<T>(s: seq<T>, lo: nat, hi: nat): seq<T> {
    if lo >= |s| || lo >= hi then [] else if hi > |s| then s[lo..] else s[lo..hi]
  }

  lemma {:induction false} SliceMiddle<T>(a: seq<T>, b: seq<T>, c: seq<T>)
    ensures Slice(a + (b + c), |a|, |a| + |b|) == b
  {
    var s := a + (b + c);
    if b != [] {
      assert s[|a|..|a| + |b|] == b;
    }
  }

  lemma {:induction false} SliceRest<T>(a: seq<T>, b: seq<T>, n: nat)
    requires n >= |a| + |b|
    ensures Slice(a + b, |a|, n) == b
  {
    var s := a + b;
    if b != [] {
      assert s[|a|..] == b;
    }
  }

  lemma {:induction false} SplitAt<T>(s: seq<T>, k: nat)
    requires k <= |s|
    ensures s == s[..k] + s[k..]
  {
  }
}
