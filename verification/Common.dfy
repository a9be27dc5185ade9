/** Vocabulary shared by the component models: results, bytes and fixed-width integers. */
module Common {

  datatype Option<+T> = None | Some(value: T)

  datatype Result<+T, +E> = Ok(value: T) | Err(error: E)

  const TWO_TO_THE_64: int := 0x1_0000_0000_0000_0000

  type byte = x: int | 0 <= x < 256

  type u64 = x: int | 0 <= x < TWO_TO_THE_64

  type Bytes = seq<byte>

  /** A cryptographic hash is left uninterpreted: every theorem quantifies over it. */
  type Digest = Bytes -> Bytes

  /** The low `width` bytes of `n`, least significant first. */
  function LittleEndian(n: nat, width: nat): (bs: Bytes)
    ensures |bs| == width
  {
    if width == 0 then [] else [n % 256] + LittleEndian(n / 256, width - 1)
  }

  function FromLittleEndian(bs: Bytes): nat {
    if bs == [] then 0 else bs[0] + 256 * FromLittleEndian(bs[1..])
  }

  /** The low `width` bytes of `n`, most significant first. */
  function BigEndian(n: nat, width: nat): (bs: Bytes)
    ensures |bs| == width
  {
    if width == 0 then [] else BigEndian(n / 256, width - 1) + [n % 256]
  }

  function FromBigEndian(bs: Bytes): nat {
    if bs == [] then 0 else 256 * FromBigEndian(bs[..|bs| - 1]) + bs[|bs| - 1]
  }

  function Pow256(width: nat): (p: nat)
    ensures p > 0
  {
    if width == 0 then 1 else 256 * Pow256(width - 1)
  }

  lemma Pow256Of8()
    ensures Pow256(8) == TWO_TO_THE_64
  {
    assert Pow256(2) == 0x1_0000;
    assert Pow256(4) == 0x1_0000_0000;
    assert Pow256(6) == 0x1_0000_0000_0000;
  }

  lemma {:induction false} LittleEndianRoundTrip(n: nat, width: nat)
    requires n < Pow256(width)
    ensures FromLittleEndian(LittleEndian(n, width)) == n
  {
    if width != 0 {
      var q, r := n / 256, n % 256;
      assert n == 256 * q + r && Pow256(width) == 256 * Pow256(width - 1);
      assert q < Pow256(width - 1);
      LittleEndianRoundTrip(q, width - 1);
      hide Pow256;
      assert LittleEndian(n, width)[1..] == LittleEndian(q, width - 1);
    }
  }

  lemma {:induction false} BigEndianRoundTrip(n: nat, width: nat)
    requires n < Pow256(width)
    ensures FromBigEndian(BigEndian(n, width)) == n
  {
    if width != 0 {
      var q, r := n / 256, n % 256;
      assert n == 256 * q + r && Pow256(width) == 256 * Pow256(width - 1);
      assert q < Pow256(width - 1);
      BigEndianRoundTrip(q, width - 1);
      hide Pow256;
      var bs := BigEndian(n, width);
      assert bs == BigEndian(q, width - 1) + [r];
      assert bs[..width - 1] == BigEndian(q, width - 1) && bs[width - 1] == r;
    }
  }

  lemma {:induction false} FromLittleEndianBound(bs: Bytes)
    ensures FromLittleEndian(bs) < Pow256(|bs|)
  {
    if bs != [] {
      FromLittleEndianBound(bs[1..]);
    }
  }

  lemma {:induction false} FromLittleEndianRoundTrip(bs: Bytes)
    ensures LittleEndian(FromLittleEndian(bs), |bs|) == bs
  {
    if bs != [] {
      FromLittleEndianRoundTrip(bs[1..]);
      assert FromLittleEndian(bs) / 256 == FromLittleEndian(bs[1..]) && FromLittleEndian(bs) % 256 == bs[0];
    }
  }

  lemma {:induction false} TrailingZeros(bs: Bytes, zeros: nat)
    ensures FromLittleEndian(bs + seq(zeros, _ => 0)) == FromLittleEndian(bs)
    decreases |bs| + zeros
  {
    var padded := bs + seq(zeros, _ => 0);
    if bs != [] {
      assert padded[1..] == bs[1..] + seq(zeros, _ => 0);
      TrailingZeros(bs[1..], zeros);
    } else if zeros > 0 {
      assert padded[1..] == bs + seq(zeros - 1, _ => 0);
      TrailingZeros(bs, zeros - 1);
    }
  }

  lemma U64LittleEndianInjective(a: u64, b: u64)
    requires LittleEndian(a, 8) == LittleEndian(b, 8)
    ensures a == b
  {
    Pow256Of8();
    LittleEndianRoundTrip(a, 8);
    LittleEndianRoundTrip(b, 8);
  }

  lemma U64BigEndianInjective(a: u64, b: u64)
    requires BigEndian(a, 8) == BigEndian(b, 8)
    ensures a == b
  {
    Pow256Of8();
    BigEndianRoundTrip(a, 8);
    BigEndianRoundTrip(b, 8);
  }

  lemma {:induction false} SubsetIsSmaller<T>(a: set<T>, b: set<T>)
    requires a <= b
    ensures |a| <= |b|
    ensures a != b ==> |a| < |b|
  {
    assert b == a + (b - a);
    if a != b {
      assert b - a != {};
    }
  }

  ghost function Elements<T>(s: seq<T>): set<T> {
    set x | x in s
  }

  ghost predicate NoRepeats<T>(s: seq<T>) {
    forall i, j :: 0 <= i < j < |s| ==> s[i] != s[j]
  }

  lemma {:induction false} SizeAfterPut<K, V>(m: map<K, V>, k: K, v: V)
    ensures |m[k := v]| == if k in m then |m| else |m| + 1
  {
    assert m[k := v].Keys == m.Keys + {k};
    if k in m {
      assert m[k := v].Keys == m.Keys;
    }
  }

  lemma {:induction false} SizeAfterDrop<K, V>(m: map<K, V>, k: K)
    ensures |m - {k}| == if k in m then |m| - 1 else |m|
  {
    assert (m - {k}).Keys == m.Keys - {k};
    if k !in m {
      assert m - {k} == m;
    }
  }
}
