/** The on-disk format of the xv6 file system: bytes, blocks, little-endian words and bitmap bits. */
module DiskFormat {

  type Byte = x: int | 0 <= x < 256
  type U16 = x: int | 0 <= x < 0x1_0000
  type U32 = x: int | 0 <= x < 0x1_0000_0000

  const BSIZE := 512      // bytes per block
  const WORDS := 128      // 32-bit words per block
  const NDIRECT := 12
  const NINDIRECT := 128
  const MAXFILE := 140
  const IPB := 8          // inodes per block: a dinode is 64 bytes
  const BPB := 4096       // bitmap bits per block

  type Block = b: seq<Byte> | |b| == 512 witness seq(512, _ => 0)

  function ZeroBlock(): (b: Block)
    ensures forall i :: 0 <= i < BSIZE ==> b[i] == 0
  {
    seq(512, _ => 0)
  }

  // ---- little-endian words inside a block ----

  function Word(b: Block, j: int): U32
    requires 0 <= j < WORDS
  {
    b[4 * j] as int + 0x100 * b[4 * j + 1] as int + 0x1_0000 * b[4 * j + 2] as int + 0x100_0000 * b[4 * j + 3] as int
  }

  function PutWord(b: Block, j: int, v: U32): Block
    requires 0 <= j < WORDS
  {
    b[4 * j := v % 0x100][4 * j + 1 := v / 0x100 % 0x100]
     [4 * j + 2 := v / 0x1_0000 % 0x100][4 * j + 3 := v / 0x100_0000]
  }

  lemma WordPutWord(b: Block, j: int, v: U32, k: int)
    requires 0 <= j < WORDS && 0 <= k < WORDS
    ensures Word(PutWord(b, j, v), k) == if k == j then v else Word(b, k)
  {
    var p := PutWord(b, j, v);
    if k == j {
      assert p[4 * j] == v % 0x100 && p[4 * j + 1] == v / 0x100 % 0x100;
      assert p[4 * j + 2] == v / 0x1_0000 % 0x100 && p[4 * j + 3] == v / 0x100_0000;
      BytesOfWord(v);
    } else {
      assert forall x :: 0 <= x < BSIZE && !(4 * j <= x < 4 * j + 4) ==> p[x] == b[x];
    }
  }

  lemma BytesOfWord(v: U32)
    ensures v ==
      v % 0x100 + 0x100 * (v / 0x100 % 0x100) + 0x1_0000 * (v / 0x1_0000 % 0x100) + 0x100_0000 * (v / 0x100_0000)
  {
    var a := v / 0x100;
    var b := a / 0x100;
    Nested(v, 0x100);
    Nested(v, 0x1_0000);
    assert v == 0x100 * a + v % 0x100 && a == 0x100 * b + a % 0x100 && b == 0x100 * (b / 0x100) + b % 0x100;
  }

  lemma Nested(v: nat, k: nat)
    requires k == 0x100 || k == 0x1_0000
    ensures v / k / 0x100 == v / (0x100 * k)
  {
  }

  // Words are little-endian.
  lemma WordBytes(b: Block, j: int)
    requires 0 <= j < WORDS
    ensures var w := Word(b, j);
      && b[4 * j] == w % 256 && b[4 * j + 1] == w / 256 % 256
      && b[4 * j + 2] == w / 65536 % 256 && b[4 * j + 3] == w / 16777216
  {
    var x, y, z, t: int := b[4 * j], b[4 * j + 1], b[4 * j + 2], b[4 * j + 3];
    var w := x + 256 * (y + 256 * (z + 256 * t));
    assert w == Word(b, j) && w / 256 == y + 256 * (z + 256 * t);
    assert w / 65536 == z + 256 * t && w / 16777216 == t;
  }

  lemma ZeroWord(j: int)
    requires 0 <= j < WORDS
    ensures Word(ZeroBlock(), j) == 0
  {
  }

  // ---- bits inside a byte ----

  // Bit k of x.
  predicate TestBit(x: nat, k: nat) {
    if k == 0 then x % 2 == 1 else TestBit(x / 2, k - 1)
  }

  // x with bit k set when on, cleared otherwise.
  function WithBit(x: nat, k: nat, on: bool): nat {
    if k == 0 then x / 2 * 2 + (if on then 1 else 0) else WithBit(x / 2, k - 1, on) * 2 + x % 2
  }

  function Pow2(n: nat): nat {
    if n == 0 then 1 else 2 * Pow2(n - 1)
  }

  lemma Halves(x: nat, p: nat)
    requires x < 2 * p
    ensures x / 2 < p
  {
  }

  lemma Doubled(h: nat, bit: nat, p: nat)
    requires h < p && bit < 2
    ensures h * 2 + bit < 2 * p
  {
  }

  lemma {:induction false} WithBitBound(x: nat, k: nat, on: bool, n: nat)
    requires k < n && x < Pow2(n)
    ensures WithBit(x, k, on) < Pow2(n)
  {
    var p := Pow2(n - 1);
    assert Pow2(n) == 2 * p;
    if k > 0 {
      Halves(x, p);
      WithBitBound(x / 2, k - 1, on, n - 1);
      Doubled(WithBit(x / 2, k - 1, on), x % 2, p);
    } else {
      Halves(x, p);
      Doubled(x / 2, if on then 1 else 0, p);
    }
  }

  lemma {:induction false} TestWithBit(x: nat, k: nat, on: bool, j: nat)
    ensures TestBit(WithBit(x, k, on), j) == if j == k then on else TestBit(x, j)
  {
    if k == 0 {
      assert WithBit(x, k, on) / 2 == x / 2;
    } else {
      assert WithBit(x, k, on) / 2 == WithBit(x / 2, k - 1, on);
      if j > 0 {
        TestWithBit(x / 2, k - 1, on, j - 1);
      }
    }
  }

  // Bit k is the one of weight 2^k.
  lemma {:induction false} BitWeight(x: nat, k: nat)
    requires k < 8
    ensures TestBit(x, k) <==> x / [1, 2, 4, 8, 16, 32, 64, 128][k] % 2 == 1
  {
    if k > 0 {
      BitWeight(x / 2, k - 1);
    }
  }

  lemma {:induction false} WithBitWeight(x: nat, k: nat, on: bool)
    requires k < 8
    ensures var m := [1, 2, 4, 8, 16, 32, 64, 128][k];
      WithBit(x, k, on) == if TestBit(x, k) == on then x else if on then x + m else x - m
  {
    if k > 0 {
      WithBitWeight(x / 2, k - 1, on);
    }
  }

  // ---- bits inside a bitmap block ----

  predicate Bit(b: Block, i: int)
    requires 0 <= i < BPB
  {
    TestBit(b[i / 8], i % 8)
  }

  function PutBit(b: Block, i: int, on: bool): (r: Block)
    requires 0 <= i < BPB
    ensures forall j :: 0 <= j < BPB ==> Bit(r, j) == if j == i then on else Bit(b, j)
  {
    WithBitIsByte(b[i / 8], i % 8, on);
    var r: Block := b[i / 8 := WithBit(b[i / 8], i % 8, on)];
    assert forall j | 0 <= j < BPB :: Bit(r, j) == if j == i then on else Bit(b, j) by {
      forall j | 0 <= j < BPB ensures Bit(r, j) == if j == i then on else Bit(b, j) {
        TestWithBit(b[i / 8], i % 8, on, j % 8);
        if j / 8 == i / 8 && j % 8 == i % 8 {
          assert j == i;
        }
      }
    }
    r
  }

  // Bit j of a block is the bit of weight 2^(j % 8) in byte j / 8.
  lemma BitIs(b: Block, j: int)
    requires 0 <= j < BPB
    ensures Bit(b, j) <==> b[j / 8] / [1, 2, 4, 8, 16, 32, 64, 128][j % 8] % 2 == 1
  {
    BitWeight(b[j / 8], j % 8);
  }

  // Setting a clear bit adds its weight to that byte, and clearing a set one subtracts it; no other byte changes.
  lemma PutBitIs(b: Block, i: int, on: bool)
    requires 0 <= i < BPB && Bit(b, i) != on
    ensures var x := b[i / 8] as int + (if on then 1 else -1) * [1, 2, 4, 8, 16, 32, 64, 128][i % 8];
      0 <= x < 256 && PutBit(b, i, on) == b[i / 8 := x]
  {
    WithBitWeight(b[i / 8], i % 8, on);
    WithBitIsByte(b[i / 8], i % 8, on);
  }

  lemma {:induction false} AtLeast(h: nat, d: nat)
    requires d > 0
    ensures h * d >= h
  {
    if d > 1 {
      AtLeast(h, d - 1);
    }
  }

  lemma SameRest(h: nat, r: nat, q: nat, s: nat, t: nat)
    requires h * r + s == h * q + t && s < h && t < h
    ensures s == t
  {
    if r < q {
      AtLeast(h, q - r);
    } else if q < r {
      AtLeast(h, r - q);
    }
  }

  lemma OneMore(x: nat, h: nat)
    requires 0 < h && x % 2 == 1 && x / 2 % h == h - 1
    ensures x % (2 * h) == 2 * h - 1
  {
    var m, r := 2 * h, x / 2 / h;
    var q := x / m;
    assert x / 2 == h * r + h - 1;
    assert m * r == 2 * (h * r);
    assert x == m * r + m - 1 && x == m * q + x % m;
    SameRest(m, r, q, m - 1, x % m);
  }

  lemma {:induction false} LowOnes(x: nat, k: nat)
    requires k <= 8 && forall j :: 0 <= j < k ==> TestBit(x, j)
    ensures var m := [1, 2, 4, 8, 16, 32, 64, 128, 256][k]; x % m == m - 1
  {
    if k > 0 {
      forall j | 0 <= j < k - 1
        ensures TestBit(x / 2, j)
      {
        assert TestBit(x, j + 1);
      }
      assert TestBit(x, 0);
      LowOnes(x / 2, k - 1);
      OneMore(x, [1, 2, 4, 8, 16, 32, 64, 128, 256][k - 1]);
    }
  }

  // The first n bits of a block are set: its bytes up to there are full, and the next one has its low bits set.
  lemma FullBytes(b: Block, n: int)
    requires 0 <= n <= BPB && forall j :: 0 <= j < n ==> Bit(b, j)
    ensures forall y :: 0 <= y < n / 8 ==> b[y] == 255
    ensures n < BPB ==> var m := [1, 2, 4, 8, 16, 32, 64, 128][n % 8]; b[n / 8] % m == m - 1
  {
    forall y | 0 <= y < n / 8
      ensures b[y] == 255
    {
      BitsOfByte(b, y, n, 8);
      LowOnes(b[y], 8);
    }
    if n < BPB {
      BitsOfByte(b, n / 8, n, n % 8);
      LowOnes(b[n / 8], n % 8);
    }
  }

  lemma BitsOfByte(b: Block, y: int, n: int, k: int)
    requires 0 <= y < BSIZE && 0 <= k <= 8 && 8 * y + k <= n <= BPB && forall j :: 0 <= j < n ==> Bit(b, j)
    ensures forall j :: 0 <= j < k ==> TestBit(b[y], j)
  {
    forall j | 0 <= j < k
      ensures TestBit(b[y], j)
    {
      assert Bit(b, 8 * y + j);
      assert (8 * y + j) / 8 == y && (8 * y + j) % 8 == j;
    }
  }

  lemma WithBitIsByte(x: Byte, k: nat, on: bool)
    requires k < 8
    ensures WithBit(x, k, on) < 256
  {
    assert Pow2(8) == 256 by {
      assert Pow2(4) == 16;
    }
    WithBitBound(x, k, on, 8);
  }
}
