/** Byte access to the memory of frames: a little-endian byte view of its 64-bit words. */
module PhysBytes {
  import opened Arith
  import opened Pmm
  import opened PageTable

  type Byte = b: nat | b < 256

  // ---------------------------------------------------------------- words as numbers

  function Value(w: Word): nat {
    w.low + w.frame * 4096 + w.high * 0x10_0000_0000_0000
  }

  function FromValue(n: U64Value): Word {
    Word(n / 4096 % 0x100_0000_0000, n % 4096, n / 0x10_0000_0000_0000)
  }

  lemma ValueOfFromValue(n: U64Value)
    ensures Value(FromValue(n)) == n
  {
    TopField(n);
  }

  lemma TopField(n: U64Value)
    ensures n == n % 4096 + n / 4096 % 0x100_0000_0000 * 4096 + n / 0x10_0000_0000_0000 * 0x10_0000_0000_0000
  {
    QuotientOfQuotient(n, 4096, 0x100_0000_0000);
  }

  lemma ValueInRange(w: Word)
    ensures Value(w) < U64
  {
  }

  // ---------------------------------------------------------------- bytes of a number

  /** 256 to the k. */
  function Place(k: nat): (p: nat)
    ensures p > 0
  {
    if k == 0 then 1 else 256 * Place(k - 1)
  }

  function GetByte(n: nat, k: nat): Byte {
    n / Place(k) % 256
  }

  function SetByte(n: nat, k: nat, b: Byte): nat {
    (n / Place(k) / 256 * 256 + b) * Place(k) + n % Place(k)
  }

  lemma {:induction false} PlaceSplits(j: nat, k: nat)
    requires j < k
    ensures exists c: nat :: c > 0 && Place(k) == Place(j) * 256 * c
    decreases k - j
  {
    if j + 1 == k {
      assert Place(k) == Place(j) * 256 * 1;
    } else {
      PlaceSplits(j, k - 1);
      var c: nat :| c > 0 && Place(k - 1) == Place(j) * 256 * c;
      assert Place(k) == Place(j) * 256 * (256 * c);
    }
  }

  lemma SetByteSame(n: nat, k: nat, b: Byte)
    ensures GetByte(SetByte(n, k, b), k) == b
    ensures SetByte(n, k, b) / Place(k) / 256 == n / Place(k) / 256 && SetByte(n, k, b) % Place(k) == n % Place(k)
  {
    Replaced(n / Place(k) / 256, b, Place(k), n % Place(k));
  }

  lemma Replaced(h: nat, b: Byte, p: nat, lo: nat)
    requires lo < p
    ensures var x := (h * 256 + b) * p + lo;
            x / p == h * 256 + b && x % p == lo && x / p / 256 == h && x / p % 256 == b
  {
    QuotientUnique((h * 256 + b) * p + lo, p, h * 256 + b, lo);
    QuotientUnique(h * 256 + b, 256, h, b);
  }

  lemma HigherByte(n: nat, k: nat, c: nat, j: nat)
    requires c > 0 && Place(j) == Place(k) * 256 * c
    ensures n / Place(j) == n / Place(k) / 256 / c
  {
    var p := Place(k);
    QuotientOfQuotient(n, p, 256);
    QuotientOfQuotient(n, p * 256, c);
  }

  lemma LowerByte(n: nat, k: nat, c: nat, j: nat)
    requires c > 0 && Place(k) == Place(j) * 256 * c
    ensures GetByte(n, j) == n % Place(k) / Place(j) % 256
  {
    LowerPart(n, Place(k), Place(j), c);
  }

  lemma LowerPart(n: nat, p: nat, q: nat, c: nat)
    requires c > 0 && q > 0 && p == q * 256 * c
    ensures n / q % 256 == n % p / q % 256
  {
    Divided(n, p);
    LowerParts(n, p, q, c, n / p, n % p);
  }

  lemma LowerParts(n: nat, p: nat, q: nat, c: nat, x: nat, lo: nat)
    requires q > 0 && p == q * 256 * c && n == x * p + lo
    ensures n / q % 256 == lo / q % 256
  {
    Divided(lo, q);
    Fold(n, x, p, q, c, lo, lo / q, lo % q);
    LowByteOf(n, q, x * c, lo / q, lo % q);
  }

  lemma Divided(n: nat, p: nat)
    requires p > 0
    ensures n == n / p * p + n % p && n % p < p
  {
  }

  lemma LowByteOf(n: nat, q: nat, z: nat, y: nat, r: nat)
    requires r < q && n == (z * 256 + y) * q + r
    ensures n / q % 256 == y % 256
  {
    QuotientUnique(n, q, z * 256 + y, r);
    HighPartGone(z, y);
  }

  lemma HighPartGone(z: nat, y: nat)
    ensures (z * 256 + y) % 256 == y % 256
  {
    QuotientUnique(z * 256 + y, 256, z + y / 256, y % 256);
  }

  lemma Fold(n: nat, x: nat, p: nat, q: nat, c: nat, lo: nat, y: nat, r: nat)
    requires p == q * 256 * c && n == x * p + lo && lo == y * q + r
    ensures n == (x * c * 256 + y) * q + r
  {
    Shift(x, q, c, y, r);
  }

  lemma Shift(x: nat, q: nat, c: nat, y: nat, r: nat)
    ensures x * (q * 256 * c) + (y * q + r) == (x * c * 256 + y) * q + r
  {
    assert x * (q * 256 * c) == (x * c * 256) * q;
  }

  /** Storing a byte changes that byte and no other. */
  lemma GetSetByte(n: nat, k: nat, b: Byte, j: nat)
    ensures GetByte(SetByte(n, k, b), j) == if j == k then b else GetByte(n, j)
  {
    SetByteSame(n, k, b);
    if k < j {
      PlaceSplits(k, j);
      var c: nat :| c > 0 && Place(j) == Place(k) * 256 * c;
      HigherByte(n, k, c, j);
      HigherByte(SetByte(n, k, b), k, c, j);
    } else if j < k {
      PlaceSplits(j, k);
      var c: nat :| c > 0 && Place(k) == Place(j) * 256 * c;
      LowerByte(n, k, c, j);
      LowerByte(SetByte(n, k, b), k, c, j);
    }
  }

  lemma SetByteInRange(n: U64Value, k: nat, b: Byte)
    requires k < 8
    ensures SetByte(n, k, b) < U64
  {
    PlaceSplits(k, 8);
    var p: nat := Place(k);
    var c: nat :| c > 0 && Place(8) == p * 256 * c;
    EightBytes();
    var h := n / p / 256;
    QuotientOfQuotient(n, p, 256);
    SmallQuotient(n, p * 256, c);
    TopByte(h, p, c, b, n % p);
  }

  lemma EightBytes()
    ensures Place(8) == U64
  {
    assert Place(2) == 0x1_0000 && Place(4) == 0x1_0000_0000;
    assert Place(6) == 0x1_0000_0000_0000;
  }

  lemma SmallQuotient(n: nat, m: nat, c: nat)
    requires m > 0 && n < m * c
    ensures n / m < c
  {
    var q := n / m;
    if q >= c {
      LargerProduct(q, c, m);
    }
  }

  lemma LargerProduct(q: nat, c: nat, m: nat)
    requires q >= c
    ensures q * m >= m * c
  {
  }

  lemma TopByte(h: nat, p: nat, c: nat, b: Byte, lo: nat)
    requires h < c && lo < p
    ensures (h * 256 + b) * p + lo < p * 256 * c
  {
    assert (h * 256 + b + 1) * p <= (h * 256 + 256) * p;
    assert (h * 256 + 256) * p == (h + 1) * (256 * p);
    assert (h + 1) * (256 * p) <= c * (256 * p);
    assert (h * 256 + b + 1) * p == (h * 256 + b) * p + p;
  }

  // ---------------------------------------------------------------- bytes of memory

  function LoadByte(m: Memory, pa: nat): Byte {
    GetByte(Value(Get(m, pa / 4096, pa % 4096 / 8)), pa % 8)
  }

  function StoreByte(m: Memory, pa: nat, b: Byte): (r: Memory)
    ensures |r| == |m|
  {
    var w := Get(m, pa / 4096, pa % 4096 / 8);
    ValueInRange(w);
    SetByteInRange(Value(w), pa % 8, b);
    Put(m, pa / 4096, pa % 4096 / 8, FromValue(SetByte(Value(w), pa % 8, b)))
  }

  /** A byte store is seen at its own address and nowhere else, and touches one frame only. */
  lemma LoadStore(m: Memory, pa: nat, b: Byte, qa: nat)
    requires pa / 4096 < |m|
    ensures LoadByte(StoreByte(m, pa, b), qa) == if qa == pa then b else LoadByte(m, qa)
    ensures forall x: nat :: x < |m| && x != pa / 4096 ==> StoreByte(m, pa, b)[x] == m[x]
  {
    hide GetByte, SetByte, Value, FromValue;
    var w := Get(m, pa / 4096, pa % 4096 / 8);
    ValueInRange(w);
    SetByteInRange(Value(w), pa % 8, b);
    ValueOfFromValue(SetByte(Value(w), pa % 8, b));
    GetSetByte(Value(w), pa % 8, b, qa % 8);
    ByteAddress(pa, qa);
  }

  lemma ByteAddress(pa: nat, qa: nat)
    ensures pa == qa <==> pa / 4096 == qa / 4096 && pa % 4096 / 8 == qa % 4096 / 8 && pa % 8 == qa % 8
    ensures pa % 4096 / 8 < 512
  {
    assert pa % 8 == pa % 4096 % 8 && qa % 8 == qa % 4096 % 8;
  }
}
