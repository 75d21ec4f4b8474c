/** Arithmetic of the block allocator's page layouts, in 32-bit unsigned integers. */
module BaLayout {
  import opened Basics

  const WORD: nat := 0x1_0000_0000

  datatype Layout = Layout(offset: nat, blockSize: nat, blocks: nat, inverse: nat)

  function Wrap(x: int): (w: nat)
    ensures w < WORD
  {
    x % WORD
  }

  /** What the layout of a page stands for: `blocks` blocks, the last one at `offset`. */
  ghost predicate Exact(l: Layout, blocks: nat) {
    && 0 < l.blockSize < WORD && l.blocks == blocks < WORD
    && l.offset == l.blockSize * (blocks - 1) < WORD
    && l.inverse == WORD / l.blockSize
    && blocks > 0
  }

  /** Step a layout i pages forward. */
  function IncLayout(l: Layout, i: nat): Layout {
    var total := Wrap(l.offset + l.blockSize);
    l.(blocks := Wrap(l.blocks * Pow2(i)), offset := Wrap(Wrap(total * Pow2(i)) - l.blockSize))
  }

  function Shr(x: nat, i: nat): nat {
    if i == 0 then x else Shr(x / 2, i - 1)
  }

  /** Step a layout i pages backward. */
  function DecLayout(l: Layout, i: nat): Layout {
    var total := Wrap(l.offset + l.blockSize);
    l.(blocks := Shr(l.blocks, i), offset := Wrap(Shr(total, i) - l.blockSize))
  }

  /** The test that guards page creation: does the layout of page i look overflowed? */
  predicate RejectsPage(l: Layout, i: nat, header: nat) {
    var k := IncLayout(l, i);
    var n := Wrap(k.offset + k.blockSize) + header;
    l.offset > k.offset || n < k.offset
  }

  /** The bytes the blocks of page i really take. */
  function PageBytes(l: Layout, i: nat): nat {
    l.blockSize * l.blocks * Pow2(i)
  }

  // ---- The layout of the first page ----

  const MIN_BLOCK: nat := 8          // a free block holds a pointer to the next one

  /** Bitwise and. */
  function BitAnd(x: nat, y: nat): nat {
    if x == 0 || y == 0 then 0 else 2 * BitAnd(x / 2, y / 2) + if x % 2 == 1 && y % 2 == 1 then 1 else 0
  }

  /** Bits up to the highest one set: 32 less the leading zeros of a 32-bit word. */
  function BitLength(x: nat): nat {
    if x == 0 then 0 else 1 + BitLength(x / 2)
  }

  /** The power of two above n; zero when that is no 32-bit word. */
  function RoundUp32(n: nat): nat {
    if n == 0 then 1 else if BitLength(n) == 32 then 0 else Pow2(BitLength(n))
  }

  /** How many blocks the first page gets when n are asked for. */
  function InitBlocks(n: nat): nat {
    if n == 0 then 1
    else if BitAnd(n, n - 1) != 0 && RoundUp32(n) != 0 then RoundUp32(n)
    else n
  }

  function InitBlockSize(blockSize: nat): (s: nat)
    ensures s >= MIN_BLOCK && s >= blockSize && (s == MIN_BLOCK || s == blockSize)
  {
    if blockSize > MIN_BLOCK then blockSize else MIN_BLOCK
  }

  /** ba_low_init. */
  function InitLayout(blockSize: nat, n: nat): Layout {
    var s := InitBlockSize(blockSize);
    Layout(Wrap(s * Wrap(InitBlocks(n) - 1)), s, InitBlocks(n), Wrap(WORD / s))
  }

  /** The last block of the first page starts within 32 bits. */
  predicate LastBlockFits(blockSize: nat, n: nat) {
    InitBlockSize(blockSize) * (InitBlocks(n) - 1) < WORD
  }

  lemma {:induction false} BitLengthIs(n: nat)
    requires n > 0
    ensures BitLength(n) > 0 && Pow2(BitLength(n) - 1) <= n < Pow2(BitLength(n))
  {
    if n > 1 {
      BitLengthIs(n / 2);
      var k := BitLength(n / 2);
      assert Pow2(k) == 2 * Pow2(k - 1) && Pow2(k + 1) == 2 * Pow2(k);
    } else {
      assert BitLength(1) == 1 && Pow2(1) == 2 * Pow2(0);
    }
  }

  lemma {:induction false} BitAndSelf(n: nat)
    ensures BitAnd(n, n) == n
  {
    if n > 0 {
      BitAndSelf(n / 2);
    }
  }

  /** The test for a power of two. */
  lemma {:induction false} PowerTest(n: nat)
    requires n > 0
    ensures BitAnd(n, n - 1) == 0 <==> n == Pow2(BitLength(n) - 1)
  {
    if n == 1 {
      assert BitLength(1) == 1;
    } else {
      var m := n / 2;
      BitLengthIs(m);
      PowerTest(m);
      BitAndSelf(m);
      var k := BitLength(m);
      assert BitLength(n) == k + 1 && Pow2(k) == 2 * Pow2(k - 1);
      assert (n - 1) / 2 == if n % 2 == 0 then m - 1 else m;
    }
  }

  lemma {:induction false} Pow2Less(i: nat, j: nat)
    ensures i < j ==> Pow2(i) < Pow2(j)
    ensures i <= j ==> Pow2(i) <= Pow2(j)
  {
    if i < j {
      Pow2Less(i, j - 1);
    }
  }

  /** p is the least power of two that is not below n. */
  ghost predicate LeastPower(n: nat, p: nat) {
    exists k: nat :: p == Pow2(k) && PowerFits(n, k)
  }

  ghost predicate PowerFits(n: nat, k: nat) {
    n <= Pow2(k) && (k > 0 ==> Pow2(k - 1) < n)
  }

  lemma InitBlocksIs(n: nat)
    requires 0 < n < WORD
    ensures var k := BitLength(n);
      && 0 < k <= 32 && Pow2(k - 1) <= n < Pow2(k) && (k < 32 <==> n < WORD / 2)
      && InitBlocks(n) == if n == Pow2(k - 1) || k == 32 then n else Pow2(k)
  {
    Pow2At32();
    var k := BitLength(n);
    BitLengthIs(n);
    PowerTest(n);
    Pow2Less(32, k - 1);
    Pow2Less(k, 31);
    Pow2Less(31, k - 1);
    hide Pow2, BitLength, BitAnd;
  }

  /** The first page gets the least power of two that is not below the number asked for; beyond 2^31, where a
      word has no such power, just that number. */
  lemma InitBlocksRound(n: nat)
    requires n < WORD
    ensures 0 < InitBlocks(n) < WORD && (InitBlocks(n) >= 2 <==> n >= 2)
    ensures if n <= WORD / 2 then LeastPower(n, InitBlocks(n)) else InitBlocks(n) == n
  {
    if n == 0 {
      assert InitBlocks(n) == Pow2(0) && PowerFits(n, 0);
    } else {
      InitBlocksIs(n);
      Pow2At32();
      var k := BitLength(n);
      hide BitLength, InitBlocks;
      assert Pow2(k) == 2 * Pow2(k - 1);
      if n == Pow2(k - 1) {
        assert k > 1 ==> Pow2(k - 1) == 2 * Pow2(k - 2);
        assert PowerFits(n, k - 1);
      } else if k < 32 {
        assert PowerFits(n, k);
        LessThanWord(k);
      }
    }
  }

  lemma LessThanWord(k: nat)
    requires k < 32
    ensures Pow2(k) < WORD
  {
    Pow2Less(k, 32);
    Pow2At32();
  }

  lemma Pow2At32()
    ensures Pow2(31) == WORD / 2 && Pow2(32) == WORD
  {
    Pow2At22();
    assert Pow2(9) == 512;
    Pow2Add(22, 9);
  }

  /** The layout is the exact one if and only if the last block of the page starts within 32 bits. */
  lemma InitExactly(blockSize: nat, n: nat)
    requires blockSize < WORD && n < WORD
    ensures Exact(InitLayout(blockSize, n), InitBlocks(n)) <==> LastBlockFits(blockSize, n)
  {
    InitBlocksRound(n);
    hide InitBlocks, InitBlockSize, LeastPower;
    FirstPageExactly(InitBlockSize(blockSize), InitBlocks(n));
  }

  lemma FirstPageExactly(s: nat, k: nat)
    requires MIN_BLOCK <= s < WORD && 0 < k < WORD
    ensures Exact(Layout(Wrap(s * Wrap(k - 1)), s, k, Wrap(WORD / s)), k) <==> s * (k - 1) < WORD
  {
    WrapSmall(k - 1);
    InverseFits(s);
    WrapSmall(WORD / s);
    WrapOnlySmall(s * (k - 1));
    hide Wrap;
  }

  lemma InverseFits(s: nat)
    requires s > 1
    ensures WORD / s < WORD
  {
  }

  lemma WrapOnlySmall(x: nat)
    ensures Wrap(x) == x <==> x < WORD
  {
  }

  lemma WrapSmall(x: int)
    requires 0 <= x < WORD
    ensures Wrap(x) == x
  {
  }

  lemma WrapMul(x: nat, m: nat)
    ensures Wrap(Wrap(x) * m) == Wrap(x * m)
  {
    var q := x / WORD;
    assert x == q * WORD + Wrap(x);
    assert x * m == Wrap(x) * m + (q * m) * WORD by {
      assert (q * WORD + Wrap(x)) * m == q * WORD * m + Wrap(x) * m;
      assert q * WORD * m == (q * m) * WORD;
    }
    WrapShift(Wrap(x) * m, q * m);
  }

  lemma WrapShift(x: int, q: int)
    ensures Wrap(x + q * WORD) == Wrap(x)
  {
    var r := Wrap(x);
    assert x == (x / WORD) * WORD + r;
    assert x + q * WORD == (x / WORD + q) * WORD + r;
    ModUnique(x + q * WORD, x / WORD + q, r);
  }

  lemma ModUnique(x: int, q: int, r: int)
    requires x == q * WORD + r && 0 <= r < WORD
    ensures Wrap(x) == r && x / WORD == q
  {
  }

  /** The wrapped total of page i is the real one, taken modulo 2^32. */
  lemma IncTotal(l: Layout, b: nat, i: nat)
    requires Exact(l, b)
    ensures IncLayout(l, i).offset == Wrap(Wrap(PageBytes(l, i)) - l.blockSize)
    ensures l.offset + l.blockSize == l.blockSize * l.blocks
  {
    var t := l.blockSize * l.blocks;
    assert l.offset + l.blockSize == t by {
      assert l.blockSize * (b - 1) + l.blockSize == l.blockSize * b;
    }
    WrapMul(t, Pow2(i));
  }

  /** As long as a page's bytes fit in 32 bits, its layout is the exact one and is accepted. */
  lemma IncExact(l: Layout, b: nat, i: nat, header: nat)
    requires Exact(l, b) && PageBytes(l, i) < WORD
    ensures Exact(IncLayout(l, i), b * Pow2(i))
    ensures !RejectsPage(l, i, header)
  {
    var s, n := PageBytes(l, i), b * Pow2(i);
    IncTotal(l, b, i);
    MulAssoc(l.blockSize, b, Pow2(i));
    MulAtLeast(n, l.blockSize);
    MulAtLeast(l.blockSize * b, Pow2(i));
    MulAtLeast(l.blockSize, n);
    MulLess(l.blockSize, n);
    WrapSmall(s);
    WrapSmall(s - l.blockSize);
    WrapSmall(n);
    var k := IncLayout(l, i);
    assert k == l.(blocks := n, offset := s - l.blockSize);
  }

  lemma MulLess(x: nat, n: nat)
    requires n > 0
    ensures x * (n - 1) == x * n - x
  {
  }

  lemma MulAtLeast(x: nat, m: nat)
    requires m >= 1
    ensures x <= x * m && x <= m * x
  {
  }

  /** Stepping forward and back again returns to the same layout, while nothing overflows. */
  lemma DecUndoesInc(l: Layout, b: nat, i: nat)
    requires Exact(l, b) && PageBytes(l, i) < WORD
    ensures DecLayout(IncLayout(l, i), i) == l
  {
    var k := IncLayout(l, i);
    IncExact(l, b, i, 0);
    var s := PageBytes(l, i);
    assert k.offset + k.blockSize == s by {
      Total(k, b * Pow2(i));
      MulAssoc(l.blockSize, b, Pow2(i));
    }
    Total(l, b);
    WrapSmall(s);
    ShrUndoes(l.blockSize * b, i);
    ShrUndoes(b, i);
    WrapSmall(l.offset);
  }

  lemma Total(l: Layout, b: nat)
    requires Exact(l, b)
    ensures l.offset + l.blockSize == l.blockSize * b
  {
  }

  lemma MulAssoc(x: nat, y: nat, z: nat)
    ensures x * y * z == x * (y * z)
  {
  }

  lemma {:induction false} ShrUndoes(x: nat, i: nat)
    ensures Shr(x * Pow2(i), i) == x
  {
    if i > 0 {
      var y := x * Pow2(i - 1);
      assert x * Pow2(i) == 2 * y;
      ShrUndoes(x, i - 1);
    }
  }

  /** Once a page's bytes need more than 32 bits, the guard notices exactly when what the wrapping
      leaves of them is less than the first page takes. */
  lemma RejectsExactly(l: Layout, b: nat, i: nat, header: nat)
    requires Exact(l, b) && PageBytes(l, i) >= WORD && l.blockSize * b < WORD
    requires l.blockSize + header < WORD
    ensures RejectsPage(l, i, header) <==> Wrap(PageBytes(l, i)) < l.blockSize * b
  {
    IncTotal(l, b, i);
    MulAtLeast(l.blockSize, b);
    var rest := Wrap(PageBytes(l, i));
    var k := IncLayout(l, i);
    if rest >= l.blockSize {
      WrapSmall(rest - l.blockSize);
      WrapSmall(rest);
    } else {
      ModUnique(rest - l.blockSize, -1, WORD + rest - l.blockSize);
      ModUnique(k.offset + k.blockSize, 1, rest);
    }
  }

  /** Blocks of 24 bytes, 64 on the first page: page 22 needs 6 GB, wraps to 2 GB, and passes. No block of it is
      where the layout has the last one, which allocation looks for. */
  lemma OverflowMissed(k: nat)
    ensures var l := Layout(24 * 63, 24, 64, WORD / 24);
      && Exact(l, 64) && PageBytes(l, 22) >= WORD && !RejectsPage(l, 22, 16)
      && k * l.blockSize != IncLayout(l, 22).offset
  {
    var l := Layout(24 * 63, 24, 64, WORD / 24);
    Pow2At22();
    assert PageBytes(l, 22) == 6442450944;
    RejectsExactly(l, 64, 22, 16);
    IncTotal(l, 64, 22);
    assert IncLayout(l, 22).offset == 2147483624 == 24 * 89478484 + 8;
    hide IncLayout;
  }

  lemma Pow2At22()
    ensures Pow2(22) == 4194304
  {
    assert Pow2(11) == 2048;
    Pow2Add(11, 11);
  }

  lemma {:induction false} Pow2Add(i: nat, j: nat)
    ensures Pow2(i + j) == Pow2(i) * Pow2(j)
  {
    if i > 0 {
      Pow2Add(i - 1, j);
      assert Pow2(i + j) == 2 * Pow2(i - 1 + j);
    }
  }

  // ---- Block numbers by multiply and shift ----

  /** Number of the block at byte distance d from the first block. */
  function BlockNumber(l: Layout, d: nat): nat
    requires l.blockSize > 0
  {
    ((d + l.blockSize - 1) * l.inverse) / WORD
  }

  /** The number of the k-th block comes out right exactly when the rounding error of the inverse,
      scaled up by the distance, stays within one block. */
  lemma BlockNumberExact(l: Layout, k: nat)
    requires l.blockSize > 0 && l.inverse == WORD / l.blockSize
    ensures BlockNumber(l, k * l.blockSize) == k <==>
              (WORD % l.blockSize) * ((k + 1) * l.blockSize - 1) <= (l.blockSize - 1) * WORD
  {
    var bs, inv, r := l.blockSize, l.inverse, WORD % l.blockSize;
    var n := (k + 1) * bs - 1;
    assert k * bs + bs - 1 == n;
    assert WORD == inv * bs + r;
    var x := n * inv;
    assert x * bs == n * (WORD - r) by {
      assert n * inv * bs == n * (inv * bs);
    }
    assert x * bs == n * WORD - n * r by {
      assert n * (WORD - r) == n * WORD - n * r;
    }
    assert n * WORD == (k + 1) * bs * WORD - WORD by {
      assert ((k + 1) * bs - 1) * WORD == (k + 1) * bs * WORD - WORD;
    }
    // never too large
    assert x < (k + 1) * WORD by {
      assert n * r >= 0;
      assert x * bs < (k + 1) * bs * WORD;
      assert (k + 1) * bs * WORD == ((k + 1) * WORD) * bs;
      MulCancelLess(x, (k + 1) * WORD, bs);
    }
    // large enough exactly when the error term fits
    assert k * WORD <= x <==> r * n <= (bs - 1) * WORD by {
      assert (k * WORD) * bs == k * bs * WORD;
      assert (k + 1) * bs * WORD == k * bs * WORD + bs * WORD;
      assert (bs - 1) * WORD == bs * WORD - WORD;
      assert r * n == n * r;
      MulCancelLeq(k * WORD, x, bs);
    }
    QuotientIs(x, k);
  }

  lemma MulCancelLess(x: int, y: int, m: int)
    requires m > 0 && x * m < y * m
    ensures x < y
  {
  }

  lemma MulCancelLeq(x: int, y: int, m: int)
    requires m > 0
    ensures x <= y <==> x * m <= y * m
  {
    if x <= y {
      assert (y - x) * m >= 0;
    } else {
      assert (x - y) * m > 0;
    }
  }

  lemma QuotientIs(x: nat, k: nat)
    requires x < (k + 1) * WORD
    ensures x / WORD == k <==> k * WORD <= x
  {
  }

  /** In particular for every block that ends within 2^32 bytes. */
  lemma BlockNumberInRange(l: Layout, k: nat)
    requires l.blockSize > 0 && l.inverse == WORD / l.blockSize && (k + 1) * l.blockSize <= WORD
    ensures BlockNumber(l, k * l.blockSize) == k
  {
    BlockNumberExact(l, k);
    var r, n := WORD % l.blockSize, (k + 1) * l.blockSize - 1;
    assert r * n <= (l.blockSize - 1) * WORD by {
      assert r <= l.blockSize - 1 && n <= WORD;
      MulMono(r, l.blockSize - 1, n, WORD);
    }
  }

  lemma MulMono(a: nat, b: nat, c: nat, d: nat)
    requires a <= b && c <= d
    ensures a * c <= b * d
  {
    assert a * c <= b * c by { assert (b - a) * c >= 0; }
    assert b * c <= b * d by { assert b * (d - c) >= 0; }
  }
}
