/**
 * The page-alignment arithmetic of the native hooking glue and the two
 * functions built on it: Unprotect, which makes the pages around a code
 * address writable and executable, and the inline hooker handed to the
 * ART hooking library, which unprotects the target and then asks Dobby to
 * patch it.
 *
 * Addresses (uintptr_t) and sizes (size_t) are taken to be 64-bit
 * unsigned values, as on the 64-bit Android ABIs, and are modelled as
 * naturals below WORD with every addition reduced modulo WORD, as the C
 * arithmetic wraps. The page size is the value the library read
 * from sysconf at load time; here it is a parameter that must be a power
 * of two below WORD. For such a page size the mask `addr & -page_size`
 * clears exactly the bits below the page size, which is `addr - addr %
 * page_size`; the model states the macros in that arithmetic form.
 *
 * mprotect and DobbyHook are foreign calls: they are parameters of the
 * model, functions from their arguments to the status they report.
 */
module NativeLib {

  /** 2^64: the modulus of uintptr_t and size_t arithmetic on a 64-bit ABI. */
  const WORD: nat := 0x1_0000_0000_0000_0000

  /** A value of type uintptr_t or size_t. */
  type Word = x: nat | x < WORD

  /** Reduction modulo 2^64: the wrap-around of unsigned C arithmetic on two words. */
  function Wrap(x: nat): (r: Word)
    requires x < 2 * WORD
    ensures x < WORD ==> r == x
    ensures WORD <= x ==> r == x - WORD
  {
    x % WORD
  }

  /** The null pointer. */
  const NULL: Word := 0

  /** The value mprotect reports on failure. */
  const MPROTECT_FAILED: int := -1

  /** The status DobbyHook reports. */
  datatype RetStatus = RS_SUCCESS | RS_FAILED

  /** n is 1 or an even number whose half is a power of two. */
  predicate IsPowerOfTwo(n: nat)
    decreases n
  {
    if n <= 1 then n == 1 else n % 2 == 0 && IsPowerOfTwo(n / 2)
  }

  /** What the code assumes of page_size_: a power of two that fits in a size_t. */
  predicate IsPageSize(pageSize: nat) {
    IsPowerOfTwo(pageSize) && pageSize < WORD
  }

  // ---------------------------------------------------------------------
  // Facts about powers of two

  lemma {:induction false} PowerOfTwoProduct(a: nat, b: nat)
    requires IsPowerOfTwo(a) && IsPowerOfTwo(b)
    ensures IsPowerOfTwo(a * b)
    decreases b
  {
    if b != 1 {
      PowerOfTwoProduct(a, b / 2);
      assert a * b == 2 * (a * (b / 2));
    }
  }

  /** 2^64 is (2^4)^16, assembled from products of powers of two. */
  lemma WordIsPowerOfTwo()
    ensures IsPowerOfTwo(WORD)
  {
    var p8: nat := 0x100;
    assert IsPowerOfTwo(16) && 16 * 16 == p8;
    PowerOfTwoProduct(16, 16);
    PowerOfTwoProduct(p8, p8);
    PowerOfTwoProduct(p8 * p8, p8 * p8);
    PowerOfTwoProduct(p8 * p8 * p8 * p8, p8 * p8 * p8 * p8);
    assert p8 * p8 * p8 * p8 * (p8 * p8 * p8 * p8) == WORD;
  }

  /** A power of two divides every larger power of two. */
  lemma {:induction false} PowerOfTwoDivides(p: nat, q: nat)
    requires IsPowerOfTwo(p) && IsPowerOfTwo(q) && p <= q
    ensures q % p == 0
    decreases p
  {
    if p != 1 {
      PowerOfTwoDivides(p / 2, q / 2);
      var m := (q / 2) / (p / 2);
      assert q / 2 == (p / 2) * m;
      assert q == p * m by {
        assert q == 2 * (q / 2) && p == 2 * (p / 2);
      }
      MultipleMod(m, p);
    }
  }

  /** Every page size divides 2^64, so wrapping around never breaks alignment. */
  lemma PageSizeDividesWord(pageSize: nat)
    requires IsPageSize(pageSize)
    ensures WORD % pageSize == 0
  {
    WordIsPowerOfTwo();
    PowerOfTwoDivides(pageSize, WORD);
  }

  // Division and remainder by a variable divisor, spelled out for the solver.

  lemma MulMonotone(a: int, b: int, m: nat)
    requires a <= b
    ensures a * m <= b * m
  {
  }

  /** d * m has the sign of d for m >= 0. */
  lemma MulSign(d: int, m: nat)
    ensures d >= 1 ==> d * m >= m
    ensures d <= 0 ==> d * m <= 0
  {
    if d >= 1 {
      MulMonotone(1, d, m);
    } else {
      MulMonotone(d, 0, m);
    }
  }

  /** Quotient and remainder are the unique q, r with x == q * m + r and 0 <= r < m. */
  lemma DivModUnique(x: int, m: int, q: int, r: int)
    requires m > 0 && 0 <= r < m && x == q * m + r
    ensures x / m == q && x % m == r
  {
    var q0, r0 := x / m, x % m;
    assert x == q0 * m + r0;
    assert (q - q0) * m == r0 - r;
    assert (q0 - q) * m == r - r0;
    MulSign(q - q0, m);
    MulSign(q0 - q, m);
  }

  /** A multiple of m leaves no remainder. */
  lemma MultipleMod(k: nat, m: nat)
    requires m > 0
    ensures (k * m) % m == 0
  {
    DivModUnique(k * m, m, k, 0);
  }

  /** Adding a multiple of m does not change the remainder modulo m. */
  lemma ModAddMultiple(x: nat, k: int, m: nat)
    requires m > 0 && x + k * m >= 0
    ensures (x + k * m) % m == x % m
  {
    assert x + k * m == (x / m + k) * m + x % m;
    DivModUnique(x + k * m, m, x / m + k, x % m);
  }

  /** Rounding x down to a multiple of m. */
  lemma RoundDown(x: nat, m: nat)
    requires m > 0
    ensures x - x % m == (x / m) * m
    ensures (x - x % m) % m == 0
  {
    MultipleMod(x / m, m);
  }

  /** Rounding down is monotone: a multiple of m at or below x stays at or below its round-down. */
  lemma RoundDownAtLeast(x: nat, k: nat, m: nat)
    requires m > 0 && k * m <= x
    ensures k * m <= x - x % m
  {
    RoundDown(x, m);
    var q := x / m;
    assert (k - q) * m == k * m - q * m;
    MulSign(k - q, m);
  }

  // ---------------------------------------------------------------------
  // ALIGN_DOWN and ALIGN_UP

  /** ALIGN_DOWN(addr, page_size): the start of the page holding addr. */
  function AlignDown(addr: Word, pageSize: nat): (r: Word)
    requires IsPageSize(pageSize)
    ensures r % pageSize == 0
    ensures r <= addr && addr - r < pageSize
  {
    RoundDown(addr, pageSize);
    addr - addr % pageSize
  }

  /**
   * ALIGN_UP(addr, page_size): the first page boundary at or above addr.
   * `addr + page_size - 1` wraps when addr lies in the last, partial page
   * of the address space; the result is then the null address.
   */
  function AlignUp(addr: Word, pageSize: nat): (r: Word)
    requires IsPageSize(pageSize)
    ensures r % pageSize == 0
    ensures addr + pageSize - 1 < WORD ==> addr <= r && r - addr < pageSize
    ensures addr + pageSize - 1 >= WORD ==> r == NULL
  {
    var sum := Wrap(addr + (pageSize - 1));
    AlignDownWithinFirstPage(sum, pageSize);
    AlignDown(sum, pageSize)
  }

  /** An address inside the first page aligns down to the null address. */
  lemma AlignDownWithinFirstPage(addr: Word, pageSize: nat)
    requires IsPageSize(pageSize)
    ensures addr < pageSize ==> AlignDown(addr, pageSize) == NULL
  {
    if addr < pageSize {
      DivModUnique(addr, pageSize, 0, addr);
    }
  }

  /** Below 2^64, a page-aligned address is at least one page away from the top. */
  lemma AlignedBelowLastPage(addr: Word, pageSize: nat)
    requires IsPageSize(pageSize) && addr % pageSize == 0
    ensures addr + pageSize <= WORD
  {
    var k, n := addr / pageSize, WORD / pageSize;
    assert addr == k * pageSize by { RoundDown(addr, pageSize); }
    assert WORD == n * pageSize by { PageSizeDividesWord(pageSize); RoundDown(WORD, pageSize); }
    if n < k + 1 {
      MulMonotone(n, k, pageSize);
    } else {
      MulMonotone(k + 1, n, pageSize);
      assert (k + 1) * pageSize == k * pageSize + pageSize;
    }
  }

  /** A page-aligned address is the start of its own page. */
  lemma AlignedAddressUnchanged(addr: Word, pageSize: nat)
    requires IsPageSize(pageSize) && addr % pageSize == 0
    ensures AlignDown(addr, pageSize) == addr
    ensures AlignUp(addr, pageSize) == addr
  {
    var sum := addr + (pageSize - 1);
    assert sum < WORD by { AlignedBelowLastPage(addr, pageSize); }
    assert sum % pageSize == pageSize - 1 by {
      RoundDown(addr, pageSize);
      DivModUnique(sum, pageSize, addr / pageSize, pageSize - 1);
    }
  }

  lemma AlignDownIdempotent(addr: Word, pageSize: nat)
    requires IsPageSize(pageSize)
    ensures AlignDown(AlignDown(addr, pageSize), pageSize) == AlignDown(addr, pageSize)
  {
    AlignedAddressUnchanged(AlignDown(addr, pageSize), pageSize);
  }

  lemma AlignUpIdempotent(addr: Word, pageSize: nat)
    requires IsPageSize(pageSize)
    ensures AlignUp(AlignUp(addr, pageSize), pageSize) == AlignUp(addr, pageSize)
  {
    AlignedAddressUnchanged(AlignUp(addr, pageSize), pageSize);
  }

  /** Wrapped additions of page_size and page_size - 1 may be done in either order. */
  lemma WrapShift(addr: Word, pageSize: nat)
    requires 0 < pageSize < WORD
    ensures Wrap(Wrap(addr + pageSize) + (pageSize - 1)) == Wrap(Wrap(addr + (pageSize - 1)) + pageSize)
  {
  }

  /** Adding a non-zero amount below 2^64 always changes an address. */
  lemma ShiftMovesAddress(x: Word, pageSize: nat)
    requires 0 < pageSize < WORD
    ensures Wrap(x + pageSize) != x
  {
  }

  /** Aligning down commutes with adding one page modulo 2^64. */
  lemma AlignDownAddPage(s1: Word, pageSize: nat)
    requires IsPageSize(pageSize)
    ensures AlignDown(Wrap(s1 + pageSize), pageSize) == Wrap(AlignDown(s1, pageSize) + pageSize)
  {
    var s2 := Wrap(s1 + pageSize);
    var r1 := s1 - s1 % pageSize;
    if s1 + pageSize < WORD {
      assert s2 == s1 + 1 * pageSize;
      ModAddMultiple(s1, 1, pageSize);
      assert s2 - s2 % pageSize == r1 + pageSize;
    } else {
      PageSizeDividesWord(pageSize);
      var n := WORD / pageSize;
      assert WORD == n * pageSize;
      assert (1 - n) * pageSize == pageSize - n * pageSize;
      assert s2 == s1 + (1 - n) * pageSize;
      ModAddMultiple(s1, 1 - n, pageSize);
      assert (n - 1) * pageSize == WORD - pageSize;
      RoundDownAtLeast(s1, n - 1, pageSize);
      assert WORD <= r1 + pageSize < 2 * WORD;
      assert s2 - s2 % pageSize == r1 + pageSize - WORD;
    }
  }

  /** Moving an address up by one page moves its ALIGN_UP up by one page, modulo 2^64. */
  lemma AlignUpShift(addr: Word, pageSize: nat)
    requires IsPageSize(pageSize)
    ensures AlignUp(Wrap(addr + pageSize), pageSize) == Wrap(AlignUp(addr, pageSize) + pageSize)
  {
    WrapShift(addr, pageSize);
    AlignDownAddPage(Wrap(addr + (pageSize - 1)), pageSize);
  }

  /**
   * A page is shorter than 2^64, so ALIGN_UP(addr + page_size) never
   * equals ALIGN_UP(addr): the page-crossing test in Unprotect holds for
   * every address.
   */
  lemma PageCrossingTestAlwaysHolds(addr: Word, pageSize: nat)
    requires IsPageSize(pageSize)
    ensures AlignUp(Wrap(addr + pageSize), pageSize) != AlignUp(addr, pageSize)
  {
    AlignUpShift(addr, pageSize);
    ShiftMovesAddress(AlignUp(addr, pageSize), pageSize);
  }

  // ---------------------------------------------------------------------
  // Unprotect and the inline hooker

  /** Two pages, as a size_t, are a whole number of pages. */
  lemma TwoPagesAligned(pageSize: nat)
    requires IsPageSize(pageSize)
    ensures Wrap(2 * pageSize) % pageSize == 0
  {
    PageSizeDividesWord(pageSize);
    var n := WORD / pageSize;
    assert WORD == n * pageSize;
    assert (n - 2) * pageSize == WORD - 2 * pageSize;
    MulSign(n - 2, pageSize);
    MultipleMod(2, pageSize);
  }

  /** The two pages from ALIGN_DOWN(addr) are page-aligned and cover the page after addr. */
  lemma TwoPagesRegion(addr: Word, pageSize: nat)
    requires IsPageSize(pageSize)
    ensures Wrap(2 * pageSize) % pageSize == 0
    ensures 2 * pageSize < WORD ==>
              AlignDown(addr, pageSize) <= addr &&
              addr + pageSize <= AlignDown(addr, pageSize) + Wrap(2 * pageSize)
  {
    TwoPagesAligned(pageSize);
  }

  /**
   * Unprotect(addr): computes the page-aligned region [start, start + size)
   * around addr and asks mprotect to make it readable, writable and
   * executable. Besides the verdict, the model returns the region it
   * passed to mprotect.
   */
  method Unprotect(addr: Word, pageSize: nat, mprotect: (Word, Word) -> int)
    returns (ok: bool, start: Word, size: Word)
    requires IsPageSize(pageSize)
    ensures start == AlignDown(addr, pageSize)
    ensures size == Wrap(2 * pageSize)
    ensures start % pageSize == 0 && size % pageSize == 0
    ensures 2 * pageSize < WORD ==> start <= addr && addr + pageSize <= start + size
    ensures ok <==> mprotect(start, size) != MPROTECT_FAILED
  {
    start := AlignDown(addr, pageSize);
    size := pageSize;
    PageCrossingTestAlwaysHolds(addr, pageSize);
    if AlignUp(Wrap(addr + pageSize), pageSize) != AlignUp(addr, pageSize) {
      size := Wrap(size + pageSize);
    }
    TwoPagesRegion(addr, pageSize);
    var result := mprotect(start, size);
    if result == MPROTECT_FAILED {
      return false, start, size;
    }
    return true, start, size;
  }

  /**
   * inlineHooker(address, replacement): unprotects the page holding the
   * target and, only if that succeeded, asks Dobby to redirect address to
   * replacement. It returns the trampoline to the original code when Dobby
   * succeeds and the null pointer otherwise; `hooked` says whether Dobby
   * was asked at all.
   */
  method InlineHooker(address: Word, replacement: Word, pageSize: nat,
                      mprotect: (Word, Word) -> int,
                      dobbyHook: (Word, Word) -> (RetStatus, Word))
    returns (origin: Word, hooked: bool)
    requires IsPageSize(pageSize)
    ensures hooked <==> mprotect(AlignDown(address, pageSize), Wrap(2 * pageSize)) != MPROTECT_FAILED
    ensures !hooked ==> origin == NULL
    ensures hooked && dobbyHook(address, replacement).0 == RS_SUCCESS ==>
              origin == dobbyHook(address, replacement).1
    ensures hooked && dobbyHook(address, replacement).0 != RS_SUCCESS ==> origin == NULL
  {
    var unprotected, _, _ := Unprotect(address, pageSize, mprotect);
    if !unprotected {
      return NULL, false;
    }
    var (status, originCall) := dobbyHook(address, replacement);
    if status == RS_SUCCESS {
      return originCall, true;
    } else {
      return NULL, true;
    }
  }
}
