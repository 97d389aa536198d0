/**
 * Model of the arithmetic and the constants of `src/direct/nv-driver.h`:
 * the `ROUND_UP` macro, the GPU architecture identifiers, the Blackwell
 * memory-layout constants and the sandbox-aware error codes.
 */
module NvDriver {
  import opened Wrappers

  // ---------------------------------------------------------------------
  // ROUND_UP(N, S): the smallest multiple of S that is not below N.
  // ---------------------------------------------------------------------

  /** `((N + S - 1) / S) * S`, over unbounded naturals. */
  function RoundUp(n: nat, s: nat): (r: nat)
    requires s > 0
    ensures r % s == 0
    ensures n <= r < n + s
  {
    var q := (n + s - 1) / s;
    DivModSplit(n + s - 1, s);
    MultipleOf(q, s);
    q * s
  }

  /** Euclidean division splits x into quotient and remainder. */
  lemma DivModSplit(x: nat, s: nat)
    requires s > 0
    ensures x == (x / s) * s + x % s
    ensures 0 <= x % s < s
  {
  }

  /** A product with s is a multiple of s. */
  lemma MultipleOf(k: nat, s: nat)
    requires s > 0
    ensures (k * s) % s == 0
    ensures (k * s) / s == k
  {
    var p := k * s;
    DivModSplit(p, s);
    // p == (p / s) * s + p % s == k * s with 0 <= p % s < s forces p / s == k
    if p / s < k {
      MulLeq(p / s + 1, k, s);
      assert false;
    } else if p / s > k {
      MulLeq(k + 1, p / s, s);
      assert false;
    }
  }

  /** Multiplication by a natural is monotone. */
  lemma MulLeq(a: nat, b: nat, s: nat)
    requires a <= b
    ensures a * s <= b * s
  {
  }

  /** A multiple of s has the form k * s. */
  lemma MultipleHasQuotient(m: nat, s: nat)
    requires s > 0 && m % s == 0
    ensures m == (m / s) * s
  {
    DivModSplit(m, s);
  }

  /** Two multiples of s that differ by less than s are ordered as the
      smaller bound says: if a < b + s then a <= b. */
  lemma MultiplesGap(a: nat, b: nat, s: nat)
    requires s > 0 && a % s == 0 && b % s == 0
    requires a < b + s
    ensures a <= b
  {
    MultipleHasQuotient(a, s);
    MultipleHasQuotient(b, s);
    if a / s > b / s {
      MulLeq(b / s + 1, a / s, s);
      assert false;
    }
  }

  /** ROUND_UP(N, S) is the LEAST multiple of S that is at least N. */
  lemma {:induction false} RoundUpIsLeast(n: nat, s: nat, m: nat)
    requires s > 0
    requires m % s == 0 && n <= m
    ensures RoundUp(n, s) <= m
  {
    MultiplesGap(RoundUp(n, s), m, s);
  }

  /** ROUND_UP leaves a value that is already a multiple of S unchanged. */
  lemma {:induction false} RoundUpOfMultiple(n: nat, s: nat)
    requires s > 0 && n % s == 0
    ensures RoundUp(n, s) == n
  {
    RoundUpIsLeast(n, s, n);
  }

  /** ROUND_UP is idempotent. */
  lemma {:induction false} RoundUpIdempotent(n: nat, s: nat)
    requires s > 0
    ensures RoundUp(RoundUp(n, s), s) == RoundUp(n, s)
  {
    RoundUpOfMultiple(RoundUp(n, s), s);
  }

  /** ROUND_UP is monotone in N. */
  lemma {:induction false} RoundUpMonotone(n1: nat, n2: nat, s: nat)
    requires s > 0 && n1 <= n2
    ensures RoundUp(n1, s) <= RoundUp(n2, s)
  {
    RoundUpIsLeast(n1, s, RoundUp(n2, s));
  }

  /** A multiple of a multiple of b is a multiple of b. */
  lemma MultipleTransitive(x: nat, a: nat, b: nat)
    requires a > 0 && b > 0
    requires x % a == 0 && a % b == 0
    ensures x % b == 0
  {
    MultipleHasQuotient(x, a);
    MultipleHasQuotient(a, b);
    var i, j := x / a, a / b;
    assert x == (i * j) * b by {
      assert x == i * a;
      assert a == j * b;
      MulAssoc(i, j, b);
    }
    MultipleOf(i * j, b);
  }

  /** Multiplication regroups. */
  lemma MulAssoc(i: nat, j: nat, b: nat)
    ensures i * (j * b) == (i * j) * b
  {
  }

  /** Rounding first to a finer alignment `a` and then to a coarser one `b`
      (a multiple of `a`) gives the same value as rounding to `b` directly. */
  lemma {:induction false} RoundUpNested(n: nat, a: nat, b: nat)
    requires a > 0 && b > 0 && b % a == 0
    ensures RoundUp(RoundUp(n, a), b) == RoundUp(n, b)
  {
    var r1 := RoundUp(n, a);
    var direct := RoundUp(n, b);
    MultipleTransitive(direct, b, a);
    RoundUpIsLeast(n, a, direct);        // r1 <= direct
    RoundUpIsLeast(r1, b, direct);       // RoundUp(r1, b) <= direct
    RoundUpIsLeast(n, b, RoundUp(r1, b)); // direct <= RoundUp(r1, b)
  }

  // ---------------------------------------------------------------------
  // GPU architecture identifiers (NV_GPU_ARCH_*).
  // ---------------------------------------------------------------------

  /** The architecture tags, in the order the header declares them
      (Ada is declared before Hopper although its code is larger). */
  datatype GpuArch =
    | Unknown | Kepler | Maxwell | Pascal | Volta | Turing | Ampere | Ada | Hopper | Blackwell

  /** The numeric code each NV_GPU_ARCH_* macro expands to. */
  function ArchId(a: GpuArch): (code: nat)
  {
    match a
    case Unknown => 0
    case Kepler => 0x0E0
    case Maxwell => 0x110
    case Pascal => 0x130
    case Volta => 0x140
    case Turing => 0x160
    case Ampere => 0x170
    case Ada => 0x190
    case Hopper => 0x180
    case Blackwell => 0x1B0
  }

  /** The tag whose code is exactly `code`, if any. */
  function ArchOfId(code: nat): (r: Option<GpuArch>)
    ensures r.Some? ==> ArchId(r.value) == code
  {
    if code == 0 then Some(Unknown)
    else if code == 0x0E0 then Some(Kepler)
    else if code == 0x110 then Some(Maxwell)
    else if code == 0x130 then Some(Pascal)
    else if code == 0x140 then Some(Volta)
    else if code == 0x160 then Some(Turing)
    else if code == 0x170 then Some(Ampere)
    else if code == 0x180 then Some(Hopper)
    else if code == 0x190 then Some(Ada)
    else if code == 0x1B0 then Some(Blackwell)
    else None
  }

  /** Decoding a code recovers its tag, and a code decodes only to the tag
      it belongs to; hence the codes are pairwise distinct. */
  lemma ArchIdRoundTrip(a: GpuArch, code: nat)
    ensures ArchOfId(ArchId(a)) == Some(a)
    ensures ArchOfId(code) == Some(a) <==> ArchId(a) == code
  {
  }

  /** No two architecture tags share a code. */
  lemma ArchIdInjective(a: GpuArch, b: GpuArch)
    ensures ArchId(a) == ArchId(b) <==> a == b
  {
    ArchIdRoundTrip(a, ArchId(b));
  }

  /** Only NV_GPU_ARCH_UNKNOWN is zero. */
  lemma ArchIdZeroOnlyUnknown(a: GpuArch)
    ensures ArchId(a) == 0 <==> a == Unknown
  {
  }

  /** The tags sorted by numeric code. Hopper (0x180) comes before Ada (0x190). */
  const ArchsByCode: seq<GpuArch> :=
    [Unknown, Kepler, Maxwell, Pascal, Volta, Turing, Ampere, Hopper, Ada, Blackwell]

  /** ArchsByCode lists every tag. */
  lemma ArchsByCodeComplete(a: GpuArch)
    ensures a in ArchsByCode
  {
  }

  /** The codes along ArchsByCode strictly increase. */
  lemma ArchsByCodeSorted(i: nat, j: nat)
    requires i < j < |ArchsByCode|
    ensures ArchId(ArchsByCode[i]) < ArchId(ArchsByCode[j])
  {
  }

  /** Hopper's code sits below Ada's although the header declares Ada first. */
  lemma HopperBelowAda()
    ensures ArchId(Hopper) < ArchId(Ada)
    ensures ArchId(Ampere) < ArchId(Hopper) && ArchId(Ada) < ArchId(Blackwell)
  {
  }

  // ---------------------------------------------------------------------
  // Blackwell memory layout constants.
  // ---------------------------------------------------------------------

  const BlackwellSurfaceAlignment: nat := 512
  const BlackwellPitchAlignment: nat := 256
  const BlackwellPageSizeLarge: nat := 262144   // 256 KiB
  const BlackwellPageSizeStandard: nat := 65536 // 64 KiB
  const BlackwellGobWidth: nat := 64
  const BlackwellGobHeight: nat := 8
  const BlackwellMaxLog2GobsY: nat := 5

  /** 2 to the power k. */
  function Pow2(k: nat): (r: nat)
  {
    if k == 0 then 1 else 2 * Pow2(k - 1)
  }

  /** C's `x << k` on a non-negative value with no bits shifted out. */
  function ShiftLeft(x: nat, k: nat): (r: nat)
  {
    x * Pow2(k)
  }

  /** The alignments nest: large page, standard page, surface, pitch. */
  lemma BlackwellAlignmentsNest()
    ensures BlackwellPageSizeLarge % BlackwellPageSizeStandard == 0
    ensures BlackwellPageSizeStandard % BlackwellSurfaceAlignment == 0
    ensures BlackwellSurfaceAlignment % BlackwellPitchAlignment == 0
  {
  }

  /** One GOB (64 bytes by 8 rows) covers exactly the surface alignment. */
  lemma BlackwellGobAreaIsSurfaceAlignment()
    ensures BlackwellGobWidth * BlackwellGobHeight == BlackwellSurfaceAlignment
  {
  }

  /** The tallest block, `GOB_HEIGHT << MAX_LOG2_GOBS_Y`, is 256 rows, i.e.
      32 GOBs stacked, and spans 32 surface alignments. */
  lemma BlackwellMaxBlockHeight()
    ensures ShiftLeft(BlackwellGobHeight, BlackwellMaxLog2GobsY) == 256
    ensures ShiftLeft(BlackwellGobHeight, BlackwellMaxLog2GobsY) == 32 * BlackwellGobHeight
    ensures BlackwellGobWidth * ShiftLeft(BlackwellGobHeight, BlackwellMaxLog2GobsY)
            == 32 * BlackwellSurfaceAlignment
  {
    assert Pow2(5) == 32;
  }

  /** Rounding a size up to either Blackwell page size also aligns it to the
      standard page, the surface alignment and the pitch alignment. */
  lemma {:induction false} RoundUpToPageIsAligned(n: nat, page: nat)
    requires page == BlackwellPageSizeLarge || page == BlackwellPageSizeStandard
    ensures RoundUp(n, page) % BlackwellPageSizeStandard == 0
    ensures RoundUp(n, page) % BlackwellSurfaceAlignment == 0
    ensures RoundUp(n, page) % BlackwellPitchAlignment == 0
  {
    var r := RoundUp(n, page);
    BlackwellAlignmentsNest();
    if page == BlackwellPageSizeLarge {
      MultipleTransitive(r, BlackwellPageSizeLarge, BlackwellPageSizeStandard);
    }
    MultipleTransitive(r, BlackwellPageSizeStandard, BlackwellSurfaceAlignment);
    MultipleTransitive(r, BlackwellSurfaceAlignment, BlackwellPitchAlignment);
  }

  /** Rounding first to the surface alignment and then to a page size gives
      the same byte count as rounding to the page size alone. */
  lemma {:induction false} SurfaceThenPageRounding(n: nat, page: nat)
    requires page == BlackwellPageSizeLarge || page == BlackwellPageSizeStandard
    ensures RoundUp(RoundUp(n, BlackwellSurfaceAlignment), page) == RoundUp(n, page)
  {
    BlackwellAlignmentsNest();
    if page == BlackwellPageSizeLarge {
      MultipleTransitive(page, BlackwellPageSizeStandard, BlackwellSurfaceAlignment);
    }
    RoundUpNested(n, BlackwellSurfaceAlignment, page);
  }

  // ---------------------------------------------------------------------
  // Sandbox-aware error codes.
  // ---------------------------------------------------------------------

  /** Linux errno values the header negates (errno-base.h). */
  const EACCES: int := 13
  const EAGAIN: int := 11

  const NvErrSandboxBlocked: int := -EACCES
  const NvErrResourceBusy: int := -EAGAIN

  /** The two error codes are negative and different. */
  lemma ErrorCodesDistinctNegative()
    ensures NvErrSandboxBlocked < 0 && NvErrResourceBusy < 0
    ensures NvErrSandboxBlocked != NvErrResourceBusy
  {
  }

  // ---------------------------------------------------------------------
  // The driver records declared by the header (no operation on them is
  // part of this model).
  // ---------------------------------------------------------------------

  newtype u32 = x: int | 0 <= x < 0x1_0000_0000
  newtype u64 = x: int | 0 <= x < 0x1_0000_0000_0000_0000
  newtype i32 = x: int | -0x8000_0000 <= x < 0x8000_0000

  /** NVDriverContext: the three kernel file descriptors, the driver object
      ids, version, GPU id, surface page kind and Blackwell layout fields. */
  datatype DriverContext = DriverContext(
    nvctlFd: i32, nv0Fd: i32, drmFd: i32,
    clientObject: u32, deviceObject: u32, subdeviceObject: u32,
    driverMajorVersion: u32, driverMinorVersion: u32,
    gpuId: u32, genericPageKind: u32, pageKindGeneration: u32, sectorLayout: u32,
    gpuArch: u32, supportsDmabufV2: u32, isBlackwell: bool,
    blackwellAlignment: u32, blackwellPageSize: u32, supportsLowLatencyDecode: bool)

  /** NVDriverImage: the two driver file descriptors, the DRM descriptor and
      the layout of one allocated image. */
  datatype DriverImage = DriverImage(
    nvFd: i32, nvFd2: i32, drmFd: i32,
    width: u32, height: u32, mods: u64,
    memorySize: u32, offset: u32, pitch: u32, fourcc: u32)
}
