# nvidia-vaapi-driver (Blackwell fork): layout arithmetic and sandbox-host detection

This project models the two pieces of logic in the direct-backend header of
the NVIDIA VA-API driver and proves properties about them:

- `src/direct/nv-driver.h`: the `ROUND_UP(N, S)` macro, the `NV_GPU_ARCH_*`
  architecture identifiers, the Blackwell alignment, page-size and GOB
  (group-of-bytes tiling block) constants, and the two sandbox-aware error
  codes. Module `NvDriver` in `nv_driver.dfy`. It also declares the
  `NVDriverContext` and `NVDriverImage` records as datatypes, to document
  their fields.
- `src/chrome_detect.h`: `is_chrome_detect`, which decides whether the process
  is a sandboxed browser host (Chrome, Chromium or Thorium). Module
  `ChromeDetect` in `chrome_detect.dfy`. The environment lookup becomes a map
  argument `env`. The `readlink("/proc/self/exe")` result becomes an
  `Option<string>` argument, `None` when the call fails.
- `wrappers.dfy` holds the `Option` datatype.

Modelling choices:

- `ROUND_UP` is taken over unbounded naturals with `S > 0`.
- `getenv("FORCENVDEC")` is non-NULL whenever the variable is set, whatever
  its value, so the override is `"FORCENVDEC" in env`.
- The readlink buffer holds at most `PATH_MAX - 1` characters, with Linux's
  `PATH_MAX = 4096`.
- strstr reads the buffer as a C string, so the examined text is the buffer
  up to its first NUL (`CString`).
- strstr is modelled twice. `Contains` is the recursive substring predicate
  and `Strstr` is a character-by-character search method proved against it.
  `IsChromeDetectRun` follows the C control flow and is proved equal to the
  function `IsChromeDetect`.
- `EACCES = 13` and `EAGAIN = 11` are the Linux errno values. The header takes
  them from `errno.h`, which is not part of this model.

Two points of the code shape the model. The header defines only the
architecture codes; no lookup from a hardware id to a tag is shown, so none is
modelled. `is_chrome_detect` tests only whether `FORCENVDEC` exists, so
`FORCENVDEC=0` also forces detection.

## Model

| member | source | states |
|---|---|---|
| `NvDriver.RoundUp` | src/direct/nv-driver.h:12 | for S > 0 the result is a multiple of S and lies in [N, N + S) |
| `NvDriver.RoundUpIsLeast` | src/direct/nv-driver.h:12 | ROUND_UP(N, S) is at most every multiple of S that is at least N, so it is the least such multiple |
| `NvDriver.RoundUpOfMultiple` | src/direct/nv-driver.h:12 | a value that is already a multiple of S is returned unchanged |
| `NvDriver.RoundUpIdempotent` | src/direct/nv-driver.h:12 | ROUND_UP(ROUND_UP(N, S), S) == ROUND_UP(N, S) |
| `NvDriver.RoundUpMonotone` | src/direct/nv-driver.h:12 | N1 <= N2 implies ROUND_UP(N1, S) <= ROUND_UP(N2, S) |
| `NvDriver.RoundUpNested` | src/direct/nv-driver.h:12 | when B is a multiple of A, rounding to A and then to B equals rounding to B directly |
| `NvDriver.ArchOfId` | src/direct/nv-driver.h:15-24 | decoding a code yields only a tag whose code it is |
| `NvDriver.ArchIdRoundTrip` | src/direct/nv-driver.h:15-24 | every tag's code decodes back to that tag, and a code decodes to a tag exactly when it is that tag's code |
| `NvDriver.ArchIdInjective` | src/direct/nv-driver.h:15-24 | two tags have the same code iff they are the same tag (the codes are pairwise distinct) |
| `NvDriver.ArchIdZeroOnlyUnknown` | src/direct/nv-driver.h:15-24 | a code is zero iff the tag is NV_GPU_ARCH_UNKNOWN |
| `NvDriver.ArchId` | src/direct/nv-driver.h:15-24 | the code of each NV_GPU_ARCH_* tag; its properties are carried by ArchOfId, ArchIdRoundTrip, ArchIdInjective, ArchIdZeroOnlyUnknown, ArchsByCodeSorted and HopperBelowAda |
| `NvDriver.ArchsByCodeComplete` | src/direct/nv-driver.h:15-24 | every architecture tag appears in the order Unknown, Kepler, Maxwell, Pascal, Volta, Turing, Ampere, Hopper, Ada, Blackwell |
| `NvDriver.ArchsByCodeSorted` | src/direct/nv-driver.h:15-24 | the codes along that order strictly increase |
| `NvDriver.HopperBelowAda` | src/direct/nv-driver.h:21-24 | Hopper (0x180) is below Ada (0x190) although Ada is declared first, and Ampere < Hopper, Ada < Blackwell |
| `NvDriver.BlackwellAlignmentsNest` | src/direct/nv-driver.h:27-30 | large page is a multiple of standard page, which is a multiple of surface alignment, which is a multiple of pitch alignment |
| `NvDriver.BlackwellGobAreaIsSurfaceAlignment` | src/direct/nv-driver.h:27-34 | GOB width times GOB height (64 x 8) equals the 512-byte surface alignment |
| `NvDriver.BlackwellMaxBlockHeight` | src/direct/nv-driver.h:33-35 | GOB_HEIGHT << MAX_LOG2_GOBS_Y is 256 rows = 32 GOBs, and a block that tall spans 32 surface alignments |
| `NvDriver.RoundUpToPageIsAligned` | src/direct/nv-driver.h:12-30 | rounding to either Blackwell page size yields a multiple of the standard page, the surface alignment and the pitch alignment |
| `NvDriver.SurfaceThenPageRounding` | src/direct/nv-driver.h:12-30 | rounding to the surface alignment before rounding to a page size does not change the page-rounded size |
| `NvDriver.ErrorCodesDistinctNegative` | src/direct/nv-driver.h:38-39 | NV_ERR_SANDBOX_BLOCKED (-EACCES) and NV_ERR_RESOURCE_BUSY (-EAGAIN) are negative and different |
| `ChromeDetect.Contains` | src/chrome_detect.h:20 | the substring test strstr performs; ContainsIff ties it to a matching position, Strstr computes it, ContainsNeedsChar bounds it |
| `ChromeDetect.ContainsIff` | src/chrome_detect.h:20 | the recursive substring predicate holds iff the needle occurs at some position |
| `ChromeDetect.Strstr` | src/chrome_detect.h:20 | the search returns the first position where the needle occurs, and returns NULL (None) iff the needle does not occur |
| `ChromeDetect.ReadlinkBuffer` | src/chrome_detect.h:16-17 | the stored target is the prefix of the link target of length min(length, PATH_MAX - 1), so it is the whole target when that fits |
| `ChromeDetect.CString` | src/chrome_detect.h:19-20 | the string strstr reads is a NUL-free prefix of the buffer that ends at the buffer's end or at a NUL |
| `ChromeDetect.Examined` | src/chrome_detect.h:16-19 | the text strstr sees after the readlink fill and the NUL store; ExaminedShortPath and ExaminedIgnoresTail pin it, and ReadlinkBuffer and CString characterise its two steps |
| `ChromeDetect.ExaminedShortPath` | src/chrome_detect.h:16-19 | a NUL-free target shorter than PATH_MAX is examined whole |
| `ChromeDetect.ExaminedIgnoresTail` | src/chrome_detect.h:16-19 | a long target is examined exactly as its first PATH_MAX - 1 characters |
| `ChromeDetect.IsChromeDetect` | src/chrome_detect.h:14-25 | is_chrome_detect as a function of the environment and the readlink result; its truth table is carried by OverrideForcesTrue, UnreadablePathFailsOpen and ReadablePathIff, and IsChromeDetectRun is proved equal to it |
| `ChromeDetect.IsChromeDetectRun` | src/chrome_detect.h:14-25 | the override test followed by the three strstr calls in order equals the decision function on every input; equal inputs therefore give equal results |
| `ChromeDetect.OverrideForcesTrue` | src/chrome_detect.h:15 | with FORCENVDEC set to any value the result is true for every path, readable or not |
| `ChromeDetect.UnreadablePathFailsOpen` | src/chrome_detect.h:17-24 | without the override, an unreadable executable path gives false |
| `ChromeDetect.ReadablePathIff` | src/chrome_detect.h:18-24 | without the override and with a readable path, the result is true iff "chrome", "chromium" or "thorium" occurs contiguously in the examined path |
| `ChromeDetect.ContainsNeedsChar` | src/chrome_detect.h:20 | a match needs every character of the marker to appear in the path |
| `ChromeDetect.NoMarkerWithoutLowercaseCT` | src/chrome_detect.h:20 | a path with no lowercase 'c' and no lowercase 't' matches none of the three markers |
| `ChromeDetect.CaseSensitiveMatch` | src/chrome_detect.h:20 | "/usr/lib/Chromium/CHROME-THORIUM" is not detected: matching is case-sensitive |
| `ChromeDetect.TruncatedTailIgnored` | src/chrome_detect.h:16-19 | for a target of PATH_MAX or more characters the result equals that on its first PATH_MAX - 1 characters |
| `ChromeDetect.MarkerBeyondBufferNotSeen` | src/chrome_detect.h:16-20 | 4095 'a's followed by "chrome" contains the marker but is not detected, because the marker lies past the buffer |
| `ChromeDetect.ChromiumNeedsOwnMarker` | src/chrome_detect.h:20 | "/usr/lib/chromium/chromium" does not contain "chrome" and is detected through the "chromium" test alone |

## Left out

- `init_nvdriver`, `free_nvdriver`, `get_device_uuid`, `alloc_memory` and `alloc_image`: the header gives only their prototypes. Their bodies issue ioctls to the kernel driver and are not part of this model.
- The NVDriverContext and NVDriverImage records are declared as datatypes with their fields. No operation on them is modelled, because no shown code reads or updates them.
- The floor-lookup architecture classifier, the large-versus-standard page threshold and the legacy-architecture alignments do not appear in the code, so none of them is modelled.
- `getenv` and `readlink` are operating-system reads. They are inputs to the model.
- RoundUp: does not model C unsigned wrap-around of `N + S - 1`, because the types of the macro's arguments at its call sites are not part of this model.
- ChromeDetect: the path is a sequence of characters, not of bytes. No encoding is modelled.
