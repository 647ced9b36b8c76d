# LSPlantDemo: Java version table and page-alignment arithmetic

This project models the two self-contained pieces of logic in the LSPlant
hooking demo.

- **`XposedUtils`** (`java_version.dfy`) models the `JavaVersion` enum. It has
  nine constants. Each one pairs a standard name ("0.9", "1.1" … "1.8") with a
  comparison weight. The model covers `get()`, which looks up the constant for a
  `java.specification.version` string, `toString()`, which gives the name, and
  `atLeast`, which compares weights. `JAVA_0_9` is the version Android reports.
  It weighs 1.5, the same as `JAVA_1_5`, so `atLeast` is a total preorder and
  not an order. The model keeps this.
- **`NativeLib`** (`native_lib.dfy`) models the page arithmetic of the native
  glue. This covers the `ALIGN_DOWN` and `ALIGN_UP` macros and `Unprotect`,
  which works out the page-aligned region it hands to `mprotect` and reports
  whether that call failed. It also covers `inlineHooker`, which unprotects the
  target and then asks Dobby to install the hook. Addresses and sizes are `uintptr_t`/`size_t`
  values, taken to be 64 bits wide as on the 64-bit Android ABIs. They are
  modelled as naturals below 2^64, and every addition wraps modulo 2^64 as it
  does in C. The page size is a parameter
  that must be a power of two below 2^64.

Modelling choices:

- The float weights `1.1f` … `1.8f` become the exact integers 11 … 18 (tenths).
  The nine constants carry eight distinct floats, because `1.5f` appears
  twice. Mapping each float to its tenths preserves equality and order, so
  every `atLeast` result is the same.
- `get()` reads the global `SystemUtils.JAVA_SPECIFICATION_VERSION`. Here that
  string is a parameter. Java's `null` result is `None`.
- For a power-of-two page size, `addr & -page_size` clears the bits below the
  page size, and `(x) & ~(page_size - 1)` does the same. Both macros are
  therefore stated as "subtract the remainder modulo the page size". The
  wrap-around of `addr + page_size - 1` inside `ALIGN_UP` is modelled.
- `mprotect` and `DobbyHook` are foreign calls. They become function
  parameters that map the call's arguments to the status the call reports.
  `Unprotect` also returns the start and length it passed to `mprotect`, so
  that its contract can talk about the region. `InlineHooker` returns, next to
  the pointer that C returns, a flag `hooked` that records whether `DobbyHook`
  was called at all.
- A consequence the proofs bring out: the page-crossing test at
  `native-lib.cpp:28` holds for every address, wrap-around included. So
  `Unprotect` always asks for two pages (`2 * page_size_` modulo 2^64).

## Model

| member | source | states |
|---|---|---|
| `XposedUtils.JavaVersion.Value` | app/src/main/java/de/robv/android/xposed/utils/JavaVersion.java:33-73 | every weight lies in 1.1 … 1.8; apart from `JAVA_0_9`, the weight rises by a tenth with each constant in declaration order |
| `XposedUtils.JavaVersion.Ordinal` | app/src/main/java/de/robv/android/xposed/utils/JavaVersion.java:33-73 | the declaration position of each of the nine constants is below 9 |
| `XposedUtils.JavaVersion.ToString` | app/src/main/java/de/robv/android/xposed/utils/JavaVersion.java:148-152 | the name is never null or empty: it is three characters, a digit, a dot and a digit |
| `XposedUtils.JavaVersion.AtLeast` | app/src/main/java/de/robv/android/xposed/utils/JavaVersion.java:105-107 | this constant's weight in tenths is at least `requiredVersion`'s; every version is at least 1.1 and 1.8 is at least every version |
| `XposedUtils.JavaVersion.Get` | app/src/main/java/de/robv/android/xposed/utils/JavaVersion.java:117-138 | a found constant has exactly the given string as its name; the result is null exactly when no constant is named by the string |
| `XposedUtils.GetToString` | app/src/main/java/de/robv/android/xposed/utils/JavaVersion.java:117-152 | round trip: `get` of a constant's `toString()` is that constant, for all nine |
| `XposedUtils.ToStringInjective` | app/src/main/java/de/robv/android/xposed/utils/JavaVersion.java:33-73 | the nine names are pairwise distinct |
| `XposedUtils.GetUnknown` | app/src/main/java/de/robv/android/xposed/utils/JavaVersion.java:137 | "", "2.0", "1.5.1" and "1.9" are unknown versions (null) |
| `XposedUtils.AtLeastReflexive` | app/src/main/java/de/robv/android/xposed/utils/JavaVersion.java:105-107 | every version is at least itself |
| `XposedUtils.AtLeastTotal` | app/src/main/java/de/robv/android/xposed/utils/JavaVersion.java:106 | of any two versions, one is at least the other |
| `XposedUtils.AtLeastTransitive` | app/src/main/java/de/robv/android/xposed/utils/JavaVersion.java:106 | `a.atLeast(b)` and `b.atLeast(c)` imply `a.atLeast(c)` |
| `XposedUtils.AtLeastNotAntisymmetric` | app/src/main/java/de/robv/android/xposed/utils/JavaVersion.java:33-58 | `JAVA_0_9` and `JAVA_1_5` are distinct yet each is at least the other |
| `XposedUtils.AtLeastEquivalence` | app/src/main/java/de/robv/android/xposed/utils/JavaVersion.java:33-107 | two versions are each at least the other exactly when they are equal or are `JAVA_0_9` and `JAVA_1_5` |
| `XposedUtils.AtLeastFollowsDeclarationOrder` | app/src/main/java/de/robv/android/xposed/utils/JavaVersion.java:38-106 | among `JAVA_1_1` … `JAVA_1_8`, `a.atLeast(b)` holds exactly when `b` is declared no later than `a` |
| `NativeLib.AlignDown` | app/src/main/cpp/native-lib.cpp:13 | the result is a multiple of the page size, at most the address, and less than one page below it |
| `NativeLib.AlignUp` | app/src/main/cpp/native-lib.cpp:14 | the result is a multiple of the page size; without overflow it is at least the address and less than one page above it; when `addr + page_size - 1` overflows it wraps to 0 |
| `NativeLib.AlignedAddressUnchanged` | app/src/main/cpp/native-lib.cpp:13-14 | both macros leave a page-aligned address unchanged |
| `NativeLib.AlignDownIdempotent` | app/src/main/cpp/native-lib.cpp:13 | aligning down twice is the same as aligning down once |
| `NativeLib.AlignUpIdempotent` | app/src/main/cpp/native-lib.cpp:14 | aligning up twice is the same as aligning up once, wrap-around included |
| `NativeLib.AlignDownAddPage` | app/src/main/cpp/native-lib.cpp:13 | moving an address up one page (modulo 2^64) moves `ALIGN_DOWN` of it up one page (modulo 2^64) |
| `NativeLib.AlignUpShift` | app/src/main/cpp/native-lib.cpp:14 | `ALIGN_UP(addr + page_size_)` is `ALIGN_UP(addr) + page_size_`, both modulo 2^64, for every address |
| `NativeLib.PageCrossingTestAlwaysHolds` | app/src/main/cpp/native-lib.cpp:28 | `ALIGN_UP(addr + page_size_)` never equals `ALIGN_UP(addr)`, wrap-around included, so the test always holds and `size` always grows to two pages |
| `NativeLib.TwoPagesRegion` | app/src/main/cpp/native-lib.cpp:26-31 | the two-page length is a multiple of the page size; when it fits in 2^64, the region from `ALIGN_DOWN(addr)` covers `[addr, addr + page_size_)` |
| `NativeLib.Unprotect` | app/src/main/cpp/native-lib.cpp:24-38 | the region starts at `ALIGN_DOWN(addr)` and is `2 * page_size_` long (mod 2^64); start and length are page-aligned; when two pages fit in 2^64 the region covers `[addr, addr + page_size_)`; the result is false exactly when `mprotect` on that region returns -1 |
| `NativeLib.InlineHooker` | app/src/main/cpp/native-lib.cpp:40-51 | the hook is attempted exactly when `Unprotect` succeeds; otherwise the result is null; once attempted, the result is Dobby's original-call pointer when Dobby reports `RS_SUCCESS` and null otherwise |

## Left out

- `inlineUnHooker` (`native-lib.cpp:64-66`) only compares the result of the foreign `DobbyDestroy` with `RT_SUCCESS`. It has no logic of its own to state.
- `hook0`, `unhook0` and `JNI_OnLoad` (`native-lib.cpp:68-119`), `init` and the `elf_img` symbol resolver are left out. They forward to `lsplant`, `pine::ElfImg`, `sysconf` and the system-property reader, which are foreign code or platform I/O. The global `page_size_` that `JNI_OnLoad` sets becomes the `pageSize` parameter.
- What `mprotect` and `DobbyHook` do to memory is not modelled. Only the status each one reports is.
- The `errno` logging in `Unprotect` and all other log output are left out.
- `MainActivity.java` is UI glue: button listeners, library loading, the `findAndHookMethod` call into the external hooking engine, a settings read and a toast.
- IEEE float semantics of the enum weights are not modelled; exact tenths are used instead.
- 32-bit ABIs (armeabi-v7a, x86) are not modelled: there `uintptr_t` and `size_t` are 32 bits wide, so the macros and `size += page_size_` wrap at 2^32. The proofs use only that the page size is a power of two dividing the modulus, so the same argument carries over with 2^32 in place of 2^64.
- `XposedUtils.JavaVersion.Get`: a null `java.specification.version` property is not modelled, since the parameter is a string. The source returns null in that case, as it does for any unknown name.
- `NativeLib.AlignDown`: the bit-mask form `addr & -page_size` is not itself modelled. The model uses the equal remainder form for power-of-two page sizes. Relating the two on 64-bit bit-vectors is not proved.
- `NativeLib.AlignUp`: likewise, `(addr + page_size - 1) & ~(page_size - 1)` is modelled as rounding `addr + page_size - 1` (mod 2^64) down to a multiple of the page size.
