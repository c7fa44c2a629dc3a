# A model of the trv32p3 runtime, its AES-GCM application and its C++ library sources

The toolchain tree holds the processor's own arithmetic runtime (`trv32p3/lib`), an AES-256-GCM application
(`trv32p3/applications/aes-256-gcm`) and the C++ runtime libraries (`libs/libcxx-9.0.0`, `libs/libcxxabi-9.0.0`).
This project models the algorithms in them whose correctness is not visible from one function body, as Dafny
code that mirrors the source, and proves what they promise for all inputs and over all runs. `dafny verify
dfyconfig.toml` checks everything. No file depends on a library.

## What is modelled

- **AES-GCM** (`Bytes`, `Gf2Poly`, `GcmBlocks`, `AesGcm`). Byte arrays are shifted, xored and incremented in
  place as in `aes-gcm.c`. `Gf2Poly` is an independent theory of polynomials over GF(2), given by the set of their
  exponents, with multiplication and long division by the GCM polynomial; the multiplication loop is proved to
  compute the field product, and GHASH to be the polynomial in H. The AES cipher is a parameter: any function on
  blocks. The byte order of GETU32, PUTU32 and PUTU64 is that of `aes.h`, big-endian. `SizeBound` is one more than
  the largest size_t. Any of the buffers may be one and the same: `aes_gctr` overwrites each output block before it
  reads the input block, so an in-place call turns the full blocks to zeros (`AesGcm.InPlaceExact`), and the tag is
  over what the buffers hold by then.
- **`__next_prime`** (`Division`, `Primes`, `NextPrime`, `PrimeCertificates`, `PrimeLimits`, `NextPrimeLimits`). Trial
  division over the wheel of 210, proved against primality itself. The limits of `__check_for_overflow` are proved to
  be the largest primes of 16, 24, 32 and 64 bits, by certificates on the order of a base.
- **The emergency heap** (`HeapModel`, `FallbackHeap`) for any number of cells below 2^16. `HeapModel` gives the
  steps as functions on values and says when chunks tile the heap; `FallbackHeap.EmergencyHeap` is the object with
  its cells rewritten in place, proved against them. In the mid-list branch of `fallback_free`
  (`fallback_malloc.cpp:183-184`) the absorbed node's link is not copied, so everything behind it is lost unless
  that link is 0. The condition is exact: see `HeapModel.ReleaseExact` and the concrete run `FallbackHeap.BrokenRun`.
  A chunk of one cell at the end of the heap has an address that `is_fallback_ptr` does not recognise
  (`FallbackHeap.RecognisedExact`).
- **Concurrent protocols** (`OnceSpec`, `FutexGuard`, `MutexGuard`, `CallOnce`, `SharedMutex`) as state machines over
  any number of threads, sequentially consistent, with spurious wakeups and weak compare-exchanges. In the futex guard a
  step is one atomic access. Code that runs under a mutex is one step up to where it releases the mutex or waits.
  The two guards and `__call_once` refine one protocol, `OnceSpec`.
- **The exception runtime** (`ExceptionModel` and the other `Exception...` modules): headers, handler counts, reference
  counts and the stack of caught exceptions of one thread, next to the program's nesting of flights and handlers.
  `ExceptionGlobals.Globals` is the object that the runtime's functions update. Handler counts are negative while
  a caught exception is being rethrown; a second `throw;` for an exception that is in flight already turns the count
  positive again. Nothing is wrong by that alone: every rethrow keeps the invariant. But if that flight then leaves the
  last clause, the exception is destroyed in flight (`ExceptionRuns.RethrowInFlight`). `ExceptionRuns.RunExact` says
  that this doomed step is the only one that breaks the bookkeeping, and `ExceptionRethrows.RethrowExact` which
  rethrows can lead to it. An address stands for one allocation and does not come back after destruction.
- **The personality routine** (`EhTable`, `TwoPhases`, `ScanMeaning`, `Personality`, `Leb128`), non-ARM and non-SjLj: the
  table scan as the source's loops, its answer read off the fields of the table (`ScanMeaning.ScanExact`), what the scans of the two phases have to do with each other, and a two-phase unwind of a stack
  of frames. Tables are parsed, action chains finite. `Leb128` reads the variable-length numbers.
- **`gslice::__init`** (`Gslice`): the odometer for any number of dimensions, and when it would write past its table.
- **UTF converters** (`Codecs`, `Utf`, `Utf8Input`, `Converters`, `ConverterLaws`, `ConverterLoops`). `Codecs` states the loop
  that all converters share and proves its laws once; `Utf` holds the encodings, given by RFC 3629 and RFC 2781;
  `Converters` says what each converter does at the head of its input, with the source's masks and shifts.
  `utf8_to_utf16` compares the lead byte with Maxcode, which refuses some code points for a Maxcode between 80 and C2
  (`ConverterLaws.LeadByteTest`).
- **The iterator debug database** (`HashTable`, `DebugDb`): the chained tables and each container's array of
  iterators, and every operation as an update of the map from iterators to containers.
- **Word arithmetic** (`Words`, `WordDivide`, `WordPairs`) for any width w, 32 and 64 being the source's: restoring
  division, shift-and-add multiplication, and pairs of words. Signed overflow wraps, as `trv32p3_div.c:22-23` assumes.
- **Array construction** (`CxaVector`) as logs of allocator, constructor and destructor calls, from which `delete[]`
  reads its cookie, and **decimal printing**
  (`Charconv`). `__cxa_vec_delete3` without a cookie frees size 0 whatever was allocated: see
  `CxaVector.DeleteMatchesNew`.

Where a row says that an object's fields become those of an operation, the operation is a function on states, and the
rows beside it say what that function keeps and means. `Common` and `Division` hold what several models share.

## Model

| member | source | states |
|---|---|---|
| `GcmBlocks.ShiftRightBlock` | trv32p3/applications/aes-256-gcm/aes-gcm.c:53-78 | the four word shifts move the 128-bit block one position right: as a polynomial, multiplication by x cut to degree 127 |
| `GcmBlocks.XorBlock` | trv32p3/applications/aes-256-gcm/aes-gcm.c:42-50 | the four word xors are the byte-wise xor of two blocks, and leave the rest of the target buffer alone |
| `GcmBlocks.GfMult` | trv32p3/applications/aes-256-gcm/aes-gcm.c:82-110 | the shift-and-xor loop computes the block of the product of the two reflected polynomials modulo x^128 + x^7 + x^2 + x + 1, and touches nothing but z |
| `GcmBlocks.PolyOfInjective` | trv32p3/applications/aes-256-gcm/aes-gcm.c:81-110 | reading a block as a polynomial loses nothing, so an equation of polynomials is an equation of blocks |
| `GcmBlocks.DotCommutative` | trv32p3/applications/aes-256-gcm/aes-gcm.c:81-110 | the block product commutes although the loop treats its operands differently |
| `GcmBlocks.DotAssociative` | trv32p3/applications/aes-256-gcm/aes-gcm.c:81-110 | the block product is associative |
| `GcmBlocks.DotDistributes` | trv32p3/applications/aes-256-gcm/aes-gcm.c:42-50 | the block product distributes over xor_block |
| `GcmBlocks.DotOne` | trv32p3/applications/aes-256-gcm/aes-gcm.c:81-110 | the block of the polynomial 1 is neutral |
| `Gf2Poly.ReduceIsResidue` | trv32p3/applications/aes-256-gcm/aes-gcm.c:99-107 | long division by the GCM polynomial ends below degree 128 and congruent to its argument |
| `Gf2Poly.ReduceUnique` | trv32p3/applications/aes-256-gcm/aes-gcm.c:99-107 | that residue is the only one, so the field product does not depend on how it is reduced |
| `Gf2Poly.GfMulCommutative` | trv32p3/applications/aes-256-gcm/aes-gcm.c:81-110 | multiplication of residues commutes |
| `Gf2Poly.GfMulAssociative` | trv32p3/applications/aes-256-gcm/aes-gcm.c:81-110 | multiplication of residues is associative |
| `AesGcm.Ghash` | trv32p3/applications/aes-256-gcm/aes-gcm.c:120-157 | the loop with its zero-padded last block is GHASH of section 6.4 of SP 800-38D from the given start value, for every length |
| `AesGcm.GHashIsPolynomial` | trv32p3/applications/aes-256-gcm/aes-gcm.c:120-157 | from the zero block GHASH is the polynomial X_1 H^m + ... + X_m H over the field |
| `AesGcm.GHashResume` | trv32p3/applications/aes-256-gcm/aes-gcm.c:128-138 | splitting a ghash call at a 16-byte boundary changes nothing |
| `AesGcm.Inc32` | trv32p3/applications/aes-256-gcm/aes-gcm.c:33-39 | the last four bytes, read as a big-endian number, go up by one modulo 2^32 and the other twelve stay |
| `AesGcm.IncByTwice` | trv32p3/applications/aes-256-gcm/aes-gcm.c:33-39 | increments add up: j steps and then k are j + k steps |
| `AesGcm.CountersDistinct` | trv32p3/applications/aes-256-gcm/aes-gcm.c:172-180 | two counter blocks of one stream are equal if and only if their numbers agree modulo 2^32 |
| `AesGcm.AesGctr` | trv32p3/applications/aes-256-gcm/aes-gcm.c:160-190 | for every length the output is the text xored with the encryptions of the successive counter blocks, or, when output and text are one buffer, zeros in the full blocks and the encrypted partial block; the rest of the output buffer stays |
| `AesGcm.InPlaceExact` | trv32p3/applications/aes-256-gcm/aes-gcm.c:174-180 | an in-place call encrypts if and only if every full block of the text is the key stream itself, so always below 16 bytes |
| `AesGcm.InPlaceForgets` | trv32p3/applications/aes-256-gcm/aes-gcm.c:174-180 | texts that differ in full blocks only become the same, so no receiver can undo an in-place call |
| `AesGcm.GctrTwice` | trv32p3/applications/aes-256-gcm/aes-gcm.c:160-190 | the same call twice restores the text, whatever its length |
| `AesGcm.PrepareJ0` | trv32p3/applications/aes-256-gcm/aes-gcm.c:209-229 | J_0 is iv || 0^31 || 1 for twelve bytes, and otherwise the hash of the padded iv and a block whose bytes are the digits of 0 and of the bit length as size_t holds it |
| `AesGcm.AesGcmGctr` | trv32p3/applications/aes-256-gcm/aes-gcm.c:232-244 | the text is encrypted from the counter block after J_0, with the same exception for a shared buffer, and an empty text leaves the output alone |
| `AesGcm.AesGcmGhash` | trv32p3/applications/aes-256-gcm/aes-gcm.c:247-264 | S is GHASH of zero-padded A, zero-padded C and the one block whose bytes are the digits of the two bit lengths |
| `AesGcm.AuthHashInParts` | trv32p3/applications/aes-256-gcm/aes-gcm.c:258-263 | the three ghash calls are GHASH of the three parts put together |
| `AesGcm.PutU64` | trv32p3/applications/aes-256-gcm/aes.h:105-113 | the eight bytes written are the digits of the value to the base 256, most significant first, and nothing else is written |
| `AesGcm.LengthBlockBytes` | trv32p3/applications/aes-256-gcm/aes-gcm.c:261-262 | a block is the length block if and only if its bytes are the big-endian digits of the two numbers, byte by byte |
| `AesGcm.LengthBlockExact` | trv32p3/applications/aes-256-gcm/aes-gcm.c:261-262 | the hashed length block is the standard's if and only if neither bit count reaches the size of size_t |
| `AesGcm.AesGcmAe` | trv32p3/applications/aes-256-gcm/aes-gcm.c:270-321 | -1 and untouched buffers without a key schedule; otherwise, whichever buffers are shared, the ciphertext buffer and the tag over what the buffers hold by then; and with the text and the associated data kept out of the output the two are GCM-AE of section 7.1 of SP 800-38D |
| `AesGcm.AuthEncryptDecrypts` | trv32p3/applications/aes-256-gcm/aes-gcm.c:293-314 | what the receiver does gives the text back, and the tag opens to the hash of the ciphertext |
| `AesGcm.MessageCountersDistinct` | trv32p3/applications/aes-256-gcm/aes-gcm.c:240-243 | no counter block of a message repeats or equals J_0 up to 2^32 - 2 blocks |
| `Bytes.BytesOfSuccessor` | trv32p3/applications/aes-256-gcm/aes.h:97-103 | reading four bytes big-endian, adding one and writing them back ripples the carry through the bytes |
| `Primes.PrimeDivisor` | libs/libcxx-9.0.0/src/hash.cpp:140-156 | every number from 2 on has a prime divisor |
| `Primes.SquareRootBound` | libs/libcxx-9.0.0/src/hash.cpp:228-240 | a number without a prime divisor below a bound whose square exceeds it is prime: why the search may stop at q < i |
| `Primes.PrimeFrom` | libs/libcxx-9.0.0/src/hash.cpp:226-226 | there is a prime from every number on, on which the termination of the search rests |
| `NextPrime.TableExact` | libs/libcxx-9.0.0/src/hash.cpp:31-81 | small_primes lists 0 and then every prime up to 211, with none missing between its entries |
| `NextPrime.WheelComplete` | libs/libcxx-9.0.0/src/hash.cpp:83-136 | from each spoke of the wheel the next is reached by the listed increment, both are prime to 210, and everything between has a factor 2, 3, 5 or 7 |
| `NextPrime.SmallCase` | libs/libcxx-9.0.0/src/hash.cpp:213-214 | for 0 < n <= 211 lower_bound gives the least prime from n on |
| `NextPrime.FirstCandidate` | libs/libcxx-9.0.0/src/hash.cpp:222-225 | the first candidate is at least n and no prime from n on lies before it |
| `NextPrime.CandidateIsPrime` | libs/libcxx-9.0.0/src/hash.cpp:235-244 | one turn of the outer loop returns if and only if the candidate is prime, in size_t arithmetic |
| `NextPrime.NoPotentialDivisor` | libs/libcxx-9.0.0/src/hash.cpp:246-587 | dividing by the wheel from 211 on decides primality, and the loop ends |
| `NextPrime.SearchFrom` | libs/libcxx-9.0.0/src/hash.cpp:222-596 | the outer loop ends at the least prime from n on, and no candidate passes a given prime, so nothing wraps |
| `NextPrime.FindNextPrime` | libs/libcxx-9.0.0/src/hash.cpp:207-597 | 0 for 0, overflow exactly for n above both 211 and the limit, and otherwise the least prime from n on, for any limit with a prime above |
| `PrimeCertificates.Certified` | libs/libcxx-9.0.0/src/hash.cpp:163-205 | a number is prime if some base has, modulo each divisor of it, an order that is a product of known primes and reaches the square root |
| `NextPrimeLimits.LimitIsPrime` | libs/libcxx-9.0.0/src/hash.cpp:169-203 | each of the four limits of __check_for_overflow is a prime |
| `NextPrimeLimits.LimitIsLargest` | libs/libcxx-9.0.0/src/hash.cpp:169-203 | and no number between it and the end of size_t is one |
| `NextPrimeLimits.NextPrimeOf` | libs/libcxx-9.0.0/src/hash.cpp:207-597 | for 16, 24, 32 and 64 bits: the least prime from n on, and overflow_error if and only if size_t holds no prime from n on |
| `HeapModel.InitWellFormed` | libs/libcxxabi-9.0.0/src/fallback_malloc.cpp:96-101 | init_heap leaves one free chunk that is the whole heap |
| `HeapModel.TilesCover` | libs/libcxxabi-9.0.0/src/fallback_malloc.cpp:77-80 | in a well-formed heap every cell belongs to exactly one chunk |
| `HeapModel.TotalLength` | libs/libcxxabi-9.0.0/src/fallback_malloc.cpp:77-80 | the lengths of the chunks sum to the number of cells |
| `HeapModel.AllocateKeeps` | libs/libcxxabi-9.0.0/src/fallback_malloc.cpp:119-142 | both ways of allocating keep the heap well formed and hand out a chunk that was not in use |
| `HeapModel.ReleaseKeeps` | libs/libcxxabi-9.0.0/src/fallback_malloc.cpp:159-194 | the append, head-prepend and push paths keep the heap well formed, and the mid-list path does when the absorbed node's link was 0 |
| `HeapModel.ReleaseExact` | libs/libcxxabi-9.0.0/src/fallback_malloc.cpp:148-195 | fallback_free keeps the heap well formed if and only if it does not merge the chunk in front of a later list node whose link is not 0 |
| `HeapModel.ReleaseRepairedKeeps` | libs/libcxxabi-9.0.0/src/fallback_malloc.cpp:183-184 | with the link copied in that branch too (a labelled variant, not the code) every release keeps the heap well formed |
| `HeapModel.ChainUnique` | libs/libcxxabi-9.0.0/src/fallback_malloc.cpp:159-160 | the free list is determined by the cells, so the condition does not depend on how it is chosen |
| `FallbackHeap.AllocSizeExact` | libs/libcxxabi-9.0.0/src/fallback_malloc.cpp:103-105 | the computed chunk has room for the request and its header if and only if rounding up does not wrap in size_t, with less than a cell to spare, and is one cell if it wraps |
| `FallbackHeap.AllocSizeLeast` | libs/libcxxabi-9.0.0/src/fallback_malloc.cpp:103-105 | a number of cells is enough for the request if and only if it is at least the computed one |
| `FallbackHeap.AllocateServes` | libs/libcxxabi-9.0.0/src/fallback_malloc.cpp:119-142 | a request takes the end of the first chunk of the list that holds header and bytes, or the chunk itself, and finds nothing if and only if no chunk of the list holds them |
| `FallbackHeap.ReleaseFrees` | libs/libcxxabi-9.0.0/src/fallback_malloc.cpp:159-194 | a release makes one chunk with the first chunk of the list that touches it, under the lower address, or pushes the chunk in front; every other cell stays |
| `FallbackHeap.RecognisedExact` | libs/libcxxabi-9.0.0/src/fallback_malloc.cpp:107-131 | is_fallback_ptr recognises the pointer that an allocation returned if and only if the request got more than a header, which a request for nothing or one that wraps does not, or the chunk it came from does not reach the end of the heap |
| `FallbackHeap.NothingAtTheEnd` | libs/libcxxabi-9.0.0/src/fallback_malloc.cpp:107-131 | the first request for nothing gets a pointer that is not recognised |
| `FallbackHeap.StepExact` | libs/libcxxabi-9.0.0/src/fallback_malloc.cpp:111-195 | every allocation, write into an owned chunk and release keeps the heap well formed, except exactly the losing release |
| `FallbackHeap.RunExact` | libs/libcxxabi-9.0.0/src/fallback_malloc.cpp:96-195 | over any run the heap stays well formed up to the first losing release, which breaks it |
| `FallbackHeap.BrokenRun` | libs/libcxxabi-9.0.0/src/fallback_malloc.cpp:183-184 | a run of eleven calls on sixteen cells, requests for one to four bytes and releases of recognised pointers, that reaches the losing release and loses a free chunk |
| `FallbackHeap.EmergencyHeap.Malloc` | libs/libcxxabi-9.0.0/src/fallback_malloc.cpp:111-143 | NULL if and only if no chunk of the list holds the bytes and a header, changing nothing; otherwise a chunk not in use of as few cells as hold them, from the end of the first chunk that does, with list and cells updated accordingly |
| `FallbackHeap.EmergencyHeap.Free` | libs/libcxxabi-9.0.0/src/fallback_malloc.cpp:148-195 | the chunk is merged with the first of the list that touches it or becomes the first node, cell by cell, and the object stays valid if and only if the release is not the losing one |
| `FallbackHeap.EmergencyHeap.FreeWithFallback` | libs/libcxxabi-9.0.0/src/fallback_malloc.cpp:260-265 | a pointer that is not recognised leaves this heap alone, also one that the heap handed out, and a recognised one is released |
| `OnceSpec.CompletesOnce` | libs/libcxx-9.0.0/src/mutex.cpp:211-266 | in every run of the once-protocol the initializer completes exactly once if the protocol is done and never otherwise |
| `OnceSpec.DoneStays` | libs/libcxxabi-9.0.0/src/cxa_guard_impl.h:184-201 | done is never left |
| `OnceSpec.RunnersExclude` | libs/libcxxabi-9.0.0/src/cxa_guard_impl.h:184-201 | while an initializer runs only its own thread changes the protocol |
| `FutexGuard.StepRefines` | libs/libcxxabi-9.0.0/src/cxa_guard_impl.h:428-485 | each atomic step of the futex guard keeps the invariant and is a step of the once-protocol or none |
| `FutexGuard.RunRefines` | libs/libcxxabi-9.0.0/src/cxa_guard_impl.h:428-485 | every run of any number of threads is a run of the once-protocol |
| `FutexGuard.DoneIsDone` | libs/libcxxabi-9.0.0/src/cxa_guard_impl.h:439-440 | INIT_IS_DONE is answered only after an initializer completed |
| `FutexGuard.PendingIsRunning` | libs/libcxxabi-9.0.0/src/cxa_guard_impl.h:431-436 | INIT_IS_PENDING is answered to the one thread that runs the initializer from then on |
| `FutexGuard.RecursionExact` | libs/libcxxabi-9.0.0/src/cxa_guard_impl.h:442-447 | at the recursion check the abort fires if and only if the thread is the current initializer and thread ids are supported |
| `FutexGuard.SleeperWillWake` | libs/libcxxabi-9.0.0/src/cxa_guard_impl.h:472-485 | while a thread sleeps either the waiting bit is set for the owner to see, which then wakes, or a wake_all is owed; a wake_all moves every sleeper |
| `FutexGuard.SoloAcquire` | libs/libcxxabi-9.0.0/src/cxa_guard_impl.h:428-470 | a thread that calls acquire while no one owns the guard gets its answer by its own steps: done, or pending with the guard its own |
| `FutexGuard.SoloFinish` | libs/libcxxabi-9.0.0/src/cxa_guard_impl.h:472-485 | the owner finishes by its own steps: release leaves the guard done, abort leaves it free, and no sleeper stays asleep |
| `MutexGuard.StepRefines` | libs/libcxxabi-9.0.0/src/cxa_guard_impl.h:294-346 | each step of the global-mutex guard keeps the invariant and is a step of the same protocol or none |
| `MutexGuard.RunRefines` | libs/libcxxabi-9.0.0/src/cxa_guard_impl.h:294-346 | every run is a run of the once-protocol |
| `MutexGuard.AnswersTrue` | libs/libcxxabi-9.0.0/src/cxa_guard_impl.h:294-316 | done and pending are answered truthfully, and the recursion abort hits exactly the running initializer |
| `MutexGuard.WaiterWillWake` | libs/libcxxabi-9.0.0/src/cxa_guard_impl.h:303-346 | a waiter is owed a broadcast or the owner will see the waiting bit |
| `MutexGuard.SoloAcquire` | libs/libcxxabi-9.0.0/src/cxa_guard_impl.h:294-316 | a call of acquire that meets no owner is answered by its own steps |
| `MutexGuard.SoloFinish` | libs/libcxxabi-9.0.0/src/cxa_guard_impl.h:318-346 | release and abort come to their ends by the owner's own steps and leave no waiter asleep |
| `CallOnce.StepRefines` | libs/libcxx-9.0.0/src/mutex.cpp:234-264 | each step of __call_once keeps the invariant and is a step of the once-protocol or none |
| `CallOnce.RunRefines` | libs/libcxx-9.0.0/src/mutex.cpp:211-266 | every run with throwing callables is a run of the once-protocol |
| `CallOnce.CallsSafe` | libs/libcxx-9.0.0/src/mutex.cpp:234-264 | two threads are never inside func together, func begins only when it neither runs nor has completed, and a normal return comes after a completed run |
| `CallOnce.AtMostOneCompletes` | libs/libcxx-9.0.0/src/mutex.cpp:245-250 | in any run at most one call of func completes without throwing |
| `CallOnce.WaiterWillWake` | libs/libcxx-9.0.0/src/mutex.cpp:235-258 | a waiter is never left behind: func still runs or a broadcast is on its way |
| `CallOnce.SoloCall` | libs/libcxx-9.0.0/src/mutex.cpp:234-264 | a call that meets no other runs func if it has not completed, and ends with func's return or exception and no waiter left |
| `SharedMutex.WordFields` | libs/libcxx-9.0.0/src/shared_mutex.cpp:41-42 | the flag and the reader count can be read back from the one state word |
| `SharedMutex.StepInv` | libs/libcxx-9.0.0/src/shared_mutex.cpp:35-111 | every step of lock, try_lock, unlock, their shared forms and the timed ones keeps the invariant, with spurious wakeups |
| `SharedMutex.GiveUpKeeps` | libs/libcxx-9.0.0/include/shared_mutex:276-287 | a writer that times out at gate 2 gives write_entered back, keeps the readers and leaves no one asleep at gate 1 |
| `SharedMutex.RunInv` | libs/libcxx-9.0.0/src/shared_mutex.cpp:35-111 | the invariant holds in every state of every run |
| `SharedMutex.LockSafe` | libs/libcxx-9.0.0/src/shared_mutex.cpp:35-111 | in every reachable state the reader bits count the shared holders, write_entered is set if and only if some thread is past gate 1 and no two are, an exclusive holder excludes all others, and a writer asleep at gate 2 has readers before it |
| `SharedMutex.LastReaderWakes` | libs/libcxx-9.0.0/src/shared_mutex.cpp:101-105 | the last reader to leave wakes the writer asleep at gate 2 |
| `SharedMutex.FullReaderWakes` | libs/libcxx-9.0.0/src/shared_mutex.cpp:106-110 | a reader that leaves a full lock without a writer wakes exactly one sleeper of gate 1, if there is one |
| `SharedMutex.UnlockWakes` | libs/libcxx-9.0.0/src/shared_mutex.cpp:58-64 | a writer's unlock frees the word and wakes every sleeper of gate 1 and no one else |
| `SharedMutex.TryLockExact` | libs/libcxx-9.0.0/src/shared_mutex.cpp:46-56 | try_lock locks if and only if no thread holds the lock or is past gate 1, and otherwise changes nothing |
| `SharedMutex.TryLockSharedExact` | libs/libcxx-9.0.0/src/shared_mutex.cpp:79-92 | try_lock_shared takes a share if and only if no writer is past gate 1 and a share is left, and otherwise changes nothing |
| `SharedMutex.LockExact` | libs/libcxx-9.0.0/src/shared_mutex.cpp:35-44 | lock takes a free lock, waits at gate 2 for readers alone, and at gate 1 for another writer |
| `ExceptionRuntime.ThrowKeeps` | libs/libcxxabi-9.0.0/src/cxa_exception.cpp:266-293 | a throw keeps stack, flights and counts consistent |
| `ExceptionRuntime.BeginCatchKeeps` | libs/libcxxabi-9.0.0/src/cxa_exception.cpp:430-469 | so does the start of a handler, which pushes the exception only if it is not already on top |
| `ExceptionRuntime.RethrowKeeps` | libs/libcxxabi-9.0.0/src/cxa_exception.cpp:592-610 | so does every rethrow of the caught exception, also of one in flight already |
| `ExceptionRuntime.EndCatchKeeps` | libs/libcxxabi-9.0.0/src/cxa_exception.cpp:490-562 | so does the end of a handler, by falling off its end or by an exception leaving it, unless it is the doomed one: the last clause of an exception that leaves it with a positive count |
| `ExceptionRuntime.EndCatchDooms` | libs/libcxxabi-9.0.0/src/cxa_exception.cpp:525-548 | the doomed one releases an exception that is in flight, and the bookkeeping is wrong after it |
| `ExceptionRuntime.CaptureKeeps` | libs/libcxxabi-9.0.0/src/cxa_exception.cpp:678-696 | taking the current exception keeps the invariant |
| `ExceptionRuntime.CopyHandleKeeps` | libs/libcxxabi-9.0.0/src/cxa_exception.cpp:638-644 | so does copying an exception pointer |
| `ExceptionRuntime.DropHandleKeeps` | libs/libcxxabi-9.0.0/src/cxa_exception.cpp:655-666 | so does dropping one |
| `ExceptionRuntime.RethrowPrimaryKeeps` | libs/libcxxabi-9.0.0/src/cxa_exception.cpp:721-738 | so does rethrowing a pointer's exception through a new dependent header |
| `ExceptionOwners.DecrementSpare` | libs/libcxxabi-9.0.0/src/cxa_exception.cpp:655-666 | a decrement makes count and owners agree again, and the object is destroyed if and only if no owner is left |
| `ExceptionCounts.StackLeave` | libs/libcxxabi-9.0.0/src/cxa_exception.cpp:511-548 | leaving the innermost clause lowers the handler count and unlinks the header with the last clause |
| `ExceptionRuns.Accounts` | libs/libcxxabi-9.0.0/src/cxa_exception.cpp:266-747 | in every state of the invariant uncaughtExceptions counts the exceptions in flight, |handlerCount| the open clauses of each exception, referenceCount its live owners, and nothing in flight or caught is destroyed |
| `ExceptionRuns.StepExact` | libs/libcxxabi-9.0.0/src/cxa_exception.cpp:266-747 | every well-nested step keeps the invariant but the doomed one, after which the bookkeeping is wrong |
| `ExceptionRuns.RunExact` | libs/libcxxabi-9.0.0/src/cxa_exception.cpp:266-747 | over every run, with rethrows of any caught exception, the bookkeeping is right up to the first doomed step, and the next state is right if and only if the step is not doomed |
| `ExceptionRuns.StepKnown` | libs/libcxxabi-9.0.0/src/cxa_exception.cpp:655-666 | no thrown object is lost: after each step it still has a header or has been destroyed |
| `ExceptionRuns.HandleKeeps` | libs/libcxxabi-9.0.0/src/cxa_exception.cpp:678-696 | an object that an exception_ptr names after a step is a live primary with an owner and has not been destroyed, even after the doomed step |
| `ExceptionRuns.StepHandles` | libs/libcxxabi-9.0.0/src/cxa_exception.cpp:638-696 | taking the current exception and copying a pointer add one owner to what the pointers name, dropping one takes it away, and no other step touches them |
| `ExceptionRuns.NothingLeaks` | libs/libcxxabi-9.0.0/src/cxa_exception.cpp:266-747 | when nothing is in flight or caught and no pointer is left after a run without a doomed step, every header is gone and each thrown object was destroyed exactly once |
| `ExceptionRethrows.RethrowExact` | libs/libcxxabi-9.0.0/src/cxa_exception.cpp:601-604 | after throw; every continuation keeps the bookkeeping right if and only if the caught exception was not in flight with all its open clauses directly below that flight (continuations rethrow under the same condition) |
| `ExceptionRethrows.SafeExact` | libs/libcxxabi-9.0.0/src/cxa_exception.cpp:511-548 | a state has only good continuations if and only if each flight that can leave all its clauses is marked as a rethrow and is the only one of its exception |
| `ExceptionRethrows.CarefulKeeps` | libs/libcxxabi-9.0.0/src/cxa_exception.cpp:266-747 | every step under that condition keeps the state safe |
| `ExceptionRethrows.CarefulRun` | libs/libcxxabi-9.0.0/src/cxa_exception.cpp:266-747 | in every run under that condition the bookkeeping is right and no step is doomed, rethrows of exceptions in flight included |
| `ExceptionRethrows.ExposedOrNot` | libs/libcxxabi-9.0.0/src/cxa_exception.cpp:601-604 | a nesting where rethrowing an exception in flight is harmless, and one where it is not |
| `ExceptionRuns.RethrowInFlight` | libs/libcxxabi-9.0.0/src/cxa_exception.cpp:511-548 | a run in which a second throw; during the unwinding of the first makes the outer handler's end destroy the exception in flight |
| `ExceptionModel.GroupsCount` | libs/libcxxabi-9.0.0/src/cxa_exception.cpp:442-456 | as long as no exception is on the stack twice, its handler count is the number of its open clauses |
| `ExceptionGlobals.Globals.CxaThrow` | libs/libcxxabi-9.0.0/src/cxa_exception.cpp:266-293 | the new header has one owner and no clause, one exception more is in flight, and nothing else changes |
| `ExceptionGlobals.Globals.CxaBeginCatch` | libs/libcxxabi-9.0.0/src/cxa_exception.cpp:430-469 | the count becomes its absolute value plus one, the header comes to the top of the stack if it is not there, one exception less is in flight, and nothing else changes |
| `ExceptionGlobals.Globals.CxaEndCatch` | libs/libcxxabi-9.0.0/src/cxa_exception.cpp:490-562 | the count goes towards zero; with the last clause the header leaves the stack, and if the count was positive the object loses an owner, being destroyed with the last one; and the bookkeeping is right afterwards if and only if the step is not the doomed one |
| `ExceptionGlobals.Globals.CxaRethrow` | libs/libcxxabi-9.0.0/src/cxa_exception.cpp:592-610 | terminate exactly when nothing is caught, and otherwise the count of the caught exception changes its sign and one exception more is in flight; the invariant is kept |
| `ExceptionGlobals.Globals.CurrentPrimaryException` | libs/libcxxabi-9.0.0/src/cxa_exception.cpp:678-696 | null exactly when nothing is caught; otherwise the primary of the caught header, whose count goes up by one, with no other header or global changed |
| `ExceptionGlobals.Globals.IncrementRefcount` | libs/libcxxabi-9.0.0/src/cxa_exception.cpp:638-644 | null does nothing, and for another pointer its count goes up by one and nothing else changes |
| `ExceptionGlobals.Globals.DecrementRefcount` | libs/libcxxabi-9.0.0/src/cxa_exception.cpp:655-666 | null does nothing; for another pointer the count goes down by one, or the object is destroyed and its header freed with the last owner |
| `ExceptionGlobals.Globals.RethrowPrimaryException` | libs/libcxxabi-9.0.0/src/cxa_exception.cpp:721-747 | null does nothing; otherwise the primary's count goes up by one and a new dependent of it is in flight |
| `Personality.ScanRecord` | libs/libcxxabi-9.0.0/src/cxa_personality.cpp:719-876 | one turn of the action loop stops, terminates or goes on as the record's meaning for the exception and the flags demand |
| `Personality.ExceptionSpecCanCatch` | libs/libcxxabi-9.0.0/src/cxa_personality.cpp:472-502 | an exception specification catches if and only if none of its types does |
| `Personality.ScanActions` | libs/libcxxabi-9.0.0/src/cxa_personality.cpp:717-887 | the loop over an action chain is the scan of that chain |
| `Personality.ScanEhTab` | libs/libcxxabi-9.0.0/src/cxa_personality.cpp:571-903 | the walk over the call sites ends with the scan's outcome for every table and every set of flags |
| `TwoPhases.SearchFindsHandler` | libs/libcxxabi-9.0.0/src/cxa_personality.cpp:717-859 | phase 1 finds the first record that handles the exception, with its index, landing pad and adjusted pointer |
| `TwoPhases.ForcedFindsCleanup` | libs/libcxxabi-9.0.0/src/cxa_personality.cpp:860-875 | forced unwinding passes over handlers to the first cleanup |
| `TwoPhases.ForcedFindsNothing` | libs/libcxxabi-9.0.0/src/cxa_personality.cpp:866-884 | it finds nothing if and only if the chain has no cleanup |
| `TwoPhases.NoHandlerNoTermination` | libs/libcxxabi-9.0.0/src/cxa_personality.cpp:571-903 | if phase 1 finds nothing in a frame the cleanup scan of phase 2 never terminates: it installs a cleanup or goes on |
| `TwoPhases.ForeignRescan` | libs/libcxxabi-9.0.0/src/cxa_personality.cpp:1016-1022 | for a foreign exception the second scan gives the results of the first, field by field |
| `TwoPhases.CleanupTerminates` | libs/libcxxabi-9.0.0/src/cxa_personality.cpp:717-876 | the cleanup scan of a chain terminates if and only if the first record that is not passed over is a handler or corrupt |
| `ScanMeaning.JudgeMeans` | libs/libcxxabi-9.0.0/src/cxa_personality.cpp:719-876 | when a record catches and with which pointer, and when reading it terminates, from the type table and the exception alone |
| `ScanMeaning.RecordExact` | libs/libcxxabi-9.0.0/src/cxa_personality.cpp:719-876 | with which flags the scan stops at a record, terminates there or goes on |
| `ScanMeaning.ScanExact` | libs/libcxxabi-9.0.0/src/cxa_personality.cpp:571-903 | for every set of flags one answer, read off the fields: the first call site that covers ip with none before it that starts after ip, the landing pad lpStart plus the site's modulo the word size, and the first record at which the scan does not go on |
| `ScanMeaning.TypedCatch` | libs/libcxxabi-9.0.0/src/cxa_personality.cpp:755-792 | phase 1 finds a catch clause for a type if and only if can_catch answers for the native exception, with the pointer it adjusted, and otherwise goes on |
| `ScanMeaning.TypedCatchForeign` | libs/libcxxabi-9.0.0/src/cxa_personality.cpp:753-792 | a catch clause for a type lets a foreign exception pass |
| `ScanMeaning.CatchesAll` | libs/libcxxabi-9.0.0/src/cxa_personality.cpp:729-745 | catch (...) is found for every exception, with the thrown object |
| `ScanMeaning.Specification` | libs/libcxxabi-9.0.0/src/cxa_personality.cpp:794-826 | a specification is found for a native exception if and only if none of its types catches it |
| `ScanMeaning.SpecificationForeign` | libs/libcxxabi-9.0.0/src/cxa_personality.cpp:834-850 | a specification is found for every foreign exception |
| `ScanMeaning.CorruptCatch` | libs/libcxxabi-9.0.0/src/cxa_personality.cpp:723-765 | an index without an entry, or a native exception without object or type at a typed clause, terminates |
| `ScanMeaning.CorruptSpecification` | libs/libcxxabi-9.0.0/src/cxa_personality.cpp:799-807 | so does a specification for such an exception, without a type table, or with an entry read that is no type |
| `ScanMeaning.SearchSkipsCleanup` | libs/libcxxabi-9.0.0/src/cxa_personality.cpp:860-867 | phase 1 passes over a cleanup |
| `ScanMeaning.SearchEnds` | libs/libcxxabi-9.0.0/src/cxa_personality.cpp:879-884 | past the last record phase 1 continues unwinding |
| `ScanMeaning.SecondBase` | libs/libcxxabi-9.0.0/src/cxa_personality.cpp:766-782 | a handler for the second base class gets the address of that base |
| `Personality.Header.GxxPersonality` | libs/libcxxabi-9.0.0/src/cxa_personality.cpp:961-1045 | a search saves all five fields of what it found for a native exception and nothing else does; the handler's frame installs the saved landing pad, and the other calls what the scan found |
| `Personality.ToIntExact` | libs/libcxxabi-9.0.0/src/cxa_personality.cpp:984-984 | storing the index in an int keeps it if and only if it fits |
| `Personality.TwoPhaseUnwind` | libs/libcxxabi-9.0.0/src/cxa_personality.cpp:961-1045 | once phase 1 has found a handler in a stack of frames, phase 2 goes through to that landing pad without terminating, with the same index if and only if the exception is foreign or the index fits an int |
| `Leb128.ReadULEB128` | libs/libcxxabi-9.0.0/src/cxa_personality.cpp:206-220 | the loop reads the number of its bytes modulo the word size, as long as no shift reaches it |
| `Leb128.ReadSLEB128` | libs/libcxxabi-9.0.0/src/cxa_personality.cpp:229-246 | the sign is extended to the whole word, also when there are no bits left to fill |
| `Leb128.EncodeValue` | libs/libcxxabi-9.0.0/src/cxa_personality.cpp:206-220 | the encoding of a number reads back as the number |
| `Leb128.EncodeSignedValue` | libs/libcxxabi-9.0.0/src/cxa_personality.cpp:229-246 | the signed encoding of a number reads back as the number |
| `Gslice.Init` | libs/libcxx-9.0.0/src/valarray.cpp:30-63 | the table has as many entries as the wrapped product of the sizes, and each is start plus, over the dimensions, stride times its digit there, modulo the word size; the writes stay inside the table if and only if the product fits size_t or wraps to 0 |
| `Gslice.RowAndColumn` | libs/libcxx-9.0.0/src/valarray.cpp:43-57 | for two dimensions the entry of row i and column j is start plus i times the one stride plus j times the other |
| `Gslice.WrappedProducts` | libs/libcxx-9.0.0/src/valarray.cpp:33-41 | a product that wraps to 0 writes nothing, and one that wraps to 2 has rows past the table |
| `Gslice.Advance` | libs/libcxx-9.0.0/src/valarray.cpp:43-60 | the inner loop goes to the successor of the digits, or stops when they are the last |
| `Gslice.DigitsExact` | libs/libcxx-9.0.0/src/valarray.cpp:41-61 | the row-major digits of a number below the product exist and are unique |
| `Gslice.CarryValue` | libs/libcxx-9.0.0/src/valarray.cpp:46-58 | a carry adds one to the number |
| `Gslice.CarryDot` | libs/libcxx-9.0.0/src/valarray.cpp:49-51 | a carry changes the sum of strides by the difference the code adds and subtracts |
| `Gslice.Count` | libs/libcxx-9.0.0/src/valarray.cpp:33-35 | the number of entries is the product of the sizes modulo the word size, 0 without dimensions |
| `Utf.EncodeWellFormed` | libs/libcxx-9.0.0/src/locale.cpp:2231-2282 | the bytes written for a scalar value are a well-formed UTF8-char of RFC 3629 that stands for it |
| `Utf.DecodeWellFormed` | libs/libcxx-9.0.0/src/locale.cpp:2286-2395 | a well-formed UTF8-char is the encoding of a scalar value: shortest form, no surrogate |
| `Utf.EncodePair` | libs/libcxx-9.0.0/src/locale.cpp:1988-1996 | a supplementary code point becomes a surrogate pair that stands for it |
| `Utf.DecodePair` | libs/libcxx-9.0.0/src/locale.cpp:1778-1785 | a surrogate pair stands for a supplementary code point and is its encoding |
| `Utf8Input.SequenceFound` | libs/libcxx-9.0.0/src/locale.cpp:2300-2380 | the decoder takes a character only if the input begins with that well-formed character |
| `Utf8Input.SequenceTakes` | libs/libcxx-9.0.0/src/locale.cpp:2300-2380 | and takes every well-formed character, whatever follows |
| `Utf8Input.SequenceCut` | libs/libcxx-9.0.0/src/locale.cpp:2310-2380 | and asks for more if and only if the first byte is a lead byte with fewer bytes than it calls for |
| `Utf.CodeDigits` | libs/libcxx-9.0.0/src/locale.cpp:2286-2395 | the code point is the payload of the bytes as digits to the base 64 |
| `Utf.PairDigits` | libs/libcxx-9.0.0/src/locale.cpp:1778-1785 | the code point of a pair is its units as digits to the base 1024, plus 10000 |
| `Codecs.Stops` | libs/libcxx-9.0.0/src/locale.cpp:1900-2004 | the result of a conversion is decided by the unread rest and the room that is left |
| `Converters.Ucs4InStop` | libs/libcxx-9.0.0/src/locale.cpp:2298-2395 | in front of an unread rest utf8_to_ucs4 is partial if and only if there is no room or the rest ends inside a character, and in error otherwise |
| `Converters.Utf16InStop` | libs/libcxx-9.0.0/src/locale.cpp:1900-2004 | utf8_to_utf16 likewise, after the lead byte has passed Maxcode, and also partial before a pair with room for one unit |
| `Converters.Ucs4OutStop` | libs/libcxx-9.0.0/src/locale.cpp:2244-2282 | ucs4_to_utf8 is partial if and only if an accepted code point does not fit |
| `Converters.Utf16OutStop` | libs/libcxx-9.0.0/src/locale.cpp:1748-1806 | utf16_to_utf8 is partial if and only if an accepted character does not fit or a first surrogate ends the input |
| `Converters.Ucs4ToUtf8Faithful` | libs/libcxx-9.0.0/src/locale.cpp:2231-2282 | ucs4_to_utf8 takes exactly the code points that are no surrogates and at most Maxcode, and writes their bytes |
| `Converters.Utf8ToUcs4Faithful` | libs/libcxx-9.0.0/src/locale.cpp:2286-2395 | utf8_to_ucs4 takes exactly the encodings of scalar values up to Maxcode |
| `Converters.Utf8ToUtf16Faithful` | libs/libcxx-9.0.0/src/locale.cpp:1888-2005 | utf8_to_utf16 takes exactly the encodings of scalar values up to Maxcode whose lead byte is also at most Maxcode, and writes their UTF-16 form |
| `Converters.Utf16ToUtf8Faithful` | libs/libcxx-9.0.0/src/locale.cpp:1734-1807 | utf16_to_utf8 takes exactly the UTF-16 forms of scalar values up to Maxcode and writes their bytes |
| `Codecs.Consumed` | libs/libcxx-9.0.0/src/locale.cpp:1900-2004 | on every exit the output is the conversion of exactly the input consumed, and ok means all of it |
| `Codecs.Resume` | libs/libcxx-9.0.0/src/locale.cpp:1900-2004 | a call that stops, followed by a call with the rest of the input, more input and the rest of a larger buffer, gives what one call gives |
| `Codecs.Success` | libs/libcxx-9.0.0/src/locale.cpp:1900-2004 | a conversion succeeds if and only if the input is a sequence of valid characters whose other form fits |
| `Codecs.RoundTrip` | libs/libcxx-9.0.0/src/locale.cpp:1900-2004 | what a converter consumed comes back from its inverse |
| `ConverterLaws.AcceptsUtf8` | libs/libcxx-9.0.0/src/locale.cpp:2286-2395 | with the default Maxcode and room utf8_to_ucs4 succeeds on exactly the strings of section 4 of RFC 3629 |
| `ConverterLaws.DecodeThenEncode` | libs/libcxx-9.0.0/src/locale.cpp:2231-2395 | ucs4_to_utf8 undoes utf8_to_ucs4 on every exit, for every Maxcode |
| `ConverterLaws.EncodeThenDecode` | libs/libcxx-9.0.0/src/locale.cpp:2231-2395 | utf8_to_ucs4 undoes ucs4_to_utf8 for every Maxcode up to 10FFFF |
| `ConverterLaws.Utf16ThenUtf8` | libs/libcxx-9.0.0/src/locale.cpp:1734-2005 | utf16_to_utf8 undoes utf8_to_utf16 on every exit, for every Maxcode |
| `ConverterLaws.Utf8ThenUtf16` | libs/libcxx-9.0.0/src/locale.cpp:1734-2005 | utf8_to_utf16 undoes utf16_to_utf8 for every Maxcode below 80 or from C3 on (hexadecimal) |
| `ConverterLaws.LeadByteTest` | libs/libcxx-9.0.0/src/locale.cpp:1902-1904 | the test of the lead byte against Maxcode refuses no code point up to Maxcode if and only if Maxcode is below 80 or at least C3 |
| `ConverterLaws.EncodesScalars` | libs/libcxx-9.0.0/src/locale.cpp:2248-2279 | the bytes written for x are a well-formed character for x if and only if x is a scalar value |
| `ConverterLoops.Loop` | libs/libcxx-9.0.0/src/locale.cpp:2298-2395 | the buffer loop leaves pointers, output and result of the conversion, and the rest of the buffer as it was |
| `ConverterLoops.Utf8ToUcs4Into` | libs/libcxx-9.0.0/src/locale.cpp:2286-2395 | pointers and output are those of the conversion, the mark that begins the input being skipped if asked; partial and error are told apart by the unread bytes |
| `ConverterLoops.Utf8ToUtf16Into` | libs/libcxx-9.0.0/src/locale.cpp:1888-2005 | the same for UTF-16 |
| `ConverterLoops.Ucs4ToUtf8Into` | libs/libcxx-9.0.0/src/locale.cpp:2231-2282 | the same with an optional mark written first, partial if that does not fit |
| `ConverterLoops.Utf16ToUtf8Into` | libs/libcxx-9.0.0/src/locale.cpp:1734-1807 | the same for UTF-16 |
| `ConverterLoops.Utf8ToUcs4Length` | libs/libcxx-9.0.0/src/locale.cpp:2400-2494 | the length is what utf8_to_ucs4 consumes with a buffer of mx characters |
| `ConverterLoops.Utf8ToUtf16Length` | libs/libcxx-9.0.0/src/locale.cpp:2130-2227 | the length is what utf8_to_utf16 consumes with a buffer of mx units, although the room is tested earlier |
| `HashTable.Rehash` | libs/libcxx-9.0.0/src/debug.cpp:185-205 | moving every node to a larger table keeps all nodes and puts each in the bucket of its hash |
| `HashTable.Insert` | libs/libcxx-9.0.0/src/debug.cpp:519-554 | an insertion adds one node, a full table growing first to the prime from twice its size plus one on, so that there are never more nodes than buckets |
| `HashTable.Find` | libs/libcxx-9.0.0/src/debug.cpp:558-574 | the walk over one bucket finds a key if and only if it is in the table |
| `HashTable.Unlink` | libs/libcxx-9.0.0/src/debug.cpp:225-242 | unlinking removes that node and no other |
| `DebugDb.PointsExactly` | libs/libcxx-9.0.0/src/debug.cpp:578-584 | an iterator points at a container if and only if it occurs exactly once in the container's array |
| `DebugDb.Add` | libs/libcxx-9.0.0/src/debug.cpp:493-513 | the iterator is appended, a full array being doubled first, from nothing to one |
| `DebugDb.Remove` | libs/libcxx-9.0.0/src/debug.cpp:578-584 | one occurrence is taken out and the iterators after it move down |
| `DebugDb.Database.InsertI` | libs/libcxx-9.0.0/src/debug.cpp:484-490 | the owner map gains an iterator that points nowhere; the invariant is kept |
| `DebugDb.Database.InsertC` | libs/libcxx-9.0.0/src/debug.cpp:179-215 | the containers gain an empty one; the invariant is kept |
| `DebugDb.Database.InsertIc` | libs/libcxx-9.0.0/src/debug.cpp:156-176 | the owner map gains the iterator at its container, and nothing happens for an unknown container |
| `DebugDb.Database.EraseI` | libs/libcxx-9.0.0/src/debug.cpp:218-248 | the owner map loses the iterator, and nothing else changes in it |
| `DebugDb.Database.InvalidateAll` | libs/libcxx-9.0.0/src/debug.cpp:251-274 | exactly the iterators of the container become singular |
| `DebugDb.Database.EraseC` | libs/libcxx-9.0.0/src/debug.cpp:335-369 | they become singular and the container goes |
| `DebugDb.Database.IteratorCopy` | libs/libcxx-9.0.0/src/debug.cpp:372-397 | the copy points where the original does, is created if need be, and becomes singular for an unknown original |
| `DebugDb.Database.Swap` | libs/libcxx-9.0.0/src/debug.cpp:453-481 | the two containers exchange their iterators |
| `DebugDb.Database.FindCFromI` | libs/libcxx-9.0.0/src/debug.cpp:145-153 | the answer is the owner map's, and a container that it names exists |
| `WordDivide.DivPos` | trv32p3/lib/trv32p3_div.c:29-53 | for words of any width x = q d + r with r < d; division by zero gives all ones and the dividend as remainder |
| `WordDivide.DivStep` | trv32p3/lib/trv32p3_div.c:44-51 | with the top bit of d clear the shifted remainder loses no bit, and the step keeps quotient and remainder of the bits seen so far |
| `WordDivide.DivCalled` | trv32p3/lib/trv32p3_div.c:64-74 | the signed form truncates toward zero with the dividend's sign for the remainder, MIN / -1 wraps to MIN with remainder 0, and by zero the remainder is x and the quotient 1 or -1 |
| `WordDivide.MulCalled` | trv32p3/lib/trv32p3_mul.c:16-26 | the shift-and-add loop gives the product modulo the word size |
| `WordDivide.SignedProduct` | trv32p3/lib/trv32p3_mul.c:29-39 | on the words of signed numbers that is the word of their product |
| `WordPairs.LAdd` | trv32p3/lib/trv32p3_longlong.h:79-100 | the pair with the recovered carry is the sum modulo twice the width, on the shortcut branches too |
| `WordPairs.LSub` | trv32p3/lib/trv32p3_longlong.h:102-115 | the pair with the recovered borrow is the difference modulo twice the width, on the shortcut branch too |
| `WordPairs.Comparisons` | trv32p3/lib/trv32p3_longlong.h:171-217 | every comparison of pairs, equality and inequality included, is the comparison of the signed or unsigned numbers they stand for |
| `WordPairs.BitwisePairs` | trv32p3/lib/trv32p3_longlong.h:131-133 | and, or and xor on the words are those on the double word |
| `Words.BitwiseBits` | trv32p3/lib/trv32p3_longlong.h:131-134 | each bit of a result is the operation on the bits in its place |
| `WordPairs.ComplementPair` | trv32p3/lib/trv32p3_longlong.h:134-134 | the complement of the words is the complement of the double word, which is minus the number minus one, signed and unsigned |
| `WordPairs.SignExtends` | trv32p3/lib/trv32p3_longlong.h:33-33 | the conversion from int keeps the signed value |
| `WordPairs.LLsl` | trv32p3/lib/trv32p3_longlong.h:243-258 | the left shift multiplies by 2^f modulo twice the width, for every count below it |
| `WordPairs.LLsr` | trv32p3/lib/trv32p3_longlong.h:277-292 | the logical right shift divides by 2^f |
| `WordPairs.LAsr` | trv32p3/lib/trv32p3_longlong.h:260-275 | the arithmetic right shift divides the signed number by 2^f, rounding down |
| `CxaVector.MulOverflowExact` | libs/libcxxabi-9.0.0/src/cxa_vector.cpp:136-144 | the fallback test reports an overflow if and only if the product does not fit |
| `CxaVector.AddOverflowExact` | libs/libcxxabi-9.0.0/src/cxa_vector.cpp:146-154 | the fallback test reports an overflow if and only if the sum does not fit |
| `CxaVector.AllocationSizeExact` | libs/libcxxabi-9.0.0/src/cxa_vector.cpp:156-168 | the size is refused if and only if count * size + padding does not fit |
| `CxaVector.VecCleanup` | libs/libcxxabi-9.0.0/src/cxa_vector.cpp:341-357 | all elements are destroyed, last first, or the program terminates because a destructor throws |
| `CxaVector.VecCtor` | libs/libcxxabi-9.0.0/src/cxa_vector.cpp:294-307 | either all elements are built, or the first k, which are destroyed in reverse before the exception goes on |
| `CxaVector.VecDtor` | libs/libcxxabi-9.0.0/src/cxa_vector.cpp:315-335 | every element sees one destructor call in reverse order also when one destructor throws; a second throw, or one during another exception, terminates |
| `CxaVector.DownEach` | libs/libcxxabi-9.0.0/src/cxa_vector.cpp:341-357 | the reverse order names each element once, element i being at base + i * size |
| `CxaVector.VecNew3` | libs/libcxxabi-9.0.0/src/cxa_vector.cpp:231-255 | an overflow, a throwing or null allocation, a failed construction with the block freed once, or the address after the cookie |
| `CxaVector.VecDelete3` | libs/libcxxabi-9.0.0/src/cxa_vector.cpp:411-424 | null does nothing; otherwise the destructors run over as many elements as the cookie says, if there is one, and the block is freed also when one throws |
| `CxaVector.DeleteMatchesNew` | libs/libcxxabi-9.0.0/src/cxa_vector.cpp:414-420 | the size freed is the size allocated if and only if there is a cookie or the elements take no space |
| `CxaVector.NewFrees` | libs/libcxxabi-9.0.0/src/cxa_vector.cpp:231-255 | a new[] whose constructor throws has freed its block exactly once, with the size it asked for |
| `CxaVector.NewThenDelete` | libs/libcxxabi-9.0.0/src/cxa_vector.cpp:231-424 | after a new[] that returned, delete[] reads the count that new[] wrote, destroys the elements in the reverse of their construction and frees the block exactly once over both logs, with the size allocated if and only if there is a cookie or the elements take no space |
| `Charconv.NumeralUnique` | libs/libcxx-9.0.0/src/charconv.cpp:112-166 | a numeral without leading zeros is the only one of its value |
| `Charconv.DecimalIsNumeral` | libs/libcxx-9.0.0/src/charconv.cpp:112-166 | the decimal form has no leading zero and parses back to the value |
| `Charconv.LutExact` | libs/libcxx-9.0.0/src/charconv.cpp:27-41 | characters 2i and 2i + 1 of the table are the two digits of i |
| `Charconv.Append4` | libs/libcxx-9.0.0/src/charconv.cpp:68-71 | four digits with leading zeros are written at the position, and nothing else |
| `Charconv.Append4NoZeros` | libs/libcxx-9.0.0/src/charconv.cpp:85-93 | the numeral of a value below 10000 is written, and nothing else |
| `Charconv.Append8NoZeros` | libs/libcxx-9.0.0/src/charconv.cpp:97-109 | the numeral of a value below 10^8 is written, and nothing else |
| `Charconv.U32toa` | libs/libcxx-9.0.0/src/charconv.cpp:112-130 | the numeral of every 32-bit value is written, and nothing else |
| `Charconv.U64toa` | libs/libcxx-9.0.0/src/charconv.cpp:133-166 | the numeral of every 64-bit value is written, and nothing else |

## Left out

- The AES block cipher and its key schedule: a parameter of the model. Zeroising or freeing the schedule is not modelled.
- NextPrimeLimits.NextPrimeOf: a build without exceptions, where the 16- and 24-bit checks do nothing.
- NextPrime.NoPotentialDivisor: the 48 unrolled copies of the inner loop's body are turns of one loop with a table of the increments; `std::lower_bound` is a function with its contract.
- The calls into the system's malloc and free around the emergency heap; what the system does with a pointer of the emergency heap that `is_fallback_ptr` does not recognise.
- AesGcm.AesGcmAe: buffers that overlap only in part.
- Weak memory: atomic operations are interleaved one at a time. Failures of the platform's mutexes and condition variables, which abort the program, are left out.
- MutexGuard.StepRefines: what runs under the global mutex is one step up to its release or wait.
- SharedMutex.StepInv: what runs under `__mut_` is one step; no progress is claimed for readers that wait at gate 1 for the reader limit. Any wait may time out, so untimed calls have the timed ones' behaviours too.
- `recursive_timed_mutex` and the single-threaded guard.
- Foreign exceptions in `cxa_exception.cpp`, catching by another language's runtime (`exception_cleanup_func`), several threads sharing one exception, failed throws, and types and handlers stored in headers.
- ExceptionModel.New: an allocator that gives an address out again after its object was destroyed.
- ExceptionRethrows.RethrowExact: the states are those that careful steps reach, and a continuation may rethrow only what is not exposed, since an exposed rethrow can by itself be led to harm.
- ARM, SjLj and SEH variants of the personality routine; encoded pointers and the byte layout of tables, which are sequences here; `can_catch` is a function given with the exception.
- Personality.ExceptionSpecCanCatch: a null type inside a specification, through which the source calls can_catch, is answered as a corrupt table.
- Personality.TwoPhaseUnwind: frames are scanned in both phases at the same instruction; code run by a landing pad is not followed.
- Leb128.ReadULEB128: numbers so long that a shift reaches the word size are undefined in the source and excluded.
- Gslice.Init: what a write past the table does; the model stops there.
- The converters for 32-bit units of UTF-16, UCS-2 and the byte-order variants of UTF-16, which are the same loops with other units, and the casts of the length functions to int.
- ConverterLoops.Loop: the source repeats this loop in each converter; here the converter's step is a parameter.
- The debug database's allocation failures, destructor and virtual container checks; addresses of new iterators and containers are fresh, and each node stands for the address that is its key.
- `__cxa_vec_cctor`, `__cxa_vec_new2` and `__cxa_vec_delete2`, which differ from the modelled functions in what they call only.
- CxaVector.VecDelete3: memory is modelled as far as the cookie goes; a program that writes over a cookie is left out.
- Softfloat layers, locale facets, streams, demangling and the `jpeg` application.
