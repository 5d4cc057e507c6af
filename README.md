# mini-docker cgroup governor and stack owner, in Dafny

This project models the two self-contained pieces of logic in mini-docker, a
small container launcher for Linux:

* **The cgroup v2 resource governor** (`process_limitation_cleanup.h`).
  * `limitProcessCreation` creates the `container` group under
    `/sys/fs/cgroup/` and writes six files in a fixed order. It stops early
    only when `mkdir` fails with an errno other than `EEXIST`.
  * `is_cgroup_populated` re-reads the group's `cgroup.events` record and
    answers whether the group still has members. Every failure answers
    "populated".
  * `monitor_and_cleanup_cgroup` polls that record for `POLLPRI`. It stops when
    a re-read says the group is empty or when `poll` fails, then closes the
    file and removes the group directory.
* **`StackMemory`** (`stack_memory.h`), the move-only owner of the heap buffer
  used as a cloned process's stack.

The operating system's answers are inputs to the model and are never simulated:
* whether `lseek` and `read` succeed, and what bytes the file holds;
* each `poll` result and its `revents`;
* the `mkdir` result, and whether each `open` and `write` succeeds.

Files:

* `wrappers.dfy` — `Option`.
* `decimal.dfy` (module `Decimal`) — `std::to_string` on an integer, and a
  stream's `>> int` applied to one token. Includes their round trip.
* `cgroup_events.dfy` (module `CgroupEvents`) — `is_cgroup_populated`. It is
  modelled as a pure function:
  1. the 255-byte read;
  2. the cut at the first NUL, because the stream is built from a C string;
  3. splitting the text into whitespace-separated tokens;
  4. a recursive scan over the `key value` pairs.

  The lemmas say which pair decides the answer and when the safe default
  applies. One lemma shows that a record in the kernel's own
  `key value\n` format is read correctly.
* `cgroup_monitor.dfy` (module `CgroupMonitor`) — `monitor_and_cleanup_cgroup`.
  It is an imperative loop over a sequence of poll wakes and returns an outcome
  and the trace of actions it took. `AwaitWake` is one pass of the loop body,
  `WaitForExit` the loop, and `MonitorAndCleanup` the open, the loop, the close
  and the `rmdir`. A reference function `FirstExit` gives the index of the wake
  that must end the wait.
* `cgroup_limits.dfy` (module `CgroupLimits`) — `write_rule` and
  `limitProcessCreation`. `WriteRule` is a method that returns one attempted
  write and how it ended; `LimitProcessCreation` returns the list of those
  attempts, in order.
* `stack_memory.dfy` (module `StackAlloc`) — `StackMemory` as a class, and a
  `FreeStore` class standing in for `new[]`/`delete[]`. The free store has ghost
  bookkeeping: live blocks, freed blocks, and which object owns each block.
  Its invariant says:
  * live blocks do not overlap;
  * no address is freed twice;
  * every owned block's owner records it as its own buffer.

  Every constructor and method keeps this invariant, so no buffer ever has two
  owners and none is freed twice.

Facts about the code that shape the model:
* `new char[size]` leaves the stack buffer uninitialised. Buffer contents are
  not modelled.
* Write failures, including the failure to write `cgroup.procs`, are only
  logged. They are never fatal.
* The `while (true)` wait loop has no cancellation path. It ends only through
  `poll` failing or an empty report.

## Model

| member | source | states |
|---|---|---|
| Decimal.ShowNat | process_limitation_cleanup.h:62 | the decimal text of a natural number is non-empty, all digits, and has no leading zero |
| Decimal.Show | process_limitation_cleanup.h:62 | `std::to_string` of the pid: non-empty, made only of digits and a minus sign, and starting with `-` exactly for a negative value; `ParseShow` reads it back as the same integer |
| Decimal.Parse | process_limitation_cleanup.h:88-90 | a token read as a signed decimal: a successful read comes from a non-empty token, and the value's sign follows the token's sign |
| Decimal.ParseAcceptsIff | process_limitation_cleanup.h:88-90 | a token is accepted exactly when it is an optional `+` or `-` followed by one or more digits, or digits alone |
| Decimal.LeadingZeroValue | process_limitation_cleanup.h:88-90 | a leading zero leaves the value of a digit string unchanged |
| Decimal.ParseDigits | process_limitation_cleanup.h:88-90 | an unsigned digit string reads as its decimal value, and with a leading zero (`007`) as the same value |
| Decimal.ParseSigned | process_limitation_cleanup.h:88-90 | a digit string after `+` (`+5`) reads as its value, and after `-` as its negation |
| Decimal.ParseInt | process_limitation_cleanup.h:88-90 | `>> int` succeeds exactly when the token is a decimal whose value fits a 32-bit `int`; an out-of-range value fails the extraction |
| Decimal.DigitsValueOfShowNat | process_limitation_cleanup.h:62 | reading the digits of a natural number back gives the number |
| Decimal.ParseShow | process_limitation_cleanup.h:62-64 | parsing what `std::to_string` wrote gives back the integer, negative ones included |
| Decimal.ParseIntShow | process_limitation_cleanup.h:88-90 | every `int` value written in decimal is read back by `>> int` as itself |
| CgroupEvents.Word | process_limitation_cleanup.h:90 | a string extraction takes the longest whitespace-free prefix: it is a prefix, has no whitespace, and stops at whitespace or the end |
| CgroupEvents.Tokens | process_limitation_cleanup.h:86-90 | the successive string extractions from the record all yield non-empty tokens without whitespace |
| CgroupEvents.UpToNul | process_limitation_cleanup.h:84-86 | the stream sees the bytes read up to, not including, the first NUL |
| CgroupEvents.ScanPairs | process_limitation_cleanup.h:90-99 | the `while (iss >> key >> value)` loop over the tokens: a "not populated" answer needs at least one whole pair; `FirstPopulatedDecides`, `MalformedValueStops`, `NoPopulatedKeyDefault` and `NotPopulatedIff` give the full answer |
| CgroupEvents.ScanSkipsPrefix | process_limitation_cleanup.h:90-96 | pairs with another key and a valid value, read before any `populated` pair, do not change the answer |
| CgroupEvents.FirstPopulatedDecides | process_limitation_cleanup.h:90-95 | the answer is `value != 0` for the first pair whose key is exactly `populated` |
| CgroupEvents.LaterPairsIgnored | process_limitation_cleanup.h:90-95 | whatever follows the deciding `populated` pair, later `populated` pairs included, can be replaced without changing the answer |
| CgroupEvents.MalformedValueStops | process_limitation_cleanup.h:90-99 | a value that is not an `int`, met before any `populated` pair, ends the scan with "populated"; the pairs after it are never examined |
| CgroupEvents.DanglingKeyStops | process_limitation_cleanup.h:90-99 | a trailing key without a value, met before any `populated` pair, ends the scan with "populated" |
| CgroupEvents.NoPopulatedKeyDefault | process_limitation_cleanup.h:96-99 | when no key is `populated` the answer is the safe default "populated" |
| CgroupEvents.EmptyReportWitness | process_limitation_cleanup.h:90-99 | a "not populated" answer always comes from a first-reached `populated` pair holding zero |
| CgroupEvents.NotPopulatedIff | process_limitation_cleanup.h:90-99 | the scan answers "not populated" if and only if the first `populated` pair it reaches holds zero |
| CgroupEvents.BytesRead | process_limitation_cleanup.h:77-78 | `read` into the 256-byte buffer yields -1 exactly when the read fails; otherwise at most 255 bytes: the whole file when it is shorter, otherwise exactly 255 |
| CgroupEvents.IsCgroupPopulated | process_limitation_cleanup.h:68-100 | a failed `lseek`, a failed `read` and a read of zero bytes each answer "populated" |
| CgroupEvents.ReportsEmptyIff | process_limitation_cleanup.h:68-100 | the reader reports an empty group if and only if the seek succeeds, at least one byte is read, and the first `populated` pair reached holds zero |
| CgroupEvents.OnlyFirstBytesCount | process_limitation_cleanup.h:77-78 | content past the first 255 bytes never changes the answer |
| CgroupEvents.TextAfterNulIgnored | process_limitation_cleanup.h:84-86 | content after a NUL byte within the bytes read never changes the answer |
| CgroupEvents.TokensCons | process_limitation_cleanup.h:90 | a token followed by whitespace or by the end is extracted whole, and extraction continues after it |
| CgroupEvents.TokensSkipSpace | process_limitation_cleanup.h:90 | whitespace before a token is skipped |
| CgroupEvents.TokensOfLine | process_limitation_cleanup.h:86-90 | a kernel `key value\n` line yields exactly its key and its value as two tokens |
| CgroupEvents.TokensOfEventsText | process_limitation_cleanup.h:86-90 | a whole kernel-format record tokenizes to its keys and values in order |
| CgroupEvents.FirstValue | process_limitation_cleanup.h:90-95 | the value of the first pair with a given key: present exactly when some pair has the key, and every earlier pair has another key |
| CgroupEvents.ScanFlattenPairs | process_limitation_cleanup.h:90-99 | scanning a record's pairs yields `v != 0` for the first `populated` value `v`, and "populated" when that key is absent |
| CgroupEvents.ReadsKernelRecord | process_limitation_cleanup.h:68-100 | for a kernel-format record that fits the 255-byte buffer, `is_cgroup_populated` returns the truth of the first `populated` line (true when there is none) |
| CgroupMonitor.FirstExit | process_limitation_cleanup.h:120-137 | the index of the first wake that ends the wait: that wake ends it and no earlier wake does; if there is none, no wake ends it |
| CgroupMonitor.EndsWait | process_limitation_cleanup.h:123-135 | the two `break` conditions: a wake ends the wait only when `poll` failed or POLLPRI is set; `ExitMeansFailureOrEmpty` and `KeepsWaiting` give both directions |
| CgroupMonitor.MonitorAndCleanup | process_limitation_cleanup.h:102-151 | if the open fails, nothing but the open happens. Otherwise the loop polls once per wake and re-reads only when `poll` succeeded with POLLPRI. With no exiting wake it is still waiting and has not closed or removed anything. At the first exiting wake it reports a poll error or an empty group, then closes the file and removes the directory |
| CgroupMonitor.WaitForExit | process_limitation_cleanup.h:120-137 | the loop stops at exactly the first wake that ends the wait (None while still blocked), and its trace is one loop pass per wake up to and including that wake |
| CgroupMonitor.AwaitWake | process_limitation_cleanup.h:122-136 | one loop pass stops exactly on a poll failure or on a POLLPRI wake whose re-read says "not populated"; it polls once and re-reads only after a successful POLLPRI wake |
| CgroupMonitor.FirstExitAt | process_limitation_cleanup.h:120-137 | a wake that ends the wait, preceded only by wakes that do not, is the one the loop stops at |
| CgroupMonitor.WakeTraceCounts | process_limitation_cleanup.h:122-136 | one pass of the loop polls once and neither opens, closes nor removes anything |
| CgroupMonitor.LoopTraceCounts | process_limitation_cleanup.h:120-137 | the loop polls exactly once per wake and never opens, closes or removes anything |
| CgroupMonitor.RemovesDirOnce | process_limitation_cleanup.h:139-146 | once the loop has exited, `rmdir` is attempted exactly once, as the last step, right after `close`, whichever way the loop exited |
| CgroupMonitor.WaitingRemovesNothing | process_limitation_cleanup.h:120-137 | while the monitor is still waiting it has neither closed the file nor removed the directory |
| CgroupMonitor.ExitMeansFailureOrEmpty | process_limitation_cleanup.h:122-135 | the wait ends only on a poll failure, or on a POLLPRI wake whose re-read has its first `populated` pair at zero |
| CgroupMonitor.KeepsWaiting | process_limitation_cleanup.h:129-136 | a successful wake without POLLPRI, or one whose re-read says "populated", keeps the monitor waiting |
| CgroupLimits.WriteRule | process_limitation_cleanup.h:18-32 | the attempt records its path and value. A failed open skips the write; the write is reported written only when open and write both succeed |
| CgroupLimits.LimitRules | process_limitation_cleanup.h:48-64 | the write plan has exactly six (file, value) writes; `RulesTargets`, `AttachesLast` and `ProcsNotBeforeLast` say where each goes |
| CgroupLimits.LimitProcessCreation | process_limitation_cleanup.h:34-65 | a mkdir failure other than EEXIST writes nothing. Otherwise all six rules are attempted, in plan order, each whatever became of the earlier ones, with each status taken from that write's own outcome |
| CgroupLimits.RulesTargets | process_limitation_cleanup.h:46-64 | the plan has six writes: the controllers are enabled in the parent's `cgroup.subtree_control` first, and every later write goes to a file directly inside the container group |
| CgroupLimits.AttachesLast | process_limitation_cleanup.h:61-64 | the process is attached by the last write, to the container's `cgroup.procs`, and the text written reads back as the pid |
| CgroupLimits.ProcsNotBeforeLast | process_limitation_cleanup.h:48-59 | none of the five writes before the last one goes to the container's `cgroup.procs`, so every limit is written before the process is attached |
| StackAlloc.FreeStore.New | stack_memory.h:13 | `new char[size]` returns a non-null address that is neither live nor previously freed; it records a live block of that size |
| StackAlloc.FreeStore.Delete | stack_memory.h:15 | `delete[]` of null changes nothing; otherwise the block must be live, and it is freed, recorded once, and loses its owner |
| StackAlloc.StackMemory.constructor | stack_memory.h:12-13 | the new object owns a fresh buffer of the requested size, 65536 by default |
| StackAlloc.StackMemory.Moved | stack_memory.h:20-25 | the move constructor gives the new object the source's size and buffer, sets the source to null and 0, and frees nothing; the ownership invariant holds for both |
| StackAlloc.StackMemory.MoveAssign | stack_memory.h:27-38 | self-move changes nothing. Otherwise the target's old buffer is freed once, the target takes the source's size and buffer, and the source becomes null and 0. Both objects stay valid and nothing leaks |
| StackAlloc.StackMemory.Take | stack_memory.h:32-35 | after the old buffer is freed, the target takes the source's size and buffer and the source is emptied, keeping both objects valid |
| StackAlloc.StackMemory.Destroy | stack_memory.h:15 | the destructor frees the owned buffer exactly once; a moved-from object frees nothing |
| StackAlloc.StackMemory.Top | stack_memory.h:40 | `top()` is one past the end of the owned live block, and null for a moved-from object |
| StackAlloc.UniqueOwnership | stack_memory.h:17-18 | two distinct valid objects never hold the same live buffer |
| StackAlloc.BuffersDisjoint | stack_memory.h:12-13 | the buffers of two distinct valid objects do not overlap |
| StackAlloc.CloneProcessStack | container.cpp:61-79 | the stack of `clone_process` is a fresh block of the default size, and `top()` lies 65536 bytes past its base. When `clone` and `waitpid` both succeed, the block is freed exactly once at scope exit. When either fails, `exit` runs no destructor: nothing is freed and the block stays live and owned |

## Left out

- All of `container.cpp` except the stack's life in `clone_process`. `clone`, `waitpid`, `execvp`, `sethostname`, the environment reset, `chroot`/`chdir`, `mount`/`umount` and the argument check are system effects with no logic of their own.
- The real system calls (`open`, `lseek`, `read`, `poll`, `close`, `mkdir`, `rmdir`, `write`, `getpid`). Their results are parameters. The results of `close` and `rmdir` decide nothing in the source, so they are not parameters.
- Logging through `fprintf`, `perror`, `std::cout` and `std::cerr`.
- Kernel enforcement of the memory, CPU and pids limits, and concurrency between the parent, the jail and the shell.
- Short reads. `BytesRead` delivers the whole file, or the first 255 bytes of it. A `read` returning fewer bytes than are available is not modelled.
- Decimal.ParseInt: a value is read as a whole whitespace-delimited token, not by `>> int`'s longest numeric prefix. For a token like `1abc`, C++ reads `1` and then starts the next key at `abc`. The model instead treats the token as a failed extraction. Such tokens never occur in the kernel's format.
- CgroupMonitor.MonitorAndCleanup: the source's `while (true)` has no bound on the number of wakes. The model takes a finite sequence of poll answers. When no answer in it ends the wait, the model reports that the call is still blocked.
- StackAlloc.FreeStore.New: addresses are never reused, and allocation failure (`std::bad_alloc`) is not modelled. `size_t` is a mathematical natural number.
- The buffer's contents are not modelled, and neither is the kernel's use of the stack.
- The deleted copy constructor and copy assignment have no counterpart: there is no copy operation. Their effect appears as `UniqueOwnership`.
- The model does not say whether `poll` ever signals an empty group: the kernel's poll answers are inputs, and a sequence of answers with no exiting wake ends in `StillWaiting`.
