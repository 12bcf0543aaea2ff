# Exchange sort with an exclusive-or swap, in Dafny

This project models the sorting demonstration `riscv-example.c` from a
teaching guide on RISC-V and its system-call ABI. The program reads a count
`n`, then `n` integers, into the global buffer `int buf[MAX_N]` (with
`MAX_N` = 100). The input loop counts `t` down from `n`, so the values land
back to front. `do_sort(buf, n)` then sorts `buf[0..n)` in place: for every
pair `i < j` it swaps `a[i]` and `a[j]` when `a[i]` is the larger, and the
swap is the three-step exclusive-or idiom: three compound `^=` assignments
that alternate between the two cells.
Finally `main` prints `buf[0..n)`.

Modules, one per concept:

- `Int32` (`int32.dfy`): the C `int`. A cell holds a signed value in
  [-2^31, 2^31). `^` is exclusive-or of the 32-bit two's-complement
  patterns. `XorBits` defines it bit by bit on non-negative numbers, and
  `XorBitsBit` proves that it matches the per-bit definition.
- `SwapIdiom` (`xor_swap.dfy`): the three `^=` statements on two distinct
  cells, on one aliased cell, and on a whole array.
- `SortSpec` (`sort_spec.dfy`): sortedness, lower bounds, and an
  independent reference sort (insertion sort). It also proves that a sorted
  arrangement of a multiset is unique.
- `SeqFacts` (`seq_facts.dfy`): generic sequence and multiset facts, plus
  sequence reversal.
- `RiscvExample` (`riscv_example.dfy`): `do_sort` (the compare-exchange,
  the inner pass, the outer loop), the input loop of `main`, and the whole
  program.

The array is a `seq<Int>`. Each method takes the array's contents and
returns the contents after the call. Console input is a parameter: the
sequence of values `scanf` manages to parse. Console output is the sequence
of values printed.

## Model

| member | source | states |
|---|---|---|
| Int32.Xor | latex/codes/riscv-example.c:14-16 | `x ^ y` on two `int`s: the result's 32-bit pattern is the bitwise exclusive-or of the operands' patterns |
| Int32.XorBitsBit | latex/codes/riscv-example.c:14-16 | bit `k` of the arithmetic exclusive-or is 1 exactly when `k` is below the width and the operands' bits `k` differ; all higher bits are 0 |
| Int32.XorCancels | latex/codes/riscv-example.c:14-16 | `(x ^ y) ^ y == x`, `y ^ (x ^ y) == x`, `^` commutes, and `x ^ x == 0` for every pair of `int`s |
| Int32.ToBits | latex/codes/riscv-example.c:14-16 | the two's-complement pattern of an `int` is the one number in [0, 2^32) congruent to it modulo 2^32 |
| SwapIdiom.XorSwapPair | latex/codes/riscv-example.c:14-16 | on two distinct cells, the three `^=` statements leave `a[i]` holding the old `a[j]` and `a[j]` holding the old `a[i]` |
| SwapIdiom.XorSwapAliased | latex/codes/riscv-example.c:14-16 | if both indices named the same cell, the statements would zero it instead of swapping |
| SwapIdiom.XorSwap | latex/codes/riscv-example.c:14-16 | on an array, the statements exchange cells `i` and `j` when `i != j`, zero the cell when `i == j`, and leave every other cell alone |
| SwapIdiom.XorSwapExchanges | latex/codes/riscv-example.c:11-16 | for `i != j` the idiom equals a plain exchange of the two cells, so the array's multiset of values is unchanged |
| SwapIdiom.XorSwapPreservesIff | latex/codes/riscv-example.c:11-16 | the idiom keeps the array's values exactly when `i != j` or the aliased cell already holds 0; `j` starts at `i + 1`, so `do_sort` is always in the first case |
| SortSpec.SortedPermutationUnique | latex/codes/riscv-example.c:8-20 | two sorted sequences with the same multiset are equal, so "sorted permutation of the input" determines the result of `do_sort` |
| SortSpec.InsertionSort | latex/codes/riscv-example.c:8-20 | the reference sort: its result is sorted and has the same multiset as its input |
| RiscvExample.CompareExchange | latex/codes/riscv-example.c:12-17 | after the loop body, `a[i] <= a[j]`, the pair holds the same two values (kept or exchanged), no other cell changes, and the multiset is kept; a pair already in order, equal values included, is left untouched |
| RiscvExample.InnerPass | latex/codes/riscv-example.c:11-18 | one inner loop for a fixed `i` puts at `a[i]` a minimum of the original `a[i..n)`, rearranges only `a[i..n)`, and keeps the multiset of that range |
| RiscvExample.OuterStepSettles | latex/codes/riscv-example.c:10-19 | the outer-loop invariant (each of `a[0..i)` is at most every later cell of `a[0..n)`) holds again after one more outer iteration |
| RiscvExample.DoSortFinishes | latex/codes/riscv-example.c:10-19 | when the outer loop ends, the prefix is sorted, holds its original values, equals the reference sort of the original prefix, and cells from `n` on are unchanged; for `n <= 1` nothing changed |
| RiscvExample.DoSort | latex/codes/riscv-example.c:8-20 | `do_sort(a, n)` leaves `a[0..n)` non-decreasing and a permutation of the original prefix, equal to the reference sort of it; cells at index `n` or above are unchanged, and for `n <= 1` (negative `n` included) the whole array is unchanged |
| RiscvExample.ReadSlotsInBounds | latex/codes/riscv-example.c:27-30 | the slots `n - 1 - k` that the input loop writes, over every round it runs (all rounds for negative `n`), lie inside `buf[MAX_N]` exactly when `0 <= n <= MAX_N`; a negative `n` writes below `buf` and an `n` above `MAX_N` writes past it in the first round; `main` checks neither bound |
| RiscvExample.ReadValues | latex/codes/riscv-example.c:27-30 | the `k`-th value read lands in `buf[n-1-k]`; a read after the input runs out leaves its cell unchanged; cells from `n` on are untouched |
| RiscvExample.Delivered | latex/codes/riscv-example.c:28-29 | the `n` values the reads deliver: the parsed input in order, then zeros once the input is exhausted |
| RiscvExample.ReadReverses | latex/codes/riscv-example.c:27-30 | starting from zeroed static storage, the input loop leaves `buf[0..n)` equal to the delivered values in reverse order |
| RiscvExample.SortProgram | latex/codes/riscv-example.c:22-39 | the printed values are exactly the `n` delivered values (the first `n` inputs when enough were given), in non-decreasing order; with `SortedPermutationUnique` this fixes the output, so reading back to front does not change it |

## Left out

- `latex/codes/invoke_syscall.c` and `latex/codes/correct_invoke_syscall.c`: RISC-V inline assembly that loads argument registers and executes `ecall`. This is a register convention and a kernel trap with no pure behaviour to state. The second file is also elided (`...`) and incomplete.
- Console I/O: `scanf("%d", &n)`, the text format of the numbers, and the `printf` layout (a space after each value, then a newline) are not modelled. The parsed values are a parameter and the output is the sequence of printed values. The case where reading `n` itself fails (which leaves `n` uninitialised) is not modelled.
- RiscvExample.ReadValues: requires `0 <= n <= MAX_N`. For `n > MAX_N` the first read writes `buf[n-1]`, past the end of `buf`; for negative `n` the loop test passes and the first read writes `buf[n-1]`, before its start. Both are undefined behaviour from the first iteration on and are not modelled; `ReadSlotsInBounds` states both halves of the bound.
- RiscvExample.DoSort: requires `n` to be at most the array's length. A larger `n` reads and writes past the array, which is undefined behaviour in C.
- RiscvExample.ReadValues: after the last iteration, C leaves `t` at -1 because of the post-decrement in the loop test, while the model stops at 0. `t` is not used after the loop.
- Int32.Xor: exclusive-or is defined on the 32-bit pattern by arithmetic (halving, least significant bit first) rather than with Dafny's `bv32` type. `XorBitsBit` ties this definition to the per-bit one.
