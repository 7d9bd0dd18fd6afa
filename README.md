# Sieve of Eratosthenes and menu selection, verified in Dafny

This project models the computational core of a small interactive console
program (`src/main.rs`). The program shows a three-option menu in a loop:
option 1 runs a Sieve of Eratosthenes up to a limit the user types, option 2
approximates π with a parallel Leibniz sum, option 3 leaves the loop.

What is modelled:

- **Text handling** (`text.dfy`, module `Text`): Rust's `str::trim`, with the
  exact Unicode `White_Space` set that `char::is_whitespace` uses, and
  `str::parse` into an unsigned integer type: an optional `+`, at least one
  ASCII digit, nothing else, and a value no larger than the type's maximum
  (`u32` for the menu, a 64-bit `usize` for the limit).
- **Menu selection** (`menu.dfy`, module `Menu`): the `match` in `main` as the
  total function `Classify` from the line read to one of `RunSieve`, `RunPi`,
  `Exit` and `InvalidOption`; `Continues` says the loop goes round again for
  everything but `Exit`.
- **Primality** (`primality.dfy`, module `Primality`): the mathematical
  definition the sieve is proved against (`IsPrime`, with divisibility
  `Divides` defined by repeated subtraction) and the divisibility facts the
  sieve relies on.
- **The sieve** (`sieve.dfy`, module `Sieve`): `SieveOfEratosthenes` takes the
  limit text and returns `InvalidLimit` or `Listed(limit, primes)` in place of
  the console output. It allocates an `array<bool>` of `limit + 1` flags
  and clears entries 0 and 1 (`NewTable`), runs the outer `for p` loop up to `ISqrt(limit)`
  (the integer square root standing for `(limit as f64).sqrt() as usize`),
  calls `ClearMultiples` (the inner `step_by(p)` loop, in place) for every
  candidate still marked, and lists the flags still set with `ListPrimes`.
  The method is proved against the specification function `PrimesUpTo`, whose
  own properties (strictly ascending, exactly the primes up to the limit) are
  lemmas.

## Model

| member | source | states |
|---|---|---|
| `Text.WhitespaceIsNotNumeric` | src/main.rs:13 | no character `trim` removes (the Unicode `White_Space` set of `IsWhitespace`) is a digit or a sign, so trimming never eats into a number |
| `Text.Trim` | src/main.rs:13 | the trimmed line is no longer than the line, starts and ends with a non-whitespace character, and is empty exactly when the line is all whitespace |
| `Text.TrimStart` | src/main.rs:13 | the result is the suffix of the line left after removing every leading whitespace character; it does not start with whitespace |
| `Text.TrimEnd` | src/main.rs:13 | the result is the prefix left after removing every trailing whitespace character; it does not end with whitespace |
| `Text.TrimIsInnerSlice` | src/main.rs:48 | `trim` returns the slice between whitespace-only ends, and that slice starts and ends with a non-whitespace character (or is empty) |
| `Text.TrimIdempotent` | src/main.rs:48 | trimming an already trimmed text changes nothing |
| `Text.TrimPadded` | src/main.rs:13 | whitespace on either side of a text, including the line break `read_line` keeps, is removed by `trim` and nothing else is |
| `Text.ParseUnsigned` | src/main.rs:48-54 | an accepted value never exceeds the type's maximum and is the number the text spells (optional `+`, leading zeros, decimal digits); empty text, a lone `+`, and any character other than a digit or a leading `+` are rejected |
| `Text.ParseUnsignedMeans` | src/main.rs:13 | a parse gives `n` exactly when the text spells `n` and `n` fits the type |
| `Text.ParseWithLeadingZeros` | src/main.rs:48 | leading zeros, with or without a `+` before them, are accepted and change nothing: the parse gives the value when it fits and fails otherwise |
| `Text.TrimNumeral` | src/main.rs:13 | a number typed with a sign, leading zeros and whitespace around it trims to exactly its own text, which spells the number |
| `Text.DecimalText` | src/main.rs:80 | the decimal text of a number is a non-empty digit string without leading zeros |
| `Text.DecimalTextValue` | src/main.rs:80 | the digits of a number's decimal text denote that number |
| `Text.ParseDecimalText` | src/main.rs:13 | parsing the decimal text of a number, with or without a leading `+`, gives the number back when it fits the type and fails otherwise |
| `Menu.Classify` | src/main.rs:13-21 | the line chooses the sieve, pi or exit exactly when, trimmed, it spells 1, 2 or 3; everything else is an invalid option |
| `Menu.Continues` | src/main.rs:9-23 | the menu loop goes round again exactly when the trimmed line does not spell 3 |
| `Menu.ClassifyNumeral` | src/main.rs:13-21 | a selector typed with an optional `+`, leading zeros and surrounding whitespace: 1 runs the sieve, 2 runs pi, 3 exits, every other number is an invalid option |
| `Menu.NonNumericIsInvalid` | src/main.rs:20 | a line that is empty or not numeric once trimmed is an invalid option and the loop continues |
| `Menu.BlankLineIsInvalid` | src/main.rs:20 | a line of whitespace only is an invalid option |
| `Sieve.ParseLimit` | src/main.rs:48-54 | an accepted limit is greater than 1, fits a `usize` and is the number the trimmed text spells |
| `Sieve.ParseLimitMeans` | src/main.rs:48-54 | the limit is accepted as `n` exactly when the trimmed text spells `n`, `n > 1` and `n` fits a `usize` |
| `Sieve.ParseLimitOfNumeral` | src/main.rs:48-54 | a limit typed with an optional `+`, leading zeros and surrounding whitespace is accepted, as that number, exactly when it is greater than 1 and fits a `usize` |
| `Sieve.NonNumericLimitIsRejected` | src/main.rs:48-54 | limit text that is empty or not numeric once trimmed is rejected |
| `Sieve.ISqrt` | src/main.rs:62 | the loop bound `r` satisfies `r * r <= limit < (r + 1) * (r + 1)` |
| `Sieve.ISqrtIsLargest` | src/main.rs:62 | every candidate whose square is at most the limit is at most the loop bound |
| `Primality.CompositeHasSmallDivisor` | src/main.rs:62-74 | a composite number has a divisor at least 2 whose square does not exceed it, which is why candidates stop at the square root |
| `Primality.PrimeHasNoProperDivisor` | src/main.rs:69-71 | a prime is not a multiple of any smaller number above 1, so the marking never clears a prime |
| `Primality.DividesTransitive` | src/main.rs:69 | divisibility is transitive, so the multiples of an unmarked candidate are multiples of one of its factors |
| `Primality.NoMultipleBetween` | src/main.rs:70 | stepping by `p` from a multiple of `p` skips no multiple of `p` |
| `Primality.ProductIsComposite` | src/main.rs:70-71 | a product of two factors of at least 2 is not prime |
| `Sieve.TrialDivision` | src/main.rs:62 | a number is prime exactly when no number from 2 up to its integer square root divides it |
| `Sieve.NewTable` | src/main.rs:56-58 | the fresh table has exactly `limit + 1` entries; entries 0 and 1 are false and every other entry is true |
| `Sieve.ClearMultiples` | src/main.rs:70-72 | the inner loop writes only in bounds and clears exactly the entries `p*p, p*p+p, ...` not above the limit; every other entry, `p` among them, is unchanged and no entry goes from false to true |
| `Sieve.CrossOffStep` | src/main.rs:69-73 | processing a marked candidate `p` keeps every prime set and clears every `n <= limit` with a divisor `d <= p` and `d*d <= n` |
| `Sieve.SkipComposite` | src/main.rs:69 | skipping an unmarked candidate loses nothing: its multiples from `p*p` on were already cleared |
| `Sieve.CrossedOffClearsMultiples` | src/main.rs:62-74 | after the candidates below `p` are processed, every `n <= limit` with a proper divisor below `p` is false |
| `Sieve.CrossedOffIsPrimality` | src/main.rs:62-74 | once every candidate up to the integer square root is processed, entry `n` is set exactly when `n` is prime |
| `Sieve.TrueIndicesSpec` | src/main.rs:81-85 | the listed indices are strictly ascending and are exactly the indices whose flag is set |
| `Sieve.ListPrimes` | src/main.rs:81-85 | the listing loop returns the indices whose flag is set, in ascending order |
| `Sieve.PrimesUpToSpec` | src/main.rs:80-85 | the primes listed for a limit are strictly ascending and are exactly the primes not above the limit |
| `Sieve.SieveOfEratosthenes` | src/main.rs:44-89 | an invalid limit is reported before any table exists; a valid one lists exactly the primes up to the limit, strictly ascending |
| `Sieve.AscendingByElements` | src/main.rs:81-85 | an ascending listing is determined by the set of indices it holds |
| `Sieve.SieveExampleTwo` | src/main.rs:44-89 | limit 2 lists only 2 |
| `Sieve.SieveExampleThirty` | src/main.rs:44-89 | limit 30 lists 2, 3, 5, 7, 11, 13, 17, 19, 23, 29 |

## Left out

- `calculate_pi` (src/main.rs:91-145): a floating-point Leibniz sum reduced in parallel; Dafny has no IEEE floating point to model it with, and the reduction is a concurrency pattern.
- The progress thread and its shared `AtomicU64` counter (src/main.rs:107-120, 125, 135): concurrent telemetry whose output is a floating-point percentage.
- Wall-clock timing and the progress line of the sieve (src/main.rs:45, 60, 63-67, 76-77, 87-88): they read the clock and have no effect on the primes listed.
- Console I/O (`print_menu`, `get_user_input`, every `print!`): the model takes the line already read and returns the outcome instead of printing it; a failed `read_line` (which panics) is not modelled.
- The repetition of the menu loop itself (src/main.rs:9-23): the model classifies one line; `Continues` says whether the loop goes round again. The lines read by the operations in between are not threaded through a session.
- `Sieve.ISqrt`: the source computes the bound as `(limit as f64).sqrt() as usize`; the model uses the exact integer square root. The two agree for every limit whose `limit + 1` flags can be allocated, but floating-point rounding is not modelled.
- Memory exhaustion: `vec![true; limit + 1]` for a huge limit aborts the process, and `limit + 1` overflows for `usize::MAX`; the model's array length is unbounded.
- The `usize` width is taken to be 64 bits.
