# AxiomeOS libc, verified

A Dafny model of the freestanding C library in `sdk/src`: the heap allocator, the two printf
engines with the output buffer they share, the calendar conversion, and the stateful and overlapping
string operations. Code that changes state is modelled by classes and methods over arrays, with the
same branches and constants as the C source; each method is proved against a specification, and the
specifications are proved to mean what the library promises.

- **Heap** (`Memory`, `Blocks`, `HeapImage`, `HeapRuns`, `Heap`, `HeapClient`). The heap is one byte
  array that holds its own 24-byte headers: size, free flag and successor pointer are little-endian
  cells in those bytes, so a header write that strayed would be a write to some client's bytes. A
  ghost list of blocks is tied to the bytes by `Rep`, and clients see a map from live pointers to
  byte strings. `HeapRuns` proves what holds in every heap a run of calls can reach, and the
  allocator's invariant says that its heap is one of them. `HeapClient` lets any client run against
  it and proves that the client sees a map, whatever it asks for.
- **Formatted output** (`CTypes`, `Numerals`, `Format`, `Grammar`, `Parsing`, `Progress`, `Varargs`,
  `Snprintf`, `Console`, `Meaning`, `Agreement`, `RoundTrip`). `Format` gives the directive grammar
  and what each engine makes of a directive; the engines themselves are loops over the format,
  drawing their arguments from a `va_list` object, proved to compute that. `Meaning` says, character
  by character, what every conversion shows of its argument, `Grammar` how every spelling of a
  directive is read, `Agreement` exactly when the two engines write the same bytes, `RoundTrip`
  exactly when a printed number is read back by `atoi` and `atol`.
- **Calendar** (`Calendar`). The subtracting loops, the closed-form seconds, the order of
  broken-down times, and the 26-byte text with a decoder for it.
- **Strings and lines** (`Tokens`, `Strings`, `Lines`). `strtok` over a whole run, `memmove`,
  `strstr`, the comparison functions, and `fgets` over a whole stream.

Layout assumptions: x86-64, 64-bit `size_t` and `long`, 32-bit `int`. The heap's address is a
parameter. `write` on descriptor 1 appends all its bytes to a log; `read` takes bytes from a finite
input. Variable arguments are a list of typed values; a `va_list` is a cursor into it that records
the type of every `va_arg`.

Where the code departs from what its names or the C standard suggest, the model follows the code:

- `ALIGN16` wraps for the 15 largest sizes; `malloc` is modelled there too, and `GrantCovers` says
  that the grant covers the request exactly below them.
- Pointers are multiples of 8, and often not of 16, because headers take 24 bytes: the first `malloc`
  of a run returns one that is not (`FirstPointerMisaligned`), and `PointerAlignment` says which are.
- `vprintf` pads after the sign, ignores `-` for numbers and ignores the width for `%c`, `%p` and
  unknown conversions; `vsnprintf_internal` pads everything alike, strings with zeros too under `0`.
  `vprintf` returns 0.
- `h` and `z` select a `long` argument as `l` does; precision is skipped.
- `snprintf` with a buffer and size 0 has no bound, since `size - 1` wraps (`StaysInside`).
- `fgets` with size 1 always returns an empty string, even at the end of the input.

## Model

| member | source | states |
|---|---|---|
| Memory.DecodeEncode | sdk/src/stdlib.c:22-26 | a field stored in the heap's bytes is read back unchanged |
| Blocks.AlignCovers | sdk/src/stdlib.c:29 | rounding to 16 gives at least the request if and only if the addition does not wrap, and at most 15 more |
| Blocks.GrantCovers | sdk/src/stdlib.c:29 | a block in use is as large as its request if and only if rounding that request did not wrap |
| Blocks.SplitTiles | sdk/src/stdlib.c:44-55 | splitting any block leaves a contiguous tiling of the heap |
| Blocks.PlaceInUse | sdk/src/stdlib.c:85-91 | a placed block starts where the free one did, and the blocks in use are the old ones and it |
| Blocks.PlaceGood | sdk/src/stdlib.c:44-91 | placing keeps the tiling, the coalescing and the bounds on every grant |
| Blocks.CoalesceSpec | sdk/src/stdlib.c:57-72 | one merging pass leaves a tiling with no two free neighbours and the same blocks in use |
| Blocks.ReleaseSpec | sdk/src/stdlib.c:100-108 | freeing leaves a coalesced tiling whose blocks in use are the old ones without the freed one |
| Blocks.LayoutDetermined | sdk/src/stdlib.c:57-108 | two coalesced tilings with the same blocks in use are the same list, so the layout keeps no history |
| HeapImage.SpliceRep | sdk/src/stdlib.c:22-26 | rewriting the headers of some blocks, and no byte outside them, represents the spliced list |
| HeapImage.SplitRep | sdk/src/stdlib.c:44-55 | the bytes split_block leaves represent the split list |
| HeapImage.MergeRep | sdk/src/stdlib.c:62-66 | the bytes a merge leaves represent the merged list, and clients see no change |
| HeapImage.PlaceRep | sdk/src/stdlib.c:85-91 | the bytes malloc leaves represent the placed list, and clients' bytes are where they were |
| HeapImage.PayloadsApart | sdk/src/stdlib.c:74-98 | live payloads lie inside the heap, apart from each other and from the header of every block, free or in use |
| HeapImage.PayloadWrite | sdk/src/stdlib.c:74-98 | a client's write into its own block changes no header and no other client's bytes |
| Heap.Allocator.InitHeap | sdk/src/stdlib.c:33-42 | builds one free block over the whole heap, once |
| Heap.Allocator.SplitBlock | sdk/src/stdlib.c:44-55 | writes exactly the two headers of the split, or nothing below the 40-byte threshold |
| Heap.Allocator.MergeFreeBlocks | sdk/src/stdlib.c:57-72 | performs the coalescing pass on the bytes; no client byte changes |
| Heap.Allocator.Search | sdk/src/stdlib.c:82-94 | walks to the lowest-addressed free block of sufficient size, or to the end if there is none |
| Heap.Allocator.Malloc | sdk/src/stdlib.c:74-98 | exact first fit; fails, with ENOMEM and nothing else changed, if and only if no block fits; all other clients' bytes are kept |
| Heap.Allocator.Free | sdk/src/stdlib.c:100-108 | removes the pointer from the clients' map and nothing else, and leaves the one coalesced layout of the rest |
| Heap.Allocator.Calloc | sdk/src/stdlib.c:110-127 | as malloc of the product, with that many zero bytes in front; an overflowing product gives NULL and ENOMEM |
| Heap.Allocator.Realloc | sdk/src/stdlib.c:129-154 | keeps all old bytes even when it moves, returns a large enough block in place, and leaves the old block intact on failure |
| Heap.Allocator.Memset | sdk/src/string.c:13-20 | sets the area and nothing else |
| Heap.Allocator.Memcpy | sdk/src/string.c:4-11 | copies between areas that do not overlap and changes nothing else |
| HeapRuns.StepGood | sdk/src/stdlib.c:74-154 | every call, as the code makes it on the block list, keeps the heap tiled, coalesced and granted within bounds |
| HeapRuns.ReachableStep | sdk/src/stdlib.c:74-154 | a run goes on with any further call, so the allocator's heap is always one a run reaches |
| HeapRuns.ReachableGood | sdk/src/stdlib.c:33-154 | every heap a run reaches is tiled and coalesced, and each grant is within 32 bytes of its rounded request |
| HeapRuns.AllFreedIsInitial | sdk/src/stdlib.c:33-108 | a run that has freed everything is back at the single block of init_heap |
| HeapRuns.HistoryIndependent | sdk/src/stdlib.c:57-108 | two runs that leave the same blocks live leave the same heap |
| HeapRuns.RunRoomy | sdk/src/stdlib.c:44-72 | when no request wraps, every block of every reachable heap has at least 16 bytes |
| HeapRuns.Conservation | sdk/src/stdlib.c:44-108 | live bytes, free bytes and 24 per block always add up to the heap |
| HeapRuns.FewFreeBlocks | sdk/src/stdlib.c:57-72 | free blocks number at most one more than live ones |
| HeapRuns.MallocMustSucceed | sdk/src/stdlib.c:74-98 | a bound on the live requests alone under which malloc(n) cannot fail |
| HeapRuns.PointerAlignment | sdk/src/stdlib.c:21-29 | in a heap at a multiple of 16 every pointer is a multiple of 8, and one is a multiple of 16 if and only if an odd number of the blocks before it have sizes that are |
| HeapRuns.FirstPointerMisaligned | sdk/src/stdlib.c:74-98 | the first malloc of a run returns the heap's 24th byte, which is 8 modulo 16 |
| HeapClient.Answer | sdk/src/stdlib.c:74-154 | each request is served as the map of byte strings would serve it: fresh pointers, zeros from calloc, kept bytes from realloc, nothing else changed |
| HeapClient.Perform | sdk/src/stdlib.c:74-154 | any client whose requests are legal sees a run of that map, with live areas apart throughout; if it frees everything the heap is the initial block |
| HeapClient.EmptyStoreIsInitial | sdk/src/stdlib.c:100-108 | an allocator whose clients hold nothing has the single block of init_heap |
| Numerals.NumeralDenotes | sdk/src/stdio.c:48-59 | a printed numeral is digits without a leading zero and denotes the number |
| Numerals.NumeralUnique | sdk/src/stdio.c:48-59 | it is the only digit string that does |
| Numerals.NumeralFits | sdk/src/stdio.c:199-208 | at most 20 decimal and 16 hexadecimal digits for 64 bits, inside the 24-byte buffers |
| Numerals.FillDigits | sdk/src/stdio.c:45-59 | the digit loop leaves the numeral, backwards, in the buffer |
| Grammar.GrammarRoundTrip | sdk/src/stdio.c:125-183 | every list of items is what the parser reads from the format that writes it down |
| Grammar.SpelledItem | sdk/src/stdio.c:145-183 | a directive in any spelling, with any flags, width, precision and length letters, is read as exactly those; one the format ends in is dropped |
| Grammar.EverySpelling | sdk/src/stdio.c:145-183 | every directive has such a spelling |
| Grammar.LiteralItem | sdk/src/stdio.c:127-143 | "%%" is read as one '%', any other character outside a directive as itself |
| Parsing.ParseDirective | sdk/src/stdio.c:145-183 | the parsing loops read flags, width, length and conversion of the directive, without int overflow, or find that the format ends first |
| Meaning.SnprintfShows | sdk/src/stdio.c:186-315 | what each conversion shows: the decimal or hexadecimal digits of the argument, its sign, its characters, with vsnprintf_internal's padding |
| Meaning.PrintfShows | sdk/src/stdio.c:381-432 | the same for vprintf, with its own padding |
| Meaning.PlainItems | sdk/src/stdio.c:123-143 | what follows the last '%' of a format is shown as it stands and takes no argument |
| Agreement.PieceAgreement | sdk/src/stdio.c:186-315 | for one directive vprintf writes no more than vsnprintf_internal, and the same exactly under the stated condition |
| Agreement.TextAgreement | sdk/src/stdio.c:121-438 | the two engines write the same bytes for a format if and only if every directive meets that condition |
| Varargs.VaList.NextSigned | sdk/src/stdio.c:192 | takes a long or an int as the length flag says, and records which |
| Varargs.VaList.NextUnsigned | sdk/src/stdio.c:218-219 | takes an unsigned long or an unsigned int as the length flag says, and records which |
| Snprintf.BuildContent | sdk/src/stdio.c:186-276 | the switch draws exactly the argument the directive wants from the list, and makes its text |
| Snprintf.Vsnprintf | sdk/src/stdio.c:121-322 | stores the longest prefix that fits and a NUL, returns the full length whatever the size, if it is an int, else that length modulo 2^32, and calls va_arg with exactly the format's types in order |
| Snprintf.Snprintf | sdk/src/stdio.c:477-484 | the same on the arguments after the format |
| Snprintf.TruncatesToPrefix | sdk/src/stdio.c:129-131 | the buffer holds min(len, size-1) characters and a NUL, and nothing else has changed |
| Snprintf.SmallerIsPrefix | sdk/src/stdio.c:318-319 | whatever the output, a smaller size yields a prefix of what a larger one yields; without a NUL in the output that is a prefix of it, and all of it with enough size |
| Snprintf.StaysInside | sdk/src/stdio.c:129-131 | no index at or beyond size is written if there is a size; with size 0 the whole output is stored |
| Console.Stdout.Flush | sdk/src/stdio.c:21-28 | writes out exactly what was pending |
| Console.Stdout.Emit | sdk/src/stdio.c:30-35 | adds one character to what has been written or waits; the buffer stays below 255 |
| Console.Stdout.EmitUintWidth | sdk/src/stdio.c:43-72 | emits the numeral padded on the left |
| Console.Stdout.EmitIntWidth | sdk/src/stdio.c:79-91 | emits the sign before the padding, LONG_MIN included |
| Console.Stdout.EmitStrWidth | sdk/src/stdio.c:98-119 | emits the string padded with spaces on the side asked for |
| Console.Stdout.EmitDirective | sdk/src/stdio.c:384-432 | emits vprintf's piece for any directive, drawing exactly the argument it wants from the list |
| Console.Stdout.Vprintf | sdk/src/stdio.c:324-438 | the descriptor receives the whole text, the buffer ends empty, and the copied list has been asked for the same types in the same order as in vsnprintf_internal |
| Console.Stdout.Printf | sdk/src/stdio.c:440-447 | the same on the arguments after the format |
| Console.Stdout.Puts | sdk/src/stdio.c:491-497 | the descriptor receives the string and a newline |
| Console.Stdout.Putchar | sdk/src/stdio.c:504-509 | the descriptor receives one byte, congruent to the int modulo 256 |
| Console.Stdout.Fputs | sdk/src/stdio.c:499-502 | the descriptor receives the string |
| Console.Stdout.Vfprintf | sdk/src/stdio.c:449-457 | the descriptor receives the text if it has at most 1023 bytes; at 1024 its last byte becomes a NUL |
| Console.Stdout.Perform | sdk/src/stdio.c:324-509 | any sequence of output calls reaches the descriptor whole and in call order |
| Console.PrintfAndFprintf | sdk/src/stdio.c:324-457 | printf and fprintf(stdout) show the same bytes if and only if every directive agrees |
| RoundTrip.Atoi | sdk/src/stdlib.c:156-177 | returns the number written after blanks and a sign, without int overflow when the magnitude fits |
| RoundTrip.Atol | sdk/src/stdlib.c:179-200 | the same for long |
| RoundTrip.ParsedIsNumber | sdk/src/stdlib.c:160-176 | what is read is the digits after any spaces, tabs, newlines and returns and at most one sign, negated exactly after '-' |
| RoundTrip.EveryNumber | sdk/src/stdlib.c:160-176 | every string has exactly one such reading |
| RoundTrip.WrittenNumber | sdk/src/stdlib.c:179-200 | the same, put together from its parts |
| RoundTrip.SnprintfRoundTrip | sdk/src/stdio.c:190-214 | a number printed by vsnprintf_internal is read back if and only if it is not negative and zero-padded on the left |
| RoundTrip.PrintfRoundTrip | sdk/src/stdio.c:79-91 | a number printed by vprintf is read back if and only if it is not negative and space-padded |
| RoundTrip.AtolOfSnprintf | sdk/src/stdlib.c:179-200 | atol of a buffer filled by snprintf from a one-directive format gives the number back, under that condition, without overflow |
| Calendar.TmBuffer.TimeToTm | sdk/src/time.c:23-71 | every field is in calendar range and the closed-form POSIX seconds of the fields are the argument |
| Calendar.FindYear | sdk/src/time.c:38-49 | the subtracting loop finds the year that contains the day, without int overflow |
| Calendar.FindMonth | sdk/src/time.c:61-66 | the month loop finds the month that contains the day and never runs past December |
| Calendar.OrderIsomorphism | sdk/src/time.c:23-71 | one second is before another if and only if its broken-down time is lexicographically smaller |
| Calendar.BrokenDownUnique | sdk/src/time.c:23-71 | a second has only one broken-down form |
| Calendar.WeekdayIsZeller | sdk/src/time.c:34-35 | the weekday is the one Zeller's congruence gives for the date |
| Calendar.Periodicity | sdk/src/time.c:41-49 | adding 146097 days changes the year by 400 and nothing else, the weekday included |
| Calendar.AscTextIsStandard | sdk/src/time.c:101-130 | up to the year 9999 the text is the layout of the C standard |
| Calendar.AscNames | sdk/src/time.c:90-131 | the weekday's and the month's name stand in their columns, with blanks, colons, the newline and the NUL in theirs |
| Calendar.AscDigits | sdk/src/time.c:111-129 | the other columns are digits, but for the blank before a day of one digit |
| Calendar.DecodeRecovers | sdk/src/time.c:87-138 | up to the year 9999 the text of a second determines the second |
| Calendar.Clock.Asctime | sdk/src/time.c:87-133 | fills all 26 bytes of the static buffer with the text |
| Calendar.Clock.Ctime | sdk/src/time.c:135-138 | the buffer holds the text of the broken-down time, from which the argument can be decoded |
| Tokens.SpanFacts | sdk/src/string.c:188-232 | the stretch is inside, or outside, the set throughout, and ends where it must |
| Tokens.Strspn | sdk/src/string.c:211-232 | the length of the longest prefix inside the set |
| Tokens.Strcspn | sdk/src/string.c:188-209 | the length of the longest prefix outside the set |
| Tokens.Strpbrk | sdk/src/string.c:234-248 | the first character inside the set, or NULL exactly when there is none |
| Tokens.Tokenizer.Continue | sdk/src/string.c:252-284 | one call with NULL changes buffer and saved pointer as the step function says |
| Tokens.Tokenizer.Start | sdk/src/string.c:252-284 | one call with a string, likewise |
| Tokens.Tokenizer.Tokenize | sdk/src/string.c:250-284 | a client's loop of k calls returns the first k runs of the original string, then NULL, and overwrites only the delimiters after them |
| Tokens.RunsAreMaximal | sdk/src/string.c:260-271 | the tokens listed are exactly the maximal delimiter-free runs of the string |
| Tokens.RunsInOrder | sdk/src/string.c:260-277 | they come in order, at least one delimiter apart |
| Tokens.NullForever | sdk/src/string.c:257-258 | once the saved pointer is NULL every call returns NULL and changes nothing |
| Tokens.StrtokRun | sdk/src/string.c:250-284 | k calls return the first k runs of the original string and then NULL, and chop the string after those runs |
| Tokens.TokensInPlace | sdk/src/string.c:273-277 | each token stands in place with its NUL, and only delimiters of the string have been overwritten |
| Strings.Memmove | sdk/src/string.c:22-37 | equals the simultaneous copy for every overlap, with everything else unchanged |
| Strings.MovedBytes | sdk/src/string.c:22-37 | the simultaneous copy, byte by byte |
| Strings.Strstr | sdk/src/string.c:157-174 | the least position of the needle, or none exactly when it does not occur |
| Strings.Strcmp | sdk/src/string.c:110-118 | returns the difference at the first differing byte |
| Strings.Strncmp | sdk/src/string.c:120-130 | compares the strings cut to n characters |
| Strings.Memcmp | sdk/src/string.c:39-49 | compares the first n bytes |
| Strings.CompareDifference | sdk/src/string.c:110-118 | the result is the difference of the bytes at the first difference, the NUL counting as the end |
| Strings.CompareIsOrder | sdk/src/string.c:110-118 | negative exactly for dictionary order on unsigned bytes, zero exactly for equal strings, antisymmetric |
| Strings.CompareTransitive | sdk/src/string.c:110-118 | the comparison is transitive |
| Strings.StrncmpIsStrcmp | sdk/src/string.c:120-130 | with n above both lengths strncmp is strcmp |
| Strings.MemcmpIsStrcmp | sdk/src/string.c:39-49 | over the shorter string with its NUL memcmp is strcmp |
| Lines.Stream.Fgetc | sdk/src/stdio.c:525-531 | takes one byte, or reports the end of the input |
| Lines.Stream.Fgets | sdk/src/stdio.c:533-557 | takes the next piece into the buffer with a NUL, or returns NULL at the end of the input with the buffer unchanged |
| Lines.Stream.ReadAll | sdk/src/stdio.c:533-557 | a client calling fgets until NULL gets exactly those pieces, which make up the whole input |
| Lines.PiecesReassemble | sdk/src/stdio.c:533-557 | the pieces, put together, are the input |
| Lines.PiecesWellCut | sdk/src/stdio.c:538-554 | each piece fits, has a newline only at its end, and ends at a newline, a full buffer or the end of the input |

## Left out

- System calls, signals, start-up code and process exit (`sdk/src/syscall.c`, `signal.c`, `crt0.c`): inline assembly and kernel wrappers.
- The compiler and linker drivers, build files and vendored compiler headers: no library logic.
- `fopen`, `fclose`, `feof`, `ferror`, `clearerr`, `fread` and `fwrite` of more than the cases above: mode tables and single branches.
- `strdup`, `strchr`, `strrchr`, `strcpy` and its kin, `memchr`, `getenv`: plain loops that would only add easy members.
- `time`, `gettimeofday` and the sleep functions: the clock is a parameter.
- Short, interrupted or failed writes and reads: `write` takes all its bytes, and input ends only once.
- Concurrent use of the static buffers: the code has no locking.
- Calendar.TmBuffer.TimeToTm: times before the Epoch and years beyond INT_MAX are outside its precondition, because the C division and the int year go wrong there.
- Snprintf.Vsnprintf: LONG_MIN is outside its precondition, because negating it overflows; widths and string lengths are bounded by INT_MAX.
- Console.Stdout.Vprintf: string arguments longer than INT_MAX are outside its precondition, because counting them in an int overflows.
- Console.Stdout.Vfprintf: texts above 1024 bytes are outside its precondition, because the write would read past the buffer.
- Heap.Allocator.Realloc: growing to one of the 15 largest sizes is outside its precondition, as is a calloc of such a product, because the copy would run past the grant.
- Parsing.ParseDirective: the parsing loops appear word for word in both engines and are modelled once.
- Tokens.Tokenizer.Continue: the delimiter string is a value apart from the buffer, so delimiters inside the string being cut are not modelled.
