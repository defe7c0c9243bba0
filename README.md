# Bump arena and lexer of C-, modelled in Dafny

This project models two independent parts of the C- compiler front end.

**The bump arena (`src/arena.rs`).**
- `ceil_align` rounds an address up to a power-of-two alignment (module `Align`).
- `Arena` reserves a range of virtual addresses once. It hands out regions by moving a bump pointer forward, and commits pages in batches of 16 OS pages whenever the bump pointer reaches the commit boundary. `free_all` uncommits pages and rewinds the bump pointer.
- `ArenaVec<T>` is a vector laid out back to back from the arena's base address.

Addresses are naturals and the page size is a power-of-two parameter. The OS calls `vm_commit` and `vm_uncommit` are modelled by their effect on a set of committed byte addresses. Only bytes of the reservation can become committed. A value written into the arena (`ptr.write`) faults unless every byte it covers is committed. `ArenaSpec` states the arena's transitions as functions on an `ArenaState` value. The classes in `BumpArena` update their fields in place, and each of their methods is proved to perform the matching `ArenaSpec` transition.

**The lexer (`src/tokenizer.rs`, `tokenize`).**
- `tokenize` scans the bytes of a source file once. It produces `line_breaks`, a span per token and a type per token.
- It skips newlines, whitespace and `//` comments. It then tries keywords longest first, then two-byte and one-byte operators. After that it reads strings (with `\"` escapes), identifiers and numbers (at most one `.`).
- The lexer panics on an unfinished string, on a byte that starts no token, and when a loop reads `input[0]` past the end of the input. Panics are `Failure` results.

`TokenSpec` says what the lexer reads without referring to the loop. It defines:
- the keyword/operator cascade `MatchFixed`;
- the shape of each token class;
- an automaton for the bytes skipped between tokens;
- an automaton for the inside of a string.

Both automata say which newlines get recorded. The method `Tokenize` in `Tokenizer` is the source's loop, on a position index instead of a shrinking slice. It is proved to return exactly the tokens `TokenSpec` describes, with the line breaks, lines and columns its counters record. Otherwise it returns a panic that the lexer hits after reading a prefix of the tokens, and then the input has no full lexing at all. A full lexing, when one exists, is unique, so `Tokenize` succeeds exactly when the input can be lexed to its end.

## Model

| member | source | states |
|---|---|---|
| Align.CeilAlign | src/arena.rs:295-299 | For a power-of-two `to`, the result is a multiple of `to`, at least `v` and below `v + to` |
| Align.CeilAlignLeast | src/arena.rs:295-299 | No multiple of `to` lies between `v` and `ceil_align(v, to)`: the result is the least aligned value not below `v` |
| Align.CeilAlignFixesMultiples | src/arena.rs:411-434 | `ceil_align(v, to) == v` exactly when `v` is a multiple of `to`, so aligning twice equals aligning once |
| Align.CeilAlignMonotone | src/arena.rs:295-299 | Rounding up preserves order |
| Align.CeilAlignUnitTests | src/arena.rs:410-437 | Every expected value of the unit tests `correct_8` and `correct_16` |
| Align.BitAndLowMask | src/arena.rs:298 | Masking with `to - 1` gives the remainder modulo the power of two `to` |
| Align.NegModPow2 | src/arena.rs:298 | The 64-bit two's-complement negation of `v`, reduced modulo `to`, is the padding that takes `v` up to the next multiple of `to` |
| Align.CeilAlignWordAgrees | src/arena.rs:297-299 | The bitwise expression the source evaluates, with 64-bit wrap-around, equals `CeilAlign` whenever `v + to` stays within `isize` |
| ArenaSpec.Granularity | src/arena.rs:225-228 | `alloc_granularity()` (page size times 16) is a power of two and a multiple of the page size |
| ArenaSpec.Init | src/arena.rs:207-223 | `Arena::new` gives a valid arena based at the reserved address, whose reservation is the requested size rounded up to whole pages: at least the request and less than one page more |
| ArenaSpec.AllocRegion | src/arena.rs:249-268 | `alloc_region` as written keeps the arena invariant: base ≤ bump ≤ commit boundary, the boundary is a multiple of the granularity, and committed bytes lie below the boundary and inside the reservation |
| ArenaSpec.AllocRegionPlacement | src/arena.rs:249-268 | The region starts at the first `align`-aligned address at or after the old bump and below old bump + `align`. The bump pointer moves to the region's end, and base, end and page size do not change |
| ArenaSpec.AllocRegionCommits | src/arena.rs:257-266 | When the new bump reaches the boundary (`>=`), the bytes from the old boundary to the granularity-rounded new bump get committed, cut at `end_addr`. Otherwise nothing is committed. Either way the bump stays at or below the boundary and neither pointer moves backwards |
| ArenaSpec.CommitCanPassEnd | src/arena.rs:258-263 | Commit rounding is on absolute addresses, so the boundary passes `end_addr`: a one-page arena at 0x10000 moves its boundary to 0x20000 on its first allocation, and only its one page [0x10000, 0x11000) becomes committed |
| ArenaSpec.AllocMany | src/arena.rs:249-268 | Successive `alloc_region` calls keep the invariant and return one address per request |
| ArenaSpec.AllocManyDisjoint | src/arena.rs:249-268 | Between resets every region is aligned and lies between the old and the new bump pointer. Each region starts at or after the end of every earlier one, so regions never overlap |
| ArenaSpec.EightsArePacked | src/arena.rs:249-268 | From an 8-aligned bump pointer, 8-byte 8-aligned allocations are packed back to back: the i-th starts at bump + 8i |
| ArenaSpec.ThreeSmallAllocations | src/arena.rs:249-268 | In a fresh arena with 4096-byte pages, three 8-byte 8-aligned requests start at base, base + 8 and base + 16 |
| ArenaSpec.FreeAll | src/arena.rs:271-279 | `free_all` as written keeps the arena invariant |
| ArenaSpec.FreeAllThenAllocReturnsBase | src/arena.rs:271-279 | After `free_all`, an allocation whose alignment is at most the page size starts at the base again. `uncommitted_addr` is left unchanged |
| ArenaSpec.FreeAllLeavesLiveBytesUncommitted | src/arena.rs:271-279 | As written, alloc, `free_all`, alloc leaves the new live bytes at the base uncommitted (first finding) |
| ArenaSpec.FreeAllThenAllocFaults | src/arena.rs:271-279 | After `free_all` on an arena holding at least `size` bytes, an allocation of `size > 0` bytes at an alignment up to the page size starts at the base. The base is not committed, so writing the region faults (first finding) |
| ArenaSpec.Reset | src/arena.rs:271-279 | The corrected reset, which also rewinds the commit boundary, keeps the arena invariant |
| ArenaSpec.InitIsTight | src/arena.rs:207-223 | A new arena commits exactly the bytes from the base to the boundary, cut at `end_addr` |
| ArenaSpec.AllocRegionKeepsTight | src/arena.rs:249-268 | Allocation keeps the committed bytes equal to [base, boundary) cut at `end_addr`, with the boundary at the granularity-rounded bump |
| ArenaSpec.ResetKeepsTight | src/arena.rs:271-279 | The corrected reset keeps the committed bytes equal to [base, boundary) cut at `end_addr` |
| ArenaSpec.TightAllocIsWritable | src/arena.rs:249-268 | When the committed bytes are exactly [base, boundary) cut at `end_addr`, an allocation keeps them so, and an allocation that ends inside the reservation can be written |
| ArenaSpec.TightIsLive | src/arena.rs:257-266 | When the committed bytes are exactly [base, boundary) cut at `end_addr` and the bump pointer is inside the reservation, every byte below the bump pointer is committed |
| ArenaSpec.Run | src/arena.rs:249-279 | Any run of allocations and `free_all` calls keeps the arena invariant |
| ArenaSpec.RunCorrected | src/arena.rs:249-279 | A run of checked allocations and corrected resets stops at the first refused allocation. A run that is not refused keeps the arena invariant |
| ArenaSpec.RunCorrectedKeepsLiveBytesCommitted | src/arena.rs:249-279 | Start from committed bytes equal to [base, boundary) cut at `end_addr`, with the bump inside the reservation. Every run of checked allocations and corrected resets that is not refused keeps that, and keeps every byte below the bump pointer committed (first finding, corrected) |
| ArenaSpec.AllocRegionOverrunsEnd | src/arena.rs:253-255 | As written, a request larger than the reservation succeeds and moves the bump pointer past `end_addr` (second finding) |
| ArenaSpec.AllocRegionChecked | src/arena.rs:249-268 | With the capacity check restored, an accepted request keeps the arena invariant |
| ArenaSpec.AllocRegionCheckedStaysInBounds | src/arena.rs:253-255 | The checked allocation refuses exactly the requests that would end past `end_addr`. It otherwise equals `alloc_region` and keeps the bump pointer within the reservation (second finding, corrected) |
| BumpArena.Arena.constructor | src/arena.rs:207-223 | The new arena's fields are `ArenaSpec.Init` of the page size, reserved address and requested size |
| BumpArena.Arena.AllocRegion | src/arena.rs:249-268 | Updates the bump pointer, the commit boundary and the committed bytes in place exactly as `ArenaSpec.AllocRegion`, committing only the reservation's part of the batch, and returns its address |
| BumpArena.Arena.Alloc | src/arena.rs:232-238 | The arena moves exactly as `ArenaSpec.AllocRegion` of the type's layout. Writing the value succeeds exactly when every byte of the region is committed, and then returns a reference to the value at the region's address. Otherwise the write faults at that address |
| BumpArena.Arena.AllocSlice | src/arena.rs:242-247 | Allocates `count * size` bytes at the type's alignment through `AllocRegion`, and returns a slice of `count` elements |
| BumpArena.Arena.FreeAll | src/arena.rs:271-279 | Uncommits and rewinds in place exactly as `ArenaSpec.FreeAll` |
| BumpArena.ArenaVec.constructor | src/arena.rs:310-315 | A new vector over a new arena, with the element's layout, is empty, and its arena's committed bytes are exactly [base, boundary) cut at `end_addr` (`Roomy`) |
| BumpArena.ArenaVec.Len | src/arena.rs:359-362 | `(bump - base) / size_of::<T>()` is the number of elements added since the last clear |
| BumpArena.ArenaVec.AsSlice | src/arena.rs:343-345 | The view has `len()` elements, and element i is the value stored at `base + i * size_of::<T>()` |
| BumpArena.ArenaVec.IsEmpty | src/arena.rs:364-366 | True exactly when the vector holds no elements |
| BumpArena.ArenaVec.Get | src/arena.rs:321-330 | `None` exactly when `idx >= len()`, otherwise the element at index `idx` |
| BumpArena.ArenaVec.GetMut | src/arena.rs:332-341 | A write through `get_mut(idx)` happens exactly when `idx < len()` and replaces element `idx` only |
| BumpArena.ArenaVec.Store | src/arena.rs:392-395 | A write through the element reference replaces element `idx` and nothing else |
| BumpArena.ArenaVec.Index | src/arena.rs:376-382 | Panics with the index and the length exactly when `idx >= len()`, otherwise gives element `idx` |
| BumpArena.ArenaVec.IndexMut | src/arena.rs:386-397 | Panics exactly when `idx >= len()` and then changes nothing. Otherwise a write replaces element `idx` only |
| BumpArena.ArenaVec.Add | src/arena.rs:317-319 | The arena moves by one `alloc_region` of the element's layout. The write succeeds exactly when the new slot at base + len·size is committed. Then the contents become the old contents plus the value, and every element still lies in committed memory. Otherwise the write faults at that slot and no element changes. While the vector has not been cleared (`Roomy`), it stays so, and an add whose slot ends inside the reservation always succeeds |
| BumpArena.ArenaVec.Clear | src/arena.rs:368-370 | `free_all` on the arena, after which the vector is empty |
| BumpArena.NewThenAddTwice | src/arena.rs:310-319 | A new vector of 8-byte elements takes two adds without a fault, and then holds the two values in order |
| BumpArena.ArenaVec.ClearThenAdd | src/arena.rs:368-370 | On a vector holding an element, `clear` followed by `add` always faults at the base address (first finding) |
| TokenSpec.Text | src/tokenizer.rs:83-138 | The constant of a type is non-empty exactly for keywords and operators, and at most 8 bytes long |
| TokenSpec.BlocksHaveTheirLength | src/tokenizer.rs:182-445 | Every entry of a block of the cascade is a keyword or operator whose constant has that block's `token_len` |
| TokenSpec.BlockOf | src/tokenizer.rs:182-445 | Every keyword and operator is tried in some block of the cascade |
| TokenSpec.MatchIn | src/tokenizer.rs:193-206 | A match arm that fires has its constant as a prefix of the input |
| TokenSpec.MatchInFinds | src/tokenizer.rs:193-206 | One block's `match` picks one of its own entries, and falls through only when none of them is a prefix of the input |
| TokenSpec.MatchFixed | src/tokenizer.rs:182-445 | The cascade yields a keyword or operator whose constant is a prefix of the input |
| TokenSpec.LaterBlocksAreShorter | src/tokenizer.rs:182-445 | Blocks are tried in order of non-increasing `token_len` |
| TokenSpec.MatchBlocksLongest | src/tokenizer.rs:182-445 | From any block on, the cascade finds a token at least as long as any matching entry of a later block |
| TokenSpec.MatchFixedLongest | src/tokenizer.rs:182-445 | Whenever a keyword or operator is a prefix of the input, the cascade finds one, and the one it finds is at least as long |
| TokenSpec.MatchFixedNone | src/tokenizer.rs:182-445 | The cascade finds nothing exactly when no keyword or operator is a prefix of the input |
| TokenSpec.EqualsExample | src/tokenizer.rs:298-347 | Input starting `==` is read as `Equals`, not as two `Equal` |
| TokenSpec.ArrowExample | src/tokenizer.rs:298-347 | Input starting `->` is read as `Arrow` |
| TokenSpec.FeatherExample | src/tokenizer.rs:298-347 | Input starting `>-` is read as `Feather` |
| TokenSpec.KeywordPrefixExample | src/tokenizer.rs:277-294 | Keywords match as bare prefixes: input starting `if` (as in `iffy`) is read as `If` |
| TokenSpec.FixedTokenText | src/tokenizer.rs:447-452 | A keyword or operator token's span text equals the constant of its type |
| TokenSpec.GapScanNewlines | src/tokenizer.rs:151-177 | The newlines recorded between tokens are newline bytes of the skipped range, strictly increasing |
| TokenSpec.StrScanNewlines | src/tokenizer.rs:474-480 | The newlines recorded inside a string are newline bytes of the string, strictly increasing |
| TokenSpec.BreaksToNewlines | src/tokenizer.rs:140-567 | The breaks recorded up to token k are newline bytes before its end, strictly increasing |
| TokenSpec.BreaksAreNewlines | src/tokenizer.rs:75-76 | `line_breaks` is sorted strictly increasing, and each entry is the offset of a `\n` byte |
| TokenSpec.IdentEnds | src/tokenizer.rs:509-512 | An identifier that ends before the end of the input does not make the identifier loop run out |
| TokenSpec.NumEnds | src/tokenizer.rs:530-542 | A number that ends before the end of the input does not make the number loop run out |
| TokenSpec.StrClosedBlocks | src/tokenizer.rs:458-483 | The string loop reads nothing after the closing quote |
| TokenSpec.DotsMonotone | src/tokenizer.rs:530-542 | The dots counted in a range are among those counted in any longer range |
| TokenSpec.GapBeforeBlocks | src/tokenizer.rs:151-177 | Skipping cannot go on past a byte where a token starts |
| TokenSpec.GapBeforeUnique | src/tokenizer.rs:151-177 | From one place, skipping stops at one position only |
| TokenSpec.TokenTypeAt | src/tokenizer.rs:179-558 | A token's type is the one its first bytes decide: the keyword/operator cascade first, then a quote, an identifier start or a digit |
| TokenSpec.TokenLenUnique | src/tokenizer.rs:456-553 | Two tokens of one type at one offset have one length |
| TokenSpec.TokenExcludesPanic | src/tokenizer.rs:179-558 | Where a token of any class can be read, `TokenPanic` gives no panic |
| TokenSpec.LexedToken | src/tokenizer.rs:140-567 | Each token of a lexing lies inside the code, after bytes the lexer skips, and is read as its class says |
| TokenSpec.TokenAfterBlocksEnd | src/tokenizer.rs:151-177 | When another token follows the first k, skipping from the end of token k − 1 cannot reach the end of the input |
| TokenSpec.NextTokenAgrees | src/tokenizer.rs:179-558 | Two lexings whose gap before token k starts at one place read the same token k, so the next gap starts at one place too |
| TokenSpec.LexedAgree | src/tokenizer.rs:140-567 | Two lexings of the same input agree token for token on their common length |
| TokenSpec.LexingIsUnique | src/tokenizer.rs:140-567 | An input has at most one full lexing: two full lexings have the same tokens at the same places |
| TokenSpec.NotStuckAt | src/tokenizer.rs:140-567 | When the input has a full lexing, the lexer is stuck nowhere, whatever prefix of tokens it has read |
| TokenSpec.LexingRulesOutPanic | src/tokenizer.rs:140-567 | An input with a full lexing makes the lexer panic with no panic |
| TokenSpec.StuckMeansNoLexing | src/tokenizer.rs:140-567 | An input on which the lexer panics has no full lexing |
| TokenSpec.SemiExample | src/tokenizer.rs:298-347 | Input starting `;` is read as `Semi` |
| TokenSpec.SemicolonToken | src/tokenizer.rs:298-347 | The one-byte input `;` holds a `Semi` token |
| TokenSpec.SemicolonFullyLexed | src/tokenizer.rs:140-567 | The lexing of the one-byte input `;` is the single token `Semi` |
| TokenSpec.SemicolonIsLexed | src/tokenizer.rs:140-567 | The lexer does not panic on the one-byte input `;` |
| TokenSpec.QuoteInCommentIsSkipped | src/tokenizer.rs:170-177 | A quote inside a `//` comment starts no string: the lexer does not panic on `//"` followed by a newline |
| Tokenizer.SkipByte | src/tokenizer.rs:151-177 | Skipping one byte keeps the loop invariant. A newline read by the newline loop is recorded, increments `line` and moves `line_start` past it; any other skipped byte leaves the counters alone |
| Tokenizer.OrderedPush | src/tokenizer.rs:447-452 | Pushing a span and a type together keeps `spans` and `types` of equal length, with tokens in order and not overlapping |
| Tokenizer.LexedPush | src/tokenizer.rs:447-452 | A token read where skipping stops extends the token list the lexer produces |
| Tokenizer.PushKeepsEarlier | src/tokenizer.rs:447-452 | Pushing a token leaves the breaks recorded for earlier tokens unchanged |
| Tokenizer.PushKeepsLineStart | src/tokenizer.rs:447-452 | Pushing a token leaves `line_start` after earlier tokens unchanged |
| Tokenizer.LineStartToAgree | src/tokenizer.rs:140-567 | `line_start` after the first k tokens depends on those k tokens alone |
| Tokenizer.PositionsPush | src/tokenizer.rs:447-452 | A token pushed with the counters' `line` and `col` keeps every token at the line and column the counters give |
| Tokenizer.PushKeepsProgress | src/tokenizer.rs:447-452 | After a push at the counters' line and column, the main loop's invariant holds at the token's end |
| Tokenizer.FixedPush | src/tokenizer.rs:447-452 | A keyword or operator found where skipping stops is pushed with `token_len` bytes, and the scan resumes `token_len` bytes later |
| Tokenizer.StringPush | src/tokenizer.rs:485-494 | A closed string is pushed with the line and `col` left by its own newlines |
| Tokenizer.IdentPush | src/tokenizer.rs:514-522 | A maximal identifier is pushed at the counters' line and column |
| Tokenizer.NumPush | src/tokenizer.rs:544-552 | A maximal number is pushed at the counters' line and column |
| Tokenizer.ScanString | src/tokenizer.rs:458-483 | The string loop stops after the first quote that is not part of `\"`, or at the end of the input. It records every newline of the body, counts it in `line` and moves `line_start` onto it |
| Tokenizer.ScanIdent | src/tokenizer.rs:509-512 | The identifier loop stops at the first byte that is not alphanumeric or `_`. It yields nothing when it would read past the end |
| Tokenizer.ScanNumber | src/tokenizer.rs:530-542 | The number loop reads digits and at most one dot, and stops at a second dot. It yields nothing exactly when it would read past the end, which happens only when the rest holds digits and dots alone, with at most one dot |
| Tokenizer.SkipNewlines | src/tokenizer.rs:152-159 | Each newline at the top of the loop is recorded, increments `line` and moves `line_start` past it |
| Tokenizer.SkipWhitespace | src/tokenizer.rs:165-168 | Skips ASCII whitespace, newlines included, without recording them |
| Tokenizer.SkipComment | src/tokenizer.rs:170-177 | A `//` comment is skipped up to, but not including, the next newline |
| Tokenizer.LexToken | src/tokenizer.rs:179-558 | Where skipping stops, panics exactly as `TokenPanic` says. There is no panic when a keyword or operator starts there. An unfinished string, an identifier or number loop that runs to the end of the input, or a byte that starts no token panics. Without a panic it pushes one token and keeps the loop invariant. With one, the lexer is stuck there after the tokens read so far |
| Tokenizer.LexOther | src/tokenizer.rs:456-558 | Without a keyword or operator, panics exactly as `TokenPanic` says: "Cannot parse token" when the byte is no quote, identifier start or digit. Otherwise it reads a string, an identifier or a number and keeps the loop invariant |
| Tokenizer.LexString | src/tokenizer.rs:456-503 | Panics with "Unfinished string" at the quote exactly when the string loop reaches the end of the input without a closing quote. Otherwise the closed string becomes a token |
| Tokenizer.LexIdent | src/tokenizer.rs:505-523 | Panics reading past the end of the input exactly when every byte after the first continues the identifier. Otherwise the maximal identifier becomes a token |
| Tokenizer.LexNumber | src/tokenizer.rs:525-553 | Panics reading past the end of the input exactly when every byte after the first digit is a digit or a dot, with at most one dot. Otherwise the number becomes a token |
| Tokenizer.Tokenize | src/tokenizer.rs:140-567 | On success: the spans and types are exactly the tokens the lexer reads, in order and with skipped bytes between them. The rest after the last token is skipped, `line_breaks` is the list of recorded newlines (strictly increasing, each a `\n`), and every token carries the line and column of the counters. On failure, the error is a panic the lexer hits after reading some tokens. That is either the end of the input inside whitespace or a comment, or the panic `TokenPanic` gives where skipping stops. The input then has no full lexing at all |

## Left out

- The OS layer (`unix` and `windows` modules, src/arena.rs:3-175) is foreign calls. Its effects are the `committed` set of bytes, and the page size and the reserved address are parameters.
- `Drop` / `vm_release` (src/arena.rs:282-288) is a single foreign call at teardown.
- Raw pointers, `slice::from_raw_parts_mut` and `from_utf8_unchecked` are not modelled as such. Memory is a map from addresses to values, and spans are offsets with a length rather than string slices. `ptr.write` is a store that faults unless its bytes are committed; a fault ends the model's run, as the OS ends the process.
- `iter`, `iter_mut`, `as_mut_slice` and the `Debug` impl are thin wrappers over slices and formatting.
- The panic message texts are left out; a panic carries only the place where it happens.
- Zero-sized element types are left out. `len()` divides by `size_of::<T>()`, which is then 0.
- BumpArena.ArenaVec.constructor: requires that the element's alignment is at most the page size, which holds for every ordinary Rust type.
- Align.CeilAlignWordAgrees: states the bitwise form only where `v + to` fits in `isize`. Beyond that the source overflows, and the rest of the model uses `CeilAlign` on unbounded naturals.
- Tokenizer.Tokenize: `col` is an `int`. For a multi-line string, `line_start` moves onto the string's last newline (src/tokenizer.rs:478), which lies after the string's start. The string's own column (src/tokenizer.rs:491) is then negative, where the source's `usize` arithmetic would wrap. Later tokens have a positive column.
- `line_start` is kept as an offset into the code rather than an address.
- ArenaSpec.AllocRegion: when the commit batch reaches past `end_addr`, the model commits the part inside the reservation. This is what `mprotect` does on Linux when the rest is unmapped: it fails with ENOMEM after changing the pages before the hole. `VirtualAlloc` with `MEM_COMMIT` (src/arena.rs:147-149) fails as a whole for such a range on Windows, and commits nothing. The model does not capture that.
- BumpArena.Arena.AllocSlice: `count * size` is an unbounded product. The source's `usize` product can overflow for a huge `count`, and the model does not wrap it.
- src/main.rs only prints tokens, with floating-point width arithmetic, and is not part of this model.
- The commented-out check at src/arena.rs:253-255 shows that the capacity was meant to be a hard ceiling. The name `uncommitted_addr` shows that the field was meant to mark the first uncommitted byte, so a reset that uncommits pages would rewind it. The code does neither, and the model follows the code (`AllocRegion`, `FreeAll`). The corrected forms appear only under Findings.

## Findings

| source | as written | input that shows it | evidently intended | confidence | as-written member | corrected member |
|---|---|---|---|---|---|---|
| src/arena.rs:271-279 | `free_all` uncommits the pages below the rounded bump pointer but leaves `uncommitted_addr` where it was | 4096-byte pages: `alloc_region(8, 8)`, `free_all()`, `alloc_region(8, 8)`. The second region at the base lies in an uncommitted page, and no commit happens because the new bump is below `uncommitted_addr` | Also rewind `uncommitted_addr` to the base, so the next allocation commits again | not executed | ArenaSpec.FreeAllLeavesLiveBytesUncommitted | ArenaSpec.RunCorrectedKeepsLiveBytesCommitted |
| src/arena.rs:253-255 | The capacity check against `end_addr` is commented out | A one-page arena: `alloc_region(8192, 8)` returns the base and moves the bump pointer 4096 bytes past `end_addr` | Refuse a region that would end past `end_addr` | not executed | ArenaSpec.AllocRegionOverrunsEnd | ArenaSpec.AllocRegionCheckedStaysInBounds |
