# Cest.c test registry and runner, modelled in Dafny

`Cest.c` is a small unit-test library for C. Tests are records (`struct cest`):
a body, the function pointer that returns a `cest_state`, plus a namespace and
a name, each copied into a fixed `char` buffer by `Cest__create`.
`Cest__enroll` appends a record at the tail of a global singly linked list
rooted at `Cest.first`. `Cest__of` looks a record up by namespace and name.
`Cest__run_all` runs every enrolled test in enrolment order and prints a
coloured status line for each, then a summary line. It returns
`total - successes`.

The model has five modules, one per concern of `Source/Cest.c`:

- `CStrings` (`cstrings.dfy`) covers three things:
  - the C-string view of a `char` buffer, which is what `strcmp` and `%s` read;
  - the `STRCPY` macro, as a function on sequences and as a method on an `array<char>`;
  - `%d` rendering.
- `Ansi` (`ansi.dfy`) holds the `ANSIEscapes` constants. They are SGR control sequences in the sense of ECMA-48 section 8.3.117.
- `Records` (`records.dfy`) holds the `cest_state` enumeration, `struct cest` as the class `CestRecord`, `Cest__create` as its constructor, and `cest__execute`.
- `Report` (`report.dfy`) states what the runner computes:
  - the outcomes;
  - the two counters, and what they really count;
  - the colours;
  - the output lines, modelled as the `printf` calls with their arguments (`Line`), and their characters (`Text`).
- `Registry` (`registry.dfy`):
  - `struct cest_node` is `CestNode`: real heap nodes with a mutable `next`.
  - The family object `Cest` is a class with the field `first`. Its ghost `Contents` and `Nodes` sequences describe the list.
  - Enrolment walks to the tail in a `while` loop (`Tail`) and links the new node in.
  - The lookup is a recursive read-only function over the nodes.
  - The runner is a method with the source's loop over `current_node`.

## Where the code and its documentation differ

The model follows the code.

- **Lookup misses.** The comment on `of` (Source/Cest.c:116-117) says the lookup returns `NULL` when nothing matches. The code calls `exit(1337)` instead (line 215). In the model a miss is `Exit(1337)`.
- **Empty registry.** The lookup dereferences `Cest.first` before comparing anything (line 210), so it is undefined on an empty registry. `Of` therefore requires `first != null`.
- **The `successes` counter.** The test `if (return_value)` (line 193) is true for `success` and for `pending`, so `successes` counts pending tests too.
- **The `pends` counter.** The test `if (return_value - 1)` (line 194) is true for `failure` and for `pending`, so `pends` counts failing tests too.
- **Consequences of the counters.** The result `total - successes` is the number of *failed* tests, so a pending test does not make it nonzero. The summary of a run with a success, a failure and a pending test reads `2 successes (of 3)`. The yellow summary colour is reachable: it shows when nothing failed and something is pending (`SummaryOfPendingTests`). `CountersMeaning` states exactly what each counter counts.
- **Long names end the run.** Every test body made by the `CEST` macro starts by looking itself up with `Cest.of(#NAMESPACE, #NAME)` (line 59), passing the full literal, not the cut copy. A test whose namespace is longer than 31 characters, or whose name is longer than 215, is therefore never found, and the whole run ends with `exit(1337)` when that body starts. `LongQueryExits` proves the lookup half of this; expanding the macro is not part of the model.

## Model

| member | source | states |
|---|---|---|
| CStrings.CString | Source/Cest.c:196-198 | The string `%s` and `strcmp` read from a buffer: a prefix of the buffer with no NUL, stopping at the first NUL or at the end. |
| CStrings.CStringUnique | Source/Cest.c:211-212 | Any NUL-free prefix that ends at a NUL or at the end of the buffer is the C string, so the C-string view is determined. |
| CStrings.CStringBound | Source/Cest.c:154 | A buffer with a NUL in cell `k` holds a C string of at most `k` characters. |
| CStrings.Strncpy | Source/Cest.c:154 | `strncpy` over the whole buffer copies the source's C string as far as it fits, and the cells that hold a NUL are exactly those past the copied characters. |
| CStrings.StrCpyBuffer | Source/Cest.c:153-154 | After `STRCPY` the buffer has its full size and ends in a NUL. |
| CStrings.StrCpyTruncates | Source/Cest.c:153-154 | `STRCPY` into a buffer of `size` chars stores the longest prefix of the source C string that fits in `size - 1` characters. That is a prefix of the source, never longer than `size - 1`. |
| CStrings.StrCpyTruncatesPlain | Source/Cest.c:153-154 | For a NUL-free source string the stored string is `from[..min(|from|, size - 1)]`. |
| CStrings.StrCpy | Source/Cest.c:153-154 | The in-place copy leaves the array holding exactly the `STRCPY` buffer of the source. |
| CStrings.Decimal | Source/Cest.c:200-202 | `%d` of a count is a non-empty digit string with no leading zero. |
| CStrings.DecimalRoundTrip | Source/Cest.c:200-202 | Reading back the digits `%d` printed gives the number. |
| Records.Ordinal | Source/Cest.c:87 | The enumerators `failure`, `success` and `pending` have the values 0, 1 and 2. |
| Records.CestRecord.Create | Source/Cest.c:217-225 | `Cest__create` keeps the body unchanged and fills both buffers as `STRCPY` does. The stored namespace is the argument's C string cut to 31 characters, and the stored name is cut to 215. |
| Report.SuccessesIn | Source/Cest.c:190-193 | The `successes` counter after the first `n` tests, one for each nonzero enumerator value, never exceeds `n`. |
| Report.PendsIn | Source/Cest.c:190-194 | The `pends` counter after the first `n` tests, one for each enumerator value other than 1, never exceeds `n`. |
| Report.CountsPartition | Source/Cest.c:87 | Every outcome is exactly one of failure, success and pending. |
| Report.CountersMeaning | Source/Cest.c:193-194 | `successes` counts successful and pending tests, that is, all but the failed ones. `pends` counts failed and pending tests, that is, all but the successful ones. |
| Report.CountZero | Source/Cest.c:204 | A count of an outcome is zero exactly when no test has that outcome. |
| Report.FailedTests | Source/Cest.c:204 | `total - successes` is the number of failed tests and at most the total. It is zero exactly when no test failed. |
| Report.Text | Source/Cest.c:196-202 | The characters each of the two `printf` formats writes, with `%s` of a buffer writing its C string and `%d` its decimal digits. |
| Report.TextIsOneLine | Source/Cest.c:196-202 | Each `printf` writes exactly one line, ending in its format's newline, when the strings it receives hold no newline. |
| Report.ColourOfValue | Source/Cest.c:197 | The ternary on `return_value` that picks the status colour. |
| Report.StatusColour | Source/Cest.c:197 | The status colour is red for a failure, green for a success and yellow for a pending test. |
| Report.TestLine | Source/Cest.c:196-198 | The status `printf` for a test: its namespace buffer, the colour of its outcome, its name buffer. |
| Report.CreatedStatusText | Source/Cest.c:196-198 | For a record made by `Cest__create` from NUL-free strings, the status line shows the namespace cut to 31 characters, the outcome's colour and the name cut to 215. |
| Report.StatusColourInjective | Source/Cest.c:158-164 | The three status colours are five characters long and pairwise distinct. |
| Report.StatusLineShowsOutcome | Source/Cest.c:196-198 | Two status lines for the same namespace and name are equal only when the tests had the same outcome. |
| Report.SummaryColour | Source/Cest.c:201 | The summary colour is red exactly when `successes < total`, yellow exactly when not and `pends` is nonzero, green otherwise. |
| Report.Summary | Source/Cest.c:200-202 | The summary `printf` for a run reports the total and, as `successes`, the number of tests that did not fail. |
| Report.SummaryColourMeaning | Source/Cest.c:200-201 | The summary is red exactly when some test failed. It is yellow exactly when none failed and some is pending, and green exactly when all succeeded. |
| Report.SummaryOfNoTests | Source/Cest.c:200-202 | An empty run prints `0 successes (of 0)` in green. |
| Report.SummaryOfMixedTests | Source/Cest.c:193-202 | A run of a success, a failure and a pending test prints `2 successes (of 3)` in red. |
| Report.SummaryOfPendingTests | Source/Cest.c:193-202 | A run of a success and a pending test prints `2 successes (of 2)` in yellow. |
| Registry.CestNode.constructor | Source/Cest.c:227 | A new node holds the record and a NULL `next`. |
| Registry.Matches | Source/Cest.c:211-212 | The two `strcmp` calls both find the stored string equal to the argument's C string. |
| Registry.FirstMatchStep | Source/Cest.c:211-214 | Past a record that does not match, the first match is the same from either position. |
| Registry.FirstMatchUnique | Source/Cest.c:211-214 | A query has at most one first match. |
| Registry.FirstMatchKept | Source/Cest.c:227-239 | Appending records leaves every existing first match where it was. |
| Registry.LongQueryNeverMatches | Source/Cest.c:211-212 | A query longer than a buffer can hold never equals a stored string. |
| Registry.Cest.constructor | Source/Cest.c:175-185 | The registry starts with `first == NULL` and no record enrolled. |
| Registry.Cest.Tail | Source/Cest.c:236-238 | The walk from `first` along `next` ends at the last node, whose `next` is NULL. |
| Registry.Cest.Enroll | Source/Cest.c:227-241 | Enrolling appends the record: the contents become the old contents plus the record. The old nodes keep their positions, `first` changes only when the list was empty, and every earlier first match is kept. |
| Registry.Cest.OfFrom | Source/Cest.c:210-215 | From a node, the lookup returns the first record at or after it that matches. If none matches, it exits with status 1337. |
| Registry.Cest.Of | Source/Cest.c:208-209 | The lookup from `first` returns the first matching record. It exits with 1337 exactly when no enrolled record matches. |
| Registry.Cest.OfFindsFirst | Source/Cest.c:208-214 | The record at the first matching position is the one returned, never a later duplicate. |
| Registry.Cest.LongQueryExits | Source/Cest.c:210-215 | A query too long for the buffers always makes the lookup exit with 1337. |
| Registry.Cest.RunAll | Source/Cest.c:187-204 | The runner returns the number of failed tests, which lies in `[0, total]` and is zero exactly when no test failed. It prints each record's status line once, in enrolment order (`TestLines`), then the summary of their outcomes (`Outcomes`, one per record in order); these two definitions are what the loop is checked against. |

## Left out

- Self-registration through the `CEST` macro and load-time constructors depends on the compiler and the linker. Registration is modelled as explicit calls to `Enroll`.
- The `ASSERT`, `FAIL`, `SUCCEED` and `PEND` macros are textual glue inside test bodies. Test bodies are opaque here.
- `cest__complete` is unimplemented in the source: it has no body statements and no return value. It is not modelled.
- Test bodies: a record's function pointer is modelled as a total Dafny function of no arguments. A body that faults, hangs or has side effects is not modelled.
- Records.Execute: `cest__execute` (line 243) is only the call through the function pointer, so the model has no property of it beyond that call.
- A C `char` is a byte, a Dafny `char` a character: the 31- and 215-character cuts of `STRCPY` count bytes in C. The two agree for the ASCII identifiers that the `CEST` macro turns into the namespace and name strings.
- `malloc` failure is not modelled. Its result is never checked, so a failure would be a NULL dereference. Allocation always succeeds in the model.
- Records.CestRecord.Create: the buffers are filled by an in-place `STRCPY` on a fresh array and then kept as immutable sequences. Later writes to a record's buffers, and aliasing of them, are not modelled; nothing in the core writes them.
- Byte-level C string details are kept only as far as the NUL-terminated view. This covers `strncpy` padding and an embedded NUL that ends a C string. `strcmp` is modelled by its equality result only, not its ordering.
- `printf` and standard output: the runner returns the sequence of `printf` calls with their arguments, and `Text` gives the characters each writes.
- The `main` shim and the truncation of the exit status to 8 bits by the operating system are not modelled.
- Registry.Cest.RunAll: `int` overflow of the counters is not modelled. The runner requires at most `INT_MAX` enrolled records, so `total` and `successes` stay in range, and the result is a 32-bit value.
- `exit(1337)` ending the process is modelled as the `Exit` outcome of the lookup.
