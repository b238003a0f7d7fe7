# cmdline: construction of a `Cmdline` object and its usage text

`cmdline` is a C++ library that reads a docopt-style usage string and evaluates a
process's argument vector against it. This project models the part of it that has a
body: the constructor `cmdline::Cmdline::Cmdline(argc, argv, spec)` and the accessor
`usage()`.

The constructor does three things:

- It measures the caller's NUL-terminated usage text with `strlen` and sets `specEnd`.
- It moves the cursor `spec` past the line breaks at the start of the text. Each step
  skips one character. A step is taken when the cursor is on a `'\n'`, or on a `'\r'`
  directly followed by a `'\n'`, so a `"\r\n"` pair takes two steps.
- It copies the rest of the text into `usageMsg`. `usage()` returns that copy as it is.

The model has three modules:

- `CString` (`cstring.dfy`): the caller's memory is a `seq<char>` that holds a NUL,
  and a `char*` into it is an index. Each Dafny `char` stands for one C `char`, a
  byte, so `StrLen` counts bytes as `strlen` does, also for multi-byte text. `StrLenAt(buf, k)` is `strlen(p + k)`: the
  number of characters from `k` to the next NUL. `CopyFrom(buf, k)` is
  `std::string(p + k)`. `Text` is the whole C string.
- `Trim` (`trim.dfy`): `Skippable(buf, end, i)` is the loop condition, with `end`
  playing `specEnd`. `SkipFrom` is where the loop stops. `Trimmed` is the text that is
  left. Lemmas state what the trim does and does not do.
- `Cmdline` (`cmdline.dfy`): the class `Cmdline` has the fields of
  `include/cmdline/cmdline.h`: `spec`, `specEnd`, `usageMsg`, `options`, `positionals`
  and `noValue`. The two pointers become indices into the caller's buffer, which the
  ghost field `buffer` records. The constructor runs the trim loop over those fields.
  `Valid()` (through `Constructed`) describes the state it leaves.
  `ConstructedUsage` proves that this state holds `UsageOf(buffer)`, the pure
  description of the trimmed text.

The loop strips the whole leading run of `'\n'` and `"\r\n"`. `usageMsg` is a
`std::string` copy of the trimmed text, while `spec` and `specEnd` still point into
the caller's buffer.

## Model

| member | source | states |
|---|---|---|
| `CString.StrLenAt` | source/cmdline.cpp:13 | `strlen(p + k)` counts up to a NUL inside the buffer, and no NUL comes before it |
| `CString.StrLen` | source/cmdline.cpp:13-14 | `specEnd = spec + strlen(spec)` is the index of a NUL, and no NUL comes before it |
| `CString.StrLenOfSuffix` | source/cmdline.cpp:13-22 | from a cursor `k` inside the string, `strlen` gives `strlen(p) - k` |
| `CString.CopyFrom` | source/cmdline.cpp:22 | `std::string(spec)` taken from a cursor inside the text is exactly the text from that cursor up to `specEnd` |
| `CString.Text` | source/cmdline.cpp:13-14 | the text of the C string is the buffer's prefix up to the terminator, and it holds no NUL |
| `CString.TextOfTerminated` | source/cmdline.cpp:22 | a string without NUL, written out with a terminator, is read back unchanged |
| `Trim.Skippable` | source/cmdline.cpp:18 | the loop condition: the cursor is on a `'\n'`, or on the `'\r'` of a `"\r\n"` pair, read only below `specEnd` |
| `Trim.SkipFrom` | source/cmdline.cpp:18-19 | the loop never moves the cursor past the end: `i <= j <= specEnd`. At its stop the condition fails, and it held at every position it passed |
| `Trim.SkipFromFirstStop` | source/cmdline.cpp:18-19 | the loop stops at the first position where its condition fails, and at no other |
| `Trim.ReadsBelowEnd` | source/cmdline.cpp:18 | nothing at or past `specEnd` is read: two buffers that agree below `specEnd` stop at the same cursor |
| `Trim.Trimmed` | source/cmdline.cpp:18-22 | what is left is a suffix of the text, with nothing added, reordered or dropped at the end, and it does not start with `'\n'` or `"\r\n"` |
| `Trim.RemovedPrefix` | source/cmdline.cpp:18-19 | each removed character is a `'\n'`, or a `'\r'` directly followed by `'\n'` |
| `Trim.UnchangedIff` | source/cmdline.cpp:18-22 | the text is kept whole exactly when it does not start with `'\n'` or `"\r\n"` (so `"\rX"` is kept whole), in both directions |
| `Trim.Idempotent` | source/cmdline.cpp:18-22 | trimming the trimmed text changes nothing |
| `Trim.AppendKept` | source/cmdline.cpp:18-22 | text after the stopping point is kept verbatim, including trailing line breaks, unless what is left is empty or a lone `'\r'` |
| `Cmdline.DefaultValue` | include/cmdline/cmdline.h:17 | a default `Value`, such as `noValue` (include/cmdline/cmdline.h:60), has no text and its `exists()` flag is true |
| `Cmdline.UsageOf` | source/cmdline.cpp:13-22 | the usage message is a suffix of the caller's text that ends at the terminator and does not start with a line break |
| `Cmdline.ConstructedUsage` | source/cmdline.cpp:13-22 | the state the constructor leaves (`specEnd` at the terminator, `spec` where the loop stops, `usageMsg` copied between them) holds exactly `UsageOf` of the caller's text |
| `Cmdline.ReconstructIdempotent` | source/cmdline.cpp:11-22 | constructing from an already-built usage message gives the same usage message |
| `Cmdline.Cmdline.constructor` | source/cmdline.cpp:11-23 | `specEnd` is `strlen(spec_)`. `spec` is where the loop stops, and `usageMsg` is `std::string(spec)`. The argument vector is ignored, `options` and `positionals` are empty, and the object is `Valid()` |
| `Cmdline.Cmdline.Usage` | source/cmdline.cpp:29-31 | returns the stored `usageMsg` without changing anything. That text is `UsageOf` the caller's text and does not start with a line break |
| `Cmdline.RepeatedUsage` | source/cmdline.cpp:29-31 | two calls of `usage()` return the same text, and the object stays valid |

## Left out

- The usage-grammar parser and the argument-vector evaluator are left out. These are
  `study()`, `eval()` and `operator[]` in include/cmdline/cmdline.h, and `parse` and
  `study` in v0/cmdline.h. They are only declared, and no body for them is part of
  this model.
- `failed` is never assigned, so the model has no field for it.
- `Value(char*)` leaves `valid` uninitialised, so it is not modelled. Only the default
  `Value()`, which `noValue` uses, is modelled. Its `exists()` flag is true, though the
  comment on `operator[]` says it is false. No modelled code reads `noValue`.
- `int len = strlen(spec)` would truncate texts longer than `INT_MAX`. The model uses
  unbounded integers.
- source/sketches.cpp is compiled out by `#if 0`, so it is not modelled.
- The demo and test drivers (v0/main.cpp, test/main.cpp, test/git-clone.cpp) only
  print. They are not modelled.
- The empty destructor has nothing to model.
- Pointer aliasing is left out. The model treats the caller's memory as an immutable
  sequence. It does not model a caller that changes or frees that memory while the
  object is alive.
