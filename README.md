# dongshanMD launcher: choosing the document to open at start-up

dongshanMD is a Markdown editor packaged as a Tauri desktop application. When
the operating system starts it with a file (a double-click on a `.md` file, or
`dongshanmd notes.md` on a command line), the Rust launcher looks at the
command-line arguments, picks the document to open and hands it to the
front end. This project models that intake path in Dafny and proves what it
does:

- `clean_file_path` (module `App`): strip `"` from both ends, then `'`, then
  whitespace. Built on a model of Rust's `trim_start_matches`,
  `trim_end_matches`, `trim_matches` and `trim` (module `RustStr`), each
  trimming by a set of removable characters. `trim` uses Rust's
  `char::is_whitespace`, which is the Unicode White_Space property (25 code
  points).
- `is_supported_file` (module `App`): the lower-cased path ends with `.md`,
  `.markdown` or `.txt`.
- The setup closures of `run_app` (lib.rs) and `main` (main.rs), in module
  `Launcher`. Both skip the program name, clean every argument, keep the
  supported ones in order and hand the first one on, or nothing if none is
  left. The pipeline is written once (`FileArgs`, `SelectFile`). The two
  entry points are `LibOpenTarget` and `BinOpenTarget`, and `BinOpenTarget`
  is proved equal to `LibOpenTarget`.

What is proved, in short:

- Trimming removes characters of the given set from the two ends only, and
  all of them. `TrimmedFrom` says the result is a contiguous piece of the
  input with only removable characters around it. `EndsClear` says neither
  end of the result is removable. These two properties pin the result down
  uniquely.
- A cleaned path has no whitespace at either end. Only quotes and whitespace
  are taken away, and only at the ends.
- Cleaning depends on the order of the trims:
  - `"s"` and `'s'` become `s`.
  - `'"s"'` becomes `"s"`.
  - Whitespace outside a quote protects that quote, so ` "s" ` becomes `"s"`.
    Cleaning is therefore not idempotent.
  - `"s" ` becomes `s"`, which is never a supported file.
- The file-type test is a case-insensitive suffix test. Any text followed by a
  supported extension is accepted. Anything whose last character does not
  lower-case to `d`, `n` or `t` is rejected.
- The launcher never considers the program name. It hands exactly the cleaned
  form of the first argument that is supported after cleaning to
  `process_and_emit_file`, and arguments after that one do not matter. If no
  argument is supported, nothing is handed on. `process_and_emit_file` cleans
  the path once more, and because cleaning is not idempotent the path it
  goes on with can differ from the one handed to it.

Files: `wrappers.dfy` (Option), `rust_str.dfy`, `app.dfy`, `launcher.dfy`.

## Model

| member | source | states |
|---|---|---|
| `RustStr.TrimStartSpec` | src-tauri/src/app.rs:5 | `trim_start_matches` leaves a suffix of the input, drops only removable characters, and leaves a result that does not start with one, so the longest such prefix is removed |
| `RustStr.TrimEndSpec` | src-tauri/src/app.rs:5 | `trim_end_matches` leaves a prefix of the input, drops only removable characters, and leaves a result that does not end with one |
| `RustStr.TrimMatchesIsTrim` | src-tauri/src/app.rs:5 | `trim_matches` / `trim` leave a contiguous piece of the input with only removable characters cut off at the two ends, and neither end of the result is removable |
| `RustStr.TrimUnique` | src-tauri/src/app.rs:5 | those two properties determine the trimmed string uniquely, so they are a complete specification of the trim |
| `RustStr.TrimMatchesPeels` | src-tauri/src/app.rs:5 | trimming `pre + m + suf`, with `pre` and `suf` made of removable characters and `m` not starting or ending with one, gives exactly `m` |
| `App.CleanFilePathTrims` | src-tauri/src/app.rs:4-6 | a cleaned path has no whitespace at either end, and it is a contiguous piece of the input with only quotes and whitespace removed around it |
| `App.CleanKeepsClearPath` | src-tauri/src/app.rs:5 | a path that neither starts nor ends with a quote or whitespace is returned unchanged |
| `App.CleanStripsDoubleQuotes` | src-tauri/src/app.rs:5 | `"s"` cleans to `s` when `s` has no quote or whitespace at its ends |
| `App.CleanStripsSingleQuotes` | src-tauri/src/app.rs:5 | `'s'` cleans to `s` when `s` has no quote or whitespace at its ends |
| `App.CleanKeepsInnerDoubleQuotes` | src-tauri/src/app.rs:5 | double quotes are stripped before single quotes, so `'"s"'` cleans to `"s"` |
| `App.CleanShieldedLeadingQuote` | src-tauri/src/app.rs:5 | a space before the opening quote keeps that quote while the trailing one goes: ` "s"` cleans to `"s` |
| `App.CleanShieldedQuotes` | src-tauri/src/app.rs:5 | spaces outside both quotes keep both quotes: ` "s" ` cleans to `"s"` |
| `App.CleanNotIdempotent` | src-tauri/src/app.rs:5 | cleaning is not idempotent: cleaning ` "s" ` twice gives `s`, which differs from cleaning it once |
| `App.CleanStripsOpeningQuote` | src-tauri/src/app.rs:5 | an unmatched opening double quote is stripped too: `"s` cleans to `s` when `s` has no quote or whitespace at its ends |
| `App.CleanSpaceAfterClosingQuote` | src-tauri/src/app.rs:5 | because quotes are trimmed before whitespace, `"s" ` cleans to `s"`, which `is_supported_file` rejects |
| `App.SupportedIffExtension` | src-tauri/src/app.rs:75-80 | `is_supported_file(p)` holds iff the last characters of `p`, lower-cased, are `.md`, `.markdown` or `.txt` |
| `App.SupportedIgnoresCase` | src-tauri/src/app.rs:76 | two paths that lower-case to the same text are accepted or rejected together |
| `App.SupportedIffLowercaseSupported` | src-tauri/src/app.rs:76 | `is_supported_file(p) == is_supported_file(lowercase(p))` |
| `App.SupportedAnyPrefix` | src-tauri/src/app.rs:77-79 | any text followed by a supported extension is accepted (a pure suffix test) |
| `App.SupportedLastChar` | src-tauri/src/app.rs:77-79 | an accepted path has at least three characters and its last one lower-cases to `d`, `n` or `t` |
| `App.SupportedExamples` | src-tauri/src/app.rs:75-80 | `NOTE.MD` and the bare `.md` are accepted |
| `App.UnsupportedExamples` | src-tauri/src/app.rs:77-79 | `x.mdx`, `x.md.bak` and `md` are rejected |
| `Launcher.FileArgs` | src-tauri/src/lib.rs:25-34 | `file_args` holds only supported paths, is an in-order subsequence of the cleaned arguments, and is no longer than the argument list |
| `Launcher.FileArgsMembers` | src-tauri/src/lib.rs:25-34 | a path is in `file_args` iff it is supported and is the cleaned form of some argument |
| `Launcher.FileArgsAppend` | src-tauri/src/lib.rs:25-34 | the filter works argument by argument and keeps order: the file list of `a + b` is that of `a` followed by that of `b` |
| `Launcher.FileArgsHead` | src-tauri/src/lib.rs:36-38 | `file_args` is empty iff no cleaned argument is supported; otherwise its first element is the cleaned form of the first supported argument |
| `Launcher.SelectFile` | src-tauri/src/lib.rs:36-42 | nothing is handed on iff no cleaned argument is supported; otherwise the result is the cleaned form of the first argument that is supported after cleaning |
| `Launcher.SelectFileIgnoresLater` | src-tauri/src/lib.rs:37-39 | once a file is selected, appending more arguments does not change the selection |
| `Launcher.LibOpenTarget` | src-tauri/src/lib.rs:20-42 | the program name `argv[0]` is skipped; nothing is handed to `process_and_emit_file` iff no later argument is supported after cleaning, otherwise exactly the cleaned first supported later argument is |
| `Launcher.ProgramNameIgnored` | src-tauri/src/lib.rs:20 | replacing the program name by any other string does not change what is handed on |
| `Launcher.QuotedArgumentOpened` | src-tauri/src/lib.rs:25-28 | the support test sees the cleaned argument, so `"doc.md"` (with its quotes) is accepted and handed on as `doc.md` |
| `Launcher.HandedOnPathRecleaned` | src-tauri/src/app.rs:84 | ` "doc.md"` is handed on as `"doc.md`, and the second `clean_file_path` in `process_and_emit_file` turns that into `doc.md`: the path it goes on with is not the one it was given |
| `Launcher.BinOpenTarget` | src-tauri/src/main.rs:18-37 | the binary's setup closure selects the same file as the library's for every argument vector, so every property above holds for it too |

## Left out

- `to_absolute_path` (src-tauri/src/app.rs:9-72) is not modelled. It depends on `std::fs::canonicalize` and the process's current directory, which are filesystem and process-state input.
- `process_and_emit_file` (src-tauri/src/app.rs:83-102) is not modelled. It cleans the path again, makes it absolute, checks support on the absolute path, then emits an `open-file` event from a thread after an 800 ms sleep. That is I/O and concurrency. `LibOpenTarget` and `BinOpenTarget` stop at the path they hand to it.
- `get_file_args` (src-tauri/src/lib.rs:4-7, src-tauri/src/commands.rs:4-7) is a Tauri command that reads the process arguments. Its only logic, `skip(1)`, is `Launcher.ProgramArgs`.
- The Tauri builder, plugin registration, invoke handler and `.run`/`.expect` are framework plumbing and are not modelled. So is all `println!`/`eprintln!` logging.
- `RustStr.ToLowercase` does not model full Unicode `to_lowercase`. It lower-cases `A`-`Z` and maps the Kelvin sign U+212A to `k`, and keeps every other character. That is enough for the suffix test: no other character lower-cases to a different text that ends in an ASCII letter or a dot (the only mapping that lengthens a character, `İ` to `i` plus U+0307, ends in U+0307, which is in no extension), so `is_supported_file` decides the same either way. The model does not capture length-changing mappings such as `İ` to `i` plus a combining dot.
- `Launcher.ProgramArgs`: the process arguments are modelled as already-decoded strings. `std::env::args()` (src-tauri/src/lib.rs:20, src-tauri/src/main.rs:18) panics when any argument, the program name included, is not valid Unicode; that panic is not modelled, so `LibOpenTarget` and `BinOpenTarget` describe only argument vectors that decode.
- Rust strings are UTF-8 bytes. The model works on sequences of Unicode scalar values, which is what `trim_matches`, `trim`, `to_lowercase` and `ends_with` act on.
