# todo — a verified model of the early command-line to-do tool

This is the first version of `todo`, a command-line to-do tool, modelled in Dafny. Tasks live as lines
of the plain text file `todos.txt`. Each line starts with the marker `[ ] ` (pending) or
`[x]` (done). One invocation of `todo <command> [argument]` runs `run` in `src/main.rs`.
`run` dispatches on the command word:

- `add <text>` appends the line `[ ] <text>` to the file, creating the file if needed.
- `list` prints the lines numbered from 1, or `Nenhuma tarefa` when the file cannot be read.
- `done <n>` and `undone <n>` rewrite line `n`. `done` replaces every `[ ]` in it by `[x]`, and
  `undone` does the reverse.
- `remove <n>` deletes line `n`.

The edit commands split the file with Rust's `str::lines` and write it back as the lines
joined by `"\n"`, plus a final `"\n"`.

The model takes one invocation as a value. The arguments are a `seq<string>`. The file is
a `Store`: `Absent`, `Unreadable(reason)` or `Text(content)`. The result is an error, or
the new store together with the lines printed.

The project has these modules:

- `Replace` (replace.dfy): `String::replace`, as leftmost non-overlapping replace-all, and
  what it does to the two status markers.
- `LineText` (lines.dfy): `str::lines`, `join` and the write-back format. It proves that
  writing and then re-reading the lines gives them back.
- `Number` (number.dfy): `str::parse::<usize>()` with its three error kinds, and the
  decimal numbers that `list` prints.
- `Todo` (todo.dfy): the store, the errors and their messages. It holds `Run` and the
  per-command functions, which are the specification of one invocation, and `Finish`
  for `main`'s exit.
- `TodoProperties` (properties.dfy): what the commands promise, stated over `Run`. This
  covers the order of the checks, the bounds, which lines change, the shift after a
  removal, what `add` appends, and the done/undone round trip.
- `LineVector` (vec.dfy): the `Vec<String>` that the edit commands change in place. It is
  an array plus a length, with element assignment and `Vec::remove`, which shifts the
  later elements down.
- `Invocation` (invocation.dfy): `run` written step by step as the source does it. It has
  the listing loop and the in-place edits of the vector. `Execute` is proved to return
  exactly what `Run` specifies.

This version differs from the later versions of the tool, and the model follows this version's code:

- The file is a text file, not a JSON store.
- `done` on a line that is already done, and `undone` on a pending line, succeed and change
  nothing. They are not rejected.
- `list` on an unreadable file prints `Nenhuma tarefa`.

One edge case is proved rather than corrected (`RemoveOnlyTask`). Removing the only task
writes `"\n"`, and the next invocation reads that as one empty task, listed as `1. `.

## Model

| member | source | states |
|---|---|---|
| `Replace.ReplaceAllNoOccurrence` | src/main.rs:67 | a line without the searched marker is returned unchanged, so `done` on a line holding no `[ ]` silently succeeds |
| `Replace.ReplaceAllRemovesEvery` | src/main.rs:67 | after the rewrite no occurrence of the searched marker is left, including ones inside the task text |
| `Replace.ReplaceAllUnchangedIff` | src/main.rs:90 | the rewrite leaves a line unchanged exactly when the line holds no occurrence of the searched marker |
| `Replace.ReplaceAllPointwise` | src/main.rs:67 | swapping markers keeps the length; character i becomes the other marker's middle character exactly when a marker starts at i-1, and every other character is unchanged |
| `Replace.ReplaceAllRoundTrip` | src/main.rs:67-90 | replacing `[ ]` by `[x]` and then `[x]` by `[ ]` restores any line that held no `[x]` |
| `LineText.LinesHaveNoNewline` | src/main.rs:60 | no line produced by `lines` contains a line break |
| `LineText.SerializeRoundTrip` | src/main.rs:60-69 | writing a non-empty sequence of lines (none holding '\n' or ending in '\r') with `join("\n") + "\n"` and reading it with `lines` gives the same sequence |
| `LineText.SerializeEmpty` | src/main.rs:115 | an empty sequence of lines is written as `"\n"`, which reads back as one empty line |
| `LineText.LinesAppend` | src/main.rs:31-36 | text ending in a line break splits independently of what is appended after it |
| `Number.ParseDigits` | src/main.rs:56 | the digit scan of `parse::<usize>()` accepts only digits and yields a value within the 64-bit range |
| `Number.ParseUsize` | src/main.rs:56 | `parse::<usize>()`: the empty string fails with Empty; a success means an optional '+' followed by at least one digit and nothing else, with a value of at most 2^64-1 |
| `Number.Decimal` | src/main.rs:43 | the printed number is a non-empty string of decimal digits |
| `Number.ParseDecimal` | src/main.rs:43-56 | every number that `{}` prints for a usize parses back to that number |
| `Todo.Finish` | src/main.rs:5-10 | the exit status is 0 exactly on success; on an error it is 1 and `Erro: ` plus the message goes to standard error |
| `TodoProperties.DispatchErrors` | src/main.rs:15-120 | fewer than two arguments fail with the usage message (and only they do); a command word other than the five fails with `Comando desconhecido`, whatever the file holds |
| `TodoProperties.ListReadsOnly` | src/main.rs:40-49 | `list`, with or without further arguments, never fails and never writes; without a readable file it prints `Nenhuma tarefa`, and an empty file prints nothing |
| `TodoProperties.EditChecksInOrder` | src/main.rs:51-64 | `done`/`undone`/`remove` fail first on a missing argument, then on a number that does not parse, then on a file that cannot be read, whatever the later inputs are |
| `TodoProperties.EditBounds` | src/main.rs:62-64 | with a readable file, task number n is accepted exactly when 1 <= n <= the number of lines; otherwise the error is "Número de tarefa inválido" and nothing is written |
| `TodoProperties.MarkRewritesOneLine` | src/main.rs:66-69 | after `done`/`undone` the file re-reads with the same number of lines, every line except n-1 unchanged, and line n-1 with every marker replaced and none left; that line is unchanged exactly when it held no marker |
| `TodoProperties.RemoveShiftsDown` | src/main.rs:112-115 | after `remove n` the file re-reads one line shorter, with the lines before n-1 unchanged and each later line one position down |
| `TodoProperties.RemoveOnlyTask` | src/main.rs:112-115 | removing the only line writes `"\n"`, which re-reads as one empty task listed as `1. ` |
| `TodoProperties.TaskLineNotDone` | src/main.rs:36 | a line written by `add` holds no `[x]` when its text holds none |
| `TodoProperties.AddAppendsTask` | src/main.rs:31-36 | `add` keeps the old content as a prefix; on an absent file, or one that ends in a line break, the file re-reads as the old lines plus the one line `[ ] text` |
| `TodoProperties.MarkThenUnmark` | src/main.rs:67-90 | marking a line done and then pending restores the lines when that line held no `[x]` |
| `TodoProperties.DoneThenUndone` | src/main.rs:66-92 | for a task line written by `add` whose text holds no `[x]`, `done n` then `undone n` both succeed, and the file re-reads as the original lines |
| `TodoProperties.ListedNumberSelectsLine` | src/main.rs:42-64 | the k-th line that `list` prints is the number k+1, then ". ", then line k; given that number, `done`/`undone`/`remove` act on line k |
| `LineVector.LineVec.Collect` | src/main.rs:60 | the collected vector holds exactly the lines of the file |
| `LineVector.LineVec.Set` | src/main.rs:67 | assigning element i changes that element only; the length is unchanged |
| `LineVector.LineVec.Remove` | src/main.rs:113 | `Vec::remove(i)` returns element i and leaves the elements before i followed by those after it |
| `Invocation.PrintListing` | src/main.rs:42-44 | the listing loop prints one line per task, in file order, numbered from 1 |
| `Invocation.EditLines` | src/main.rs:58-69 | the in-place edit of the collected vector writes what the edit command specifies, and rejects task numbers out of range |
| `Invocation.Execute` | src/main.rs:12-125 | the step-by-step `run` returns exactly the result that `Run` specifies, for every argument vector and file state |

## Left out

- File I/O, `env::args`, `println!`, `eprintln!` and `process::exit` are not modelled. The
  file is the `Store` parameter and the written file is part of the result. Printed lines
  are a `seq<string>`, and standard error and the exit status come from `Finish`.
- A failed write (`writeln!` or `fs::write` returning an error) is not modelled. Every
  write succeeds.
- `Store` does not separate a file that cannot be read from one that cannot be appended
  to: `Unreadable` means that both fail, and `Text` that both succeed. Three cases fall
  outside this. A file that is not valid UTF-8 can be appended to but not read. A
  read-only file can be read, but `add` fails on it when it opens the file for appending,
  while the model's `Add` on `Text` succeeds. A write-only file can be appended to, but
  not read, while the model's `Add` on `Unreadable` fails.
- I/O error texts come from the operating system. Only the missing-file text is fixed, as
  Linux's `No such file or directory (os error 2)`.
- `usize` is taken to be 64 bits wide.
- `Lines` follows the current Rust standard library: a last line without a line break
  keeps a trailing '\r'. Older toolchains strip that '\r' too.
- `Replace.ReplaceAll` requires a non-empty pattern. The source only replaces the
  non-empty markers `[ ]` and `[x]`.
- The three edit branches of `run` share one function (`Todo.EditCommand`) and one method
  (`Invocation.EditLines`), with the command as an `Edit` value. The source writes the
  branch out three times.
- `TodoProperties.MarkRewritesOneLine`: the re-read form holds only when no line of the
  file ends in '\r'. For such a line, writing it back and re-reading drops that '\r'.
- `TodoProperties.RemoveShiftsDown`: proved under the same condition, and for files of at
  least two lines. The one-line case is `RemoveOnlyTask`.
- `TodoProperties.DoneThenUndone`: proved under the same condition.
- `TodoProperties.AddAppendsTask`: the line-level statement needs a file that ends in a
  line break and a task text without '\n' or a trailing '\r'. On a file whose last line is
  unterminated, the source glues the new task onto that line. The prefix statement is
  proved under the same conditions; `Todo.Add` appends in every case.
- `TodoProperties.ListedNumberSelectsLine`: proved for numbers up to 2^64-1.
