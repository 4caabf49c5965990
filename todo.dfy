/** One invocation of the `todo` command (`run` in src/main.rs) as a function
    from the argument vector and the state of `todos.txt` to either an error
    or the new state of the file together with the lines printed. */
module Todo {
  import opened Replace
  import opened LineText
  import opened Number

  /** The file `todos.txt` as one invocation finds it. */
  datatype Store =
    | Absent                    // no such file: reading fails, appending creates it
    | Unreadable(reason: string) // exists but cannot be opened: reading and appending fail
    | Text(content: string)      // readable, with this content

  /** Why an invocation fails; `Message` gives the text `main` prints. */
  datatype Error =
    | NoCommand                     // fewer than two arguments
    | MissingArgument(command: string) // the command word without its argument
    | BadNumber(cause: ParseIntError)  // the task number does not parse
    | Io(reason: string)               // the file could not be read or opened
    | InvalidTaskNumber                // 0 or more than the number of lines
    | UnknownCommand(command: string)

  /** What a successful invocation leaves behind: the file and the lines it
      printed on standard output. */
  datatype Effect = Effect(store: Store, output: seq<string>)

  datatype Result = Ok(effect: Effect) | Err(error: Error)

  /** The operating system's text for a missing file (Linux). */
  const NOT_FOUND: string := "No such file or directory (os error 2)"
  const NO_TASKS: string := "Nenhuma tarefa"
  const USAGE: string := "Uso: todo <comando> [argumentos]\nComandos: add, list, done, undone, remove"

  function Message(e: Error): string
  {
    match e
    case NoCommand => USAGE
    case MissingArgument(cmd) =>
      if cmd == "add" then "Uso: todo add <tarefa>" else "Uso: todo " + cmd + " <número>"
    case BadNumber(cause) => ParseErrorText(cause)
    case Io(reason) => reason
    case InvalidTaskNumber => "Número de tarefa inválido"
    case UnknownCommand(cmd) => "Comando desconhecido: " + cmd
  }

  /** The line `add` writes for a new, pending task. */
  function TaskLine(text: string): string
  {
    "[ ] " + text
  }

  /** `add <text>`: appends the task line and a '\n' to the file, creating it
      when it is absent; the existing content is never read or parsed. */
  function Add(args: seq<string>, store: Store): Result
    requires |args| >= 2
  {
    if |args| < 3 then Err(MissingArgument("add"))
    else
      var appended := TaskLine(args[2]) + "\n";
      match store
      case Absent => Ok(Effect(Text(appended), ["✓ Tarefa adicionada"]))
      case Unreadable(reason) => Err(Io(reason))
      case Text(content) => Ok(Effect(Text(content + appended), ["✓ Tarefa adicionada"]))
  }

  /** The listing: line k of the file printed as "k+1. line". */
  function Listing(lines: seq<string>): seq<string>
  {
    seq(|lines|, k requires 0 <= k < |lines| => Decimal(k + 1) + ". " + lines[k])
  }

  /** `list`: prints the numbered lines, or "Nenhuma tarefa" when the file
      cannot be read; it never fails and never writes. */
  function List(store: Store): Result
  {
    match store
    case Text(content) => Ok(Effect(store, Listing(Lines(content))))
    case _ => Ok(Effect(store, [NO_TASKS]))
  }

  /** The three commands that rewrite one numbered line. */
  datatype Edit = MarkDone | MarkPending | Delete

  function CommandWord(e: Edit): string
  {
    match e
    case MarkDone => "done"
    case MarkPending => "undone"
    case Delete => "remove"
  }

  function Confirmation(e: Edit): string
  {
    match e
    case MarkDone => "✓ Tarefa marcada como concluída"
    case MarkPending => "✓ Tarefa desmarcada"
    case Delete => "✓ Tarefa removida"
  }

  /** The marker an edit looks for and the one it writes instead. */
  function From(e: Edit): string
  {
    if e == MarkDone then PENDING else DONE
  }

  function To(e: Edit): string
  {
    if e == MarkDone then DONE else PENDING
  }

  /** The source's bounds test, `numero == 0 || numero > linhas.len()`,
      negated. */
  predicate ValidTaskNumber(n: nat, count: nat)
  {
    !(n == 0 || n > count)
  }

  /** The lines after the edit of line `i`. */
  function ApplyEdit(e: Edit, lines: seq<string>, i: nat): seq<string>
    requires i < |lines|
  {
    match e
    case Delete => lines[..i] + lines[i + 1..]
    case _ => lines[i := ReplaceAll(lines[i], From(e), To(e))]
  }

  /** `done`, `undone` and `remove <n>`: the argument is checked, then parsed,
      then the file is read and split into lines, then `n` is checked against
      the line count; only then is the file rewritten. */
  function EditCommand(e: Edit, args: seq<string>, store: Store): Result
    requires |args| >= 2
  {
    if |args| < 3 then Err(MissingArgument(CommandWord(e)))
    else match ParseUsize(args[2])
      case Failed(cause) => Err(BadNumber(cause))
      case Value(n) =>
        match store
        case Absent => Err(Io(NOT_FOUND))
        case Unreadable(reason) => Err(Io(reason))
        case Text(content) =>
          var lines := Lines(content);
          if !ValidTaskNumber(n, |lines|) then Err(InvalidTaskNumber)
          else Ok(Effect(Text(Serialize(ApplyEdit(e, lines, n - 1))), [Confirmation(e)]))
  }

  /** `run`: dispatch on the command word `args[1]` (`args[0]` is the
      program name). */
  function Run(args: seq<string>, store: Store): Result
  {
    if |args| < 2 then Err(NoCommand)
    else if args[1] == "add" then Add(args, store)
    else if args[1] == "list" then List(store)
    else if args[1] == "done" then EditCommand(MarkDone, args, store)
    else if args[1] == "undone" then EditCommand(MarkPending, args, store)
    else if args[1] == "remove" then EditCommand(Delete, args, store)
    else Err(UnknownCommand(args[1]))
  }

  /** How `main` ends the process: status 0 and nothing on standard error, or
      status 1 with "Erro: " and the message. */
  datatype Exit = Exit(status: int, stderr: seq<string>)

  function Finish(r: Result): (x: Exit)
    ensures x.status == 0 <==> r.Ok?
    ensures r.Err? ==> x.status == 1
    ensures r.Ok? ==> x.stderr == []
    ensures r.Err? ==> x.stderr == ["Erro: " + Message(r.error)]
  {
    match r
    case Ok(_) => Exit(0, [])
    case Err(e) => Exit(1, ["Erro: " + Message(e)])
  }
}
