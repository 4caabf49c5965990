/** `run` step by step, as src/main.rs writes it: the listing loop prints one
    numbered line per task, and the edit commands collect the lines into a
    vector, change it in place and write it back. Each method is proved to do
    what the specification in module Todo says. */
module Invocation {
  import opened Replace
  import opened LineText
  import opened Number
  import opened Todo
  import opened LineVector

  /** The `for (i, linha) in conteudo.lines().enumerate()` loop: one printed
      line per task, numbered from 1 in file order. */
  method PrintListing(lines: seq<string>) returns (out: seq<string>)
    ensures |out| == |lines|
    ensures forall k :: 0 <= k < |lines| ==> out[k] == Decimal(k + 1) + ". " + lines[k]
  {
    out := [];
    for i := 0 to |lines|
      invariant |out| == i
      invariant forall k :: 0 <= k < i ==> out[k] == Decimal(k + 1) + ". " + lines[k]
    {
      out := out + [Decimal(i + 1) + ". " + lines[i]];
    }
  }

  /** The edit branch of `run` once the number has parsed and the file has
      been read: collect the lines, check the bounds, edit the vector in
      place, write it back. */
  method EditLines(e: Edit, args: seq<string>, numero: nat, conteudo: string) returns (r: Result)
    requires |args| >= 3 && ParseUsize(args[2]) == Value(numero)
    ensures r == EditCommand(e, args, Text(conteudo))
  {
    var linhas := new LineVec.Collect(Lines(conteudo));
    if numero == 0 || numero > linhas.len {
      return Err(InvalidTaskNumber);
    }
    var indice := numero - 1;
    match e {
      case Delete =>
        var _ := linhas.Remove(indice);
      case _ =>
        linhas.Set(indice, ReplaceAll(linhas.buf[indice], From(e), To(e)));
    }
    r := Ok(Effect(Text(Serialize(linhas.Contents())), [Confirmation(e)]));
  }

  /** `run`: the same checks in the same order as the source, with the file
      given as `store` instead of being read and written. */
  method Execute(args: seq<string>, store: Store) returns (r: Result)
    ensures r == Run(args, store)
  {
    if |args| < 2 {
      return Err(NoCommand);
    }
    var comando := args[1];
    if comando == "add" {
      if |args| < 3 {
        return Err(MissingArgument("add"));
      }
      var linha := TaskLine(args[2]) + "\n";
      match store {
        case Absent => r := Ok(Effect(Text(linha), ["✓ Tarefa adicionada"]));
        case Unreadable(reason) => r := Err(Io(reason));
        case Text(conteudo) => r := Ok(Effect(Text(conteudo + linha), ["✓ Tarefa adicionada"]));
      }
    } else if comando == "list" {
      match store {
        case Text(conteudo) =>
          var out := PrintListing(Lines(conteudo));
          r := Ok(Effect(store, out));
        case _ =>
          r := Ok(Effect(store, [NO_TASKS]));
      }
    } else if comando == "done" || comando == "undone" || comando == "remove" {
      var e := if comando == "done" then MarkDone else if comando == "undone" then MarkPending else Delete;
      if |args| < 3 {
        return Err(MissingArgument(comando));
      }
      match ParseUsize(args[2]) {
        case Failed(cause) => r := Err(BadNumber(cause));
        case Value(numero) =>
          match store {
            case Absent => r := Err(Io(NOT_FOUND));
            case Unreadable(reason) => r := Err(Io(reason));
            case Text(conteudo) => r := EditLines(e, args, numero, conteudo);
          }
      }
    } else {
      r := Err(UnknownCommand(comando));
    }
  }
}
