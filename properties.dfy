/** What the commands promise about the task file, stated over `Run`: the
    order of the checks, the bounds test, which lines `done`, `undone` and
    `remove` change, what `add` appends, and how the numbers `list` prints
    select lines. "Re-reading" below means splitting the written file with
    `lines` again, as the next invocation does. */
module TodoProperties {
  import opened Replace
  import opened LineText
  import opened Number
  import opened Todo

  /** Fewer than two arguments, or a command word that is none of the five,
      fails whatever the file holds. */
  lemma DispatchErrors(args: seq<string>, store: Store)
    ensures Run(args, store) == Err(NoCommand) <==> |args| < 2
    ensures |args| >= 2 && args[1] !in ["add", "list", "done", "undone", "remove"]
      ==> Run(args, store) == Err(UnknownCommand(args[1]))
  {
  }

  /** `list` never fails and never writes, whatever follows the command word;
      without a readable file it prints "Nenhuma tarefa", while an empty file
      prints nothing at all. */
  lemma ListReadsOnly(args: seq<string>, store: Store)
    requires |args| >= 2 && args[1] == "list"
    ensures var r := Run(args, store);
      r.Ok? && r.effect.store == store &&
      (!store.Text? ==> r.effect.output == [NO_TASKS]) &&
      (store == Text("") ==> r.effect.output == [])
  {
  }

  /** The command words of the three edits dispatch to them. */
  lemma RunEdit(e: Edit, args: seq<string>, store: Store)
    requires |args| >= 2 && args[1] == CommandWord(e)
    ensures Run(args, store) == EditCommand(e, args, store)
  {
  }

  /** An accepted task number makes the edit write the edited lines. */
  lemma EditWrites(e: Edit, args: seq<string>, content: string, n: nat)
    requires |args| >= 3 && args[1] == CommandWord(e) && ParseUsize(args[2]) == Value(n)
    requires 1 <= n <= |Lines(content)|
    ensures Run(args, Text(content)) ==
      Ok(Effect(Text(Serialize(ApplyEdit(e, Lines(content), n - 1))), [Confirmation(e)]))
  {
    RunEdit(e, args, Text(content));
  }

  /** `done`, `undone` and `remove` check, in this order: that a number was
      given, that it parses, that the file can be read, and only then the
      bounds; each failure leaves the file as it was (an error carries no new
      file). */
  lemma EditChecksInOrder(e: Edit, args: seq<string>, store: Store)
    requires |args| >= 2 && args[1] == CommandWord(e)
    ensures |args| < 3 ==> Run(args, store) == Err(MissingArgument(CommandWord(e)))
    ensures |args| >= 3 && ParseUsize(args[2]).Failed? ==>
      Run(args, store) == Err(BadNumber(ParseUsize(args[2]).error))
    ensures |args| >= 3 && ParseUsize(args[2]).Value? && store == Absent ==>
      Run(args, store) == Err(Io(NOT_FOUND))
    ensures |args| >= 3 && ParseUsize(args[2]).Value? && store.Unreadable? ==>
      Run(args, store) == Err(Io(store.reason))
  {
  }

  /** The bounds check: with a readable file, task number `n` is accepted
      exactly when 1 <= n <= the number of lines; 0 and one past the end are
      rejected as an invalid task number. */
  lemma EditBounds(e: Edit, args: seq<string>, content: string, n: nat)
    requires |args| >= 3 && args[1] == CommandWord(e) && ParseUsize(args[2]) == Value(n)
    ensures var r := Run(args, Text(content));
      (r.Ok? <==> 1 <= n <= |Lines(content)|) &&
      (r.Err? ==> r.error == InvalidTaskNumber)
  {
  }

  /** Swapping markers keeps a line clean: the only character it changes
      becomes 'x' or ' '. */
  lemma ReplaceKeepsClean(s: string, p: string, r: string)
    requires (p == PENDING && r == DONE) || (p == DONE && r == PENDING)
    requires Clean(s)
    ensures Clean(ReplaceAll(s, p, r))
  {
    MarkersArePairs();
    ReplaceAllPointwise(s, p, r);
    var t := ReplaceAll(s, p, r);
    forall k | 0 <= k < |t| ensures t[k] != '\n' {
      assert s[k] != '\n';
    }
  }

  /** Marking one of the clean lines writes a file that re-reads as the
      lines with that one rewritten. */
  lemma MarkRereads(e: Edit, before: seq<string>, i: nat)
    requires e != Delete && AllClean(before) && i < |before|
    ensures Lines(Serialize(ApplyEdit(e, before, i))) ==
      before[i := ReplaceAll(before[i], From(e), To(e))]
  {
    var written := before[i := ReplaceAll(before[i], From(e), To(e))];
    ReplaceKeepsClean(before[i], From(e), To(e));
    assert AllClean(written);
    SerializeRoundTrip(written);
  }

  /** `done` and `undone` rewrite line n-1 and no other: re-reading the file
      gives as many lines as before, the same lines everywhere else, and at
      n-1 the line with every "[ ]" (for `undone`, every "[x]") replaced, none
      left; the line is unchanged exactly when it held no such marker, and
      then the whole file reads back the same. */
  lemma MarkRewritesOneLine(e: Edit, args: seq<string>, content: string, n: nat)
    requires e != Delete
    requires |args| >= 3 && args[1] == CommandWord(e) && ParseUsize(args[2]) == Value(n)
    requires AllClean(Lines(content)) && 1 <= n <= |Lines(content)|
    ensures var r := Run(args, Text(content));
      r.Ok? && r.effect.store.Text? &&
      var before, after := Lines(content), Lines(r.effect.store.content);
      |after| == |before| &&
      (forall j :: 0 <= j < |before| && j != n - 1 ==> after[j] == before[j]) &&
      after[n - 1] == ReplaceAll(before[n - 1], From(e), To(e)) &&
      !Occurs(after[n - 1], From(e)) &&
      (after[n - 1] == before[n - 1] <==> !Occurs(before[n - 1], From(e))) &&
      (!Occurs(before[n - 1], From(e)) ==> after == before)
  {
    var before := Lines(content);
    var i := n - 1;
    EditWrites(e, args, content, n);
    MarkRereads(e, before, i);
    var after := Lines(Serialize(ApplyEdit(e, before, i)));
    assert after == before[i := ReplaceAll(before[i], From(e), To(e))];
    MarkersArePairs();
    ReplaceAllRemovesEvery(before[i], From(e), To(e));
    ReplaceAllUnchangedIff(before[i], From(e), To(e));
  }

  /** Deleting one of two or more clean lines writes a file that re-reads as
      the remaining lines. */
  lemma DeleteRereads(before: seq<string>, i: nat)
    requires AllClean(before) && i < |before| && |before| >= 2
    ensures var after := Lines(Serialize(ApplyEdit(Delete, before, i)));
      after == before[..i] + before[i + 1..] &&
      |after| == |before| - 1 &&
      (forall j :: 0 <= j < i ==> after[j] == before[j]) &&
      (forall j :: i <= j < |after| ==> after[j] == before[j + 1])
  {
    var written := before[..i] + before[i + 1..];
    assert AllClean(written) by {
      forall k | 0 <= k < |written| ensures Clean(written[k]) {
        if k < i { assert written[k] == before[k]; }
        else { assert written[k] == before[k + 1]; }
      }
    }
    SerializeRoundTrip(written);
  }

  /** `remove n` deletes line n-1: re-reading gives one line fewer, the lines
      before n-1 unchanged and every later line one position down. */
  lemma RemoveShiftsDown(args: seq<string>, content: string, n: nat)
    requires |args| >= 3 && args[1] == "remove" && ParseUsize(args[2]) == Value(n)
    requires AllClean(Lines(content)) && 1 <= n <= |Lines(content)| && |Lines(content)| >= 2
    ensures var r := Run(args, Text(content));
      r.Ok? && r.effect.store.Text? &&
      var before, after := Lines(content), Lines(r.effect.store.content);
      |after| == |before| - 1 &&
      (forall j :: 0 <= j < n - 1 ==> after[j] == before[j]) &&
      (forall j :: n - 1 <= j < |after| ==> after[j] == before[j + 1])
  {
    var before := Lines(content);
    var i := n - 1;
    EditWrites(Delete, args, content, n);
    DeleteRereads(before, i);
  }

  /** The edge case of removing the only task: the file becomes "\n", which
      the next invocation reads as one empty task, listed as "1. ". */
  lemma RemoveOnlyTask(prog: string, args: seq<string>, content: string)
    requires |args| >= 3 && args[1] == "remove" && ParseUsize(args[2]) == Value(1)
    requires |Lines(content)| == 1
    ensures Run(args, Text(content)) == Ok(Effect(Text("\n"), ["✓ Tarefa removida"]))
    ensures Lines("\n") == [""]
    ensures Run([prog, "list"], Text("\n")) == Ok(Effect(Text("\n"), ["1. "]))
  {
    SerializeEmpty();
    RunEdit(Delete, args, Text(content));
    assert Lines(content)[..0] + Lines(content)[1..] == [];
    assert Decimal(1) == "1";
    assert Decimal(1) + ". " + "" == "1. ";
    assert Listing([""])[0] == "1. ";
    assert Listing([""]) == ["1. "];
    assert Run([prog, "list"], Text("\n")) == List(Text("\n"));
  }

  /** A task line holds no "[x]" when its text holds none. */
  lemma TaskLineNotDone(text: string)
    requires !Occurs(text, DONE)
    ensures !Occurs(TaskLine(text), DONE)
  {
    var line := TaskLine(text);
    forall i: nat | i <= |line| ensures !OccursAt(line, DONE, i) {
      if i >= 4 {
        OccursInSuffix(line, DONE, 4, i - 4);
        assert line[4..] == text;
      } else if i + 3 <= |line| {
        assert line[..4] == "[ ] ";
        if i == 0 {
          assert line[i..i + 3][1] == ' ';
        } else {
          assert line[i..i + 3][0] == line[i] != '[';
        }
      }
    }
  }

  /** `add <text>` on an absent file, or on one that ends with a line break,
      keeps the old content as a prefix and re-reads as the old lines
      followed by the single new line "[ ] text". */
  lemma AddAppendsTask(args: seq<string>, store: Store)
    requires |args| >= 3 && args[1] == "add" && Clean(args[2])
    requires store == Absent ||
      (store.Text? && (store.content == [] || store.content[|store.content| - 1] == '\n'))
    ensures var r := Run(args, store);
      var old_content := if store.Text? then store.content else "";
      r.Ok? && r.effect.store.Text? &&
      |r.effect.store.content| > |old_content| &&
      r.effect.store.content[..|old_content|] == old_content &&
      Lines(r.effect.store.content) == Lines(old_content) + [TaskLine(args[2])]
  {
    var old_content := if store.Text? then store.content else "";
    var line := TaskLine(args[2]);
    assert Clean(line) by {
      assert line[4..] == args[2];
      forall k | 0 <= k < |line| ensures line[k] != '\n' {
        if k >= 4 { assert line[k] == args[2][k - 4]; }
      }
    }
    OneLine(line);
    LinesAppend(old_content, line + "\n");
    assert old_content + (line + "\n") == old_content + line + "\n";
    if store == Absent {
      assert old_content + line + "\n" == line + "\n";
    }
  }

  /** Marking a line done and then pending again restores the lines when
      that line held no "[x]". */
  lemma MarkThenUnmark(before: seq<string>, i: nat)
    requires i < |before| && !Occurs(before[i], DONE)
    ensures ApplyEdit(MarkPending, ApplyEdit(MarkDone, before, i), i) == before
  {
    MarkersArePairs();
    ReplaceAllRoundTrip(before[i], PENDING, DONE);
  }

  /** A task added by `add` whose text holds no "[x]" comes back unchanged
      after `done n` and then `undone n`: the file is rewritten in its
      canonical form and re-reads as the original lines. */
  lemma DoneThenUndone(prog: string, number: string, content: string, n: nat, text: string)
    requires ParseUsize(number) == Value(n)
    requires AllClean(Lines(content)) && 1 <= n <= |Lines(content)|
    requires Lines(content)[n - 1] == TaskLine(text) && !Occurs(text, DONE)
    ensures var done := Run([prog, "done", number], Text(content));
      done.Ok? &&
      var undone := Run([prog, "undone", number], done.effect.store);
      undone.Ok? &&
      undone.effect.store == Text(Serialize(Lines(content))) &&
      Lines(undone.effect.store.content) == Lines(content)
  {
    var before := Lines(content);
    var i := n - 1;
    var doneArgs, undoneArgs := [prog, "done", number], [prog, "undone", number];
    EditWrites(MarkDone, doneArgs, content, n);
    var written := Serialize(ApplyEdit(MarkDone, before, i));
    MarkRereads(MarkDone, before, i);
    EditWrites(MarkPending, undoneArgs, written, n);
    TaskLineNotDone(text);
    MarkThenUnmark(before, i);
    SerializeRoundTrip(before);
  }

  /** The number `list` prints in front of a line is one that `done`,
      `undone` and `remove` accept, and it selects that very line. */
  lemma ListedNumberSelectsLine(prog: string, e: Edit, content: string, k: nat)
    requires k < |Lines(content)| && k < USIZE_MAX
    ensures Run([prog, "list"], Text(content)).effect.output[k] ==
      Decimal(k + 1) + ". " + Lines(content)[k]
    ensures Run([prog, CommandWord(e), Decimal(k + 1)], Text(content)) ==
      Ok(Effect(Text(Serialize(ApplyEdit(e, Lines(content), k))), [Confirmation(e)]))
  {
    ParseDecimal(k + 1);
    assert Run([prog, "list"], Text(content)) == List(Text(content));
    RunEdit(e, [prog, CommandWord(e), Decimal(k + 1)], Text(content));
  }
}
