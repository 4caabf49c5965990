/** The task file as text: Rust's `str::lines` splits it into task lines and
    `join("\n") + "\n"` writes them back. */
module LineText {

  /** The position of the first '\n' in `s`, or `|s|` when there is none. */
  function NewlineIndex(s: string): (i: nat)
    ensures i <= |s|
    ensures i < |s| ==> s[i] == '\n'
    ensures forall j :: 0 <= j < i ==> s[j] != '\n'
  {
    if s == [] || s[0] == '\n' then 0 else 1 + NewlineIndex(s[1..])
  }

  /** Drops one trailing carriage return, as `lines` does for a "\r\n" ending. */
  function StripCR(line: string): string
  {
    if line != [] && line[|line| - 1] == '\r' then line[..|line| - 1] else line
  }

  /** Rust's `str::lines`: each line ends at a '\n', which is dropped together
      with a '\r' right before it; the last line needs no terminator and keeps
      a trailing '\r'; an empty string has no lines. */
  function Lines(s: string): seq<string>
    decreases |s|
  {
    if s == [] then []
    else
      var i := NewlineIndex(s);
      if i == |s| then [s]
      else [StripCR(s[..i])] + Lines(s[i + 1..])
  }

  /** Rust's `join(sep)` on a vector of strings. */
  function Join(lines: seq<string>, sep: string): string
  {
    if |lines| == 0 then ""
    else if |lines| == 1 then lines[0]
    else lines[0] + sep + Join(lines[1..], sep)
  }

  /** What `done`, `undone` and `remove` write back: the lines joined by '\n'
      plus a final '\n'. */
  function Serialize(lines: seq<string>): string
  {
    Join(lines, "\n") + "\n"
  }

  /** A line that survives a write and a re-read unchanged: it holds no '\n'
      and does not end in '\r'. */
  predicate Clean(line: string)
  {
    '\n' !in line && (line == [] || line[|line| - 1] != '\r')
  }

  predicate AllClean(lines: seq<string>)
  {
    forall k :: 0 <= k < |lines| ==> Clean(lines[k])
  }

  /** The first line break of `a + "\n" + b` is the one after `a` when `a`
      holds none. */
  lemma NewlineAfter(a: string, b: string)
    requires '\n' !in a
    ensures NewlineIndex(a + "\n" + b) == |a|
  {
    var s := a + "\n" + b;
    var i := NewlineIndex(s);
    assert s[|a|] == '\n';
    assert forall j :: 0 <= j < |a| ==> s[j] == a[j];
  }

  /** No line that `lines` yields contains a '\n'. */
  lemma {:induction false} LinesHaveNoNewline(s: string)
    ensures forall k :: 0 <= k < |Lines(s)| ==> '\n' !in Lines(s)[k]
    decreases |s|
  {
    if s != [] {
      var i := NewlineIndex(s);
      if i < |s| {
        LinesHaveNoNewline(s[i + 1..]);
        var first := s[..i];
        assert forall c :: c in first ==> c != '\n';
        assert forall c :: c in StripCR(first) ==> c in first;
      }
    }
  }

  /** Serialising two or more lines writes the first, a line break, and then
      the rest serialised. */
  lemma SerializeCons(lines: seq<string>)
    requires |lines| >= 2
    ensures Serialize(lines) == lines[0] + "\n" + Serialize(lines[1..])
  {
  }

  /** A clean line followed by a line break is read as that line, followed
      by whatever the rest reads as. */
  lemma LinesCons(head: string, rest: string)
    requires Clean(head)
    ensures Lines(head + "\n" + rest) == [head] + Lines(rest)
  {
    var s := head + "\n" + rest;
    NewlineAfter(head, rest);
    assert s[..|head|] == head && s[|head| + 1..] == rest;
  }

  /** Writing a non-empty sequence of clean lines and reading it back gives
      the same sequence. */
  lemma {:induction false} SerializeRoundTrip(lines: seq<string>)
    requires lines != [] && AllClean(lines)
    ensures Lines(Serialize(lines)) == lines
    decreases |lines|
  {
    assert Clean(lines[0]);
    if |lines| == 1 {
      LinesCons(lines[0], "");
      assert Serialize(lines) == lines[0] + "\n" + "";
    } else {
      SerializeCons(lines);
      LinesCons(lines[0], Serialize(lines[1..]));
      SerializeRoundTrip(lines[1..]);
    }
  }

  /** The edge case: no lines at all are written as a single "\n", which
      reads back as one empty line. */
  lemma SerializeEmpty()
    ensures Serialize([]) == "\n"
    ensures Lines(Serialize([])) == [""]
  {
    NewlineAfter("", "");
  }

  /** Appending text after a line break does not move the first line break. */
  lemma NewlineIndexPrefix(a: string, b: string)
    requires NewlineIndex(a) < |a|
    ensures NewlineIndex(a + b) == NewlineIndex(a)
  {
    var s := a + b;
    assert forall k :: 0 <= k < |a| ==> s[k] == a[k];
  }

  /** Text that ends in a line break splits independently of what follows
      it: appending to such a file appends lines. */
  lemma {:induction false} LinesAppend(a: string, b: string)
    requires a == [] || a[|a| - 1] == '\n'
    ensures Lines(a + b) == Lines(a) + Lines(b)
    decreases |a|
  {
    if a == [] {
      assert a + b == b;
    } else {
      var i := NewlineIndex(a);
      assert i < |a|;
      NewlineIndexPrefix(a, b);
      var s := a + b;
      assert s[..i] == a[..i];
      assert s[i + 1..] == a[i + 1..] + b;
      LinesAppend(a[i + 1..], b);
    }
  }

  /** A single clean line followed by '\n' reads back as that one line. */
  lemma OneLine(line: string)
    requires Clean(line)
    ensures Lines(line + "\n") == [line]
  {
    LinesCons(line, "");
    assert line + "\n" == line + "\n" + "";
  }
}
