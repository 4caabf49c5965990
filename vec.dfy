/** The `Vec<String>` of task lines that `done`, `undone` and `remove` build
    from the file and edit in place before writing it back. */
module LineVector {

  class LineVec {
    var buf: array<string>
    var len: nat

    ghost predicate Valid()
      reads this
    {
      len <= buf.Length
    }

    /** The lines currently in the vector. */
    function Contents(): seq<string>
      reads this, buf
      requires Valid()
    {
      buf[..len]
    }

    /** `lines().map(|l| l.to_string()).collect()`: a vector holding `lines`. */
    constructor Collect(lines: seq<string>)
      ensures Valid() && fresh(buf)
      ensures Contents() == lines
    {
      buf := new string[|lines|](k requires 0 <= k < |lines| => lines[k]);
      len := |lines|;
    }

    /** `linhas[i] = line`: overwrites one element; length and every other
        element stay. */
    method Set(i: nat, line: string)
      requires Valid() && i < len
      modifies buf
      ensures Valid()
      ensures Contents() == old(Contents())[i := line]
    {
      buf[i] := line;
    }

    /** `Vec::remove(i)`: takes out element `i` and moves every later element
        down by one position. */
    method Remove(i: nat) returns (removed: string)
      requires Valid() && i < len
      modifies this, buf
      ensures Valid() && buf == old(buf)
      ensures removed == old(Contents())[i]
      ensures Contents() == old(Contents())[..i] + old(Contents())[i + 1..]
    {
      removed := buf[i];
      var j := i;
      while j + 1 < len
        invariant i <= j < len && len == old(len) && buf == old(buf)
        invariant forall k :: 0 <= k < i ==> buf[k] == old(buf[k])
        invariant forall k :: i <= k < j ==> buf[k] == old(buf[k + 1])
        invariant forall k :: j < k < len ==> buf[k] == old(buf[k])
      {
        buf[j] := buf[j + 1];
        j := j + 1;
      }
      ghost var before := old(Contents());
      len := len - 1;
      assert forall k :: 0 <= k < len ==> buf[k] == (before[..i] + before[i + 1..])[k];
    }
  }
}
