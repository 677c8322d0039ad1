// The input stream of partition.cpp, read line by line with std::getline.
// The stream is its whole content as a string; reading consumes it from a
// position onwards. A line ends at '\n' (which is consumed but not kept) or
// at the end of the stream; once nothing is left, getline fails.

module LineReader {

  /** The position of the first '\n' at or after i, or |s| if there is none. */
  function LineEnd(s: string, i: nat): (j: nat)
    requires i <= |s|
    ensures i <= j <= |s|
    ensures j < |s| ==> s[j] == '\n'
    ensures forall k :: i <= k < j ==> s[k] != '\n'
    decreases |s| - i
  {
    if i == |s| || s[i] == '\n' then i else LineEnd(s, i + 1)
  }

  /** The lines getline yields from s, in order: the text is split at each
      '\n', a last segment without '\n' is still a line, and a '\n' at the
      very end does not start an empty line. */
  function Lines(s: string): seq<string>
    decreases |s|
  {
    if s == [] then []
    else
      var j := LineEnd(s, 0);
      [s[..j]] + Lines(if j < |s| then s[j + 1..] else [])
  }

  /** Every line followed by '\n': what Lines undoes. */
  function Unlines(ls: seq<string>): string
  {
    if ls == [] then [] else ls[0] + "\n" + Unlines(ls[1..])
  }

  predicate NoNewline(line: string)
  {
    forall k :: 0 <= k < |line| ==> line[k] != '\n'
  }

  /** LineEnd is pinned down by its contract: any j with the same three
      properties is that position. */
  lemma LineEndUnique(s: string, i: nat, j: nat)
    requires i <= j <= |s|
    requires j < |s| ==> s[j] == '\n'
    requires forall k :: i <= k < j ==> s[k] != '\n'
    ensures LineEnd(s, i) == j
  {
  }

  /** No line that getline yields contains a '\n'. */
  lemma {:induction false} LinesHaveNoNewline(s: string)
    ensures forall i :: 0 <= i < |Lines(s)| ==> NoNewline(Lines(s)[i])
    decreases |s|
  {
    if s != [] {
      var j := LineEnd(s, 0);
      var rest := if j < |s| then s[j + 1..] else [];
      LinesHaveNoNewline(rest);
      assert Lines(s) == [s[..j]] + Lines(rest);
    }
  }

  lemma UnlinesCons(line: string, ls: seq<string>)
    ensures Unlines([line] + ls) == line + "\n" + Unlines(ls)
  {
  }

  /** s with a '\n' added unless it is empty or already ends with one. */
  function Rejoined(s: string): string
  {
    if s == [] || s[|s| - 1] == '\n' then s else s + "\n"
  }

  lemma RejoinedSplit(s: string, j: nat)
    requires j < |s| && s[j] == '\n'
    ensures s[..j] + "\n" + Rejoined(s[j + 1..]) == Rejoined(s)
  {
  }

  /** Joining the lines back with '\n' gives the stream again, up to the
      one '\n' that the last line may have lacked. */
  lemma {:induction false} UnlinesLines(s: string)
    ensures Unlines(Lines(s)) == Rejoined(s)
    decreases |s|
  {
    if s != [] {
      var j := LineEnd(s, 0);
      var rest := if j < |s| then s[j + 1..] else [];
      assert Unlines(Lines(s)) == s[..j] + "\n" + Unlines(Lines(rest)) by {
        UnlinesCons(s[..j], Lines(rest));
      }
      UnlinesLines(rest);
      if j < |s| {
        RejoinedSplit(s, j);
      } else {
        assert s[..j] == s && s[|s| - 1] != '\n';
      }
    }
  }

  /** Splitting lines that were joined with '\n' gives back those lines. */
  lemma {:induction false} LinesUnlines(ls: seq<string>)
    requires forall i :: 0 <= i < |ls| ==> NoNewline(ls[i])
    ensures Lines(Unlines(ls)) == ls
  {
    if ls != [] {
      var s := Unlines(ls);
      var tail := Unlines(ls[1..]);
      assert s == ls[0] + "\n" + tail;
      var n := |ls[0]|;
      assert s[..n] == ls[0];
      assert s[n] == '\n';
      assert forall k :: 0 <= k < n ==> s[k] != '\n' by {
        forall k | 0 <= k < n ensures s[k] != '\n' {
          assert s[k] == ls[0][k];
        }
      }
      LineEndUnique(s, 0, n);
      assert s[n + 1..] == tail;
      LinesUnlines(ls[1..]);
    }
  }

  /** std::getline on the stream positioned at pos. It fails, reading
      nothing, when the stream is exhausted; otherwise it yields the next
      line without its '\n' and the position after that '\n'. */
  method GetLine(stream: string, pos: nat) returns (ok: bool, line: string, next: nat)
    requires pos <= |stream|
    ensures ok <==> pos < |stream|
    ensures pos <= next <= |stream|
    ensures ok ==> pos < next && Lines(stream[pos..]) == [line] + Lines(stream[next..])
    ensures !ok ==> Lines(stream[pos..]) == []
  {
    if pos == |stream| {
      return false, "", pos;
    }
    var j := pos;
    while j < |stream| && stream[j] != '\n'
      invariant pos <= j <= |stream|
      invariant forall k :: pos <= k < j ==> stream[k] != '\n'
    {
      j := j + 1;
    }
    ok, line := true, stream[pos..j];
    next := if j < |stream| then j + 1 else j;
    ghost var s := stream[pos..];
    LineEndUnique(s, 0, j - pos);
    assert s[..j - pos] == line;
    if j < |stream| {
      assert s[j - pos + 1..] == stream[next..];
    } else {
      assert stream[next..] == [];
    }
  }
}
