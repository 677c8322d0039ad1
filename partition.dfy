// The MealMaster block extractor of partition.cpp: a single pass over the
// lines of a stream that keeps every line from a header ("MMMMM" followed by
// more text) through the terminator ("MMMMM" alone), each re-terminated with
// "\r\n". All kept lines go into one buffer that is never cleared, so the
// extractor returns at most one string.

module Partition {
  import opened LineReader

  /** The five letters that open a header line and form a terminator line. */
  const Marker: string := "MMMMM"

  /** The line ending every kept line is written with. */
  const CrLf: string := "\r\n"

  /** The line with one trailing carriage return removed, if it has one. */
  function StripCr(line: string): (r: string)
    ensures |line| - 1 <= |r| <= |line| && r == line[..|r|]
    ensures |r| < |line| <==> |line| > 0 && line[|line| - 1] == '\r'
  {
    if |line| > 0 && line[|line| - 1] == '\r' then line[..|line| - 1] else line
  }

  /** A header starts with the marker and has something after it. */
  predicate IsHeader(line: string)
  {
    Marker <= line && |line| > |Marker|
  }

  /** A terminator is the marker and nothing else. */
  predicate IsTerminator(line: string)
  {
    line == Marker
  }

  /** Whether the (stripped) line is kept, given the flag before it: a
      header switches capture on before the line is written. */
  function Capturing(on: bool, line: string): (c: bool)
    ensures IsHeader(line) ==> c
    ensures !IsHeader(line) ==> c == on
  {
    on || IsHeader(line)
  }

  /** The capture flag after the (stripped) line. */
  function NextFlag(on: bool, line: string): (next: bool)
    ensures IsTerminator(line) ==> !next
    ensures IsHeader(line) ==> next
    ensures !IsHeader(line) && !IsTerminator(line) ==> next == on
  {
    if IsTerminator(line) then false else Capturing(on, line)
  }

  /** What the (stripped) line contributes to the buffer. */
  function Emit(on: bool, line: string): (out: string)
    ensures out == [] <==> !Capturing(on, line)
    ensures out != [] ==> out == line + CrLf
  {
    if Capturing(on, line) then line + CrLf else ""
  }

  /** The buffer text produced by scanning ls with the flag starting at on. */
  function Captured(ls: seq<string>, on: bool): string
  {
    if ls == [] then ""
    else
      var line := StripCr(ls[0]);
      Emit(on, line) + Captured(ls[1..], NextFlag(on, line))
  }

  /** The flag after scanning ls with the flag starting at on. */
  function FlagAfter(ls: seq<string>, on: bool): bool
  {
    if ls == [] then on else FlagAfter(ls[1..], NextFlag(on, StripCr(ls[0])))
  }

  /** What recipes() returns for these lines: the buffer, if it is not empty. */
  function Blocks(ls: seq<string>): seq<string>
  {
    var text := Captured(ls, false);
    if text == "" then [] else [text]
  }

  /** recipes(stream): read the stream line by line, strip one '\r' from
      each line, switch capture on at a header and off after a terminator,
      write every line read while capturing to the buffer with "\r\n", and
      return the buffer once, if it is not empty. */
  method Recipes(stream: string) returns (result: seq<string>)
    ensures result == Blocks(Lines(stream))
  {
    result := [];
    var recipe := "";
    var on := false;
    var pos := 0;
    assert stream[pos..] == stream;
    while true
      invariant pos <= |stream|
      invariant recipe + Captured(Lines(stream[pos..]), on) == Captured(Lines(stream), false)
      decreases |stream| - pos
    {
      var ok, line, next := GetLine(stream, pos);
      if !ok {
        break;
      }
      ghost var acc, before, raw, rest := recipe, on, line, Lines(stream[next..]);
      pos := next;
      if |line| > 0 && line[|line| - 1] == '\r' {
        line := line[..|line| - 1];
      }
      assert line == StripCr(raw);
      if IsHeader(line) {
        on := true;
      }
      assert on == Capturing(before, line);
      if on {
        recipe := recipe + (line + CrLf);
      }
      assert recipe == acc + Emit(before, line);
      if IsTerminator(line) {
        on := false;
      }
      assert on == NextFlag(before, line);
      ScanStep(acc, before, raw, rest, recipe, on);
    }
    assert Lines(stream[pos..]) == [];
    assert recipe == Captured(Lines(stream), false);
    if recipe != "" {
      result := result + [recipe];
    }
  }

  lemma ConcatAssoc(a: string, b: string, c: string)
    ensures (a + b) + c == a + (b + c)
  {
  }

  /** The loop's invariant survives one line: the buffer grows by what the
      line emits and the flag takes its next value. */
  lemma ScanStep(acc: string, on: bool, raw: string, rest: seq<string>, recipe: string, next: bool)
    requires recipe == acc + Emit(on, StripCr(raw))
    requires next == NextFlag(on, StripCr(raw))
    ensures recipe + Captured(rest, next) == acc + Captured([raw] + rest, on)
  {
    CapturedCons(raw, rest, on);
    ConcatAssoc(acc, Emit(on, StripCr(raw)), Captured(rest, next));
  }

  /** One step of the scan. */
  lemma CapturedCons(raw: string, rest: seq<string>, on: bool)
    ensures Captured([raw] + rest, on)
      == Emit(on, StripCr(raw)) + Captured(rest, NextFlag(on, StripCr(raw)))
  {
  }

  // ---------------------------------------------------------------------
  // Composition: the scan of a later part depends on the earlier part only
  // through the flag.

  lemma {:induction false} FlagAfterAppend(a: seq<string>, b: seq<string>, on: bool)
    ensures FlagAfter(a + b, on) == FlagAfter(b, FlagAfter(a, on))
  {
    if a != [] {
      assert (a + b)[1..] == a[1..] + b;
      FlagAfterAppend(a[1..], b, NextFlag(on, StripCr(a[0])));
    } else {
      assert a + b == b;
    }
  }

  /** Scanning a + b writes what scanning a writes, then what scanning b
      writes from the flag a leaves behind. */
  lemma {:induction false} CapturedAppend(a: seq<string>, b: seq<string>, on: bool)
    ensures Captured(a + b, on) == Captured(a, on) + Captured(b, FlagAfter(a, on))
  {
    if a != [] {
      assert (a + b)[1..] == a[1..] + b;
      var line := StripCr(a[0]);
      CapturedAppend(a[1..], b, NextFlag(on, line));
    } else {
      assert a + b == b;
    }
  }

  // ---------------------------------------------------------------------
  // The result holds at most one string, and it is empty exactly when no
  // line is a header.

  ghost predicate HasHeader(ls: seq<string>)
  {
    exists i :: 0 <= i < |ls| && IsHeader(StripCr(ls[i]))
  }

  lemma HasHeaderCons(ls: seq<string>)
    requires ls != []
    ensures HasHeader(ls) <==> IsHeader(StripCr(ls[0])) || HasHeader(ls[1..])
  {
  }

  lemma {:induction false} CapturedEmptyIff(ls: seq<string>)
    ensures Captured(ls, false) == "" <==> !HasHeader(ls)
  {
    if ls != [] {
      var line := StripCr(ls[0]);
      HasHeaderCons(ls);
      CapturedEmptyIff(ls[1..]);
      if IsHeader(line) {
        assert |Captured(ls, false)| >= |Emit(false, line)| > 0;
      } else {
        assert Emit(false, line) == "" && !NextFlag(false, line);
        assert Captured(ls, false) == "" + Captured(ls[1..], false);
      }
    }
  }

  lemma BlocksShape(ls: seq<string>)
    ensures |Blocks(ls)| <= 1
    ensures Blocks(ls) == [] <==> !HasHeader(ls)
    ensures Blocks(ls) != [] ==> Blocks(ls)[0] == Captured(ls, false)
  {
    CapturedEmptyIff(ls);
  }

  // ---------------------------------------------------------------------
  // Exactly one carriage return is removed before the tests.

  lemma StripCrOnce(line: string)
    ensures StripCr(line + "\r") == line
  {
  }

  lemma TerminatorWithCarriageReturns()
    ensures IsTerminator(StripCr(Marker + "\r"))
    ensures !IsTerminator(StripCr(Marker + "\r\r"))
    ensures !IsHeader(StripCr(Marker + "\r"))
    ensures IsHeader(StripCr(Marker + "\r\r"))
  {
  }

  // ---------------------------------------------------------------------
  // Shape of the text: every kept line ends with "\r\n", so the text ends
  // with "\r\n" and every '\n' in it follows a '\r'.

  predicate EndsWithCrLf(t: string)
  {
    |t| >= 2 && t[|t| - 2..] == CrLf
  }

  predicate CrBeforeEveryLf(t: string)
  {
    forall k :: 0 <= k < |t| && t[k] == '\n' ==> 0 < k && t[k - 1] == '\r'
  }

  lemma CrBeforeEveryLfAppend(a: string, b: string)
    requires CrBeforeEveryLf(a) && CrBeforeEveryLf(b)
    ensures CrBeforeEveryLf(a + b)
  {
  }

  lemma StripCrNoNewline(raw: string)
    requires NoNewline(raw)
    ensures NoNewline(StripCr(raw))
  {
  }

  lemma EmitLineEndings(on: bool, line: string)
    requires NoNewline(line)
    ensures var e := Emit(on, line); CrBeforeEveryLf(e) && (e == "" || EndsWithCrLf(e))
  {
    var e := Emit(on, line);
    if e != "" {
      assert e == line + CrLf;
      assert forall k :: 0 <= k < |line| ==> e[k] == line[k];
      assert e[|e| - 2..] == CrLf;
    }
  }

  lemma EndsWithCrLfAppend(a: string, b: string)
    requires a == "" || EndsWithCrLf(a)
    requires b == "" || EndsWithCrLf(b)
    ensures a + b == "" || EndsWithCrLf(a + b)
  {
  }

  lemma {:induction false} CapturedLineEndings(ls: seq<string>, on: bool)
    requires forall i :: 0 <= i < |ls| ==> NoNewline(ls[i])
    ensures var t := Captured(ls, on); CrBeforeEveryLf(t) && (t == "" || EndsWithCrLf(t))
  {
    if ls != [] {
      var line := StripCr(ls[0]);
      StripCrNoNewline(ls[0]);
      EmitLineEndings(on, line);
      assert forall i :: 0 <= i < |ls[1..]| ==> NoNewline(ls[1..][i]) by {
        forall i | 0 <= i < |ls[1..]| ensures NoNewline(ls[1..][i]) {
          assert ls[1..][i] == ls[i + 1];
        }
      }
      CapturedLineEndings(ls[1..], NextFlag(on, line));
      CrBeforeEveryLfAppend(Emit(on, line), Captured(ls[1..], NextFlag(on, line)));
      EndsWithCrLfAppend(Emit(on, line), Captured(ls[1..], NextFlag(on, line)));
    }
  }

  /** Every string recipes() returns ends with "\r\n", and every '\n' in it
      is preceded by '\r'. */
  lemma RecipesLineEndings(stream: string)
    ensures forall i :: 0 <= i < |Blocks(Lines(stream))| ==>
      EndsWithCrLf(Blocks(Lines(stream))[i]) && CrBeforeEveryLf(Blocks(Lines(stream))[i])
  {
    LinesHaveNoNewline(stream);
    CapturedLineEndings(Lines(stream), false);
  }

  // ---------------------------------------------------------------------
  // Spans: from a header through the terminator every line is kept, in
  // order; outside them every line is dropped.

  /** The lines, stripped, each followed by "\r\n", in order: Selected
      below with every line selected (JoinedIsSelectedAll). */
  function Joined(ls: seq<string>): string
  {
    if ls == [] then "" else StripCr(ls[0]) + CrLf + Joined(ls[1..])
  }

  predicate NoTerminator(ls: seq<string>)
  {
    forall i :: 0 <= i < |ls| ==> !IsTerminator(StripCr(ls[i]))
  }

  predicate NoHeader(ls: seq<string>)
  {
    forall i :: 0 <= i < |ls| ==> !IsHeader(StripCr(ls[i]))
  }

  lemma NoTerminatorTail(ls: seq<string>)
    requires ls != [] && NoTerminator(ls)
    ensures NoTerminator(ls[1..]) && !IsTerminator(StripCr(ls[0]))
  {
  }

  /** While capturing, lines without a terminator are all kept, headers
      included, and capture stays on; with rest == [] this is a block with
      no terminator, kept through the end of the input. */
  lemma {:induction false} CaptureUntilTerminator(body: seq<string>, rest: seq<string>)
    requires NoTerminator(body)
    ensures Captured(body + rest, true) == Joined(body) + Captured(rest, true)
  {
    if body != [] {
      var tail, kept := body[1..], StripCr(body[0]) + CrLf;
      NoTerminatorTail(body);
      assert Captured(body + rest, true) == kept + Captured(tail + rest, true) by {
        var line := StripCr(body[0]);
        assert NextFlag(true, line) && Emit(true, line) == kept;
        CapturedCons(body[0], tail + rest, true);
        assert [body[0]] + (tail + rest) == body + rest;
      }
      CaptureUntilTerminator(tail, rest);
      ConcatAssoc(kept, Joined(tail), Captured(rest, true));
    } else {
      assert body + rest == rest;
    }
  }

  /** A terminator read while capturing is kept, and capture is off after it. */
  lemma TerminatorEndsSpan(body: seq<string>, term: string, rest: seq<string>)
    requires NoTerminator(body)
    requires IsTerminator(StripCr(term))
    ensures Captured(body + [term] + rest, true) == Joined(body) + (Marker + CrLf) + Captured(rest, false)
  {
    assert body + [term] + rest == body + ([term] + rest);
    CaptureUntilTerminator(body, [term] + rest);
    CapturedCons(term, rest, true);
    ConcatAssoc(Joined(body), Marker + CrLf, Captured(rest, false));
  }

  /** While not capturing, lines without a header are all dropped, and a
      bare terminator among them neither is kept nor starts capture. */
  lemma {:induction false} SkipUntilHeader(pre: seq<string>, rest: seq<string>)
    requires NoHeader(pre)
    ensures Captured(pre + rest, false) == Captured(rest, false)
    ensures !FlagAfter(pre, false)
  {
    if pre != [] {
      assert (pre + rest)[1..] == pre[1..] + rest;
      assert NoHeader(pre[1..]) by {
        forall i | 0 <= i < |pre[1..]| ensures !IsHeader(StripCr(pre[1..][i])) {
          assert pre[1..][i] == pre[i + 1];
        }
      }
      assert !IsHeader(StripCr(pre[0]));
      SkipUntilHeader(pre[1..], rest);
    } else {
      assert pre + rest == rest;
    }
  }

  /** A bare terminator read while not capturing is dropped and does not
      start capture: SkipUntilHeader with the one line pre == [term]. */
  lemma BareTerminatorDropped(term: string, rest: seq<string>)
    requires IsTerminator(StripCr(term))
    ensures Captured([term] + rest, false) == Captured(rest, false)
  {
  }

  /** A span is open before line i when some earlier line is a header and
      no line from that header up to i is a terminator. */
  ghost predicate OpenBefore(ls: seq<string>, i: int)
    requires 0 <= i <= |ls|
  {
    exists j :: 0 <= j < i && IsHeader(StripCr(ls[j])) && NoTerminator(ls[j..i])
  }

  /** Line i is in a span when it is a header or a span is open before it. */
  ghost predicate InSpan(ls: seq<string>, i: int)
    requires 0 <= i < |ls|
  {
    IsHeader(StripCr(ls[i])) || OpenBefore(ls, i)
  }

  lemma NoTerminatorSnoc(ls: seq<string>, j: nat, i: nat)
    requires j < i <= |ls|
    ensures NoTerminator(ls[j..i]) <==> NoTerminator(ls[j..i - 1]) && !IsTerminator(StripCr(ls[i - 1]))
  {
    var a, b := ls[j..i - 1], ls[j..i];
    assert b == a + [ls[i - 1]];
    if NoTerminator(a) && !IsTerminator(StripCr(ls[i - 1])) {
      forall k | 0 <= k < |b| ensures !IsTerminator(StripCr(b[k])) {
        if k < |a| {
          assert b[k] == a[k];
        }
      }
    }
    if NoTerminator(b) {
      assert b[|a|] == ls[i - 1];
      forall k | 0 <= k < |a| ensures !IsTerminator(StripCr(a[k])) {
        assert a[k] == b[k];
      }
    }
  }

  lemma FlagAfterSnoc(ls: seq<string>, i: nat, on: bool)
    requires i < |ls|
    ensures FlagAfter(ls[..i + 1], on) == NextFlag(FlagAfter(ls[..i], on), StripCr(ls[i]))
  {
    assert ls[..i + 1] == ls[..i] + [ls[i]];
    FlagAfterAppend(ls[..i], [ls[i]], on);
    assert [ls[i]][1..] == [];
  }

  /** The flag after the first i lines says whether a span is open. */
  lemma {:induction false} FlagIsOpenSpan(ls: seq<string>, i: nat)
    requires i <= |ls|
    ensures FlagAfter(ls[..i], false) <==> OpenBefore(ls, i)
  {
    if i > 0 {
      var before := FlagAfter(ls[..i - 1], false);
      var line := StripCr(ls[i - 1]);
      FlagAfterSnoc(ls, i - 1, false);
      FlagIsOpenSpan(ls, i - 1);
      assert OpenBefore(ls, i) ==> NextFlag(before, line) by {
        if OpenBefore(ls, i) {
          var j :| 0 <= j < i && IsHeader(StripCr(ls[j])) && NoTerminator(ls[j..i]);
          NoTerminatorSnoc(ls, j, i);
          if j < i - 1 {
            assert OpenBefore(ls, i - 1);
          }
        }
      }
      assert NextFlag(before, line) ==> OpenBefore(ls, i) by {
        if NextFlag(before, line) {
          if IsHeader(line) {
            NoTerminatorSnoc(ls, i - 1, i);
            assert NoTerminator(ls[i - 1..i]);
          } else {
            var j :| 0 <= j < i - 1 && IsHeader(StripCr(ls[j])) && NoTerminator(ls[j..i - 1]);
            NoTerminatorSnoc(ls, j, i);
          }
        }
      }
    } else {
      assert ls[..0] == [];
    }
  }

  /** The kept lines picked out by a mask, stripped, each with "\r\n". */
  function Selected(ls: seq<string>, keep: seq<bool>): string
    requires |keep| == |ls|
  {
    if ls == [] then ""
    else (if keep[0] then StripCr(ls[0]) + CrLf else "") + Selected(ls[1..], keep[1..])
  }

  lemma {:induction false} JoinedIsSelectedAll(ls: seq<string>)
    ensures Joined(ls) == Selected(ls, seq(|ls|, _ => true))
  {
    if ls != [] {
      JoinedIsSelectedAll(ls[1..]);
      assert seq(|ls|, _ => true)[1..] == seq(|ls[1..]|, _ => true);
    }
  }

  ghost function SpanMask(ls: seq<string>): (keep: seq<bool>)
    ensures |keep| == |ls|
    ensures forall i :: 0 <= i < |ls| ==> keep[i] == InSpan(ls, i)
  {
    seq(|ls|, i requires 0 <= i < |ls| => InSpan(ls, i))
  }

  /** Line i is written exactly when it is in a span. */
  lemma ScanAt(ls: seq<string>, i: nat)
    requires i < |ls|
    ensures Captured(ls[i..], FlagAfter(ls[..i], false))
      == (if InSpan(ls, i) then StripCr(ls[i]) + CrLf else "") + Captured(ls[i + 1..], FlagAfter(ls[..i + 1], false))
  {
    var f := FlagAfter(ls[..i], false);
    assert ls[i..] == [ls[i]] + ls[i + 1..];
    CapturedCons(ls[i], ls[i + 1..], f);
    FlagAfterSnoc(ls, i, false);
    assert Capturing(f, StripCr(ls[i])) == InSpan(ls, i) by {
      FlagIsOpenSpan(ls, i);
    }
  }

  lemma {:induction false} CapturedFrom(ls: seq<string>, i: nat)
    requires i <= |ls|
    ensures Captured(ls[i..], FlagAfter(ls[..i], false)) == Selected(ls[i..], SpanMask(ls)[i..])
    decreases |ls| - i
  {
    if i < |ls| {
      var mask := SpanMask(ls);
      ScanAt(ls, i);
      CapturedFrom(ls, i + 1);
      assert ls[i..][1..] == ls[i + 1..];
      assert mask[i..][1..] == mask[i + 1..];
    }
  }

  /** The buffer is exactly the lines inside header..terminator spans, in
      their input order, each stripped and followed by "\r\n". */
  lemma CapturedIsSpans(ls: seq<string>)
    ensures Captured(ls, false) == Selected(ls, SpanMask(ls))
  {
    CapturedFrom(ls, 0);
    assert ls[..0] == [];
    assert ls[0..] == ls;
    assert SpanMask(ls)[0..] == SpanMask(ls);
  }
}
