/** Properties of the evaluator: what evaluation preserves, how a scan
    relates to the in-order fold of single steps, what a loop does, when an
    unmatched `[` is detected, and what the fuel bound does not change. */
module Properties {
  import opened Tape
  import opened Brackets
  import opened Interpreter

  /** A single step keeps the tape's length and validity, appends to the
      output and consumes input only from the front. */
  lemma StepFollows(c: char, st: State)
    ensures Step(c, st).Done? ==> Follows(st, Step(c, st).st)
  {
    if c == ',' && Scan(st.mem, st.input).Ok? {
      assert st.input[1..] == st.input[|st.input| - (|st.input| - 1)..];
      assert ValidState(st) ==> 0 <= st.input[0][0] < ByteModulus;
    }
  }

  /** Evaluation, however it ends, only ever appends to the output, consumes
      input from the front, keeps the tape's length and keeps every cell a
      `u16` value. */
  lemma {:induction false} RunFollows(code: seq<char>, i: nat, st: State, fuel: nat)
    requires i <= |code|
    ensures var r := Run(code, i, st, fuel);
      r.Done? || r.Fail? ==> Follows(st, r.st)
    decreases fuel, |code| - i + 1
  {
    if i < |code| {
      if code[i] == '[' {
        var m := FindNext(code, i);
        if m.Some? {
          RunLoopFollows(code, i, m.value, st, fuel);
          var l := RunLoop(code, i, m.value, st, fuel);
          if l.Done? {
            RunFollows(code, m.value + 1, l.st, fuel);
            var r := Run(code, m.value + 1, l.st, fuel);
            if r.Done? || r.Fail? {
              FollowsTransitive(st, l.st, r.st);
            }
          }
        }
      } else {
        StepFollows(code[i], st);
        var o := Step(code[i], st);
        if o.Done? {
          RunFollows(code, i + 1, o.st, fuel);
          var r := Run(code, i + 1, o.st, fuel);
          if r.Done? || r.Fail? {
            FollowsTransitive(st, o.st, r.st);
          }
        }
      }
    }
  }

  lemma {:induction false} RunLoopFollows(code: seq<char>, start: nat, end: nat, st: State, fuel: nat)
    requires start < end < |code|
    ensures var r := RunLoop(code, start, end, st, fuel);
      r.Done? || r.Fail? ==> Follows(st, r.st)
    decreases fuel, 0
  {
    if InRange(st.mem) && st.mem.data[st.mem.pointer] != 0 && fuel > 0 {
      RunFollows(code[start + 1..end], 0, st, fuel - 1);
      var b := Run(code[start + 1..end], 0, st, fuel - 1);
      if b.Done? {
        RunLoopFollows(code, start, end, b.st, fuel - 1);
        var r := RunLoop(code, start, end, b.st, fuel - 1);
        if r.Done? || r.Fail? {
          FollowsTransitive(st, b.st, r.st);
        }
      }
    }
  }

  /** A whole run from a fresh tape keeps the standard tape length and
      consumes at most the lines it was given. */
  lemma InterpretFollows(code: seq<char>, input: seq<seq<int>>, fuel: nat)
    ensures var r := Interpret(code, input, fuel);
      r.Done? || r.Fail? ==> |r.st.mem.data| == Capacity && |r.st.input| <= |input|
  {
    RunFollows(code, 0, Fresh(input), fuel);
  }

  /** Scanning a stretch `code[i..j]` that holds no `[` is the fold of `Step`
      over it, after which the scan continues at `j`. */
  lemma {:induction false} RunStretch(code: seq<char>, i: nat, j: nat, st: State, fuel: nat)
    requires i <= j <= |code|
    requires forall k :: i <= k < j ==> code[k] != '['
    ensures var e := Exec(code[i..j], st);
      Run(code, i, st, fuel) == (if e.Done? then Run(code, j, e.st, fuel) else e)
    decreases j - i
  {
    if i < j {
      assert code[i..j][0] == code[i];
      assert code[i..j][1..] == code[i + 1..j];
      var o := Step(code[i], st);
      if o.Done? {
        RunStretch(code, i + 1, j, o.st, fuel);
      }
    }
  }

  /** A program without loops runs as the in-order fold of its single steps,
      whatever the fuel. */
  lemma RunWithoutLoops(code: seq<char>, st: State, fuel: nat)
    requires forall k :: 0 <= k < |code| ==> code[k] != '['
    ensures Run(code, 0, st, fuel) == Exec(code, st)
  {
    RunStretch(code, 0, |code|, st, fuel);
    assert code[0..|code|] == code;
  }

  /** Every character that is not one of `><+-.,[` is skipped without effect,
      a `]` met by the scan included. */
  lemma SkipsNonCommand(code: seq<char>, i: nat, st: State, fuel: nat)
    requires i < |code| && code[i] != '[' && !IsCommand(code[i])
    ensures Run(code, i, st, fuel) == Run(code, i + 1, st, fuel)
  {
  }

  /** More fuel never changes an outcome that did not run out of fuel. */
  lemma {:induction false} RunFuelMonotone(code: seq<char>, i: nat, st: State, f: nat, g: nat)
    requires i <= |code| && f <= g
    requires !Run(code, i, st, f).OutOfFuel?
    ensures Run(code, i, st, g) == Run(code, i, st, f)
    decreases f, |code| - i + 1
  {
    if i < |code| {
      if code[i] == '[' {
        match FindNext(code, i)
        case None =>
        case Some(end) =>
          RunLoopFuelMonotone(code, i, end, st, f, g);
          var l := RunLoop(code, i, end, st, f);
          if l.Done? {
            RunFuelMonotone(code, end + 1, l.st, f, g);
          }
      } else {
        var o := Step(code[i], st);
        if o.Done? {
          RunFuelMonotone(code, i + 1, o.st, f, g);
        }
      }
    }
  }

  lemma {:induction false} RunLoopFuelMonotone(code: seq<char>, start: nat, end: nat, st: State, f: nat, g: nat)
    requires start < end < |code| && f <= g
    requires !RunLoop(code, start, end, st, f).OutOfFuel?
    ensures RunLoop(code, start, end, st, g) == RunLoop(code, start, end, st, f)
    decreases f, 0
  {
    if InRange(st.mem) && st.mem.data[st.mem.pointer] != 0 {
      var body := code[start + 1..end];
      RunFuelMonotone(body, 0, st, f - 1, g - 1);
      var b := Run(body, 0, st, f - 1);
      if b.Done? {
        RunLoopFuelMonotone(code, start, end, b.st, f - 1, g - 1);
      }
    }
  }

  /** A `[` reached with the current cell at 0 skips its loop: nothing
      changes and the scan resumes after the balancing `]`. */
  lemma ZeroCellSkipsLoop(code: seq<char>, i: nat, end: nat, st: State, fuel: nat)
    requires i < |code| && code[i] == '['
    requires IsMatch(code, i, end)
    requires InRange(st.mem) && st.mem.data[st.mem.pointer] == 0
    ensures Run(code, i, st, fuel) == Run(code, end + 1, st, fuel)
  {
    FindNextIsMatch(code, i, end);
    ZeroCellLoopDone(code, i, end, st, fuel);
    LoopDoneContinues(code, i, end, st, st, fuel);
  }

  /** A loop whose current cell is 0 ends at once, changing nothing. */
  lemma ZeroCellLoopDone(code: seq<char>, i: nat, end: nat, st: State, fuel: nat)
    requires i < end < |code|
    requires InRange(st.mem) && st.mem.data[st.mem.pointer] == 0
    ensures RunLoop(code, i, end, st, fuel) == Done(st)
  {
  }

  /** `LoopDoneContinues` with the `]` given by `find_next` itself. */
  lemma LoopThenResume(code: seq<char>, i: nat, end: nat, st: State, st': State, fuel: nat)
    requires i < |code| && code[i] == '['
    requires FindNext(code, i) == Some(end)
    requires RunLoop(code, i, end, st, fuel) == Done(st')
    ensures Run(code, i, st, fuel) == Run(code, end + 1, st', fuel)
  {
  }

  /** After a loop ends normally, the scan resumes just after the `]` that
      balances its `[`, in the state the loop left. */
  lemma LoopDoneContinues(code: seq<char>, i: nat, end: nat, st: State, st': State, fuel: nat)
    requires i < |code| && code[i] == '['
    requires IsMatch(code, i, end)
    requires RunLoop(code, i, end, st, fuel) == Done(st')
    ensures Run(code, i, st, fuel) == Run(code, end + 1, st', fuel)
  {
    FindNextIsMatch(code, i, end);
    LoopThenResume(code, i, end, st, st', fuel);
  }

  /** A `[` reached with the current cell non-zero evaluates the text strictly
      between it and its balancing `]`, then checks the cell again; once the
      loop ends normally the scan resumes after the `]`, and a failure or a
      fuel cut-off anywhere ends the run. */
  lemma NonZeroCellEntersLoop(code: seq<char>, i: nat, end: nat, st: State, fuel: nat)
    requires i < |code| && code[i] == '['
    requires IsMatch(code, i, end)
    requires InRange(st.mem) && st.mem.data[st.mem.pointer] != 0 && fuel > 0
    ensures var b := Run(code[i + 1..end], 0, st, fuel - 1);
      Run(code, i, st, fuel) ==
        if b.Done? then
          var l := RunLoop(code, i, end, b.st, fuel - 1);
          if l.Done? then Run(code, end + 1, l.st, fuel) else l
        else b
  {
    FindNextIsMatch(code, i, end);
  }

  /** A `[` reached with the pointer past the end of the tape fails: the
      loop condition reads the current cell. */
  lemma OffTapeLoopFails(code: seq<char>, i: nat, end: nat, st: State, fuel: nat)
    requires i < |code| && code[i] == '['
    requires IsMatch(code, i, end)
    requires !InRange(st.mem)
    ensures Run(code, i, st, fuel) == Fail(PointerOutOfRange, st)
  {
    FindNextIsMatch(code, i, end);
  }

  /** A `[` without a balancing `]` fails the run when it is reached, with
      the state unchanged by the `[` itself. */
  lemma UnmatchedBracketFails(code: seq<char>, i: nat, st: State, fuel: nat)
    requires i < |code| && code[i] == '['
    requires forall e: nat :: !IsMatch(code, i, e)
    ensures Run(code, i, st, fuel) == Fail(UnmatchedBracket, st)
  {
    FindNextNone(code, i);
  }

  /** A loop depends on the text only through its body. */
  lemma {:induction false} RunLoopSameBody(c1: seq<char>, c2: seq<char>, s: nat, e: nat, st: State, fuel: nat)
    requires s < e < |c1| && e < |c2| && c1[s + 1..e] == c2[s + 1..e]
    ensures RunLoop(c1, s, e, st, fuel) == RunLoop(c2, s, e, st, fuel)
    decreases fuel
  {
    if InRange(st.mem) && st.mem.data[st.mem.pointer] != 0 && fuel > 0 {
      var b := Run(c1[s + 1..e], 0, st, fuel - 1);
      if b.Done? {
        RunLoopSameBody(c1, c2, s, e, b.st, fuel - 1);
      }
    }
  }

  /** When every `[` before `j` is balanced before `j`, scanning from `i`
      runs `code[..j]` on its own and then goes on at `j`. */
  lemma {:induction false} RunPrefix(code: seq<char>, j: nat, i: nat, st: State, fuel: nat)
    requires i <= j <= |code| && ClosedBefore(code, j)
    ensures var e := Run(code[..j], i, st, fuel);
      Run(code, i, st, fuel) == if e.Done? then Run(code, j, e.st, fuel) else e
    decreases j - i
  {
    if i < j {
      assert code[..j][i] == code[i];
      if code[i] == '[' {
        var end :| i < end < j && IsMatch(code, i, end);
        MatchInPrefix(code, j, i, end);
        assert code[..j][i + 1..end] == code[i + 1..end];
        RunLoopSameBody(code, code[..j], i, end, st, fuel);
        var l := RunLoop(code, i, end, st, fuel);
        if l.Done? {
          RunPrefix(code, j, end + 1, l.st, fuel);
        }
      } else {
        var o := Step(code[i], st);
        if o.Done? {
          RunPrefix(code, j, i + 1, o.st, fuel);
        }
      }
    }
  }

  /** An unmatched `[` is found only when the scan reaches it: everything
      before it, loops included, has already taken effect. */
  lemma UnmatchedAfterPrefix(code: seq<char>, j: nat, st: State, fuel: nat)
    requires j < |code| && code[j] == '['
    requires ClosedBefore(code, j)
    requires forall e: nat :: !IsMatch(code, j, e)
    ensures var e := Run(code[..j], 0, st, fuel);
      Run(code, 0, st, fuel) == (if e.Done? then Fail(UnmatchedBracket, e.st) else e)
  {
    RunPrefix(code, j, 0, st, fuel);
    var e := Run(code[..j], 0, st, fuel);
    if e.Done? {
      UnmatchedBracketFails(code, j, e.st, fuel);
    }
  }

  /** `.` appends the current cell's low 8 bits to the output and changes
      nothing else. */
  lemma PrintAppendsLowByte(st: State)
    requires InRange(st.mem)
    ensures var r := Step('.', st);
      && r.Done? && r.st.mem == st.mem && r.st.input == st.input
      && |r.st.output| == |st.output| + 1 && r.st.output[..|st.output|] == st.output
      && 0 <= r.st.output[|st.output|] < ByteModulus
      && (st.mem.data[st.mem.pointer] - r.st.output[|st.output|]) % ByteModulus == 0
  {
    assert (st.output + [Print(st.mem).value])[..|st.output|] == st.output;
  }

  /** `,` stores the first byte of the next input line in the current cell
      and consumes that line; with no line left, or an empty one, it fails
      and changes nothing. */
  lemma ScanReadsFirstByte(st: State)
    ensures var r := Step(',', st);
      && (r.Done? <==> |st.input| > 0 && |st.input[0]| > 0 && InRange(st.mem))
      && (|st.input| == 0 || |st.input[0]| == 0 ==> r == Fail(InputExhausted, st))
      && (r.Done? ==> && r.st.mem.data[st.mem.pointer] == st.input[0][0]
                      && OnlyCurrentCellChanged(st.mem, r.st.mem)
                      && r.st.input == st.input[1..]
                      && r.st.output == st.output)
  {
  }
}
