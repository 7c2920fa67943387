/** Runs of concrete programs, and the general facts about repeated
    operations and loops they rest on. */
module Scenarios {
  import opened Tape
  import opened Brackets
  import opened Interpreter
  import opened Properties

  /** `n` copies of the character `c`. */
  function Repeat(c: char, n: nat): (s: seq<char>)
    ensures |s| == n
    ensures forall k :: 0 <= k < n ==> s[k] == c
  {
    seq(n, _ => c)
  }

  /** The state `st` with the current cell replaced by `v`. */
  function SetCell(st: State, v: int): State
    requires InRange(st.mem)
  {
    st.(mem := st.mem.(data := st.mem.data[st.mem.pointer := v]))
  }

  /** Folding over a concatenation folds over each part in turn. */
  lemma {:induction false} ExecConcat(p: seq<char>, q: seq<char>, st: State)
    ensures var e := Exec(p, st);
      Exec(p + q, st) == (if e.Done? then Exec(q, e.st) else e)
    decreases |p|
  {
    if |p| == 0 {
      assert p + q == q;
    } else {
      assert (p + q)[0] == p[0];
      assert (p + q)[1..] == p[1..] + q;
      var o := Step(p[0], st);
      if o.Done? {
        ExecConcat(p[1..], q, o.st);
      }
    }
  }

  /** `n` moves right never fail: the pointer advances by `n` whatever the
      length of the tape. */
  lemma {:induction false} MovesRight(n: nat, st: State)
    ensures Exec(Repeat('>', n), st) == Done(st.(mem := st.mem.(pointer := st.mem.pointer + n)))
    decreases n
  {
    if n > 0 {
      assert Repeat('>', n) == ['>'] + Repeat('>', n - 1);
      assert Exec(['>'], st) == Done(st.(mem := IncPointer(st.mem)));
      ExecConcat(['>'], Repeat('>', n - 1), st);
      MovesRight(n - 1, st.(mem := IncPointer(st.mem)));
    }
  }

  /** Setting the current cell twice keeps only the second value. */
  lemma SetCellTwice(st: State, a: int, b: int)
    requires InRange(st.mem)
    ensures SetCell(SetCell(st, a), b) == SetCell(st, b)
  {
    assert st.mem.data[st.mem.pointer := a][st.mem.pointer := b] == st.mem.data[st.mem.pointer := b];
  }

  /** A lone `+` as a fold. */
  lemma OneIncrement(st: State)
    requires InRange(st.mem)
    ensures Exec(['+'], st) == Done(SetCell(st, (st.mem.data[st.mem.pointer] + 1) % CellModulus))
  {
    var next := SetCell(st, (st.mem.data[st.mem.pointer] + 1) % CellModulus);
    StepIncrement(st);
    ExecSingle('+', st, next);
  }

  lemma StepIncrement(st: State)
    requires InRange(st.mem)
    ensures Step('+', st) == Done(SetCell(st, (st.mem.data[st.mem.pointer] + 1) % CellModulus))
  {
  }

  /** A fold over one character is that character's step. */
  lemma ExecSingle(c: char, st: State, st': State)
    requires Step(c, st) == Done(st')
    ensures Exec([c], st) == Done(st')
  {
    assert [c][1..] == [];
  }

  /** A `+` after the current cell was set to `u` sets it to `u + 1`,
      modulo 2^16. */
  lemma IncrementAfterSet(st: State, u: int)
    requires InRange(st.mem)
    ensures Exec(['+'], SetCell(st, u)) == Done(SetCell(st, (u + 1) % CellModulus))
  {
    var mid := SetCell(st, u);
    OneIncrement(mid);
    assert mid.mem.data[mid.mem.pointer] == u;
    SetCellTwice(st, u, (u + 1) % CellModulus);
  }

  /** `n` increments add `n` to the current cell, modulo 2^16. */
  lemma {:induction false} Increments(n: nat, st: State)
    requires InRange(st.mem) && 0 <= st.mem.data[st.mem.pointer] < CellModulus
    ensures Exec(Repeat('+', n), st) == Done(SetCell(st, (st.mem.data[st.mem.pointer] + n) % CellModulus))
    decreases n
  {
    if n == 0 {
      NoIncrements(st);
    } else {
      Increments(n - 1, st);
      OneMoreIncrement(n, st, (st.mem.data[st.mem.pointer] + n - 1) % CellModulus);
      ModSucc(st.mem.data[st.mem.pointer] + n - 1);
    }
  }

  /** `Increments` with the resulting cell value named by the caller. */
  lemma AddsTo(n: nat, st: State, v: int)
    requires InRange(st.mem) && 0 <= st.mem.data[st.mem.pointer] < CellModulus
    requires v == (st.mem.data[st.mem.pointer] + n) % CellModulus
    ensures Exec(Repeat('+', n), st) == Done(SetCell(st, v))
  {
    Increments(n, st);
  }

  lemma OneMoreIncrement(n: nat, st: State, u: int)
    requires n > 0 && InRange(st.mem)
    requires Exec(Repeat('+', n - 1), st) == Done(SetCell(st, u))
    ensures Exec(Repeat('+', n), st) == Done(SetCell(st, (u + 1) % CellModulus))
  {
    ExecRepeatLast('+', n, st, SetCell(st, u));
    IncrementAfterSet(st, u);
  }

  /** The last of `n` copies of a command runs after the other `n - 1`. */
  lemma ExecRepeatLast(c: char, n: nat, st: State, mid: State)
    requires n > 0
    requires Exec(Repeat(c, n - 1), st) == Done(mid)
    ensures Exec(Repeat(c, n), st) == Exec([c], mid)
  {
    assert Repeat(c, n) == Repeat(c, n - 1) + [c];
    ExecConcat(Repeat(c, n - 1), [c], st);
  }

  lemma NoIncrements(st: State)
    requires InRange(st.mem) && 0 <= st.mem.data[st.mem.pointer] < CellModulus
    ensures Exec(Repeat('+', 0), st) == Done(SetCell(st, st.mem.data[st.mem.pointer] % CellModulus))
  {
    assert Repeat('+', 0) == [];
    assert SetCell(st, st.mem.data[st.mem.pointer] % CellModulus) == st;
  }

  lemma ModSucc(x: int)
    ensures (x % CellModulus + 1) % CellModulus == (x + 1) % CellModulus
  {
  }

  /** A lone `-` on a positive cell, as a fold. */
  lemma OneDecrement(st: State)
    requires InRange(st.mem) && 0 < st.mem.data[st.mem.pointer] < CellModulus
    ensures Exec(['-'], st) == Done(SetCell(st, st.mem.data[st.mem.pointer] - 1))
  {
    var v := st.mem.data[st.mem.pointer];
    StepDecrement(st);
    ExecSingle('-', st, SetCell(st, v - 1));
  }

  lemma StepDecrement(st: State)
    requires InRange(st.mem) && 0 < st.mem.data[st.mem.pointer] < CellModulus
    ensures Step('-', st) == Done(SetCell(st, st.mem.data[st.mem.pointer] - 1))
  {
    var v := st.mem.data[st.mem.pointer];
    assert (v - 1) % CellModulus == v - 1;
    assert DecValue(st.mem) == Ok(SetCell(st, v - 1).mem);
  }

  /** One pass of a loop whose condition holds: the body runs, then the
      condition is checked again with one unit of fuel less. */
  lemma LoopPass(code: seq<char>, start: nat, end: nat, body: seq<char>, st: State, fuel: nat, st': State)
    requires start < end < |code| && code[start + 1..end] == body
    requires InRange(st.mem) && st.mem.data[st.mem.pointer] != 0 && fuel > 0
    requires Run(body, 0, st, fuel - 1) == Done(st')
    ensures RunLoop(code, start, end, st, fuel) == RunLoop(code, start, end, st', fuel - 1)
  {
  }

  /** The loop `[-]` counts the current cell down to 0 and stops there,
      given as many units of fuel as the cell's value. */
  lemma {:induction false} ClearLoop(code: seq<char>, start: nat, end: nat, st: State, fuel: nat)
    requires start < end < |code| && code[start + 1..end] == ['-']
    requires InRange(st.mem) && 0 <= st.mem.data[st.mem.pointer] < CellModulus
    requires fuel >= st.mem.data[st.mem.pointer]
    ensures RunLoop(code, start, end, st, fuel) == Done(SetCell(st, 0))
    decreases st.mem.data[st.mem.pointer]
  {
    var v := st.mem.data[st.mem.pointer];
    if v == 0 {
      assert SetCell(st, 0) == st;
    } else {
      var next := SetCell(st, v - 1);
      ClearPass(code, start, end, st, fuel);
      ClearLoop(code, start, end, next, fuel - 1);
      SetCellTwice(st, v - 1, 0);
    }
  }

  lemma ClearPass(code: seq<char>, start: nat, end: nat, st: State, fuel: nat)
    requires start < end < |code| && code[start + 1..end] == ['-']
    requires InRange(st.mem) && 0 < st.mem.data[st.mem.pointer] < CellModulus && fuel > 0
    ensures RunLoop(code, start, end, st, fuel) ==
      RunLoop(code, start, end, SetCell(st, st.mem.data[st.mem.pointer] - 1), fuel - 1)
  {
    var v := st.mem.data[st.mem.pointer];
    RunWithoutLoops(['-'], st, fuel - 1);
    OneDecrement(st);
    LoopPass(code, start, end, ['-'], st, fuel, SetCell(st, v - 1));
  }

  /** A lone `.` on a cell below 256, as a fold. */
  lemma OnePrint(st: State)
    requires InRange(st.mem) && 0 <= st.mem.data[st.mem.pointer] < ByteModulus
    ensures Exec(['.'], st) == Done(st.(output := st.output + [st.mem.data[st.mem.pointer]]))
  {
    assert Print(st.mem) == Ok(st.mem.data[st.mem.pointer]);
    ExecSingle('.', st, st.(output := st.output + [st.mem.data[st.mem.pointer]]));
  }

  /** `++.` prints the byte 2. */
  lemma PrintsTwo(input: seq<seq<int>>, fuel: nat)
    ensures Interpret("++.", input, fuel) == Done(SetCell(Fresh(input), 2).(output := [2]))
  {
    var code := "++.";
    RunWithoutLoops(code, Fresh(input), fuel);
    assert code == Repeat('+', 2) + ['.'];
    IncrementTwiceAndPrint(Fresh(input));
  }

  lemma IncrementTwiceAndPrint(st: State)
    requires InRange(st.mem) && st.mem.data[st.mem.pointer] == 0
    ensures Exec(Repeat('+', 2) + ['.'], st) == Done(SetCell(st, 2).(output := st.output + [2]))
  {
    AddsTo(2, st, 2);
    OnePrint(SetCell(st, 2));
    ExecThen(Repeat('+', 2), ['.'], st, SetCell(st, 2), SetCell(st, 2).(output := st.output + [2]));
  }

  /** `+[-]` sets the first cell to 1, then the loop runs once and clears it:
      the run ends on a tape equal to a fresh one, with nothing printed. With
      no fuel at all, the one iteration cannot start. */
  lemma IncrementThenClear(input: seq<seq<int>>, fuel: nat)
    ensures fuel >= 1 ==> Interpret("+[-]", input, fuel) == Done(Fresh(input))
    ensures fuel == 0 ==> Interpret("+[-]", input, fuel) == OutOfFuel
  {
    var code := "+[-]";
    var one := SetCell(Fresh(input), 1);
    RunStretch(code, 0, 1, Fresh(input), fuel);
    assert code[0..1] == Repeat('+', 1);
    Increments(1, Fresh(input));
    assert FindNext(code, 1) == Some(3);
    assert code[2..3] == ['-'];
    if fuel >= 1 {
      ClearLoop(code, 1, 3, one, fuel);
      SetCellTwice(Fresh(input), 1, 0);
      assert SetCell(Fresh(input), 0) == Fresh(input);
      LoopThenResume(code, 1, 3, one, Fresh(input), fuel);
    }
  }

  /** `[` alone fails with an unmatched bracket before touching the tape. */
  lemma LoneOpenBracketFails(input: seq<seq<int>>, fuel: nat)
    ensures Interpret("[", input, fuel) == Fail(UnmatchedBracket, Fresh(input))
  {
    assert FindNext("[", 0) == None;
  }

  /** Moving right `n` times from the first cell never fails by itself; the
      `+` that follows fails exactly when `n` reaches the tape's capacity. */
  lemma MovesThenIncrement(n: nat, input: seq<seq<int>>, fuel: nat)
    ensures var r := Interpret(Repeat('>', n) + ['+'], input, fuel);
      && (r.Fail? <==> n >= Capacity)
      && (r.Fail? ==> r.error == PointerOutOfRange && r.st.mem.pointer == n)
      && (r.Done? ==> r.st.mem.pointer == n && n < |r.st.mem.data| && r.st.mem.data[n] == 1)
  {
    var code := Repeat('>', n) + ['+'];
    var moved := Fresh(input).(mem := Fresh(input).mem.(pointer := n));
    RunWithoutLoops(code, Fresh(input), fuel);
    ExecConcat(Repeat('>', n), ['+'], Fresh(input));
    MovesRight(n, Fresh(input));
    if n < Capacity {
      OneIncrement(moved);
    } else {
      assert Step('+', moved) == Fail(PointerOutOfRange, moved);
    }
  }

  /** The state `st` with the current cell set to `x` and the next one to `y`. */
  function SetTwoCells(st: State, x: int, y: int): State
    requires st.mem.pointer + 1 < |st.mem.data|
  {
    var p := st.mem.pointer;
    st.(mem := st.mem.(data := st.mem.data[p := x][p + 1 := y]))
  }

  /** The body of a multiplication loop: move right, add `k`, move back,
      count down. */
  function MultiplyBody(k: nat): seq<char> {
    ['>'] + Repeat('+', k) + ['<', '-']
  }

  lemma OneMoveRight(st: State)
    ensures Exec(['>'], st) == Done(st.(mem := st.mem.(pointer := st.mem.pointer + 1)))
  {
    ExecSingle('>', st, st.(mem := st.mem.(pointer := st.mem.pointer + 1)));
  }

  /** `<-` on a positive cell left of the pointer, as a fold. */
  lemma LeftThenDecrement(st: State)
    requires 0 < st.mem.pointer <= |st.mem.data|
    requires 0 < st.mem.data[st.mem.pointer - 1] < CellModulus
    ensures var p := st.mem.pointer - 1;
      Exec(['<', '-'], st) ==
        Done(st.(mem := Memory(p, st.mem.data[p := st.mem.data[p] - 1])))
  {
    var left := st.(mem := st.mem.(pointer := st.mem.pointer - 1));
    assert Step('<', st) == Done(left);
    assert ['<', '-'][1..] == ['-'];
    OneDecrement(left);
  }

  /** Two folds that both complete compose. */
  lemma ExecThen(p: seq<char>, q: seq<char>, st: State, mid: State, fin: State)
    requires Exec(p, st) == Done(mid) && Exec(q, mid) == Done(fin)
    ensures Exec(p + q, st) == Done(fin)
  {
    ExecConcat(p, q, st);
  }

  /** One pass of the multiplication body moves `k` into the next cell and
      takes one from the current cell. */
  lemma MultiplyBodyPass(k: nat, st: State)
    requires st.mem.pointer + 1 < |st.mem.data|
    requires 0 < st.mem.data[st.mem.pointer] < CellModulus
    requires 0 <= st.mem.data[st.mem.pointer + 1] < CellModulus
    ensures var p := st.mem.pointer;
      Exec(MultiplyBody(k), st) ==
        Done(SetTwoCells(st, st.mem.data[p] - 1, (st.mem.data[p + 1] + k) % CellModulus))
  {
    var p := st.mem.pointer;
    var y := (st.mem.data[p + 1] + k) % CellModulus;
    var mid := SetCell(st.(mem := st.mem.(pointer := p + 1)), y);
    MoveAndAdd(k, st, y);
    BackAndDown(st, y);
    ExecThen(['>'] + Repeat('+', k), ['<', '-'], st, mid, SetTwoCells(st, st.mem.data[p] - 1, y));
  }

  /** `<-` after the move and the additions: back to the counter, one less. */
  lemma BackAndDown(st: State, y: int)
    requires st.mem.pointer + 1 < |st.mem.data|
    requires 0 < st.mem.data[st.mem.pointer] < CellModulus
    ensures Exec(['<', '-'], SetCell(st.(mem := st.mem.(pointer := st.mem.pointer + 1)), y)) ==
      Done(SetTwoCells(st, st.mem.data[st.mem.pointer] - 1, y))
  {
    LeftThenDecrement(SetCell(st.(mem := st.mem.(pointer := st.mem.pointer + 1)), y));
    SwapUpdates(st, y);
  }

  /** `>` followed by `k` increments adds `k` to the next cell. */
  lemma MoveAndAdd(k: nat, st: State, y: int)
    requires st.mem.pointer + 1 < |st.mem.data|
    requires 0 <= st.mem.data[st.mem.pointer + 1] < CellModulus
    requires y == (st.mem.data[st.mem.pointer + 1] + k) % CellModulus
    ensures Exec(['>'] + Repeat('+', k), st) ==
      Done(SetCell(st.(mem := st.mem.(pointer := st.mem.pointer + 1)), y))
  {
    var right := st.(mem := st.mem.(pointer := st.mem.pointer + 1));
    OneMoveRight(st);
    AddsTo(k, right, y);
    ExecThen(['>'], Repeat('+', k), st, right, SetCell(right, y));
  }

  lemma SwapUpdates(st: State, y: int)
    requires st.mem.pointer + 1 < |st.mem.data|
    ensures var p := st.mem.pointer;
      var d := st.mem.data[p + 1 := y];
      st.(mem := Memory(p, d[p := d[p] - 1])) == SetTwoCells(st, st.mem.data[p] - 1, y)
  {
    var p := st.mem.pointer;
    assert st.mem.data[p + 1 := y][p := st.mem.data[p] - 1]
        == st.mem.data[p := st.mem.data[p] - 1][p + 1 := y];
  }

  lemma MultiplyBodyRun(k: nat, st: State, fuel: nat)
    requires st.mem.pointer + 1 < |st.mem.data|
    requires 0 < st.mem.data[st.mem.pointer] < CellModulus
    requires 0 <= st.mem.data[st.mem.pointer + 1] < CellModulus
    ensures var p := st.mem.pointer;
      Run(MultiplyBody(k), 0, st, fuel) ==
        Done(SetTwoCells(st, st.mem.data[p] - 1, (st.mem.data[p + 1] + k) % CellModulus))
  {
    var body := MultiplyBody(k);
    assert forall j :: 0 <= j < |body| ==> body[j] != '[';
    RunWithoutLoops(body, st, fuel);
    MultiplyBodyPass(k, st);
  }

  lemma SetTwoCellsTwice(st: State, x: int, y: int, x': int, y': int)
    requires st.mem.pointer + 1 < |st.mem.data|
    ensures SetTwoCells(SetTwoCells(st, x, y), x', y') == SetTwoCells(st, x', y')
  {
    var p := st.mem.pointer;
    assert st.mem.data[p := x][p + 1 := y][p := x'][p + 1 := y'] == st.mem.data[p := x'][p + 1 := y'];
  }

  lemma MulMod(a: int, b: int, k: int)
    requires a > 0
    ensures ((b + k) % CellModulus + (a - 1) * k) % CellModulus == (b + a * k) % CellModulus
  {
    assert a * k == (a - 1) * k + k;
    ModAdd(b + k, (a - 1) * k);
  }

  lemma ModAdd(x: int, y: int)
    ensures (x % CellModulus + y) % CellModulus == (x + y) % CellModulus
  {
  }

  /** A loop `[>` + `k` increments + `<-]` adds `k` times the current cell to
      the next cell, modulo 2^16, and leaves the current cell at 0, given as
      many units of fuel as the current cell's value. */
  lemma {:induction false} MultiplyLoop(code: seq<char>, start: nat, end: nat, k: nat, st: State, fuel: nat)
    requires start < end < |code| && code[start + 1..end] == MultiplyBody(k)
    requires st.mem.pointer + 1 < |st.mem.data|
    requires 0 <= st.mem.data[st.mem.pointer] < CellModulus
    requires 0 <= st.mem.data[st.mem.pointer + 1] < CellModulus
    requires fuel >= st.mem.data[st.mem.pointer]
    ensures var a := st.mem.data[st.mem.pointer];
      var b := st.mem.data[st.mem.pointer + 1];
      RunLoop(code, start, end, st, fuel) == Done(SetTwoCells(st, 0, (b + a * k) % CellModulus))
    decreases st.mem.data[st.mem.pointer]
  {
    var p := st.mem.pointer;
    var a := st.mem.data[p];
    var b := st.mem.data[p + 1];
    if a == 0 {
      assert SetTwoCells(st, 0, (b + a * k) % CellModulus) == st;
    } else {
      var next := SetTwoCells(st, a - 1, (b + k) % CellModulus);
      MultiplyBodyRun(k, st, fuel - 1);
      LoopPass(code, start, end, MultiplyBody(k), st, fuel, next);
      MultiplyLoop(code, start, end, k, next, fuel - 1);
      MultiplyLoopRest(k, st, next, RunLoop(code, start, end, next, fuel - 1));
    }
  }

  /** The passes after the first one finish the product. */
  lemma MultiplyLoopRest(k: nat, st: State, next: State, rest: Outcome)
    requires st.mem.pointer + 1 < |st.mem.data|
    requires 0 < st.mem.data[st.mem.pointer] < CellModulus
    requires next == SetTwoCells(st, st.mem.data[st.mem.pointer] - 1,
      (st.mem.data[st.mem.pointer + 1] + k) % CellModulus)
    requires rest == Done(SetTwoCells(next, 0,
      (next.mem.data[next.mem.pointer + 1] + next.mem.data[next.mem.pointer] * k) % CellModulus))
    ensures rest == Done(SetTwoCells(st, 0,
      (st.mem.data[st.mem.pointer + 1] + st.mem.data[st.mem.pointer] * k) % CellModulus))
  {
    var p := st.mem.pointer;
    var a := st.mem.data[p];
    var b := st.mem.data[p + 1];
    var b' := (b + k) % CellModulus;
    assert next.mem.data[p] == a - 1 && next.mem.data[p + 1] == b';
    SetTwoCellsTwice(st, a - 1, b', 0, (b' + (a - 1) * k) % CellModulus);
    MulMod(a, b, k);
  }

  /** The program that prints the byte 64 as 8 times 8. */
  const SixtyFour: seq<char> := "++++++++[>++++++++<-]>."

  /** The state after the first loop of `SixtyFour`: the first cell cleared,
      the second holding 64. */
  function AfterMultiply(input: seq<seq<int>>): State {
    SetTwoCells(SetCell(Fresh(input), 8), 0, 64)
  }

  lemma SixtyFourPrefix(input: seq<seq<int>>, fuel: nat)
    ensures Run(SixtyFour, 0, Fresh(input), fuel) == Run(SixtyFour, 8, SetCell(Fresh(input), 8), fuel)
  {
    RunStretch(SixtyFour, 0, 8, Fresh(input), fuel);
    EightIncrements(input);
  }

  lemma EightIncrements(input: seq<seq<int>>)
    ensures Exec(SixtyFour[0..8], Fresh(input)) == Done(SetCell(Fresh(input), 8))
  {
    assert SixtyFour[0..8] == Repeat('+', 8);
    Increments(8, Fresh(input));
  }

  /** A multiplication body holds no brackets. */
  lemma MultiplyBodyFlat(k: nat)
    ensures forall j :: 0 <= j < |MultiplyBody(k)| ==>
      MultiplyBody(k)[j] != '[' && MultiplyBody(k)[j] != ']'
  {
  }

  /** The loop of `SixtyFour` spans positions 8 to 20 and is a
      multiplication by 8. */
  lemma SixtyFourShape()
    ensures SixtyFour[9..20] == MultiplyBody(8)
    ensures FindNext(SixtyFour, 8) == Some(20)
  {
    assert SixtyFour[9..20] == MultiplyBody(8);
    MultiplyBodyFlat(8);
    forall j | 8 < j < 20
      ensures SixtyFour[j] != '[' && SixtyFour[j] != ']'
    {
      assert SixtyFour[j] == SixtyFour[9..20][j - 9];
    }
    FlatLoopMatches(SixtyFour, 8, 20);
  }

  /** The tape after the eight increments: 8 under the pointer at cell 0,
      0 in cell 1. */
  lemma EightOnFresh(input: seq<seq<int>>)
    ensures var s1 := SetCell(Fresh(input), 8);
      && s1.mem.pointer == 0 && |s1.mem.data| == Capacity
      && s1.mem.data[0] == 8 && s1.mem.data[1] == 0
  {
  }

  lemma SixtyFourLoop(input: seq<seq<int>>, fuel: nat)
    requires fuel >= 8
    ensures Run(SixtyFour, 8, SetCell(Fresh(input), 8), fuel) == Run(SixtyFour, 21, AfterMultiply(input), fuel)
  {
    var s1 := SetCell(Fresh(input), 8);
    SixtyFourShape();
    EightOnFresh(input);
    assert (0 + 8 * 8) % CellModulus == 64;
    MultiplyLoop(SixtyFour, 8, 20, 8, s1, fuel);
    LoopThenResume(SixtyFour, 8, 20, s1, AfterMultiply(input), fuel);
  }

  lemma SixtyFourSuffix(input: seq<seq<int>>, fuel: nat)
    ensures var s2 := AfterMultiply(input);
      Run(SixtyFour, 21, s2, fuel) == Done(s2.(mem := s2.mem.(pointer := 1), output := [64]))
  {
    var s2 := AfterMultiply(input);
    var right := s2.(mem := s2.mem.(pointer := 1));
    RunStretch(SixtyFour, 21, 23, s2, fuel);
    assert SixtyFour[21..23] == ['>'] + ['.'];
    OneMoveRight(s2);
    OnePrint(right);
    ExecThen(['>'], ['.'], s2, right, right.(output := [64]));
  }

  /** `++++++++[>++++++++<-]>.` prints the byte 64, given fuel for the
      loop's eight iterations; it ends on the second cell, which holds 64,
      with the first cell back at 0. */
  lemma PrintsSixtyFour(input: seq<seq<int>>, fuel: nat)
    requires fuel >= 8
    ensures var r := Interpret(SixtyFour, input, fuel);
      && r.Done? && r.st.output == [64] && r.st.mem.pointer == 1
      && |r.st.mem.data| == Capacity && r.st.mem.data[0] == 0 && r.st.mem.data[1] == 64
  {
    SixtyFourPrefix(input, fuel);
    SixtyFourLoop(input, fuel);
    SixtyFourSuffix(input, fuel);
  }
}
