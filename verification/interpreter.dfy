/** The evaluator: a left-to-right scan of the program text that dispatches on each
    character, entering a loop at every `[` by finding its balancing `]` and
    re-evaluating the text strictly between the two while the current cell is
    non-zero.

    Standard input and output become data: the input is the sequence of lines
    successive `read_line` calls would return, the output the sequence of
    bytes printed so far. A run that fails keeps the state reached at the
    failing instruction, so output printed before the failure stays visible.
    Programs may run forever, so evaluation carries a fuel bound, and running
    out is an outcome of its own. The bound is per loop, not per run: a loop
    entered with fuel `f` may iterate at most `f` times, its body runs with one
    unit less at each iteration, and loops side by side each get the full `f`,
    so the total number of iterations in a run is not bounded by `f`. */
module Interpreter {
  import opened Tape
  import opened Brackets

  datatype State = State(mem: Memory, input: seq<seq<int>>, output: seq<int>)

  datatype Outcome =
    | Done(st: State)               // the scan reached the end of its text
    | Fail(error: Error, st: State)  // a fatal error, with the state just before it
    | OutOfFuel                     // the fuel bound cut evaluation short

  /** Cells are `u16` values, input and output are bytes. */
  predicate ValidState(st: State) {
    && Valid(st.mem)
    && (forall l, j :: 0 <= l < |st.input| && 0 <= j < |st.input[l]| ==> 0 <= st.input[l][j] < ByteModulus)
    && (forall j :: 0 <= j < |st.output| ==> 0 <= st.output[j] < ByteModulus)
  }

  /** What any evaluation step may do to a state: the tape keeps its length,
      output is only appended to, input is only consumed from the front, and
      validity is kept. */
  predicate Follows(before: State, after: State) {
    && |after.mem.data| == |before.mem.data|
    && before.output <= after.output
    && |after.input| <= |before.input|
    && after.input == before.input[|before.input| - |after.input|..]
    && (ValidState(before) ==> ValidState(after))
  }

  lemma FollowsTransitive(a: State, b: State, c: State)
    requires Follows(a, b) && Follows(b, c)
    ensures Follows(a, c)
  {
    assert a.input[|a.input| - |b.input|..][|b.input| - |c.input|..] == a.input[|a.input| - |c.input|..];
  }

  /** The characters that denote a single-step operation. */
  predicate IsCommand(c: char) {
    c == '>' || c == '<' || c == '+' || c == '-' || c == '.' || c == ','
  }

  /** A tape operation's result as an evaluation outcome. */
  function Lift(r: Result<Memory>, st: State): (o: Outcome)
    ensures o.Fail? ==> o.st == st
    ensures o.Done? || o.Fail?
  {
    match r
    case Ok(m) => Done(st.(mem := m))
    case Err(e) => Fail(e, st)
  }

  /** `.`: the current cell's low byte is appended to the output. */
  function Emit(st: State): (r: Outcome)
    ensures r.Fail? ==> r.st == st
    ensures r.Done? || r.Fail?
  {
    match Print(st.mem)
    case Ok(b) => Done(st.(output := st.output + [b]))
    case Err(e) => Fail(e, st)
  }

  /** `,`: the first byte of the next input line goes to the current cell. */
  function Input(st: State): (r: Outcome)
    ensures r.Fail? ==> r.st == st
    ensures r.Done? || r.Fail?
  {
    match Scan(st.mem, st.input)
    case Ok(p) => Done(st.(mem := p.0, input := p.1))
    case Err(e) => Fail(e, st)
  }

  /** `apply` for every operation but the loop: one character's effect. A
      character that is no command, a stray `]` included, changes nothing. */
  function Step(c: char, st: State): (r: Outcome)
    ensures !r.OutOfFuel?
    ensures r.Fail? ==> r.st == st
    ensures !IsCommand(c) ==> r == Done(st)
  {
    match c
    case '>' => Done(st.(mem := IncPointer(st.mem)))
    case '<' => Lift(DecPointer(st.mem), st)
    case '+' => Lift(IncValue(st.mem), st)
    case '-' => Lift(DecValue(st.mem), st)
    case '.' => Emit(st)
    case ',' => Input(st)
    case _ => Done(st)
  }

  /** `eval` on `code` from scan position `i`. */
  function Run(code: seq<char>, i: nat, st: State, fuel: nat): (r: Outcome)
    requires i <= |code|
    decreases fuel, |code| - i + 1
  {
    if i == |code| then Done(st)
    else if code[i] == '[' then
      var m := FindNext(code, i);
      if m.None? then Fail(UnmatchedBracket, st)
      else
        var l := RunLoop(code, i, m.value, st, fuel);
        if l.Done? then Run(code, m.value + 1, l.st, fuel) else l
    else
      var o := Step(code[i], st);
      if o.Done? then Run(code, i + 1, o.st, fuel) else o
  }

  /** The `while` loop of `eval` for the `[` at `start` balanced by the `]` at
      `end`: while the current cell is non-zero, evaluate `code[start+1..end]`
      (the `eval_loop` operation). The condition is a cell access, so it fails
      when the pointer is past the end of the tape. */
  function RunLoop(code: seq<char>, start: nat, end: nat, st: State, fuel: nat): (r: Outcome)
    requires start < end < |code|
    ensures r.Done? ==> InRange(r.st.mem) && r.st.mem.data[r.st.mem.pointer] == 0
    ensures !InRange(st.mem) ==> r == Fail(PointerOutOfRange, st)
    decreases fuel, 0
  {
    match Read(st.mem)
    case Err(e) => Fail(e, st)
    case Ok(v) =>
      if v == 0 then Done(st)
      else if fuel == 0 then OutOfFuel
      else
        var b := Run(code[start + 1..end], 0, st, fuel - 1);
        if b.Done? then RunLoop(code, start, end, b.st, fuel - 1) else b
  }

  /** The in-order fold of `Step` over `code`: the meaning of a program
      without loops. */
  function Exec(code: seq<char>, st: State): (r: Outcome)
    ensures !r.OutOfFuel?
    decreases |code|
  {
    if |code| == 0 then Done(st)
    else
      var o := Step(code[0], st);
      if o.Done? then Exec(code[1..], o.st) else o
  }

  /** The program run the way `main` runs it: on a fresh tape of the standard
      capacity, with empty output. */
  function Interpret(code: seq<char>, input: seq<seq<int>>, fuel: nat): Outcome
  {
    Run(code, 0, Fresh(input), fuel)
  }

  /** The state a run starts from: a zeroed tape of the standard capacity,
      the whole input, and no output. */
  function Fresh(input: seq<seq<int>>): State {
    State(New(Capacity), input, [])
  }
}
