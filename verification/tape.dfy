/** The interpreter's memory: a tape of 16-bit cells and a movable pointer,
    together with the primitive operations the tape language performs on it.

    Cell arithmetic follows release-build semantics: `+` and `-` wrap around
    modulo 2^16 (a debug build would panic instead). Moving the pointer is
    unchecked at the move itself: `>` always succeeds and a pointer at or past
    the end of the tape only fails at the next cell access, while `<` at 0 is
    an unsigned underflow and fails immediately. */
module Tape {

  /** Standard number of cells of a fresh tape. */
  const Capacity: nat := 30000

  /** Cells are `u16`: arithmetic on them is modulo 2^16. */
  const CellModulus: int := 65536

  /** Printing a cell emits its low 8 bits (the `as u8` cast). */
  const ByteModulus: int := 256

  /** Every way a run can end abnormally. */
  datatype Error =
    | PointerUnderflow   // `<` with the pointer at 0
    | PointerOutOfRange  // a cell access with the pointer at or past the end
    | InputExhausted     // `,` found no byte to read
    | UnmatchedBracket   // a `[` without a balancing `]`

  datatype Result<T> = Ok(value: T) | Err(error: Error)

  datatype Memory = Memory(pointer: nat, data: seq<int>)

  /** Every cell holds a `u16` value. */
  predicate Valid(m: Memory) {
    forall j :: 0 <= j < |m.data| ==> 0 <= m.data[j] < CellModulus
  }

  /** The pointer addresses an existing cell, so a cell access succeeds. */
  predicate InRange(m: Memory) {
    m.pointer < |m.data|
  }

  /** `after` differs from `before` at most in the current cell. */
  predicate OnlyCurrentCellChanged(before: Memory, after: Memory) {
    && after.pointer == before.pointer
    && |after.data| == |before.data|
    && forall j :: 0 <= j < |before.data| && j != before.pointer ==> after.data[j] == before.data[j]
  }

  /** A fresh memory of `capacity` zeroed cells with the pointer at 0. */
  function New(capacity: nat): (m: Memory)
    ensures m.pointer == 0 && |m.data| == capacity
    ensures forall j :: 0 <= j < capacity ==> m.data[j] == 0
    ensures Valid(m)
  {
    Memory(0, seq(capacity, _ => 0))
  }

  /** `>`: never fails, even past the last cell. */
  function IncPointer(m: Memory): (r: Memory)
    ensures r.data == m.data && r.pointer == m.pointer + 1
  {
    m.(pointer := m.pointer + 1)
  }

  /** `<`: fails at pointer 0 (the `usize` underflow). */
  function DecPointer(m: Memory): (r: Result<Memory>)
    ensures r.Err? <==> m.pointer == 0
    ensures r.Err? ==> r.error == PointerUnderflow
    ensures r.Ok? ==> r.value.data == m.data && r.value.pointer + 1 == m.pointer
  {
    if m.pointer == 0 then Err(PointerUnderflow) else Ok(m.(pointer := m.pointer - 1))
  }

  /** Reads the current cell. */
  function Read(m: Memory): (r: Result<int>)
    ensures r.Ok? <==> InRange(m)
    ensures r.Err? ==> r.error == PointerOutOfRange
    ensures r.Ok? && Valid(m) ==> 0 <= r.value < CellModulus
  {
    if InRange(m) then Ok(m.data[m.pointer]) else Err(PointerOutOfRange)
  }

  /** Overwrites the current cell with `v`. */
  function Write(m: Memory, v: int): (r: Result<Memory>)
    ensures r.Ok? <==> InRange(m)
    ensures r.Err? ==> r.error == PointerOutOfRange
    ensures r.Ok? ==> OnlyCurrentCellChanged(m, r.value) && r.value.data[m.pointer] == v
  {
    if InRange(m) then Ok(m.(data := m.data[m.pointer := v])) else Err(PointerOutOfRange)
  }

  /** `+`: the current cell goes up by one, wrapping 65535 to 0. */
  function IncValue(m: Memory): (r: Result<Memory>)
    ensures r.Ok? <==> InRange(m)
    ensures r.Err? ==> r.error == PointerOutOfRange
    ensures r.Ok? ==> OnlyCurrentCellChanged(m, r.value)
    ensures r.Ok? ==> 0 <= r.value.data[m.pointer] < CellModulus
    ensures r.Ok? && Valid(m) ==>
      r.value.data[m.pointer] == if m.data[m.pointer] == CellModulus - 1 then 0 else m.data[m.pointer] + 1
    ensures r.Ok? && Valid(m) ==> Valid(r.value)
  {
    match Read(m)
    case Err(e) => Err(e)
    case Ok(v) => Write(m, (v + 1) % CellModulus)
  }

  /** `-`: the current cell goes down by one, wrapping 0 to 65535. */
  function DecValue(m: Memory): (r: Result<Memory>)
    ensures r.Ok? <==> InRange(m)
    ensures r.Err? ==> r.error == PointerOutOfRange
    ensures r.Ok? ==> OnlyCurrentCellChanged(m, r.value)
    ensures r.Ok? ==> 0 <= r.value.data[m.pointer] < CellModulus
    ensures r.Ok? && Valid(m) ==>
      r.value.data[m.pointer] == if m.data[m.pointer] == 0 then CellModulus - 1 else m.data[m.pointer] - 1
    ensures r.Ok? && Valid(m) ==> Valid(r.value)
  {
    match Read(m)
    case Err(e) => Err(e)
    case Ok(v) => Write(m, (v - 1) % CellModulus)
  }

  /** `.`: the byte emitted for the current cell, its low 8 bits. */
  function Print(m: Memory): (r: Result<int>)
    ensures r.Ok? <==> InRange(m)
    ensures r.Err? ==> r.error == PointerOutOfRange
    ensures r.Ok? ==> 0 <= r.value < ByteModulus
  {
    match Read(m)
    case Err(e) => Err(e)
    case Ok(v) => Ok(v % ByteModulus)
  }

  /** `,`: consumes one line of input (the bytes one `read_line` returns,
      newline included) and stores its first byte in the current cell. An
      exhausted input, or an empty line (end of input), fails before the cell
      is touched; the cell access itself is checked after the read. */
  function Scan(m: Memory, input: seq<seq<int>>): (r: Result<(Memory, seq<seq<int>>)>)
    ensures r.Err? <==> |input| == 0 || |input[0]| == 0 || !InRange(m)
    ensures r.Err? && (|input| == 0 || |input[0]| == 0) ==> r.error == InputExhausted
    ensures r.Err? && |input| > 0 && |input[0]| > 0 ==> r.error == PointerOutOfRange
    ensures r.Ok? ==> OnlyCurrentCellChanged(m, r.value.0)
    ensures r.Ok? ==> r.value.0.data[m.pointer] == input[0][0] && r.value.1 == input[1..]
    ensures r.Ok? && Valid(m) && 0 <= input[0][0] < CellModulus ==> Valid(r.value.0)
  {
    if |input| == 0 || |input[0]| == 0 then Err(InputExhausted)
    else match Write(m, input[0][0])
      case Err(e) => Err(e)
      case Ok(m') => Ok((m', input[1..]))
  }

  // ---------------------------------------------------------------------------
  // Partners of the primitive operations

  /** Moving right then left restores the memory exactly. */
  lemma MoveRightThenLeft(m: Memory)
    ensures DecPointer(IncPointer(m)) == Ok(m)
  {
  }

  /** Moving left (when it succeeds) then right restores the memory exactly. */
  lemma MoveLeftThenRight(m: Memory)
    requires m.pointer > 0
    ensures DecPointer(m).Ok? && IncPointer(DecPointer(m).value) == m
  {
  }

  /** A value written to the current cell is read back unchanged. */
  lemma WriteThenRead(m: Memory, v: int)
    requires InRange(m)
    ensures Write(m, v).Ok? && Read(Write(m, v).value) == Ok(v)
  {
  }

  /** `-` undoes `+` on a valid memory, including across the wrap-around. */
  lemma IncThenDec(m: Memory)
    requires Valid(m) && InRange(m)
    ensures IncValue(m).Ok? && DecValue(IncValue(m).value) == Ok(m)
  {
    var v := m.data[m.pointer];
    var m1 := IncValue(m).value;
    assert m1.data[m.pointer] == (v + 1) % CellModulus;
    assert DecValue(m1).value.data == m1.data[m.pointer := v];
    assert m1.data[m.pointer := v] == m.data;
  }

  /** `+` undoes `-` on a valid memory, including across the wrap-around. */
  lemma DecThenInc(m: Memory)
    requires Valid(m) && InRange(m)
    ensures DecValue(m).Ok? && IncValue(DecValue(m).value) == Ok(m)
  {
    var v := m.data[m.pointer];
    var m1 := DecValue(m).value;
    assert m1.data[m.pointer] == (v - 1) % CellModulus;
    assert IncValue(m1).value.data == m1.data[m.pointer := v];
    assert m1.data[m.pointer := v] == m.data;
  }

  /** The emitted byte agrees with the cell modulo 256: it is the cell's low
      8 bits. */
  lemma PrintLowByte(m: Memory)
    requires InRange(m)
    ensures Print(m).Ok? && (m.data[m.pointer] - Print(m).value) % ByteModulus == 0
  {
  }

  /** `+` adds one modulo 2^16, whatever the cell held. */
  lemma IncValueModular(m: Memory)
    requires InRange(m)
    ensures IncValue(m).Ok?
    ensures (IncValue(m).value.data[m.pointer] - m.data[m.pointer] - 1) % CellModulus == 0
  {
  }

  /** `-` subtracts one modulo 2^16, whatever the cell held. */
  lemma DecValueModular(m: Memory)
    requires InRange(m)
    ensures DecValue(m).Ok?
    ensures (DecValue(m).value.data[m.pointer] - m.data[m.pointer] + 1) % CellModulus == 0
  {
  }

  /** `+` on the largest cell value yields 0. */
  lemma IncWrapsAtMax(m: Memory)
    requires InRange(m) && m.data[m.pointer] == CellModulus - 1
    ensures IncValue(m).Ok? && IncValue(m).value.data[m.pointer] == 0
  {
  }

  /** `-` on a zero cell yields the largest cell value. */
  lemma DecWrapsAtZero(m: Memory)
    requires InRange(m) && m.data[m.pointer] == 0
    ensures DecValue(m).Ok? && DecValue(m).value.data[m.pointer] == CellModulus - 1
  {
  }
}
