/** Bracket matching: the scan that finds the `]` balancing a `[`.

    `find_next` keeps a stack whose length is the nesting depth; a `]` seen at
    depth 1 is the match, any other `]` pops. Here the stack is its length, a
    natural number. Program text is ASCII, so character and byte indices agree. */
module Brackets {

  datatype Option<T> = None | Some(value: T)

  /** How much a character changes the nesting depth. */
  function Delta(c: char): int {
    if c == '[' then 1 else if c == ']' then -1 else 0
  }

  /** Net nesting depth of `code[i..k]`: its `[` count minus its `]` count. */
  function Depth(code: seq<char>, i: nat, k: nat): int
    requires i <= k <= |code|
    decreases k
  {
    if k == i then 0 else Depth(code, i, k - 1) + Delta(code[k - 1])
  }

  /** The depth counted from `i` stays positive on `code[i+1..k]`'s prefixes. */
  predicate StaysOpen(code: seq<char>, i: nat, k: nat)
    requires i <= k <= |code|
  {
    forall m :: i < m <= k ==> Depth(code, i, m) >= 1
  }

  /** `e` is the `]` balancing the `[` at `i`: the depth counted from `i`
      stays at least 1 up to `e` and first returns to 0 right after it. */
  predicate IsMatch(code: seq<char>, i: nat, e: nat) {
    && i < e < |code|
    && code[e] == ']'
    && StaysOpen(code, i, e)
    && Depth(code, i, e + 1) == 0
  }

  /** The scan of `find_next`, at position `k` with `depth` brackets open. */
  function MatchFrom(code: seq<char>, i: nat, k: nat, depth: nat): (r: Option<nat>)
    requires i < |code| && code[i] == '['
    requires i <= k <= |code|
    requires depth == Depth(code, i, k)
    requires StaysOpen(code, i, k)
    ensures r.Some? ==> IsMatch(code, i, r.value)
    ensures r.None? ==> StaysOpen(code, i, |code|)
    decreases |code| - k
  {
    if k == |code| then None
    else if code[k] == '[' then MatchFrom(code, i, k + 1, depth + 1)
    else if code[k] == ']' then
      // k > i here, so depth >= 1: the pop in `find_next` never meets an empty stack
      if depth == 1 then Some(k) else MatchFrom(code, i, k + 1, depth - 1)
    else MatchFrom(code, i, k + 1, depth)
  }

  /** `find_next(code, i)` for the `[` at `i`. */
  function FindNext(code: seq<char>, i: nat): (r: Option<nat>)
    requires i < |code| && code[i] == '['
    ensures r.Some? ==> i < r.value < |code| && code[r.value] == ']'
  {
    MatchFrom(code, i, i, 0)
  }

  /** What `find_next` returns: the balancing `]`, or `None` when the depth
      counted from `i` never returns to 0. */
  lemma FindNextSound(code: seq<char>, i: nat)
    requires i < |code| && code[i] == '['
    ensures FindNext(code, i).Some? ==> IsMatch(code, i, FindNext(code, i).value)
    ensures FindNext(code, i).None? ==> StaysOpen(code, i, |code|)
  {
  }

  /** A `[` has at most one balancing `]`. */
  lemma MatchUnique(code: seq<char>, i: nat, e1: nat, e2: nat)
    requires IsMatch(code, i, e1) && IsMatch(code, i, e2)
    ensures e1 == e2
  {
  }

  /** `find_next` returns exactly the balancing `]`. */
  lemma FindNextIsMatch(code: seq<char>, i: nat, e: nat)
    requires i < |code| && code[i] == '['
    ensures FindNext(code, i) == Some(e) <==> IsMatch(code, i, e)
  {
    FindNextSound(code, i);
    if IsMatch(code, i, e) {
      if FindNext(code, i).Some? {
        MatchUnique(code, i, e, FindNext(code, i).value);
      }
    }
  }

  /** `find_next` returns `None` exactly when no balancing `]` exists. */
  lemma FindNextNone(code: seq<char>, i: nat)
    requires i < |code| && code[i] == '['
    ensures FindNext(code, i).None? <==> forall e: nat :: !IsMatch(code, i, e)
  {
    FindNextSound(code, i);
    if FindNext(code, i).None? {
      forall e: nat ensures !IsMatch(code, i, e) {
      }
    }
  }

  /** Between a `[` and the first bracket after it the depth stays 1. */
  lemma {:induction false} DepthFlat(code: seq<char>, i: nat, m: nat)
    requires i < m <= |code| && code[i] == '['
    requires forall j :: i < j < m ==> code[j] != '[' && code[j] != ']'
    ensures Depth(code, i, m) == 1
    decreases m
  {
    if m > i + 1 {
      DepthFlat(code, i, m - 1);
    }
  }

  /** A loop whose body holds no brackets ends at the first `]`. */
  lemma FlatLoopMatches(code: seq<char>, i: nat, e: nat)
    requires i < e < |code| && code[i] == '[' && code[e] == ']'
    requires forall j :: i < j < e ==> code[j] != '[' && code[j] != ']'
    ensures FindNext(code, i) == Some(e)
  {
    forall m | i < m <= e
      ensures Depth(code, i, m) >= 1
    {
      DepthFlat(code, i, m);
    }
    DepthFlat(code, i, e);
    FindNextIsMatch(code, i, e);
  }

  /** Every `[` before `j` is balanced by a `]` before `j`. */
  predicate ClosedBefore(code: seq<char>, j: nat)
    requires j <= |code|
  {
    forall k :: 0 <= k < j && code[k] == '[' ==> exists e :: k < e < j && IsMatch(code, k, e)
  }

  /** Depths counted inside a prefix agree with those counted in the text. */
  lemma {:induction false} DepthPrefix(code: seq<char>, j: nat, i: nat, m: nat)
    requires i <= m <= j <= |code|
    ensures Depth(code[..j], i, m) == Depth(code, i, m)
    decreases m
  {
    if m > i {
      DepthPrefix(code, j, i, m - 1);
      assert code[..j][m - 1] == code[m - 1];
    }
  }

  /** A `[` balanced before `j` is matched the same way in `code[..j]`. */
  lemma MatchInPrefix(code: seq<char>, j: nat, k: nat, e: nat)
    requires IsMatch(code, k, e) && e < j <= |code|
    ensures code[..j][k] == '['
    ensures FindNext(code[..j], k) == Some(e) && FindNext(code, k) == Some(e)
  {
    assert Depth(code, k, k + 1) >= 1;
    assert code[..j][k] == code[k];
    forall m | k < m <= e
      ensures Depth(code[..j], k, m) >= 1
    {
      DepthPrefix(code, j, k, m);
    }
    DepthPrefix(code, j, k, e + 1);
    assert IsMatch(code[..j], k, e);
    FindNextIsMatch(code, k, e);
    FindNextIsMatch(code[..j], k, e);
  }
}
