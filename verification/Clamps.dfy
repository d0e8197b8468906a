/**
 The future-skew clamps as the small program they are: OTTL statements run in order over a
 span, each `Now()` a fresh reading of the clock. Times are integer nanoseconds.
 */
module Clamps {

  datatype Span = Span(start: int, end: int)

  datatype Field = StartTime | EndTime

  datatype Expr = Now | Of(field: Field)

  /** `left > right + offset`. */
  datatype Test = Later(left: Field, right: Expr, offset: int)

  /** `set(target, value) where tests`, the tests joined with `and`. */
  datatype Statement = Set(target: Field, value: Expr, tests: seq<Test>)

  /** The span and the number of clock readings taken so far. */
  datatype Machine = Machine(span: Span, taken: nat)

  function Get(span: Span, field: Field): int {
    if field.StartTime? then span.start else span.end
  }

  function Put(span: Span, field: Field, t: int): Span {
    if field.StartTime? then span.(start := t) else span.(end := t)
  }

  function Eval(e: Expr, m: Machine, clock: nat -> int): (int, nat) {
    match e
    case Now => (clock(m.taken), m.taken + 1)
    case Of(field) => (Get(m.span, field), m.taken)
  }

  /** Tests run left to right and stop at the first that fails. */
  function RunTests(tests: seq<Test>, m: Machine, clock: nat -> int): (bool, nat)
    decreases |tests|
  {
    if tests == [] then (true, m.taken)
    else
      var (right, taken) := Eval(tests[0].right, m, clock);
      if Get(m.span, tests[0].left) > right + tests[0].offset
      then RunTests(tests[1..], m.(taken := taken), clock) else (false, taken)
  }

  function Execute(s: Statement, m: Machine, clock: nat -> int): Machine {
    var (holds, taken) := RunTests(s.tests, m, clock);
    if !holds then m.(taken := taken)
    else
      var (t, next') := Eval(s.value, m.(taken := taken), clock);
      Machine(Put(m.span, s.target, t), next')
  }

  function ExecuteAll(program: seq<Statement>, m: Machine, clock: nat -> int): Machine
    decreases |program|
  {
    if program == [] then m else ExecuteAll(program[1..], Execute(program[0], m, clock), clock)
  }

  /** `futureSkewSpanClamps`. */
  function SpanClamps(skew: int): seq<Statement> {
    [Set(StartTime, Now, [Later(StartTime, Now, skew)]),
     Set(EndTime, Of(StartTime), [Later(EndTime, Now, skew), Later(StartTime, Now, 0)]),
     Set(EndTime, Now, [Later(EndTime, Now, skew)])]
  }

  function Clamped(span: Span, skew: int, clock: nat -> int): Machine {
    ExecuteAll(SpanClamps(skew), Machine(span, 0), clock)
  }

  ghost predicate NonDecreasing(clock: nat -> int) {
    forall i, j :: i <= j ==> clock(i) <= clock(j)
  }

  lemma ThreeStatements(a: Statement, b: Statement, c: Statement, m: Machine, clock: nat -> int)
    ensures ExecuteAll([a, b, c], m, clock) == Execute(c, Execute(b, Execute(a, m, clock), clock), clock)
  {
    var program := [a, b, c];
    var m1 := Execute(a, m, clock);
    assert program[1..] == [b, c];
    assert [b, c][1..] == [c] && [c][1..] == [];
    assert ExecuteAll([c], Execute(b, m1, clock), clock) == Execute(c, Execute(b, m1, clock), clock);
    assert ExecuteAll([b, c], m1, clock) == ExecuteAll([c], Execute(b, m1, clock), clock);
  }

  lemma OneTest(t: Test, m: Machine, clock: nat -> int)
    requires t.right.Now?
    ensures RunTests([t], m, clock) == (Get(m.span, t.left) > clock(m.taken) + t.offset, m.taken + 1)
  {
    assert [t][1..] == [];
  }

  lemma TwoTests(t: Test, u: Test, m: Machine, clock: nat -> int)
    requires t.right.Now? && u.right.Now?
    ensures RunTests([t, u], m, clock) ==
            if Get(m.span, t.left) > clock(m.taken) + t.offset
            then (Get(m.span, u.left) > clock(m.taken + 1) + u.offset, m.taken + 2)
            else (false, m.taken + 1)
  {
    assert [t, u][1..] == [u];
    OneTest(u, m.(taken := m.taken + 1), clock);
  }

  lemma StartClamp(span: Span, skew: int, clock: nat -> int)
    ensures Execute(SpanClamps(skew)[0], Machine(span, 0), clock) ==
            if span.start > clock(0) + skew then Machine(span.(start := clock(1)), 2) else Machine(span, 1)
  {
    OneTest(Later(StartTime, Now, skew), Machine(span, 0), clock);
  }

  lemma EndToStart(m: Machine, skew: int, clock: nat -> int)
    ensures Execute(SpanClamps(skew)[1], m, clock) ==
            if m.span.end > clock(m.taken) + skew then
              if m.span.start > clock(m.taken + 1) then Machine(m.span.(end := m.span.start), m.taken + 2)
              else m.(taken := m.taken + 2)
            else m.(taken := m.taken + 1)
  {
    TwoTests(Later(EndTime, Now, skew), Later(StartTime, Now, 0), m, clock);
  }

  lemma EndClamp(m: Machine, skew: int, clock: nat -> int)
    ensures Execute(SpanClamps(skew)[2], m, clock) ==
            if m.span.end > clock(m.taken) + skew then Machine(m.span.(end := clock(m.taken + 1)), m.taken + 2)
            else m.(taken := m.taken + 1)
  {
    OneTest(Later(EndTime, Now, skew), m, clock);
  }

  /** The program's three statements, one after the other. */
  lemma ClampedSteps(span: Span, skew: int, clock: nat -> int) returns (m1: Machine, m2: Machine, m3: Machine)
    ensures m3 == Clamped(span, skew, clock)
    ensures m1 == Execute(SpanClamps(skew)[0], Machine(span, 0), clock)
    ensures m2 == Execute(SpanClamps(skew)[1], m1, clock)
    ensures m3 == Execute(SpanClamps(skew)[2], m2, clock)
  {
    var p := SpanClamps(skew);
    ThreeStatements(p[0], p[1], p[2], Machine(span, 0), clock);
    m1 := Execute(p[0], Machine(span, 0), clock);
    m2 := Execute(p[1], m1, clock);
    m3 := Execute(p[2], m2, clock);
  }

  /** Both times end up no further ahead of the last reading than the skew, and no other reading is needed. */
  lemma ClampedIsBounded(span: Span, skew: int, clock: nat -> int)
    requires skew >= 0 && NonDecreasing(clock)
    ensures var m := Clamped(span, skew, clock);
            3 <= m.taken <= 6 && m.span.start <= clock(m.taken - 1) + skew && m.span.end <= clock(m.taken - 1) + skew
  {
    var m1, m2, m3 := ClampedSteps(span, skew, clock);
    StartClamp(span, skew, clock);
    EndToStart(m1, skew, clock);
    EndClamp(m2, skew, clock);
  }

  /** Times within the skew are left as they are. */
  lemma WithinSkewUnchanged(span: Span, skew: int, clock: nat -> int)
    requires NonDecreasing(clock) && span.start <= clock(0) + skew && span.end <= clock(0) + skew
    ensures Clamped(span, skew, clock).span == span
  {
    var m1, m2, m3 := ClampedSteps(span, skew, clock);
    StartClamp(span, skew, clock);
    EndToStart(m1, skew, clock);
    EndClamp(m2, skew, clock);
  }

  /**
   No span that starts before it ends is turned round, exactly when the first statement's two
   readings are no further apart than the skew and a nanosecond. At zero skew the clock must
   not advance by more than that between the test and the assignment.
   */
  lemma OrderKeptIff(skew: int, clock: nat -> int)
    requires skew >= 0 && NonDecreasing(clock)
    ensures (forall span: Span :: span.start <= span.end ==>
               Clamped(span, skew, clock).span.start <= Clamped(span, skew, clock).span.end)
            <==> clock(1) - clock(0) <= skew + 1
  {
    if clock(1) - clock(0) <= skew + 1 {
      forall span: Span | span.start <= span.end
        ensures Clamped(span, skew, clock).span.start <= Clamped(span, skew, clock).span.end
      {
        OrderKept(span, skew, clock);
      }
    } else {
      var t := clock(0) + skew + 1;
      TurnedRound(Span(t, t), skew, clock);
      assert Span(t, t).start <= Span(t, t).end;
    }
  }

  lemma OrderKept(span: Span, skew: int, clock: nat -> int)
    requires skew >= 0 && NonDecreasing(clock) && span.start <= span.end
    requires clock(1) - clock(0) <= skew + 1
    ensures Clamped(span, skew, clock).span.start <= Clamped(span, skew, clock).span.end
  {
    var m1, m2, m3 := ClampedSteps(span, skew, clock);
    StartClamp(span, skew, clock);
    EndToStart(m1, skew, clock);
    EndClamp(m2, skew, clock);
  }

  /** The family of spans a slow clamp turns round: both times in the gap between the readings. */
  lemma TurnedRound(span: Span, skew: int, clock: nat -> int)
    requires skew >= 0 && NonDecreasing(clock)
    requires clock(0) + skew < span.start <= span.end < clock(1)
    ensures Clamped(span, skew, clock).span == Span(clock(1), span.end)
  {
    var m1, m2, m3 := ClampedSteps(span, skew, clock);
    StartClamp(span, skew, clock);
    EndToStart(m1, skew, clock);
    EndClamp(m2, skew, clock);
  }
}
