/** How many of each unit lie between two instants, found by galloping towards the goal. */
module CalendarDifference {
  import opened Bytes

  /** The calendar units, by the number of their bit: era, year, month, day, hour, minute, second, week, weekday, ordinal. */
  type Field = x: int | 1 <= x <= 10 witness 1

  /** Adds an amount of a unit to an instant, in milliseconds. */
  type Adder = (Field, int, int) -> int

  const MULTIPLE_TABLE: seq<nat> := [0, 0, 16, 19, 24, 26, 24, 28, 14, 14, 14]

  ghost predicate AddsUp(add: Adder, f: Field, a: int, b: int, t: int) {
    add(f, b, add(f, a, t)) == add(f, a + b, t)
  }

  ghost predicate MovesOn(add: Adder, f: Field, a: int, t: int) {
    (a == 0 ==> add(f, a, t) == t) && (0 < a ==> t < add(f, a, t))
  }

  /** Amounts of a unit add up, and adding moves on. */
  ghost predicate IsUniform(add: Adder) {
    && (forall f, a, b, t :: AddsUp(add, f, a, b, t))
    && (forall f, a, t :: MovesOn(add, f, a, t))
  }

  /** `t` lies behind the goal, seen in the direction of travel. */
  predicate Passes(direction: int, t: int, goal: int) {
    if direction > 0 then goal < t else t < goal
  }

  /** Adding in two steps, and adding more. */
  lemma Added(add: Adder, f: Field, a: int, b: int, t: int)
    requires IsUniform(add)
    ensures add(f, b, add(f, a, t)) == add(f, a + b, t) && add(f, 0, t) == t
    ensures b > 0 ==> add(f, a, t) < add(f, a + b, t)
    ensures b < 0 ==> add(f, a + b, t) < add(f, a, t)
  {
    var u := add(f, a, t);
    assert AddsUp(add, f, a, b, t) && MovesOn(add, f, b, u) && MovesOn(add, f, 0, t) && MovesOn(add, f, 0, u);
    if b < 0 {
      assert AddsUp(add, f, b, -b, u) && MovesOn(add, f, -b, add(f, b, u));
    }
  }

  /** C division: towards zero. */
  function Half(m: int): (h: int)
    ensures m == 2 * h || m == 2 * h + 1 || m == 2 * h - 1
    ensures -m < 2 * h < m || m < 2 * h < -m || 2 * h == m
  {
    if m < 0 then -(-m / 2) else m / 2
  }

  lemma HalfOfPower(direction: int, k: nat)
    requires Abs(direction) == 1
    ensures 0 < direction * (direction * Pow2(k)) && direction * Pow2(k) != 0
    ensures k == 0 ==> direction * Pow2(k) == direction && Half(direction * Pow2(k)) == 0
    ensures 0 < k ==>
              && 2 * (direction * Pow2(k - 1)) == direction * Pow2(k)
              && Half(direction * Pow2(k)) == direction * Pow2(k - 1)
              && Abs(direction * Pow2(k - 1)) < Abs(direction * Pow2(k))
  {
  }

  function Abs(m: int): nat {
    if m < 0 then -m else m
  }

  function Signed(direction: int, n: nat): int {
    direction * n
  }

  /** A step that moves towards the goal and does not pass it. */
  predicate Fits(direction: int, t: int, next: int, goal: int) {
    Passes(direction, next, t) && !Passes(direction, next, goal)
  }

  /** The steps below 2^k, largest first, each taken once if it fits: how many units they are, and where they lead. */
  function Digits(add: Adder, f: Field, direction: int, t: int, goal: int, k: nat): (r: (nat, int))
    ensures !Passes(direction, t, goal) ==> !Passes(direction, r.1, goal)
    ensures !Passes(direction, t, r.1)
    decreases k
  {
    if k == 0 then (0, t)
    else
      var next := add(f, direction * Pow2(k - 1), t);
      if Fits(direction, t, next, goal) then
        var r := Digits(add, f, direction, next, goal, k - 1);
        (Pow2(k - 1) + r.0, r.1)
      else Digits(add, f, direction, t, goal, k - 1)
  }

  /** Steps of 2^k while they fit; after one that passes the goal the smaller steps once each, after one that does not
      move on steps of half the size. */
  function Climb(add: Adder, f: Field, direction: int, t: int, goal: int, k: nat): (r: (nat, int))
    requires Abs(direction) == 1 && !Passes(direction, t, goal)
    ensures !Passes(direction, r.1, goal) && !Passes(direction, t, r.1)
    decreases k, Abs(goal - t)
  {
    var next := add(f, direction * Pow2(k), t);
    if t == goal then (0, t)
    else if Fits(direction, t, next, goal) then
      var r := Climb(add, f, direction, next, goal, k);
      (Pow2(k) + r.0, r.1)
    else if Passes(direction, next, goal) then Digits(add, f, direction, t, goal, k)
    else if k == 0 then (0, t)
    else Climb(add, f, direction, t, goal, k - 1)
  }

  /** At the goal no step fits. */
  lemma {:induction false} DigitsAtGoal(add: Adder, f: Field, direction: int, goal: int, k: nat)
    requires Abs(direction) == 1
    ensures Digits(add, f, direction, goal, goal, k) == (0, goal)
  {
    if k > 0 {
      DigitsAtGoal(add, f, direction, goal, k - 1);
    }
  }

  /** Adding a number below 2^k bit by bit, the highest first. */
  function AddBits(add: Adder, f: Field, direction: int, t: int, n: nat, k: nat): (end: int)
    decreases k
  {
    if k == 0 then t
    else if Pow2(k - 1) <= n then AddBits(add, f, direction, add(f, direction * Pow2(k - 1), t), n - Pow2(k - 1), k - 1)
    else AddBits(add, f, direction, t, n, k - 1)
  }

  /** The digits found are those of a number below 2^k, and lead where adding its bits does. */
  lemma {:induction false} DigitsAreBits(add: Adder, f: Field, direction: int, t: int, goal: int, k: nat)
    ensures var (n, end) := Digits(add, f, direction, t, goal, k);
            n < Pow2(k) && end == AddBits(add, f, direction, t, n, k)
    decreases k
  {
    hide Fits;
    if k > 0 {
      var next := add(f, direction * Pow2(k - 1), t);
      DigitsAreBits(add, f, direction, if Fits(direction, t, next, goal) then next else t, goal, k - 1);
    }
  }

  /** Only the low bits count. */
  lemma {:induction false} HighBitsAreZero(add: Adder, f: Field, direction: int, t: int, n: nat, m: nat, k: nat)
    requires m <= k && n < Pow2(m)
    ensures AddBits(add, f, direction, t, n, k) == AddBits(add, f, direction, t, n, m)
  {
    if m < k {
      Pow2Grows(m, k - 1);
      HighBitsAreZero(add, f, direction, t, n, m, k - 1);
    }
  }

  lemma {:induction false} Pow2Grows(m: nat, n: nat)
    requires m <= n
    ensures Pow2(m) <= Pow2(n)
  {
    if m < n {
      Pow2Grows(m, n - 1);
    }
  }

  /** If the first step passes the goal, only the smaller ones are taken, each at most once. */
  lemma FirstStepPasses(add: Adder, f: Field, direction: int, t: int, goal: int, k: nat)
    requires Abs(direction) == 1 && !Passes(direction, t, goal)
    requires Passes(direction, add(f, direction * Pow2(k), t), goal)
    ensures var (n, end) := Climb(add, f, direction, t, goal, k);
            n < Pow2(k) && end == AddBits(add, f, direction, t, n, k)
  {
    DigitsAreBits(add, f, direction, t, goal, k);
    if t == goal {
      DigitsAtGoal(add, f, direction, goal, k);
    }
  }

  /** Where time is uniform: after a step that would pass the goal, the smaller steps reach the largest number that fits. */
  lemma {:induction false} DigitsAreLargest(add: Adder, f: Field, direction: int, t: int, goal: int, k: nat)
    requires IsUniform(add) && Abs(direction) == 1 && !Passes(direction, t, goal)
    requires Passes(direction, add(f, direction * Pow2(k), t), goal)
    ensures var (n, end) := Digits(add, f, direction, t, goal, k);
            end == add(f, direction * n, t) && IsLargest(add, f, direction, t, goal, direction * n)
    decreases k
  {
    hide IsUniform, IsLargest, Pow2;
    HalfOfPower(direction, k);
    if k == 0 {
      NoStepFits(add, f, direction, t, goal);
    } else {
      var step := direction * Pow2(k - 1);
      var next := add(f, step, t);
      HalfOfPower(direction, k - 1);
      Added(add, f, step, step, t);
      Added(add, f, 0, step, t);
      if Fits(direction, t, next, goal) {
        DigitsAreLargest(add, f, direction, next, goal, k - 1);
        StepThenMore(add, f, direction, t, goal, Pow2(k - 1), Digits(add, f, direction, next, goal, k - 1).0);
      } else {
        DigitsAreLargest(add, f, direction, t, goal, k - 1);
      }
    }
  }

  lemma NoStepFits(add: Adder, f: Field, direction: int, t: int, goal: int)
    requires IsUniform(add) && Abs(direction) == 1 && !Passes(direction, t, goal) && Passes(direction, add(f, direction, t), goal)
    ensures add(f, 0, t) == t && IsLargest(add, f, direction, t, goal, 0)
  {
    hide IsUniform;
    Added(add, f, 0, 0, t);
  }

  /** A step, and then the largest number that fits. */
  lemma StepThenMore(add: Adder, f: Field, direction: int, t: int, goal: int, step: nat, more: nat)
    requires IsUniform(add) && Abs(direction) == 1
    requires IsLargest(add, f, direction, add(f, direction * step, t), goal, direction * more)
    ensures add(f, direction * more, add(f, direction * step, t)) == add(f, direction * (step + more), t)
    ensures IsLargest(add, f, direction, t, goal, direction * (step + more))
  {
    hide IsUniform;
    assert direction * (step + more) == direction * step + direction * more;
    Added(add, f, direction * step, direction * more, t);
    Added(add, f, direction * step, direction * more + direction, t);
  }

  /** Where time is uniform the climb ends at the largest number that fits. */
  lemma {:induction false} ClimbIsLargest(add: Adder, f: Field, direction: int, t: int, goal: int, k: nat)
    requires IsUniform(add) && Abs(direction) == 1 && !Passes(direction, t, goal)
    ensures var (n, end) := Climb(add, f, direction, t, goal, k);
            end == add(f, direction * n, t) && IsLargest(add, f, direction, t, goal, direction * n)
    decreases k, Abs(goal - t)
  {
    hide IsUniform;
    var step := direction * Pow2(k);
    var next := add(f, step, t);
    HalfOfPower(direction, k);
    Added(add, f, 0, step, t);
    Added(add, f, 0, direction, t);
    if t == goal {
    } else if Fits(direction, t, next, goal) {
      ClimbIsLargest(add, f, direction, next, goal, k);
      StepThenMore(add, f, direction, t, goal, Pow2(k), Climb(add, f, direction, next, goal, k).0);
    } else {
      DigitsAreLargest(add, f, direction, t, goal, k);
    }
  }

  /** `result` is the largest number of units, in the direction of travel, that does not pass the goal. */
  ghost predicate IsLargest(add: Adder, f: Field, direction: int, start: int, goal: int, result: int) {
    && 0 <= direction * result
    && !Passes(direction, add(f, result, start), goal)
    && Passes(direction, add(f, result + direction, start), goal)
  }

  /** It is the only such number, and a number fits if and only if it is no larger. */
  lemma {:induction false} LargestFits(add: Adder, f: Field, direction: int, start: int, goal: int, result: int, k: int)
    requires IsUniform(add) && Abs(direction) == 1 && IsLargest(add, f, direction, start, goal, result)
    ensures !Passes(direction, add(f, k, start), goal) <==> direction * k <= direction * result
  {
    hide IsUniform;
    Added(add, f, result, k - result, start);
    Added(add, f, result + direction, k - result - direction, start);
  }

  /** What is still to come: the smaller steps once each after an overshoot, else steps of 2^k while they fit. */
  function ToCome(add: Adder, f: Field, direction: int, t: int, goal: int, k: nat, overshot: bool): (r: (nat, int))
    requires Abs(direction) == 1 && !Passes(direction, t, goal)
  {
    if overshot then Digits(add, f, direction, t, goal, k + 1) else Climb(add, f, direction, t, goal, k)
  }

  /** The loop has done part of the climb. */
  ghost predicate OnTheWay(add: Adder, f: Field, direction: int, start: int, goal: int, result: int, curr: int, k: nat,
                           overshot: bool)
    requires Abs(direction) == 1 && !Passes(direction, start, goal) && !Passes(direction, curr, goal)
  {
    var all := Climb(add, f, direction, start, goal, MULTIPLE_TABLE[f]);
    var rest := ToCome(add, f, direction, curr, goal, k, overshot);
    direction * all.0 == result + direction * rest.0 && all.1 == rest.1
  }

  /** It has done all of it. */
  ghost predicate HasClimbed(add: Adder, f: Field, direction: int, start: int, goal: int, result: int, curr: int)
    requires Abs(direction) == 1 && !Passes(direction, start, goal)
  {
    var (n, end) := Climb(add, f, direction, start, goal, MULTIPLE_TABLE[f]);
    result == Signed(direction, n) && curr == end
  }

  lemma StepToCome(add: Adder, f: Field, direction: int, t: int, goal: int, k: nat, overshot: bool)
    requires Abs(direction) == 1 && !Passes(direction, t, goal)
    ensures var next := add(f, direction * Pow2(k), t);
            var passes := overshot || Passes(direction, next, goal);
            ToCome(add, f, direction, t, goal, k, overshot) ==
            if Fits(direction, t, next, goal) then
              var rest := if overshot then Digits(add, f, direction, next, goal, k) else Climb(add, f, direction, next, goal, k);
              (Pow2(k) + rest.0, rest.1)
            else if t == goal || (k == 0 && !passes) then (0, t)
            else if passes then Digits(add, f, direction, t, goal, k)
            else Climb(add, f, direction, t, goal, k - 1)
  {
    hide Pow2;
    if t == goal {
      DigitsAtGoal(add, f, direction, goal, k + 1);
    }
  }

  /** A step that fits; after an overshoot the next one is half as long. */
  lemma StepTaken(add: Adder, f: Field, direction: int, start: int, goal: int, result: int, curr: int, k: nat, overshot: bool)
    requires Abs(direction) == 1 && !Passes(direction, start, goal) && !Passes(direction, curr, goal)
    requires OnTheWay(add, f, direction, start, goal, result, curr, k, overshot)
    requires Fits(direction, curr, add(f, direction * Pow2(k), curr), goal)
    ensures var next, sum := add(f, direction * Pow2(k), curr), result + direction * Pow2(k);
            && (!overshot ==> OnTheWay(add, f, direction, start, goal, sum, next, k, false))
            && (overshot && 0 < k ==> OnTheWay(add, f, direction, start, goal, sum, next, k - 1, true))
            && (overshot && 0 == k ==> HasClimbed(add, f, direction, start, goal, sum, next))
  {
    hide Pow2, Climb, Digits;
    StepToCome(add, f, direction, curr, goal, k, overshot);
    var next := add(f, direction * Pow2(k), curr);
    NoDigits(add, f, direction, next, goal);
    var more := if overshot then Digits(add, f, direction, next, goal, k).0 else Climb(add, f, direction, next, goal, k).0;
    assert direction * (Pow2(k) + more) == direction * Pow2(k) + direction * more;
  }

  lemma NoDigits(add: Adder, f: Field, direction: int, t: int, goal: int)
    ensures Digits(add, f, direction, t, goal, 0) == (0, t)
  {
  }

  /** One that does not. */
  lemma StepRefused(add: Adder, f: Field, direction: int, start: int, goal: int, result: int, curr: int, k: nat, overshot: bool)
    requires Abs(direction) == 1 && !Passes(direction, start, goal) && !Passes(direction, curr, goal) && curr != goal
    requires OnTheWay(add, f, direction, start, goal, result, curr, k, overshot)
    requires !Fits(direction, curr, add(f, direction * Pow2(k), curr), goal)
    ensures var passes := overshot || Passes(direction, add(f, direction * Pow2(k), curr), goal);
            && (0 < k ==> OnTheWay(add, f, direction, start, goal, result, curr, k - 1, passes))
            && (0 == k ==> HasClimbed(add, f, direction, start, goal, result, curr))
  {
    hide Pow2, Climb, Digits;
    StepToCome(add, f, direction, curr, goal, k, overshot);
    NoDigits(add, f, direction, curr, goal);
  }

  lemma AtGoal(add: Adder, f: Field, direction: int, start: int, goal: int, result: int, k: nat, overshot: bool)
    requires Abs(direction) == 1 && !Passes(direction, start, goal)
    requires OnTheWay(add, f, direction, start, goal, result, goal, k, overshot)
    ensures HasClimbed(add, f, direction, start, goal, result, goal)
  {
    DigitsAtGoal(add, f, direction, goal, k + 1);
  }

  /** The first step of each unit. */
  function FirstStep(f: Field): (n: nat) {
    match f
    case 1 => 1
    case 2 => 0x1_0000
    case 3 => 0x8_0000
    case 4 => 0x100_0000
    case 5 => 0x400_0000
    case 6 => 0x100_0000
    case 7 => 0x1000_0000
    case _ => 0x4000
  }

  lemma FirstSteps(f: Field)
    ensures FirstStep(f) == Pow2(MULTIPLE_TABLE[f])
  {
    assert Pow2(0) == 1;
    Pow2Sum(7, 7);
    Pow2Sum(8, 8);
    Pow2Sum(16, 3);
    Pow2Sum(16, 8);
    Pow2Sum(24, 2);
    Pow2Sum(24, 4);
  }

  lemma {:induction false} Pow2Sum(m: nat, n: nat)
    ensures Pow2(m + n) == Pow2(m) * Pow2(n)
    ensures Pow2(2) == 4 && Pow2(3) == 8 && Pow2(4) == 16 && Pow2(7) == 128 && Pow2(8) == 256
  {
    assert Pow2(1) == 2 && Pow2(2) == 4 && Pow2(3) == 8 && Pow2(4) == 16 && Pow2(5) == 32 && Pow2(6) == 64;
    if n > 0 {
      Pow2Sum(m, n - 1);
      assert Pow2(m) * (2 * Pow2(n - 1)) == 2 * (Pow2(m) * Pow2(n - 1));
    }
  }

  /**
    The loop: steps of `multiple` while they fit, smaller ones after that. Whatever `add` does, it ends, never passes the
    goal, and takes the steps of `Climb`; if the first step passes the goal, the result is below it, and adding its bits
    one by one leads where the loop ended. Where time is uniform the result is the largest amount that fits.
   */
  method Gallop(add: Adder, field: Field, direction: int, start: int, goal: int) returns (result: int, curr: int)
    requires Abs(direction) == 1 && !Passes(direction, start, goal)
    ensures !Passes(direction, curr, goal) && !Passes(direction, start, curr)
    ensures HasClimbed(add, field, direction, start, goal, result, curr)
    ensures Passes(direction, add(field, direction * FirstStep(field), start), goal) ==>
              Abs(result) < FirstStep(field) && curr == AddBits(add, field, direction, start, Abs(result), 28)
    ensures IsUniform(add) ==> curr == add(field, result, start) && IsLargest(add, field, direction, start, goal, result)
  {
    hide IsUniform, IsLargest, Pow2, Half, AddBits, FirstStep, OnTheWay, HasClimbed;
    ghost var k := MULTIPLE_TABLE[field];
    var multiple := direction * Pow2(MULTIPLE_TABLE[field]);
    var divide, alwaysDivide := false, false;
    result, curr := 0, start;
    AtStart(add, field, direction, start, goal);
    while (direction > 0 && curr < goal) || (direction < 0 && goal < curr)
      invariant !Passes(direction, curr, goal) && !Passes(direction, start, curr)
      invariant multiple == direction * Pow2(k) && divide == alwaysDivide
      invariant OnTheWay(add, field, direction, start, goal, result, curr, k, alwaysDivide)
      decreases Abs(multiple), Abs(goal - curr)
    {
      HalfOfPower(direction, k);
      var newcurr := add(field, multiple, curr);
      if (direction > 0 && curr < newcurr && newcurr <= goal) || (direction < 0 && newcurr < curr && goal <= newcurr) {
        StepTaken(add, field, direction, start, goal, result, curr, k, alwaysDivide);
        result := result + multiple;
        curr := newcurr;
      } else {
        StepRefused(add, field, direction, start, goal, result, curr, k, alwaysDivide);
        divide := true;
        if (direction > 0 && goal < newcurr) || (direction < 0 && newcurr < goal) {
          alwaysDivide := true;
        }
      }
      if divide {
        multiple := Half(multiple);
        if multiple == 0 {
          break;
        }
        k := k - 1;
        divide := alwaysDivide;
      }
    }
    if curr == goal && multiple != 0 {
      AtGoal(add, field, direction, start, goal, result, k, alwaysDivide);
    }
    GallopKnows(add, field, direction, start, goal, result, curr);
  }

  lemma AtStart(add: Adder, f: Field, direction: int, start: int, goal: int)
    requires Abs(direction) == 1 && !Passes(direction, start, goal)
    ensures OnTheWay(add, f, direction, start, goal, 0, start, MULTIPLE_TABLE[f], false)
  {
  }

  lemma GallopKnows(add: Adder, field: Field, direction: int, start: int, goal: int, result: int, curr: int)
    requires Abs(direction) == 1 && !Passes(direction, start, goal)
    requires HasClimbed(add, field, direction, start, goal, result, curr)
    ensures Passes(direction, add(field, direction * FirstStep(field), start), goal) ==>
              Abs(result) < FirstStep(field) && curr == AddBits(add, field, direction, start, Abs(result), 28)
    ensures IsUniform(add) ==> curr == add(field, result, start) && IsLargest(add, field, direction, start, goal, result)
  {
    hide IsUniform, IsLargest, Pow2, AddBits, Climb, FirstStep;
    var k := MULTIPLE_TABLE[field];
    var n := Climb(add, field, direction, start, goal, k).0;
    FirstSteps(field);
    if Passes(direction, add(field, direction * Pow2(k), start), goal) {
      FirstStepPasses(add, field, direction, start, goal, k);
      HighBitsAreZero(add, field, direction, start, n, k, 28);
    }
    if IsUniform(add) {
      ClimbIsLargest(add, field, direction, start, goal, k);
    }
  }

  /** The instant after adding the components in order. */
  function AddAll(add: Adder, at: int, fields: seq<Field>, vector: seq<int>): (t: int)
    requires |vector| == |fields|
  {
    if fields == [] then at
    else
      var n := |fields| - 1;
      add(fields[n], vector[n], AddAll(add, at, fields[..n], vector[..n]))
  }

  /** Adding components one after the other, without wrapping. */
  method AddComponents(add: Adder, at: int, fields: seq<Field>, vector: seq<int>) returns (t: int)
    requires |vector| == |fields|
    ensures t == AddAll(add, at, fields, vector)
  {
    t := at;
    for i := 0 to |fields|
      invariant t == AddAll(add, at, fields[..i], vector[..i])
    {
      t := add(fields[i], vector[i], t);
      assert fields[..i + 1][..i] == fields[..i] && vector[..i + 1][..i] == vector[..i];
    }
    assert fields[..|fields|] == fields && vector[..|fields|] == vector;
  }

  /** The first component is added first. */
  lemma {:induction false} FirstIsAddedFirst(add: Adder, at: int, fields: seq<Field>, vector: seq<int>)
    requires |vector| == |fields| && fields != []
    ensures AddAll(add, at, fields, vector) == AddAll(add, add(fields[0], vector[0], at), fields[1..], vector[1..])
    decreases |fields|
  {
    var n := |fields| - 1;
    if n == 0 {
      assert fields[..0] == [] && vector[..0] == [] && fields[1..] == [] && vector[1..] == [];
    } else {
      FirstIsAddedFirst(add, at, fields[..n], vector[..n]);
      assert fields[..n][1..] == fields[1..][..n - 1] && vector[..n][1..] == vector[1..][..n - 1];
    }
  }

  /** Component `i` is the largest that does not pass the goal, after the components before it. */
  ghost predicate LargestAt(add: Adder, direction: int, start: int, goal: int, fields: seq<Field>, vector: seq<int>, i: nat)
    requires i < |vector| <= |fields|
  {
    IsLargest(add, fields[i], direction, AddAll(add, start, fields[..i], vector[..i]), goal, vector[i])
  }

  ghost predicate IsDifference(add: Adder, direction: int, start: int, goal: int, fields: seq<Field>, vector: seq<int>) {
    && |vector| == |fields|
    && (forall i: nat :: i < |vector| ==> LargestAt(add, direction, start, goal, fields, vector, i))
  }

  lemma {:induction false} OneMoreComponent(add: Adder, direction: int, start: int, goal: int, fields: seq<Field>,
                                            vector: seq<int>, n: int)
    requires |vector| < |fields| && IsDifference(add, direction, start, goal, fields[..|vector|], vector)
    requires IsLargest(add, fields[|vector|], direction, AddAll(add, start, fields[..|vector|], vector), goal, n)
    ensures IsDifference(add, direction, start, goal, fields[..|vector| + 1], vector + [n])
    ensures AddAll(add, start, fields[..|vector| + 1], vector + [n]) ==
            add(fields[|vector|], n, AddAll(add, start, fields[..|vector|], vector))
  {
    hide IsLargest;
    var m := |vector|;
    var fs, v := fields[..m + 1], vector + [n];
    assert fs[..m] == fields[..m] && v[..m] == vector;
    forall i: nat | i < |v|
      ensures LargestAt(add, direction, start, goal, fs, v, i)
    {
      if i < m {
        assert LargestAt(add, direction, start, goal, fields[..m], vector, i);
        assert fs[..i] == fields[..m][..i] && v[..i] == vector[..i];
      }
    }
  }

  /** The amounts found unit by unit, and the instant they lead to. */
  function ClimbAll(add: Adder, direction: int, t: int, goal: int, fields: seq<Field>): (r: (seq<int>, int))
    requires Abs(direction) == 1 && !Passes(direction, t, goal)
    ensures |r.0| == |fields| && !Passes(direction, r.1, goal) && !Passes(direction, t, r.1)
  {
    if fields == [] then ([], t)
    else
      var n := |fields| - 1;
      var before := ClimbAll(add, direction, t, goal, fields[..n]);
      var r := Climb(add, fields[n], direction, before.1, goal, MULTIPLE_TABLE[fields[n]]);
      (before.0 + [Signed(direction, r.0)], r.1)
  }

  /** Where the first step of a unit passes the goal, its amount is below that step, and its bits lead to the next unit. */
  lemma {:induction false} AmountsAreBits(add: Adder, direction: int, t: int, goal: int, fields: seq<Field>, i: nat)
    requires Abs(direction) == 1 && !Passes(direction, t, goal) && i < |fields|
    requires var at := ClimbAll(add, direction, t, goal, fields[..i]).1;
             Passes(direction, add(fields[i], direction * FirstStep(fields[i]), at), goal)
    ensures var amount := ClimbAll(add, direction, t, goal, fields).0[i];
            && 0 <= direction * amount && Abs(amount) < FirstStep(fields[i])
            && ClimbAll(add, direction, t, goal, fields[..i + 1]).1 ==
               AddBits(add, fields[i], direction, ClimbAll(add, direction, t, goal, fields[..i]).1, Abs(amount), 28)
  {
    hide Climb, AddBits, Pow2, FirstStep;
    var n := |fields| - 1;
    if i < n {
      assert fields[..n][..i] == fields[..i] && fields[..n][..i + 1] == fields[..i + 1];
      AmountsAreBits(add, direction, t, goal, fields[..n], i);
    } else {
      assert fields[..i + 1] == fields;
      var at := ClimbAll(add, direction, t, goal, fields[..i]).1;
      var (amount, end) := Climb(add, fields[i], direction, at, goal, MULTIPLE_TABLE[fields[i]]);
      GallopKnows(add, fields[i], direction, at, goal, direction * amount, end);
    }
  }

  /** The difference of two instants, unit by unit. */
  method ComponentDifference(add: Adder, startingAT: int, resultAT: int, fields: seq<Field>) returns (vector: seq<int>)
    ensures var direction := if startingAT <= resultAT then 1 else -1;
            && vector == ClimbAll(add, direction, startingAT, resultAT, fields).0
            && (IsUniform(add) ==> IsDifference(add, direction, startingAT, resultAT, fields, vector))
  {
    hide IsUniform, IsLargest, IsDifference, AddAll, Climb, HasClimbed, FirstStep, AddBits;
    var direction := if startingAT <= resultAT then 1 else -1;
    var curr := startingAT;
    vector := [];
    NoComponents(add, direction, startingAT, resultAT);
    for i := 0 to |fields|
      invariant !Passes(direction, curr, resultAT)
      invariant ClimbAll(add, direction, startingAT, resultAT, fields[..i]) == (vector, curr)
      invariant IsUniform(add) ==>
                  && IsDifference(add, direction, startingAT, resultAT, fields[..i], vector)
                  && curr == AddAll(add, startingAT, fields[..i], vector)
    {
      var result, next := Gallop(add, fields[i], direction, curr, resultAT);
      if IsUniform(add) {
        OneMoreComponent(add, direction, startingAT, resultAT, fields, vector, result);
      }
      OneMoreClimb(add, direction, startingAT, resultAT, fields, i, result, next);
      vector := vector + [result];
      curr := next;
    }
    assert fields[..|fields|] == fields;
  }

  lemma {:induction false} OneMoreClimb(add: Adder, direction: int, start: int, goal: int, fields: seq<Field>, i: nat,
                                        result: int, next: int)
    requires Abs(direction) == 1 && !Passes(direction, start, goal) && i < |fields|
    requires HasClimbed(add, fields[i], direction, ClimbAll(add, direction, start, goal, fields[..i]).1, goal, result, next)
    ensures ClimbAll(add, direction, start, goal, fields[..i + 1]) ==
            (ClimbAll(add, direction, start, goal, fields[..i]).0 + [result], next)
  {
    hide Climb, Signed;
    assert fields[..i + 1][..i] == fields[..i];
  }

  lemma NoComponents(add: Adder, direction: int, start: int, goal: int)
    ensures IsDifference(add, direction, start, goal, [], []) && AddAll(add, start, [], []) == start
  {
  }

  /** Adding the difference back does not pass the goal, and comes closer to it than one of the last unit. */
  lemma {:induction false} DifferenceAddsUp(add: Adder, direction: int, start: int, goal: int, fields: seq<Field>, vector: seq<int>)
    requires IsUniform(add) && Abs(direction) == 1 && fields != [] && IsDifference(add, direction, start, goal, fields, vector)
    ensures var end := AddAll(add, start, fields, vector);
            !Passes(direction, end, goal) && Passes(direction, add(fields[|fields| - 1], direction, end), goal)
  {
    hide IsUniform;
    var n := |fields| - 1;
    assert LargestAt(add, direction, start, goal, fields, vector, n);
    Added(add, fields[n], vector[n], direction, AddAll(add, start, fields[..n], vector[..n]));
  }

  /** There is only one difference. */
  lemma {:induction false} DifferenceIsUnique(add: Adder, direction: int, start: int, goal: int, fields: seq<Field>,
                                              v: seq<int>, w: seq<int>, n: nat)
    requires IsUniform(add) && Abs(direction) == 1 && n <= |fields|
    requires IsDifference(add, direction, start, goal, fields, v) && IsDifference(add, direction, start, goal, fields, w)
    ensures v[..n] == w[..n]
  {
    hide IsUniform, IsLargest;
    if 0 < n {
      var i := n - 1;
      DifferenceIsUnique(add, direction, start, goal, fields, v, w, i);
      assert LargestAt(add, direction, start, goal, fields, v, i) && LargestAt(add, direction, start, goal, fields, w, i);
      LargestIsUnique(add, fields[i], direction, AddAll(add, start, fields[..i], v[..i]), goal, v[i], w[i]);
      assert v[..n] == v[..i] + [v[i]] && w[..n] == w[..i] + [w[i]];
    }
  }

  lemma LargestIsUnique(add: Adder, f: Field, direction: int, start: int, goal: int, a: int, b: int)
    requires IsUniform(add) && Abs(direction) == 1
    requires IsLargest(add, f, direction, start, goal, a) && IsLargest(add, f, direction, start, goal, b)
    ensures a == b
  {
    hide IsUniform;
    LargestFits(add, f, direction, start, goal, a, b);
    LargestFits(add, f, direction, start, goal, b, a);
  }
}
