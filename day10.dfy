/** Day 10: a one-register CPU. `noop` takes one cycle and `addx k` two, after which the
    register grows by k; every cycle draws one pixel of a 40-column screen and some cycles
    sample the signal strength `cycle * register`. */
module Day10 {
  import opened Common

  /** True when `s` begins with `prefix` (`string.StartsWith`). */
  predicate StartsWith(s: string, prefix: string)
  {
    |prefix| <= |s| && s[..|prefix|] == prefix
  }

  /** The ops of one command: an idle cycle, and for `addx k` a second cycle adding k. */
  function CommandOps(cmd: string): (r: Result<seq<int>>)
    ensures r.Ok? ==> |r.value| == (if StartsWith(cmd, "addx ") then 2 else 1) && r.value[0] == 0
  {
    if StartsWith(cmd, "addx ") then
      var parts := Split(cmd, ' ');
      assert cmd == "addx " + cmd[5..];
      SplitPrefix("addx", cmd[5..], ' ');
      match ParseInt(parts[1])
      case None => Err("Input string was not in a correct format")
      case Some(k) => Ok([0, k])
    else Ok([0])
  }

  /** The ops of all commands, in order. */
  function Operations(commands: seq<string>): Result<seq<int>>
  {
    if commands == [] then Ok([])
    else
      var n := |commands| - 1;
      match Operations(commands[..n])
      case Err(m) => Err(m)
      case Ok(front) =>
        match CommandOps(commands[n])
        case Err(m) => Err(m)
        case Ok(ops) => Ok(front + ops)
  }

  function AddxCount(commands: seq<string>): nat
  {
    if commands == [] then 0
    else AddxCount(commands[..|commands| - 1]) + (if StartsWith(commands[|commands| - 1], "addx ") then 1 else 0)
  }

  /** Every command takes one cycle and every `addx` one more. */
  lemma {:induction false} OperationsCount(commands: seq<string>)
    requires Operations(commands).Ok?
    ensures |Operations(commands).value| == |commands| + AddxCount(commands)
  {
    if commands != [] {
      OperationsCount(commands[..|commands| - 1]);
    }
  }

  /** The op-expanding loop of the `Processor` constructor. */
  method ParseOperations(commands: seq<string>) returns (r: Result<seq<int>>)
    ensures r == Operations(commands)
  {
    var offsets: seq<int> := [];
    var i := 0;
    while i < |commands|
      invariant 0 <= i <= |commands|
      invariant Operations(commands[..i]) == Ok(offsets)
    {
      assert commands[..i + 1][..i] == commands[..i];
      var ops := CommandOps(commands[i]);
      if ops.Err? {
        OperationsErrorPersists(commands, i + 1);
        return Err(ops.message);
      }
      offsets := offsets + ops.value;
      i := i + 1;
    }
    assert commands[..i] == commands;
    return Ok(offsets);
  }

  lemma {:induction false} OperationsErrorPersists(commands: seq<string>, n: nat)
    requires 0 < n <= |commands| && Operations(commands[..n]).Err?
    ensures Operations(commands) == Operations(commands[..n])
    decreases |commands| - n
  {
    if n < |commands| {
      assert commands[..n + 1][..n] == commands[..n];
      OperationsErrorPersists(commands, n + 1);
    } else {
      assert commands[..n] == commands;
    }
  }

  /** The pixel drawn in a cycle: lit when the column is within one of the register. */
  function Pixel(cycle: nat, register: int): (c: char)
    ensures c == '#' <==> register - 1 <= cycle % 40 <= register + 1
    ensures c == '#' || c == '.'
  {
    var pos := cycle % 40;
    if pos >= register - 1 && pos <= register + 1 then '#' else '.'
  }

  /** The register value during op k: the start value plus all earlier offsets. */
  function RegisterAt(register: int, ops: seq<int>, k: nat): int
    requires k <= |ops|
  {
    register + Sum(ops[..k])
  }

  /** The pixels drawn by the ops when starting at `cycles` with `register`. */
  function Pixels(cycles: nat, register: int, ops: seq<int>): (p: seq<char>)
    ensures |p| == |ops|
  {
    seq(|ops|, k requires 0 <= k < |ops| => Pixel(cycles + k, RegisterAt(register, ops, k)))
  }

  /** The sum of the strengths sampled during the ops: op k ends cycle `cycles + k + 1`. */
  function SignalSum(cycles: nat, register: int, ops: seq<int>, interest: set<int>): int
  {
    if ops == [] then 0
    else
      var k := |ops| - 1;
      SignalSum(cycles, register, ops[..k], interest)
        + (if cycles + k + 1 in interest then (cycles + k + 1) * RegisterAt(register, ops, k) else 0)
  }

  lemma RegisterStep(register: int, ops: seq<int>, i: nat)
    requires i < |ops|
    ensures RegisterAt(register, ops, i + 1) == RegisterAt(register, ops, i) + ops[i]
  {
    assert ops[..i + 1] == ops[..i] + [ops[i]];
    SumAppend(ops[..i], [ops[i]]);
  }

  /** One more op draws one more pixel and may add one more strength. */
  lemma RunStep(cycles: nat, register: int, ops: seq<int>, i: nat, interest: set<int>)
    requires i < |ops|
    ensures Pixels(cycles, register, ops[..i + 1])
            == Pixels(cycles, register, ops[..i]) + [Pixel(cycles + i, RegisterAt(register, ops, i))]
    ensures SignalSum(cycles, register, ops[..i + 1], interest)
            == SignalSum(cycles, register, ops[..i], interest)
               + (if cycles + i + 1 in interest then (cycles + i + 1) * RegisterAt(register, ops, i) else 0)
  {
    var p := ops[..i + 1];
    var q := ops[..i];
    assert p[..i] == q;
    forall k | 0 <= k <= i ensures RegisterAt(register, p, k) == RegisterAt(register, ops, k) {
      assert p[..k] == ops[..k];
    }
    forall k | 0 <= k < i ensures RegisterAt(register, q, k) == RegisterAt(register, ops, k) {
      assert q[..k] == ops[..k];
    }
    assert Pixels(cycles, register, p)
           == Pixels(cycles, register, q) + [Pixel(cycles + i, RegisterAt(register, ops, i))];
  }

  class Processor
  {
    var register: int
    var cycles: nat
    var screen: seq<char>
    const operations: seq<int>

    constructor(ops: seq<int>)
      ensures register == 1 && cycles == 0 && screen == [] && operations == ops
    {
      register := 1;
      cycles := 0;
      screen := [];
      operations := ops;
    }

    /** `Run`: performs every op once more from the current state, drawing one pixel per op
        and summing the strengths of the cycles of interest. */
    method Run(interest: set<int>) returns (total: int)
      modifies this
      ensures cycles == old(cycles) + |operations|
      ensures register == old(register) + Sum(operations)
      ensures screen == old(screen) + Pixels(old(cycles), old(register), operations)
      ensures total == SignalSum(old(cycles), old(register), operations, interest)
    {
      var strengths: seq<int> := [];
      ghost var c0, x0 := cycles, register;
      var i := 0;
      while i < |operations|
        invariant 0 <= i <= |operations|
        invariant cycles == c0 + i && register == RegisterAt(x0, operations, i)
        invariant screen == old(screen) + Pixels(c0, x0, operations[..i])
        invariant Sum(strengths) == SignalSum(c0, x0, operations[..i], interest)
      {
        var offset := operations[i];
        RunStep(c0, x0, operations, i, interest);
        RegisterStep(x0, operations, i);
        var pos := cycles % 40;
        if pos >= register - 1 && pos <= register + 1 {
          screen := screen + ['#'];
        } else {
          screen := screen + ['.'];
        }
        cycles := cycles + 1;
        if cycles in interest {
          SumAppend(strengths, [cycles * register]);
          strengths := strengths + [cycles * register];
        }
        register := register + offset;
        i := i + 1;
      }
      assert operations[..i] == operations;
      total := Sum(strengths);
    }
  }

  /** `ComputeSolution1`: the strengths at cycles 20, 60, …, 220 of a fresh processor. */
  method ComputeSolution1(commands: seq<string>) returns (r: Result<int>)
    ensures r.Ok? <==> Operations(commands).Ok?
    ensures r.Ok? ==> r.value == SignalSum(0, 1, Operations(commands).value, {20, 60, 100, 140, 180, 220})
  {
    var ops := ParseOperations(commands);
    if ops.Err? {
      return Err(ops.message);
    }
    var cpu := new Processor(ops.value);
    var total := cpu.Run({20, 60, 100, 140, 180, 220});
    return Ok(total);
  }
}
