/** Day 21: monkeys yell numbers. A yelling monkey knows its number; a calculating monkey
    applies its operator to the numbers of two other monkeys, looked up by name when it
    yells. Part 2 asks which number the human (`humn`) must yell for both operands of
    `root` to be equal, found by inverting the operators along the human's path. */
module Day21 {
  import opened Common

  const Human := "humn"
  const RootName := "root"

  /** `YellingMonkey` or `CalculatingMonkey`; the operator is the one matched by the
      equation pattern. */
  datatype Monkey = Yelling(value: int) | Calculating(op: char, name1: string, name2: string)

  type Monkeys = map<string, Monkey>

  /** The calculation of `CalculatingMonkey.Yell`, with C#'s truncating division. */
  function Apply(op: char, a: int, b: int): (r: Result<int>)
    ensures r.Ok? <==> (op == '+' || op == '-' || op == '*' || (op == '/' && b != 0))
    ensures op == '/' && b != 0 ==> r == Ok(TruncDiv(a, b))
  {
    match op
    case '+' => Ok(a + b)
    case '-' => Ok(a - b)
    case '*' => Ok(a * b)
    case '/' => if b == 0 then Err("Attempted to divide by zero.") else Ok(TruncDiv(a, b))
    case _ => Err("Illegal operator")
  }

  /** The number a monkey yells. A calculating monkey looks both operands up and yells
      their combination. The source recurses without bound; here each level of
      calculation costs one unit of `fuel`, and running out stands for the stack
      overflow that a cyclic input causes. */
  function Yell(m: Monkeys, name: string, fuel: nat): (r: Result<int>)
    ensures name in m && m[name].Yelling? ==> r == Ok(m[name].value)
    ensures name !in m ==> r.Err?
    decreases fuel
  {
    if name !in m then Err("The given key was not present in the dictionary.")
    else
      match m[name]
      case Yelling(v) => Ok(v)
      case Calculating(op, n1, n2) =>
        if fuel == 0 then Err("Stack overflow")
        else
          match Yell(m, n1, fuel - 1)
          case Err(e) => Err(e)
          case Ok(a) =>
            match Yell(m, n2, fuel - 1)
            case Err(e) => Err(e)
            case Ok(b) => Apply(op, a, b)
  }

  /** `DependsOnHuman`: a yelling monkey never does; a calculating one does when an
      operand is named `humn` (decided without looking it up) or when an operand depends
      on the human, the first operand asked first. */
  function DependsOnHuman(m: Monkeys, name: string, fuel: nat): (r: Result<bool>)
    ensures name in m && m[name].Yelling? ==> r == Ok(false)
    ensures name in m && m[name].Calculating? && (m[name].name1 == Human || m[name].name2 == Human)
            ==> r == Ok(true)
    ensures r == Ok(true) ==> name in m && m[name].Calculating?
    decreases fuel
  {
    if name !in m then Err("The given key was not present in the dictionary.")
    else
      match m[name]
      case Yelling(_) => Ok(false)
      case Calculating(_, n1, n2) =>
        if n1 == Human || n2 == Human then Ok(true)
        else if fuel == 0 then Err("Stack overflow")
        else
          match DependsOnHuman(m, n1, fuel - 1)
          case Err(e) => Err(e)
          case Ok(d1) => if d1 then Ok(true) else DependsOnHuman(m, n2, fuel - 1)
  }

  /** The number the human-side operand must yell so that the operation yields `v`, when
      the other operand `o` is on the right (`human on the left`). */
  function InvertLeft(op: char, v: int, o: int): (r: Result<int>)
    ensures r.Err? <==> !IsOperator(op) || (op == '*' && o == 0)
  {
    match op
    case '+' => Ok(v - o)
    case '-' => Ok(o + v)
    case '*' => if o == 0 then Err("Attempted to divide by zero.") else Ok(TruncDiv(v, o))
    case '/' => Ok(v * o)
    case _ => Err("Illegal operator")
  }

  /** The same when the other operand `o` is on the left (`human on the right`). */
  function InvertRight(op: char, v: int, o: int): (r: Result<int>)
    ensures r.Err? <==> !IsOperator(op) || (op == '*' && o == 0) || (op == '/' && v == 0)
  {
    match op
    case '+' => Ok(v - o)
    case '-' => Ok(o - v)
    case '*' => if o == 0 then Err("Attempted to divide by zero.") else Ok(TruncDiv(v, o))
    case '/' => if v == 0 then Err("Attempted to divide by zero.") else Ok(TruncDiv(o, v))
    case _ => Err("Illegal operator")
  }

  /** The inverse rules undo the operation exactly for `+` and `-` on either side, for an
      exact `*` and for `/` with the human on the left. */
  lemma InverseRules(op: char, v: int, o: int)
    ensures (op == '+' || op == '-') ==> InvertLeft(op, v, o).Ok? && Apply(op, InvertLeft(op, v, o).value, o) == Ok(v)
    ensures (op == '+' || op == '-') ==> InvertRight(op, v, o).Ok? && Apply(op, o, InvertRight(op, v, o).value) == Ok(v)
    ensures op == '*' && o != 0 && TruncRem(v, o) == 0 ==>
              InvertLeft(op, v, o).Ok? && Apply(op, InvertLeft(op, v, o).value, o) == Ok(v)
              && InvertRight(op, v, o).Ok? && Apply(op, o, InvertRight(op, v, o).value) == Ok(v)
    ensures op == '/' && o != 0 ==> InvertLeft(op, v, o).Ok? && Apply(op, InvertLeft(op, v, o).value, o) == Ok(v)
  {
    if op == '*' && o != 0 && TruncRem(v, o) == 0 {
      assert v == TruncDiv(v, o) * o;
      assert o * TruncDiv(v, o) == v;
    }
    if op == '/' && o != 0 {
      TruncDivExact(v, o);
    }
  }

  /** Truncating division undoes a multiplication. */
  lemma TruncDivExact(v: int, o: int)
    requires o != 0
    ensures TruncDiv(v * o, o) == v
  {
    var q, r := TruncDiv(v * o, o), TruncRem(v * o, o);
    assert v * o == q * o + r;
    assert (v - q) * o == r;
    if v != q {
      assert Abs(r) >= Abs(o) by { AbsProduct(v - q, o); }
    }
  }

  lemma AbsProduct(a: int, b: int)
    requires a != 0 && b != 0
    ensures Abs(a * b) >= Abs(b)
  {
    if a > 0 {
      if b > 0 { assert a * b >= b; } else { assert a * b <= b; }
    } else {
      if b > 0 { assert a * b <= -b; } else { assert a * b >= -b; }
    }
  }

  /** The cases in which `InvertLeft` undoes the operation exactly (`InverseRules`). */
  predicate LeftExact(op: char, v: int, o: int)
  {
    op == '+' || op == '-' || (op == '*' && o != 0 && TruncRem(v, o) == 0) || (op == '/' && o != 0)
  }

  /** The cases in which `InvertRight` undoes the operation exactly (`InverseRules`). */
  predicate RightExact(op: char, v: int, o: int)
  {
    op == '+' || op == '-' || (op == '*' && o != 0 && TruncRem(v, o) == 0)
  }

  /** The human yells a number of its own. */
  predicate HumanYells(m: Monkeys)
  {
    Human in m && m[Human].Yelling?
  }

  /** The private `SolveForHuman(value)` of the calculating monkey `name`: picks the side
      that is the human or depends on it, computes the number that side must yell from
      the other side's number, and descends into that side while it is a calculating
      monkey. */
  function SolveFrom(m: Monkeys, name: string, v: int, fuel: nat): (r: Result<int>)
    requires name in m && m[name].Calculating?
    ensures fuel > 0 && HumanYells(m) && m[name].name1 == Human && Yell(m, m[name].name2, fuel - 1).Ok?
            && LeftExact(m[name].op, v, Yell(m, m[name].name2, fuel - 1).value)
            ==> r.Ok? && Apply(m[name].op, r.value, Yell(m, m[name].name2, fuel - 1).value) == Ok(v)
    ensures fuel > 0 && HumanYells(m) && m[name].name2 == Human && m[name].name1 != Human
            && DependsOnHuman(m, m[name].name1, fuel - 1) == Ok(false) && Yell(m, m[name].name1, fuel - 1).Ok?
            && RightExact(m[name].op, v, Yell(m, m[name].name1, fuel - 1).value)
            ==> r.Ok? && Apply(m[name].op, Yell(m, m[name].name1, fuel - 1).value, r.value) == Ok(v)
    decreases fuel
  {
    if fuel == 0 then Err("Stack overflow")
    else
      var c := m[name];
      match DependsOnHuman(m, c.name1, fuel - 1)
      case Err(e) => Err(e)
      case Ok(d1) =>
        if d1 || c.name1 == Human then
          match Yell(m, c.name2, fuel - 1)
          case Err(e) => Err(e)
          case Ok(o) =>
            InverseRules(c.op, v, o);
            match InvertLeft(c.op, v, o)
            case Err(e) => Err(e)
            case Ok(nv) =>
              if m[c.name1].Calculating? then SolveFrom(m, c.name1, nv, fuel - 1) else Ok(nv)
        else
          match Yell(m, c.name1, fuel - 1)
          case Err(e) => Err(e)
          case Ok(o) =>
            InverseRules(c.op, v, o);
            match InvertRight(c.op, v, o)
            case Err(e) => Err(e)
            case Ok(nv) =>
              if c.name2 !in m then Err("The given key was not present in the dictionary.")
              else if m[c.name2].Calculating? then SolveFrom(m, c.name2, nv, fuel - 1) else Ok(nv)
  }

  /** The public `SolveForHuman` of the root: the side without the human yells the
      target, and the human side is solved for it. */
  function SolveForHuman(m: Monkeys, name: string, fuel: nat): (r: Result<int>)
    requires name in m && m[name].Calculating?
    ensures fuel > 0 && HumanYells(m) && m[name].name1 == Human ==> r == Yell(m, m[name].name2, fuel - 1)
    ensures fuel > 0 && HumanYells(m) && m[name].name2 == Human && m[name].name1 != Human
            && DependsOnHuman(m, m[name].name1, fuel - 1) == Ok(false)
            ==> r == Yell(m, m[name].name1, fuel - 1)
  {
    if fuel == 0 then Err("Stack overflow")
    else
      var c := m[name];
      match DependsOnHuman(m, c.name1, fuel - 1)
      case Err(e) => Err(e)
      case Ok(d1) =>
        if d1 || c.name1 == Human then
          match Yell(m, c.name2, fuel - 1)
          case Err(e) => Err(e)
          case Ok(target) =>
            if m[c.name1].Calculating? then SolveFrom(m, c.name1, target, fuel - 1) else Ok(target)
        else
          match Yell(m, c.name1, fuel - 1)
          case Err(e) => Err(e)
          case Ok(target) =>
            if c.name2 !in m then Err("The given key was not present in the dictionary.")
            else if m[c.name2].Calculating? then SolveFrom(m, c.name2, target, fuel - 1) else Ok(target)
  }

  /** The human yells `h` in place of its own number. */
  function WithHuman(m: Monkeys, h: int): Monkeys
  {
    m[Human := Yelling(h)]
  }

  /** A monkey other than the human that does not depend on the human yells the same
      whatever the human yells. */
  lemma {:induction false} Unaffected(m: Monkeys, name: string, fuel: nat, h: int)
    requires Human in m && m[Human].Yelling?
    requires name != Human && DependsOnHuman(m, name, fuel) == Ok(false)
    ensures Yell(WithHuman(m, h), name, fuel) == Yell(m, name, fuel)
    decreases fuel
  {
    var m' := WithHuman(m, h);
    assert m'[name] == m[name];
    if m[name].Calculating? {
      var c := m[name];
      Unaffected(m, c.name1, fuel - 1, h);
      Unaffected(m, c.name2, fuel - 1, h);
    }
  }

  /** `name` is the human or a monkey depending on it. */
  predicate HumanSide(m: Monkeys, name: string, fuel: nat)
  {
    name == Human || DependsOnHuman(m, name, fuel) == Ok(true)
  }

  /** `name` is not the human and does not depend on it. */
  predicate NoHuman(m: Monkeys, name: string, fuel: nat)
  {
    name != Human && DependsOnHuman(m, name, fuel) == Ok(false)
  }

  /** Exactly one operand leads to the human, through monkeys that add or subtract. */
  predicate HumanBranch(m: Monkeys, n1: string, n2: string, fuel: nat)
    decreases fuel, 1
  {
    (HumanSide(m, n1, fuel) && NoHuman(m, n2, fuel) && (n1 == Human || HumanPath(m, n1, fuel)))
    || (NoHuman(m, n1, fuel) && HumanSide(m, n2, fuel) && (n2 == Human || HumanPath(m, n2, fuel)))
  }

  /** The calculating monkey `name` adds or subtracts, and exactly one of its operands
      leads to the human in the same way. */
  predicate HumanPath(m: Monkeys, name: string, fuel: nat)
    decreases fuel, 0
  {
    name in m && m[name].Calculating? && (m[name].op == '+' || m[name].op == '-')
    && fuel > 0 && HumanBranch(m, m[name].name1, m[name].name2, fuel - 1)
  }

  /** When the human's path uses only `+` and `-`, the solved number makes the monkey
      yell the requested value. */
  lemma {:induction false} SolveFromCorrect(m: Monkeys, name: string, v: int, fuel: nat, h: int)
    requires Human in m && m[Human].Yelling?
    requires HumanPath(m, name, fuel)
    requires SolveFrom(m, name, v, fuel) == Ok(h)
    ensures Yell(WithHuman(m, h), name, fuel) == Ok(v)
    decreases fuel
  {
    var c := m[name];
    var m' := WithHuman(m, h);
    assert m'[name] == c;
    if HumanSide(m, c.name1, fuel - 1) && NoHuman(m, c.name2, fuel - 1) {
      var o := Yell(m, c.name2, fuel - 1).value;
      var nv := InvertLeft(c.op, v, o).value;
      InverseRules(c.op, v, o);
      Unaffected(m, c.name2, fuel - 1, h);
      if c.name1 == Human {
        assert Yell(m', c.name1, fuel - 1) == Ok(h);
      } else {
        SolveFromCorrect(m, c.name1, nv, fuel - 1, h);
      }
    } else {
      assert !HumanSide(m, c.name1, fuel - 1);
      var o := Yell(m, c.name1, fuel - 1).value;
      var nv := InvertRight(c.op, v, o).value;
      InverseRules(c.op, v, o);
      Unaffected(m, c.name1, fuel - 1, h);
      if c.name2 == Human {
        assert Yell(m', c.name2, fuel - 1) == Ok(h);
      } else {
        SolveFromCorrect(m, c.name2, nv, fuel - 1, h);
      }
    }
  }

  /** Part 2 is right: once the human yells the solved number, both operands of the root
      yell the same number. */
  lemma SolveForHumanBalances(m: Monkeys, fuel: nat, h: int)
    requires Human in m && m[Human].Yelling?
    requires RootName in m && m[RootName].Calculating? && fuel > 0
    requires HumanBranch(m, m[RootName].name1, m[RootName].name2, fuel - 1)
    requires SolveForHuman(m, RootName, fuel) == Ok(h)
    ensures Yell(WithHuman(m, h), m[RootName].name1, fuel - 1).Ok?
    ensures Yell(WithHuman(m, h), m[RootName].name1, fuel - 1)
            == Yell(WithHuman(m, h), m[RootName].name2, fuel - 1)
  {
    var c := m[RootName];
    var m' := WithHuman(m, h);
    if HumanSide(m, c.name1, fuel - 1) && NoHuman(m, c.name2, fuel - 1) {
      var target := Yell(m, c.name2, fuel - 1).value;
      Unaffected(m, c.name2, fuel - 1, h);
      if c.name1 == Human {
        assert Yell(m', c.name1, fuel - 1) == Ok(h);
      } else {
        SolveFromCorrect(m, c.name1, target, fuel - 1, h);
      }
    } else {
      assert !HumanSide(m, c.name1, fuel - 1);
      var target := Yell(m, c.name1, fuel - 1).value;
      Unaffected(m, c.name1, fuel - 1, h);
      if c.name2 == Human {
        assert Yell(m', c.name2, fuel - 1) == Ok(h);
      } else {
        SolveFromCorrect(m, c.name2, target, fuel - 1, h);
      }
    }
  }

  // Parsing

  predicate IsLower(c: char) { 'a' <= c <= 'z' }

  predicate IsOperator(c: char) { c == '+' || c == '-' || c == '*' || c == '/' }

  /** The length of the run of lower-case letters starting at `i`. */
  function LowerRun(s: string, i: nat): (n: nat)
    ensures i + n <= |s| || (i >= |s| && n == 0)
    ensures forall k :: i <= k < i + n ==> IsLower(s[k])
    ensures i + n < |s| ==> !IsLower(s[i + n])
    decreases |s| - i
  {
    if i < |s| && IsLower(s[i]) then 1 + LowerRun(s, i + 1) else 0
  }

  /** The pattern `([a-z]+)\s([+\-*\/])\s([a-z]+)` matches from `i`: the letters must be
      a whole run, as the next character has to be white space. */
  predicate MatchAt(s: string, i: nat)
  {
    var j := i + LowerRun(s, i);
    LowerRun(s, i) > 0 && j + 3 < |s| && IsWhiteSpace(s[j]) && IsOperator(s[j + 1])
    && IsWhiteSpace(s[j + 2]) && IsLower(s[j + 3])
  }

  /** The leftmost match of the equation pattern at or after `i`, as the monkey it
      describes. */
  function FindEquation(s: string, i: nat): (r: Option<Monkey>)
    ensures r.None? <==> forall k :: i <= k < |s| ==> !MatchAt(s, k)
    ensures r.Some? ==> r.value.Calculating? && IsOperator(r.value.op)
                        && |r.value.name1| > 0 && |r.value.name2| > 0
    decreases |s| - i
  {
    if i >= |s| then None
    else if MatchAt(s, i) then
      var j := i + LowerRun(s, i);
      Some(Calculating(s[j + 1], s[i..j], s[j + 3..j + 3 + LowerRun(s, j + 3)]))
    else FindEquation(s, i + 1)
  }

  /** The monkey an equation text describes: digits only (`^\d+$`) make a yelling
      monkey, otherwise the equation pattern must match somewhere. */
  function ParseMonkey(equation: string): (r: Result<Monkey>)
    ensures r.Ok? && r.value.Yelling? ==> r.value.value >= 0
    ensures r.Ok? && r.value.Calculating? ==> IsOperator(r.value.op)
  {
    if |equation| > 0 && IsDigits(equation) then Ok(Yelling(DigitsValue(equation)))
    else
      match FindEquation(equation, 0)
      case None => Err("Malformed equation")
      case Some(monkey) => Ok(monkey)
  }

  /** A number's decimal text describes a monkey yelling that number. */
  lemma ParseYelling(n: nat)
    ensures ParseMonkey(NatToString(n)) == Ok(Yelling(n))
  {
  }

  predicate IsName(s: string)
  {
    |s| > 0 && forall k :: 0 <= k < |s| ==> IsLower(s[k])
  }

  /** `a op b` written with single spaces describes the calculating monkey `a op b`. */
  lemma ParseCalculating(a: string, op: char, b: string)
    requires IsName(a) && IsOperator(op) && IsName(b)
    ensures ParseMonkey(a + [' ', op, ' '] + b) == Ok(Calculating(op, a, b))
  {
    var head := a + [' ', op, ' '];
    var s := head + b;
    assert |head| == |a| + 3;
    AppendParts(head, b);
    AppendParts(a, [' ', op, ' ']);
    assert s[..|a|] == head[..|a|];
    EquationMatch(s, a, op, b);
  }

  /** A text made of a name, a space, an operator, a space and a name matches the equation
      pattern at its start, as exactly that monkey. */
  lemma EquationMatch(s: string, a: string, op: char, b: string)
    requires IsName(a) && IsOperator(op) && IsName(b)
    requires |s| == |a| + 3 + |b| && s[..|a|] == a && s[|a| + 3..] == b
    requires s[|a|] == ' ' && s[|a| + 1] == op && s[|a| + 2] == ' '
    ensures !IsDigit(s[0]) && FindEquation(s, 0) == Some(Calculating(op, a, b))
  {
    EquationShape(s, a, op, b);
    FindAtMatch(s, 0, |a|, op, a, b);
  }

  /** The runs of letters in such a text are the two names. */
  lemma EquationShape(s: string, a: string, op: char, b: string)
    requires IsName(a) && IsOperator(op) && IsName(b)
    requires |s| == |a| + 3 + |b| && s[..|a|] == a && s[|a| + 3..] == b
    requires s[|a|] == ' ' && s[|a| + 1] == op && s[|a| + 2] == ' '
    ensures !IsDigit(s[0]) && MatchAt(s, 0)
    ensures LowerRun(s, 0) == |a| && LowerRun(s, |a| + 3) == |b|
    ensures s[0..|a|] == a && s[|a| + 3..|a| + 3 + |b|] == b
  {
    var j := |a|;
    assert s[0..j] == a;
    assert s[j + 3..j + 3 + |b|] == b;
    assert IsLower(s[0]) by { assert s[0] == a[0]; }
    assert IsLower(s[j + 3]) by { assert s[j + 3] == b[0]; }
    NameRun(s, 0, a);
    NameRun(s, j + 3, b);
    assert LowerRun(s, 0) == j && j + 3 < |s|;
  }

  /** Where the pattern matches, the search stops with the monkey described there. */
  lemma FindAtMatch(s: string, i: nat, j: nat, op: char, a: string, b: string)
    requires i < |s| && MatchAt(s, i) && i + LowerRun(s, i) == j && j == i + |a|
    requires LowerRun(s, j + 3) == |b| && s[j + 1] == op && s[i..j] == a && s[j + 3..j + 3 + |b|] == b
    ensures FindEquation(s, i) == Some(Calculating(op, a, b))
  {
  }

  /** The two parts of a concatenation are its slices. */
  lemma AppendParts<T>(p: seq<T>, q: seq<T>)
    ensures (p + q)[..|p|] == p && (p + q)[|p|..|p| + |q|] == q
  {
  }

  /** A name inside a text, followed by something that is not a lower-case letter, is one
      whole run of letters. */
  lemma NameRun(s: string, i: nat, name: string)
    requires IsName(name) && i + |name| <= |s| && s[i..i + |name|] == name
    requires i + |name| < |s| ==> !IsLower(s[i + |name|])
    ensures LowerRun(s, i) == |name|
  {
    assert forall k :: i <= k < i + |name| ==> s[k] == name[k - i];
    LowerRunOf(s, i, |name|);
  }

  lemma {:induction false} LowerRunOf(s: string, i: nat, n: nat)
    requires i + n <= |s| && forall k :: i <= k < i + n ==> IsLower(s[k])
    requires i + n < |s| ==> !IsLower(s[i + n])
    ensures LowerRun(s, i) == n
    decreases n
  {
    if n > 0 {
      LowerRunOf(s, i + 1, n - 1);
    }
  }

  /** The first index at or after `i` where `": "` starts. */
  function SeparatorAt(s: string, i: nat): (r: Option<nat>)
    ensures r.Some? ==> i <= r.value && r.value + 1 < |s| && s[r.value] == ':' && s[r.value + 1] == ' '
    ensures r.Some? ==> forall k :: i <= k < r.value ==> !(s[k] == ':' && s[k + 1] == ' ')
    ensures r.None? ==> forall k :: i <= k && k + 1 < |s| ==> !(s[k] == ':' && s[k + 1] == ' ')
    decreases |s| - i
  {
    if i + 1 >= |s| then None
    else if s[i] == ':' && s[i + 1] == ' ' then Some(i)
    else SeparatorAt(s, i + 1)
  }

  /** The second part of `line.Split(": ")` when the first separator is at `k`: the text
      after it, up to the next separator or the end. */
  function SecondPart(line: string, k: nat): (part: string)
    requires k + 1 < |line|
    ensures |part| <= |line| - (k + 2) && part == line[k + 2..k + 2 + |part|]
    ensures forall j :: 0 <= j && j + 1 < |part| ==> !(part[j] == ':' && part[j + 1] == ' ')
    ensures k + 2 + |part| == |line|
            || (k + 3 + |part| < |line| && line[k + 2 + |part|] == ':' && line[k + 3 + |part|] == ' ')
  {
    var rest := line[k + 2..];
    match SeparatorAt(rest, 0)
    case None => rest
    case Some(e) =>
      assert rest[..e] == line[k + 2..k + 2 + e];
      rest[..e]
  }

  /** `line.Split(": ")`: the name is the first part and the equation the second; a line
      without the separator has no second part. */
  function ParseLine(line: string): (r: Result<(string, Monkey)>)
    ensures r.Ok? ==> var n := |r.value.0|;
              n + 1 < |line| && line[..n] == r.value.0 && line[n] == ':' && line[n + 1] == ' '
              && forall k :: 0 <= k < n ==> !(line[k] == ':' && line[k + 1] == ' ')
    ensures (forall k :: 0 <= k && k + 1 < |line| ==> !(line[k] == ':' && line[k + 1] == ' ')) ==> r.Err?
    ensures SeparatorAt(line, 0).Some? ==>
              var k := SeparatorAt(line, 0).value;
              (r.Ok? <==> ParseMonkey(SecondPart(line, k)).Ok?)
              && (r.Ok? ==> r.value.0 == line[..k] && ParseMonkey(SecondPart(line, k)) == Ok(r.value.1))
  {
    match SeparatorAt(line, 0)
    case None => Err("Index was outside the bounds of the array.")
    case Some(k) =>
      match ParseMonkey(SecondPart(line, k))
      case Err(e) => Err(e)
      case Ok(monkey) => Ok((line[..k], monkey))
  }

  /** A line written as `name: equation`, with no colon in either part, parses as the
      monkey of the equation under that name. */
  lemma ParseLineText(name: string, equation: string)
    requires ':' !in name && ':' !in equation && ParseMonkey(equation).Ok?
    ensures ParseLine(name + ": " + equation) == Ok((name, ParseMonkey(equation).value))
  {
    var line := name + ": " + equation;
    var n := |name|;
    assert line[n] == ':' && line[n + 1] == ' ';
    assert forall j :: 0 <= j < n ==> line[j] == name[j];
    var s := SeparatorAt(line, 0);
    assert s == Some(n);
    assert line[..n] == name;
    var part := SecondPart(line, n);
    assert line[n + 2..] == equation;
    assert part == equation;
  }

  /** Every line parsed on its own. */
  function ParseLines(lines: seq<string>): (r: seq<Result<(string, Monkey)>>)
    ensures |r| == |lines| && forall i :: 0 <= i < |lines| ==> r[i] == ParseLine(lines[i])
  {
    seq(|lines|, i requires 0 <= i < |lines| => ParseLine(lines[i]))
  }

  /** The dictionary after the parsed lines are added in order; the first failure ends
      it, and `Dictionary.Add` refuses a name that is already present. */
  function AddMonkeys(entries: seq<Result<(string, Monkey)>>): (r: Result<Monkeys>)
    ensures r.Ok? ==> |r.value| == |entries|
    ensures r.Ok? && entries != [] ==> Holds(r.value, entries[|entries| - 1])
  {
    if entries == [] then Ok(map[])
    else
      var n := |entries| - 1;
      match AddMonkeys(entries[..n])
      case Err(e) => Err(e)
      case Ok(m) =>
        match entries[n]
        case Err(e) => Err(e)
        case Ok(entry) =>
          if entry.0 in m then Err("An item with the same key has already been added.")
          else Ok(m[entry.0 := entry.1])
  }

  /** The dictionary holds the monkey of a parsed line under its name. */
  predicate Holds(m: Monkeys, entry: Result<(string, Monkey)>)
  {
    entry.Ok? && entry.value.0 in m && m[entry.value.0] == entry.value.1
  }

  /** Every line adds its own monkey, under a name no other line uses. */
  lemma {:induction false} AddMonkeysContents(entries: seq<Result<(string, Monkey)>>)
    requires AddMonkeys(entries).Ok?
    ensures |AddMonkeys(entries).value| == |entries|
    ensures forall i :: 0 <= i < |entries| ==> Holds(AddMonkeys(entries).value, entries[i])
  {
    if entries != [] {
      var n := |entries| - 1;
      var front := entries[..n];
      AddMonkeysContents(front);
      var m := AddMonkeys(front).value;
      var entry := entries[n].value;
      var m' := m[entry.0 := entry.1];
      assert AddMonkeys(entries).value == m';
      forall i | 0 <= i < |entries| ensures Holds(m', entries[i]) {
        if i < n {
          assert front[i] == entries[i];
          assert Holds(m, entries[i]);
        }
      }
    }
  }

  /** The loop of the `Puzzle` constructor that fills the dictionary. */
  method LoadMonkeys(lines: seq<string>) returns (r: Result<Monkeys>)
    ensures r == AddMonkeys(ParseLines(lines))
  {
    ghost var entries := ParseLines(lines);
    var monkeys: Monkeys := map[];
    var i := 0;
    while i < |lines|
      invariant 0 <= i <= |lines|
      invariant AddMonkeys(entries[..i]) == Ok(monkeys)
    {
      var entry := ParseLine(lines[i]);
      assert entry == entries[i];
      AddMonkeysStep(entries, i, monkeys);
      if entry.Err? {
        AddMonkeysErrorPersists(entries, i + 1);
        return Err(entry.message);
      }
      if entry.value.0 in monkeys {
        AddMonkeysErrorPersists(entries, i + 1);
        return Err("An item with the same key has already been added.");
      }
      monkeys := monkeys[entry.value.0 := entry.value.1];
      i := i + 1;
    }
    assert entries[..i] == entries;
    return Ok(monkeys);
  }

  /** One more entry either adds its monkey under a new name or ends in the error the
      dictionary gives. */
  lemma AddMonkeysStep(entries: seq<Result<(string, Monkey)>>, i: nat, m: Monkeys)
    requires i < |entries| && AddMonkeys(entries[..i]) == Ok(m)
    ensures entries[i].Err? ==> AddMonkeys(entries[..i + 1]) == Err(entries[i].message)
    ensures entries[i].Ok? && entries[i].value.0 in m
            ==> AddMonkeys(entries[..i + 1]) == Err("An item with the same key has already been added.")
    ensures entries[i].Ok? && entries[i].value.0 !in m
            ==> AddMonkeys(entries[..i + 1]) == Ok(m[entries[i].value.0 := entries[i].value.1])
  {
    assert entries[..i + 1][..i] == entries[..i];
  }

  lemma {:induction false} AddMonkeysErrorPersists(entries: seq<Result<(string, Monkey)>>, n: nat)
    requires 0 < n <= |entries| && AddMonkeys(entries[..n]).Err?
    ensures AddMonkeys(entries) == AddMonkeys(entries[..n])
    decreases |entries| - n
  {
    if n < |entries| {
      assert entries[..n + 1][..n] == entries[..n];
      AddMonkeysErrorPersists(entries, n + 1);
    } else {
      assert entries[..n] == entries;
    }
  }

  /** The checks at the end of the `Puzzle` constructor: `root` must be a calculating
      monkey and must depend on the human. The recursion is given one unit of fuel per
      monkey, enough for any input without a cycle. */
  function CheckRoot(m: Monkeys): (r: Result<Monkeys>)
    ensures r.Ok? ==> r.value == m && RootName in m && m[RootName].Calculating?
    ensures r.Ok? ==> DependsOnHuman(m, RootName, |m|) == Ok(true)
  {
    if RootName !in m || !m[RootName].Calculating? then Err("The input does not contain a root monkey")
    else
      match DependsOnHuman(m, RootName, |m|)
      case Err(e) => Err(e)
      case Ok(d) => if d then Ok(m) else Err("The input does not contain a human")
  }

  /** The `Puzzle` constructor. */
  method Load(lines: seq<string>) returns (r: Result<Monkeys>)
    ensures r.Ok? <==> AddMonkeys(ParseLines(lines)).Ok? && CheckRoot(AddMonkeys(ParseLines(lines)).value).Ok?
    ensures r.Ok? ==> r.value == AddMonkeys(ParseLines(lines)).value && RootName in r.value
                      && r.value[RootName].Calculating?
  {
    var monkeys := LoadMonkeys(lines);
    if monkeys.Err? {
      return monkeys;
    }
    r := CheckRoot(monkeys.value);
  }

  /** `ComputeSolution1`: the number the root yells. */
  function ComputeSolution1(m: Monkeys): (r: Result<int>)
    requires RootName in m && m[RootName].Calculating?
    ensures var c, fuel := m[RootName], |m| - 1;
            r.Ok? <==> Yell(m, c.name1, fuel).Ok? && Yell(m, c.name2, fuel).Ok?
                       && Apply(c.op, Yell(m, c.name1, fuel).value, Yell(m, c.name2, fuel).value).Ok?
    ensures var c, fuel := m[RootName], |m| - 1;
            r.Ok? ==> r == Apply(c.op, Yell(m, c.name1, fuel).value, Yell(m, c.name2, fuel).value)
  {
    Yell(m, RootName, |m|)
  }

  /** `ComputeSolution2`: the number the human must yell. */
  function ComputeSolution2(m: Monkeys): (r: Result<int>)
    requires RootName in m && m[RootName].Calculating?
    ensures Human in m && m[Human].Yelling? && |m| > 0
            && HumanBranch(m, m[RootName].name1, m[RootName].name2, |m| - 1) && r.Ok?
            ==> Yell(WithHuman(m, r.value), m[RootName].name1, |m| - 1)
                == Yell(WithHuman(m, r.value), m[RootName].name2, |m| - 1)
  {
    var r := SolveForHuman(m, RootName, |m|);
    if Human in m && m[Human].Yelling? && |m| > 0
       && HumanBranch(m, m[RootName].name1, m[RootName].name2, |m| - 1) && r.Ok?
    then
      SolveForHumanBalances(m, |m|, r.value);
      r
    else r
  }
}
