/** Day 19, "Not Enough Minerals": blueprints give the ore, clay and obsidian cost
    of four kinds of robot; starting with one ore robot, a breadth-first search
    over inventories finds the largest number of geodes that can be opened within
    a time limit. */
module Day19 {
  import opened Common

  /** What a robot costs in ore, clay and obsidian. */
  datatype RobotCosts = RobotCosts(ore: int, clay: int, obsidian: int)

  datatype Blueprint = Blueprint(
    identifier: int,
    oreRobot: RobotCosts,
    clayRobot: RobotCosts,
    obsidianRobot: RobotCosts,
    geodeRobot: RobotCosts)
  {
    /** The four robot costs in the order ore, clay, obsidian, geode. */
    function Costs(): (r: seq<RobotCosts>)
      ensures |r| == 4
      ensures r[0] == oreRobot && r[1] == clayRobot && r[2] == obsidianRobot && r[3] == geodeRobot
    {
      [oreRobot, clayRobot, obsidianRobot, geodeRobot]
    }

    /** The seven numbers a blueprint's description holds, in the order they appear. */
    function Numbers(): (n: seq<int>)
      ensures |n| == 7
    {
      [identifier, oreRobot.ore, clayRobot.ore, obsidianRobot.ore, obsidianRobot.clay,
       geodeRobot.ore, geodeRobot.obsidian]
    }

    /** The costs a description cannot express are zero. */
    predicate Normal()
    {
      oreRobot.clay == 0 && oreRobot.obsidian == 0 && clayRobot.clay == 0 && clayRobot.obsidian == 0 &&
      obsidianRobot.obsidian == 0 && geodeRobot.clay == 0
    }
  }

  const IndexError := "Index was outside the bounds of the array."

  /** A blueprint from the numbers in its description; fewer than seven numbers is an
      out-of-bounds array access. Numbers after the seventh are ignored. */
  function BlueprintOf(n: seq<int>): (r: Result<Blueprint>)
    ensures r.Err? <==> |n| < 7
    ensures r.Err? ==> r.message == IndexError
    ensures r.Ok? ==> r.value.Normal() && r.value.Numbers() == n[..7]
  {
    if |n| < 7 then Err(IndexError)
    else Ok(Blueprint(n[0], RobotCosts(n[1], 0, 0), RobotCosts(n[2], 0, 0),
                      RobotCosts(n[3], n[4], 0), RobotCosts(n[5], 0, n[6])))
  }

  /** Reading a blueprint back from its own numbers gives the blueprint. */
  lemma BlueprintRoundTrip(b: Blueprint)
    requires b.Normal()
    ensures BlueprintOf(b.Numbers()) == Ok(b)
  {
    var n := b.Numbers();
    assert n[..7] == n;
    var r := BlueprintOf(n);
    assert r.value.Numbers() == n;
  }

  /** The largest ore cost of the four robots. */
  function MaxOreCost(b: Blueprint): (r: int)
    ensures forall i :: 0 <= i < 4 ==> b.Costs()[i].ore <= r
    ensures exists i :: 0 <= i < 4 && b.Costs()[i].ore == r
  {
    var r := Max(Max(b.oreRobot.ore, b.clayRobot.ore), Max(b.obsidianRobot.ore, b.geodeRobot.ore));
    assert b.Costs()[0].ore == b.oreRobot.ore;
    r
  }

  datatype Inventory = Inventory(
    ore: int, oreRobots: int,
    clay: int, clayRobots: int,
    obsidian: int, obsidianRobots: int,
    geode: int, geodeRobots: int)
  {
    /** The materials in the order ore, clay, obsidian, geode. */
    function Materials(): seq<int> { [ore, clay, obsidian, geode] }

    /** The robot counts, in the same order as the materials they mine. */
    function Robots(): seq<int> { [oreRobots, clayRobots, obsidianRobots, geodeRobots] }

    /** One minute of mining: every robot adds one unit of its material. */
    function CollectMaterial(): Inventory
    {
      this.(ore := ore + oreRobots, clay := clay + clayRobots,
            obsidian := obsidian + obsidianRobots, geode := geode + geodeRobots)
    }

    predicate CanAfford(c: RobotCosts)
    {
      c.ore <= ore && c.clay <= clay && c.obsidian <= obsidian
    }

    /** Pays for a robot. */
    function Build(c: RobotCosts): Inventory
    {
      this.(ore := ore - c.ore, clay := clay - c.clay, obsidian := obsidian - c.obsidian)
    }

    function BuildOreRobot(c: RobotCosts): Inventory
    {
      Build(c).(oreRobots := oreRobots + 1)
    }

    function BuildClayRobot(c: RobotCosts): Inventory
    {
      Build(c).(clayRobots := clayRobots + 1)
    }

    function BuildObsidianRobot(c: RobotCosts): Inventory
    {
      Build(c).(obsidianRobots := obsidianRobots + 1)
    }

    function BuildGeodeRobot(c: RobotCosts): Inventory
    {
      Build(c).(geodeRobots := geodeRobots + 1)
    }
  }

  /** Mining adds each robot count to its material and leaves the robots as they
      were. */
  lemma CollectMaterialMines(inv: Inventory)
    ensures inv.CollectMaterial().Robots() == inv.Robots()
    ensures forall k :: 0 <= k < 4 ==>
      inv.CollectMaterial().Materials()[k] == inv.Materials()[k] + inv.Robots()[k]
  {
  }

  /** `after` is `before` with the costs paid and exactly one robot of kind `kind`
      (0 ore, 1 clay, 2 obsidian, 3 geode) more. */
  predicate Bought(before: Inventory, after: Inventory, c: RobotCosts, kind: nat)
  {
    after.ore == before.ore - c.ore && after.clay == before.clay - c.clay &&
    after.obsidian == before.obsidian - c.obsidian && after.geode == before.geode &&
    forall k :: 0 <= k < 4 ==> after.Robots()[k] == before.Robots()[k] + (if k == kind then 1 else 0)
  }

  /** Each of the four builds pays the costs and adds one robot of its own kind. */
  lemma BuildsBuyOneRobot(inv: Inventory, c: RobotCosts)
    ensures Bought(inv, inv.BuildOreRobot(c), c, 0)
    ensures Bought(inv, inv.BuildClayRobot(c), c, 1)
    ensures Bought(inv, inv.BuildObsidianRobot(c), c, 2)
    ensures Bought(inv, inv.BuildGeodeRobot(c), c, 3)
  {
  }

  /** The inventory the search starts from: one ore robot and nothing else. */
  const Start := Inventory(0, 1, 0, 0, 0, 0, 0, 0)

  lemma StartHoldings()
    ensures Start.Robots() == [1, 0, 0, 0] && Start.Materials() == [0, 0, 0, 0]
  {
  }

  predicate MaterialsNonNegative(inv: Inventory)
  {
    inv.ore >= 0 && inv.clay >= 0 && inv.obsidian >= 0 && inv.geode >= 0
  }

  /** An inventory can afford a robot exactly when paying for it leaves no material
      negative. */
  lemma AffordIff(inv: Inventory, c: RobotCosts)
    requires inv.geode >= 0
    ensures inv.CanAfford(c) <==> MaterialsNonNegative(inv.Build(c))
  {
  }

  /** Robots never lose their material: with non-negative robot counts, mining
      keeps every material non-negative. */
  lemma CollectKeepsNonNegative(inv: Inventory)
    requires MaterialsNonNegative(inv)
    requires forall k :: 0 <= k < 4 ==> inv.Robots()[k] >= 0
    ensures MaterialsNonNegative(inv.CollectMaterial())
  {
    assert inv.Robots()[0] >= 0 && inv.Robots()[1] >= 0 && inv.Robots()[2] >= 0 && inv.Robots()[3] >= 0;
  }

  /** The moves of the game: in each minute, wait, or start one affordable robot
      (affordability judged before this minute's mining) while the robots mine. */
  predicate Step(b: Blueprint, inv: Inventory, next: Inventory)
  {
    next == inv.CollectMaterial() ||
    (inv.CanAfford(b.oreRobot) && next == inv.CollectMaterial().BuildOreRobot(b.oreRobot)) ||
    (inv.CanAfford(b.clayRobot) && next == inv.CollectMaterial().BuildClayRobot(b.clayRobot)) ||
    (inv.CanAfford(b.obsidianRobot) && next == inv.CollectMaterial().BuildObsidianRobot(b.obsidianRobot)) ||
    (inv.CanAfford(b.geodeRobot) && next == inv.CollectMaterial().BuildGeodeRobot(b.geodeRobot))
  }

  /** The inventories reachable from the start in exactly `t` minutes. */
  ghost predicate Reachable(b: Blueprint, inv: Inventory, t: nat)
    decreases t
  {
    if t == 0 then inv == Start
    else exists prev :: Reachable(b, prev, t - 1) && Step(b, prev, inv)
  }

  function RobotTotal(inv: Inventory): int
  {
    inv.oreRobots + inv.clayRobots + inv.obsidianRobots + inv.geodeRobots
  }

  /** At most one robot is built per minute, robots are never lost, and geodes are
      only opened by geode robots: after `t` minutes there are at most `t + 1`
      robots, at most `t` of them geode robots, and at most `t * t` geodes. */
  lemma {:induction false} ReachableBounds(b: Blueprint, inv: Inventory, t: nat)
    requires Reachable(b, inv, t)
    decreases t
    ensures RobotTotal(inv) <= t + 1
    ensures inv.oreRobots >= 1 && inv.clayRobots >= 0 && inv.obsidianRobots >= 0 && inv.geodeRobots >= 0
    ensures 0 <= inv.geodeRobots <= t && 0 <= inv.geode <= t * t
  {
    if t > 0 {
      var prev :| Reachable(b, prev, t - 1) && Step(b, prev, inv);
      ReachableBounds(b, prev, t - 1);
      StepBounds(b, prev, inv);
      assert (t - 1) * (t - 1) + (t - 1) <= t * t;
    }
  }

  /** One move adds at most one robot, loses none, and opens as many geodes as
      there are geode robots. */
  lemma StepBounds(b: Blueprint, prev: Inventory, inv: Inventory)
    requires Step(b, prev, inv)
    ensures RobotTotal(inv) <= RobotTotal(prev) + 1
    ensures prev.oreRobots <= inv.oreRobots && prev.clayRobots <= inv.clayRobots
    ensures prev.obsidianRobots <= inv.obsidianRobots && prev.geodeRobots <= inv.geodeRobots
    ensures inv.geodeRobots <= prev.geodeRobots + 1
    ensures inv.geode == prev.geode + prev.geodeRobots
  {
  }

  predicate NonNegativeCost(c: RobotCosts)
  {
    c.ore >= 0 && c.clay >= 0 && c.obsidian >= 0
  }

  /** With non-negative costs no reachable inventory holds a negative amount of
      any material. */
  lemma {:induction false} ReachableNonNegative(b: Blueprint, inv: Inventory, t: nat)
    requires forall i :: 0 <= i < 4 ==> NonNegativeCost(b.Costs()[i])
    requires Reachable(b, inv, t)
    ensures MaterialsNonNegative(inv)
    decreases t
  {
    if t > 0 {
      var prev :| Reachable(b, prev, t - 1) && Step(b, prev, inv);
      ReachableNonNegative(b, prev, t - 1);
      ReachableBounds(b, prev, t - 1);
      StepNonNegative(b, prev, inv);
    }
  }

  /** One move from an inventory with non-negative materials and robot counts keeps
      the materials non-negative. */
  lemma StepNonNegative(b: Blueprint, prev: Inventory, inv: Inventory)
    requires forall i :: 0 <= i < 4 ==> NonNegativeCost(b.Costs()[i])
    requires MaterialsNonNegative(prev) && Step(b, prev, inv)
    requires prev.oreRobots >= 0 && prev.clayRobots >= 0 && prev.obsidianRobots >= 0 && prev.geodeRobots >= 0
    ensures MaterialsNonNegative(inv)
  {
    var c := prev.CollectMaterial();
    assert NonNegativeCost(b.Costs()[0]) && NonNegativeCost(b.Costs()[1]);
    assert NonNegativeCost(b.Costs()[2]) && NonNegativeCost(b.Costs()[3]);
  }

  /** The caps below which the search still builds ore, clay and obsidian robots. */
  predicate WithinCaps(b: Blueprint, maxOreCost: int, inv: Inventory)
  {
    inv.oreRobots <= Max(1, maxOreCost) &&
    inv.clayRobots <= Max(0, b.obsidianRobot.clay) &&
    inv.obsidianRobots <= Max(0, b.geodeRobot.obsidian)
  }

  /** The key under which the search remembers an inventory: ore, clay and obsidian
      beyond what can ever be spent per minute are cut off. */
  function Capped(b: Blueprint, inv: Inventory): (r: Inventory)
    ensures r.ore <= inv.ore && r.clay <= inv.clay && r.obsidian <= inv.obsidian
    ensures r.ore == inv.ore <==> inv.ore <= b.geodeRobot.ore * 2
    ensures r.clay == inv.clay <==> inv.clay <= b.obsidianRobot.clay
    ensures r.obsidian == inv.obsidian <==> inv.obsidian <= b.geodeRobot.obsidian
    ensures r.geode == inv.geode && r.Robots() == inv.Robots()
  {
    inv.(ore := Min(b.geodeRobot.ore * 2, inv.ore),
         clay := Min(b.obsidianRobot.clay, inv.clay),
         obsidian := Min(b.geodeRobot.obsidian, inv.obsidian))
  }

  /** The inventories the search enqueues after `inv`, in order. */
  function Successors(b: Blueprint, maxOreCost: int, inv: Inventory): (r: seq<Inventory>)
    ensures 1 <= |r| <= 4
    ensures forall i :: 0 <= i < |r| ==> Step(b, inv, r[i])
    ensures WithinCaps(b, maxOreCost, inv) ==> forall i :: 0 <= i < |r| ==> WithinCaps(b, maxOreCost, r[i])
  {
    var c := inv.CollectMaterial();
    var s0 := if inv.oreRobots < maxOreCost && inv.CanAfford(b.oreRobot) then [c.BuildOreRobot(b.oreRobot)] else [];
    var s1 := if inv.clayRobots < b.obsidianRobot.clay && inv.CanAfford(b.clayRobot) then [c.BuildClayRobot(b.clayRobot)] else [];
    var s2 := if inv.obsidianRobots < b.geodeRobot.obsidian && inv.CanAfford(b.obsidianRobot) then [c.BuildObsidianRobot(b.obsidianRobot)] else [];
    var s3 := if inv.CanAfford(b.geodeRobot) then [c.BuildGeodeRobot(b.geodeRobot)] else [c];
    s0 + s1 + s2 + s3
  }

  /** An ore, clay or obsidian robot is built exactly when its count is below its
      cap and the inventory can afford it. */
  lemma SuccessorBuilds(b: Blueprint, maxOreCost: int, inv: Inventory)
    ensures var r := Successors(b, maxOreCost, inv);
      (inv.CollectMaterial().BuildOreRobot(b.oreRobot) in r <==>
        inv.oreRobots < maxOreCost && inv.CanAfford(b.oreRobot)) &&
      (inv.CollectMaterial().BuildClayRobot(b.clayRobot) in r <==>
        inv.clayRobots < b.obsidianRobot.clay && inv.CanAfford(b.clayRobot)) &&
      (inv.CollectMaterial().BuildObsidianRobot(b.obsidianRobot) in r <==>
        inv.obsidianRobots < b.geodeRobot.obsidian && inv.CanAfford(b.obsidianRobot))
  {
  }

  /** A geode robot is built whenever it is affordable, and the robots are left to
      mine without building exactly when it is not. */
  lemma SuccessorGeodeOrWait(b: Blueprint, maxOreCost: int, inv: Inventory)
    ensures var r := Successors(b, maxOreCost, inv);
      (inv.CollectMaterial().BuildGeodeRobot(b.geodeRobot) in r <==> inv.CanAfford(b.geodeRobot)) &&
      (inv.CollectMaterial() in r <==> !inv.CanAfford(b.geodeRobot))
  {
  }

  /** A search state: the minutes spent and the inventory. */
  datatype State = State(time: int, inventory: Inventory)

  function Timed(t: int, invs: seq<Inventory>): (r: seq<State>)
    ensures |r| == |invs|
    ensures forall i :: 0 <= i < |r| ==> r[i] == State(t, invs[i])
  {
    seq(|invs|, i requires 0 <= i < |invs| => State(t, invs[i]))
  }

  /** The number of geodes the blueprint can be shown to reach within the limit:
      non-negative, and when positive the geode count of an inventory reachable in
      exactly the limit's minutes. */
  ghost predicate Yield(b: Blueprint, timeLimit: int, y: int)
  {
    y >= 0 && (y > 0 ==> exists inv :: Reachable(b, inv, Max(timeLimit, 0)) && inv.geode == y)
  }

  /** A yield is at most the square of the time limit. */
  lemma YieldBound(b: Blueprint, timeLimit: int, y: int)
    requires Yield(b, timeLimit, y)
    ensures 0 <= y <= Max(timeLimit, 0) * Max(timeLimit, 0)
  {
    if y > 0 {
      var inv :| Reachable(b, inv, Max(timeLimit, 0)) && inv.geode == y;
      ReachableBounds(b, inv, Max(timeLimit, 0));
    }
  }

  /** Termination measure of the search: a state with `k` minutes left weighs 5^k,
      and it is replaced by at most four states with `k - 1` minutes left. */
  function Pow5(k: nat): (r: nat)
    ensures r >= 1
  {
    if k == 0 then 1 else 5 * Pow5(k - 1)
  }

  function MinutesLeft(timeLimit: int, t: int): nat
  {
    if t >= timeLimit then 0 else timeLimit - t
  }

  function Weight(q: seq<State>, timeLimit: int): nat
  {
    if q == [] then 0 else Pow5(MinutesLeft(timeLimit, q[0].time)) + Weight(q[1..], timeLimit)
  }

  lemma {:induction false} WeightAppend(a: seq<State>, c: seq<State>, timeLimit: int)
    ensures Weight(a + c, timeLimit) == Weight(a, timeLimit) + Weight(c, timeLimit)
  {
    if a != [] {
      assert (a + c)[1..] == a[1..] + c;
      WeightAppend(a[1..], c, timeLimit);
    } else {
      assert a + c == c;
    }
  }

  lemma {:induction false} WeightTimed(t: int, invs: seq<Inventory>, timeLimit: int)
    ensures Weight(Timed(t, invs), timeLimit) == |invs| * Pow5(MinutesLeft(timeLimit, t))
  {
    if invs != [] {
      assert Timed(t, invs)[1..] == Timed(t, invs[1..]);
      WeightTimed(t, invs[1..], timeLimit);
    }
  }

  /** Replacing a state that has time left by at most four states one minute later
      lowers the weight of the queue. */
  lemma WeightExpand(rest: seq<State>, t: int, children: seq<Inventory>, timeLimit: int)
    requires t < timeLimit && |children| <= 4
    ensures Weight(rest + Timed(t + 1, children), timeLimit) < Pow5(MinutesLeft(timeLimit, t)) + Weight(rest, timeLimit)
  {
    WeightAppend(rest, Timed(t + 1, children), timeLimit);
    WeightTimed(t + 1, children, timeLimit);
    var k := MinutesLeft(timeLimit, t + 1);
    var p := Pow5(k);
    assert MinutesLeft(timeLimit, t) == k + 1;
    assert Pow5(k + 1) == 5 * p;
    var n := |children|;
    assert n * p <= 4 * p by {
      if n == 0 {} else if n == 1 {} else if n == 2 {} else if n == 3 {} else {}
    }
  }

  /** What holds of every state in the queue. */
  ghost predicate Queued(b: Blueprint, maxOreCost: int, timeLimit: int, s: State)
  {
    0 <= s.time <= Max(timeLimit, 0) && Reachable(b, s.inventory, s.time) &&
    WithinCaps(b, maxOreCost, s.inventory)
  }

  /** Children of a queued state that has time left are queued. */
  lemma ChildrenQueued(b: Blueprint, maxOreCost: int, timeLimit: int, s: State)
    requires Queued(b, maxOreCost, timeLimit, s) && s.time < timeLimit
    ensures forall i :: 0 <= i < |Successors(b, maxOreCost, s.inventory)| ==>
      Queued(b, maxOreCost, timeLimit, State(s.time + 1, Successors(b, maxOreCost, s.inventory)[i]))
  {
    var succ := Successors(b, maxOreCost, s.inventory);
    forall i | 0 <= i < |succ|
      ensures Queued(b, maxOreCost, timeLimit, State(s.time + 1, succ[i]))
    {
      assert Step(b, s.inventory, succ[i]);
      assert Reachable(b, succ[i], s.time + 1);
    }
  }

  /** Every state of the queue is queued. */
  ghost predicate AllQueued(b: Blueprint, maxOreCost: int, timeLimit: int, queue: seq<State>)
  {
    forall i :: 0 <= i < |queue| ==> Queued(b, maxOreCost, timeLimit, queue[i])
  }

  /** Every finished inventory is reachable at the time limit, within the caps, and holds
      at most `maxGeodes` geodes. */
  ghost predicate AllFinished(b: Blueprint, maxOreCost: int, timeLimit: int, finished: set<Inventory>, maxGeodes: int)
  {
    forall inv :: inv in finished ==>
      Reachable(b, inv, Max(timeLimit, 0)) && WithinCaps(b, maxOreCost, inv) && inv.geode <= maxGeodes
  }

  /** A queued state at the time limit can join the finished inventories once the maximum
      covers it. */
  lemma FinishOne(b: Blueprint, maxOreCost: int, timeLimit: int, finished: set<Inventory>, maxGeodes: int,
                  s: State, newMax: int)
    requires AllFinished(b, maxOreCost, timeLimit, finished, maxGeodes)
    requires Queued(b, maxOreCost, timeLimit, s) && s.time >= timeLimit
    requires maxGeodes <= newMax && s.inventory.geode <= newMax
    ensures AllFinished(b, maxOreCost, timeLimit, finished + {s.inventory}, newMax)
  {
    assert s.time == Max(timeLimit, 0);
  }

  /** The head and the rest of a queued queue are queued. */
  lemma Dequeue(b: Blueprint, maxOreCost: int, timeLimit: int, queue: seq<State>)
    requires AllQueued(b, maxOreCost, timeLimit, queue) && queue != []
    ensures Queued(b, maxOreCost, timeLimit, queue[0]) && AllQueued(b, maxOreCost, timeLimit, queue[1..])
  {
    forall i | 0 <= i < |queue| - 1 ensures Queued(b, maxOreCost, timeLimit, queue[1..][i]) {
      assert queue[1..][i] == queue[i + 1];
    }
  }

  /** Expanding a queued state with time left keeps the whole queue queued. */
  lemma EnqueueChildren(b: Blueprint, maxOreCost: int, timeLimit: int, queue: seq<State>, s: State)
    requires AllQueued(b, maxOreCost, timeLimit, queue)
    requires Queued(b, maxOreCost, timeLimit, s) && s.time < timeLimit
    ensures AllQueued(b, maxOreCost, timeLimit, queue + Timed(s.time + 1, Successors(b, maxOreCost, s.inventory)))
  {
    var children := Timed(s.time + 1, Successors(b, maxOreCost, s.inventory));
    ChildrenQueued(b, maxOreCost, timeLimit, s);
    forall i | 0 <= i < |queue + children| ensures Queued(b, maxOreCost, timeLimit, (queue + children)[i]) {
      if i >= |queue| {
        assert (queue + children)[i] == children[i - |queue|];
      }
    }
  }

  /** The search from a queue, the keys already expanded and the best count so far:
      a state that reached the time limit competes for the largest geode count; any
      other state, unless an inventory with the same capped key was expanded before,
      enqueues its successors one minute later. */
  function SearchFrom(b: Blueprint, maxOreCost: int, timeLimit: int,
                      queue: seq<State>, seen: set<Inventory>, maxGeodes: int): (r: int)
    ensures maxGeodes <= r
    decreases Weight(queue, timeLimit)
  {
    if queue == [] then maxGeodes
    else
      var s := queue[0];
      if s.time >= timeLimit then
        SearchFrom(b, maxOreCost, timeLimit, queue[1..], seen,
                   if s.inventory.geode > maxGeodes then s.inventory.geode else maxGeodes)
      else if Capped(b, s.inventory) in seen then
        SearchFrom(b, maxOreCost, timeLimit, queue[1..], seen, maxGeodes)
      else
        var succ := Successors(b, maxOreCost, s.inventory);
        WeightExpand(queue[1..], s.time, succ, timeLimit);
        SearchFrom(b, maxOreCost, timeLimit, queue[1..] + Timed(s.time + 1, succ),
                   seen + {Capped(b, s.inventory)}, maxGeodes)
  }

  /** The three moves of the search, each one unfolding of `SearchFrom`. */
  lemma SearchFinishes(b: Blueprint, maxOreCost: int, timeLimit: int,
                       queue: seq<State>, seen: set<Inventory>, maxGeodes: int)
    requires queue != [] && queue[0].time >= timeLimit
    ensures SearchFrom(b, maxOreCost, timeLimit, queue, seen, maxGeodes) ==
      SearchFrom(b, maxOreCost, timeLimit, queue[1..], seen,
                 if queue[0].inventory.geode > maxGeodes then queue[0].inventory.geode else maxGeodes)
  {
  }

  lemma SearchSkips(b: Blueprint, maxOreCost: int, timeLimit: int,
                    queue: seq<State>, seen: set<Inventory>, maxGeodes: int)
    requires queue != [] && queue[0].time < timeLimit && Capped(b, queue[0].inventory) in seen
    ensures SearchFrom(b, maxOreCost, timeLimit, queue, seen, maxGeodes) ==
      SearchFrom(b, maxOreCost, timeLimit, queue[1..], seen, maxGeodes)
  {
  }

  lemma SearchExpands(b: Blueprint, maxOreCost: int, timeLimit: int,
                      queue: seq<State>, seen: set<Inventory>, maxGeodes: int)
    requires queue != [] && queue[0].time < timeLimit && Capped(b, queue[0].inventory) !in seen
    ensures SearchFrom(b, maxOreCost, timeLimit, queue, seen, maxGeodes) ==
      SearchFrom(b, maxOreCost, timeLimit,
                 queue[1..] + Timed(queue[0].time + 1, Successors(b, maxOreCost, queue[0].inventory)),
                 seen + {Capped(b, queue[0].inventory)}, maxGeodes)
  {
  }

  /** One round of the search: the head of the queue is taken off; at the time limit
      it competes for the largest geode count and joins the finished inventories,
      otherwise, unless its capped key was expanded before, its key is remembered and
      its successors are enqueued one minute later. What is left of the search is
      unchanged, and the queue gets lighter. */
  method Visit(b: Blueprint, maxOreCost: int, timeLimit: int, queue: seq<State>, seen: set<Inventory>,
               maxGeodes: int, ghost finished: set<Inventory>, ghost best: Inventory)
    returns (queue': seq<State>, seen': set<Inventory>, maxGeodes': int,
             ghost finished': set<Inventory>, ghost best': Inventory)
    requires queue != [] && AllQueued(b, maxOreCost, timeLimit, queue)
    requires maxGeodes >= 0 && AllFinished(b, maxOreCost, timeLimit, finished, maxGeodes)
    requires maxGeodes > 0 ==> best in finished && best.geode == maxGeodes
    ensures AllQueued(b, maxOreCost, timeLimit, queue')
    ensures maxGeodes' >= 0 && AllFinished(b, maxOreCost, timeLimit, finished', maxGeodes')
    ensures maxGeodes' > 0 ==> best' in finished' && best'.geode == maxGeodes'
    ensures SearchFrom(b, maxOreCost, timeLimit, queue', seen', maxGeodes') ==
            SearchFrom(b, maxOreCost, timeLimit, queue, seen, maxGeodes)
    ensures Weight(queue', timeLimit) < Weight(queue, timeLimit)
  {
    seen', maxGeodes', finished', best' := seen, maxGeodes, finished, best;
    var state := queue[0];
    Dequeue(b, maxOreCost, timeLimit, queue);
    queue' := queue[1..];
    var minutes := state.time;
    var inventory := state.inventory;
    if minutes >= timeLimit {
      SearchFinishes(b, maxOreCost, timeLimit, queue, seen, maxGeodes);
      if inventory.geode > maxGeodes {
        maxGeodes' := inventory.geode;
        best' := inventory;
      }
      FinishOne(b, maxOreCost, timeLimit, finished, maxGeodes, state, maxGeodes');
      finished' := finished + {inventory};
      return;
    }
    var cappedInventory := Capped(b, inventory);
    if cappedInventory in seen {
      SearchSkips(b, maxOreCost, timeLimit, queue, seen, maxGeodes);
      return;
    }
    SearchExpands(b, maxOreCost, timeLimit, queue, seen, maxGeodes);
    seen' := seen + {cappedInventory};
    var succ := Successors(b, maxOreCost, inventory);
    EnqueueChildren(b, maxOreCost, timeLimit, queue', state);
    WeightExpand(queue', minutes, succ, timeLimit);
    queue' := queue' + Timed(minutes + 1, succ);
    assert queue' == queue[1..] + Timed(queue[0].time + 1, Successors(b, maxOreCost, queue[0].inventory));
  }

  /** The breadth-first search over inventories, run until the queue is empty. The
      result is what `SearchFrom` gives for the start alone at minute 0; it is a
      yield of the blueprint, and every finished inventory is reachable in the
      limit's minutes, stays within the robot caps and opens no more geodes than the
      result. */
  method FindLargestGeodeYield(b: Blueprint, timeLimit: int) returns (maxGeodes: int, ghost finished: set<Inventory>)
    ensures Yield(b, timeLimit, maxGeodes)
    ensures forall inv :: inv in finished ==>
      Reachable(b, inv, Max(timeLimit, 0)) && WithinCaps(b, MaxOreCost(b), inv) && inv.geode <= maxGeodes
    ensures maxGeodes > 0 ==> exists inv :: inv in finished && inv.geode == maxGeodes
    ensures maxGeodes == SearchFrom(b, MaxOreCost(b), timeLimit, [State(0, Start)], {}, 0)
  {
    var maxOreCost := MaxOreCost(b);
    var queue := [State(0, Start)];
    var seen: set<Inventory> := {};
    maxGeodes := 0;
    finished := {};
    ghost var best := Start;
    while queue != []
      invariant AllQueued(b, maxOreCost, timeLimit, queue)
      invariant maxGeodes >= 0
      invariant AllFinished(b, maxOreCost, timeLimit, finished, maxGeodes)
      invariant maxGeodes > 0 ==> best in finished && best.geode == maxGeodes
      invariant SearchFrom(b, maxOreCost, timeLimit, queue, seen, maxGeodes) ==
                SearchFrom(b, maxOreCost, timeLimit, [State(0, Start)], {}, 0)
      decreases Weight(queue, timeLimit)
    {
      queue, seen, maxGeodes, finished, best := Visit(b, maxOreCost, timeLimit, queue, seen, maxGeodes, finished, best);
    }
    assert maxGeodes > 0 ==> Reachable(b, best, Max(timeLimit, 0)) && best.geode == maxGeodes;
  }

  /** A blueprint on which the ore cap of the key hides the best schedule: ore and clay
      robots cost 3 ore, an obsidian robot 1 ore and 1 clay, a geode robot 1 ore and
      1 obsidian. */
  const OreCapExample := Blueprint(1, RobotCosts(3, 0, 0), RobotCosts(3, 0, 0), RobotCosts(1, 1, 0), RobotCosts(1, 0, 1))

  /** With one ore robot and fewer than 3 ore, nothing on `OreCapExample` is
      affordable: the one successor is waiting, and the key is the inventory itself. */
  lemma OreCapNothingAffordable(t: int, inv: Inventory)
    requires inv == Start.(ore := t) && 0 <= t < 3
    ensures Successors(OreCapExample, 3, inv) == [inv.(ore := t + 1)]
    ensures Capped(OreCapExample, inv) == inv
  {
    assert !inv.CanAfford(OreCapExample.geodeRobot);
    assert inv.CollectMaterial() == inv.(ore := t + 1);
  }

  /** One minute of the search on `OreCapExample` while nothing is affordable: the
      head, whose key is new, is expanded into its single waiting successor. */
  lemma OreCapWaits(t: int, inv: Inventory, seen: set<Inventory>)
    requires inv == Start.(ore := t) && 0 <= t < 3 && Capped(OreCapExample, inv) !in seen
    ensures SearchFrom(OreCapExample, 3, 9, [State(t, inv)], seen, 0) ==
            SearchFrom(OreCapExample, 3, 9, [State(t + 1, inv.(ore := t + 1))], seen + {inv}, 0)
  {
    var b := OreCapExample;
    OreCapNothingAffordable(t, inv);
    SearchExpands(b, 3, 9, [State(t, inv)], seen, 0);
    assert [State(t, inv)][1..] + Timed(t + 1, [inv.(ore := t + 1)]) == [State(t + 1, inv.(ore := t + 1))];
  }

  /** Minute 3 of the search on `OreCapExample`: the key of 3 ore is capped to that of
      2 ore, already expanded, so the state is skipped and the queue empties. */
  lemma OreCapSkips(seen: set<Inventory>)
    requires Start.(ore := 2) in seen
    ensures SearchFrom(OreCapExample, 3, 9, [State(3, Start.(ore := 3))], seen, 0) == 0
  {
    var b := OreCapExample;
    assert Capped(b, Start.(ore := 3)) == Start.(ore := 2);
    SearchSkips(b, 3, 9, [State(3, Start.(ore := 3))], seen, 0);
    assert [State(3, Start.(ore := 3))][1..] == [];
  }

  /** The search as written opens no geode in 9 minutes on `OreCapExample`: it only
      waits, and at minute 3 the key is one already seen, so the queue empties. */
  lemma OreCapSearchStops(b: Blueprint)
    requires b == OreCapExample
    ensures SearchFrom(b, MaxOreCost(b), 9, [State(0, Start)], {}, 0) == 0
  {
    assert MaxOreCost(b) == 3;
    var i1, i2 := Start.(ore := 1), Start.(ore := 2);
    assert Start.(ore := 0) == Start;
    OreCapWaits(0, Start, {});
    OreCapWaits(1, i1, {} + {Start});
    OreCapWaits(2, i2, {} + {Start} + {i1});
    OreCapSkips({} + {Start} + {i1} + {i2});
  }

  /** The search as written misses a geode on `OreCapExample`: it yields 0 in 9
      minutes, yet building a clay robot with minute 3's 3 ore leads to a geode robot
      at minute 7 and a geode at minute 9. */
  lemma OreCapHidesGeode(b: Blueprint)
    requires b == OreCapExample
    ensures SearchFrom(b, MaxOreCost(b), 9, [State(0, Start)], {}, 0) == 0
    ensures exists inv :: Reachable(b, inv, 9) && inv.geode == 1
  {
    OreCapSearchStops(b);
    OreCapReachesGeode(b);
  }

  /** Nine minutes on `OreCapExample` can end with a geode. */
  lemma OreCapReachesGeode(b: Blueprint)
    requires b == OreCapExample
    ensures exists inv :: Reachable(b, inv, 9) && inv.geode == 1
  {
    var minutes := 9;
    OreCapScheduleOpensGeode(minutes);
    var inv := OreCapInventory(minutes);
    assert Reachable(b, inv, 9) && inv.geode == 1;
  }

  /** A player's choice for one minute. */
  datatype Move = Wait | BuildOre | BuildClay | BuildObsidian | BuildGeode

  /** The inventory one minute after `inv` when the player makes move `m`; `None` when
      the robot it builds is not affordable. */
  function Apply(b: Blueprint, inv: Inventory, m: Move): Option<Inventory>
  {
    var c := inv.CollectMaterial();
    match m
    case Wait => Some(c)
    case BuildOre => if inv.CanAfford(b.oreRobot) then Some(c.BuildOreRobot(b.oreRobot)) else None
    case BuildClay => if inv.CanAfford(b.clayRobot) then Some(c.BuildClayRobot(b.clayRobot)) else None
    case BuildObsidian => if inv.CanAfford(b.obsidianRobot) then Some(c.BuildObsidianRobot(b.obsidianRobot)) else None
    case BuildGeode => if inv.CanAfford(b.geodeRobot) then Some(c.BuildGeodeRobot(b.geodeRobot)) else None
  }

  /** Each move is a move of the game; waiting is always possible, and a build is
      possible exactly when the robot is affordable. */
  lemma ApplyIsStep(b: Blueprint, inv: Inventory, m: Move)
    ensures Apply(b, inv, m).Some? ==> Step(b, inv, Apply(b, inv, m).value)
    ensures Apply(b, inv, m).None? <==>
      (m.BuildOre? && !inv.CanAfford(b.oreRobot)) || (m.BuildClay? && !inv.CanAfford(b.clayRobot)) ||
      (m.BuildObsidian? && !inv.CanAfford(b.obsidianRobot)) || (m.BuildGeode? && !inv.CanAfford(b.geodeRobot))
  {
  }

  /** The schedule that `OreCapExample`'s search misses: wait three minutes, then
      build a clay, an obsidian and a geode robot, waiting a minute after each. */
  const OreCapSchedule := [Wait, Wait, Wait, BuildClay, Wait, BuildObsidian, Wait, BuildGeode, Wait]

  /** The inventory after the first `k` moves of `OreCapSchedule`. */
  function OreCapInventory(k: nat): Inventory
  {
    if k == 0 then Start
    else if k == 1 then Inventory(1, 1, 0, 0, 0, 0, 0, 0)
    else if k == 2 then Inventory(2, 1, 0, 0, 0, 0, 0, 0)
    else if k == 3 then Inventory(3, 1, 0, 0, 0, 0, 0, 0)
    else if k == 4 then Inventory(1, 1, 0, 1, 0, 0, 0, 0)
    else if k == 5 then Inventory(2, 1, 1, 1, 0, 0, 0, 0)
    else if k == 6 then Inventory(2, 1, 1, 1, 0, 1, 0, 0)
    else if k == 7 then Inventory(3, 1, 2, 1, 1, 1, 0, 0)
    else if k == 8 then Inventory(3, 1, 3, 1, 1, 1, 0, 1)
    else Inventory(4, 1, 4, 1, 2, 1, 1, 1)
  }

  /** Minute `k + 1` of `OreCapSchedule` turns the `k`-th inventory into the next. */
  lemma OreCapMinute(k: nat)
    requires k < 9
    ensures Apply(OreCapExample, OreCapInventory(k), OreCapSchedule[k]) == Some(OreCapInventory(k + 1))
  {
    if k == 0 {
      assert OreCapSchedule[0] == Wait && OreCapInventory(0) == Start;
      assert OreCapInventory(k + 1) == Inventory(1, 1, 0, 0, 0, 0, 0, 0);
    } else if k == 1 {
      assert OreCapSchedule[1] == Wait && OreCapInventory(1) == Inventory(1, 1, 0, 0, 0, 0, 0, 0);
      assert OreCapInventory(k + 1) == Inventory(2, 1, 0, 0, 0, 0, 0, 0);
    } else if k == 2 {
      assert OreCapSchedule[2] == Wait && OreCapInventory(2) == Inventory(2, 1, 0, 0, 0, 0, 0, 0);
      assert OreCapInventory(k + 1) == Inventory(3, 1, 0, 0, 0, 0, 0, 0);
    } else if k == 3 {
      assert OreCapSchedule[3] == BuildClay && OreCapInventory(3) == Inventory(3, 1, 0, 0, 0, 0, 0, 0);
      assert OreCapInventory(k + 1) == Inventory(1, 1, 0, 1, 0, 0, 0, 0);
    } else if k == 4 {
      assert OreCapSchedule[4] == Wait && OreCapInventory(4) == Inventory(1, 1, 0, 1, 0, 0, 0, 0);
      assert OreCapInventory(k + 1) == Inventory(2, 1, 1, 1, 0, 0, 0, 0);
    } else if k == 5 {
      assert OreCapSchedule[5] == BuildObsidian && OreCapInventory(5) == Inventory(2, 1, 1, 1, 0, 0, 0, 0);
      assert OreCapInventory(k + 1) == Inventory(2, 1, 1, 1, 0, 1, 0, 0);
    } else if k == 6 {
      assert OreCapSchedule[6] == Wait && OreCapInventory(6) == Inventory(2, 1, 1, 1, 0, 1, 0, 0);
      assert OreCapInventory(k + 1) == Inventory(3, 1, 2, 1, 1, 1, 0, 0);
    } else if k == 7 {
      assert OreCapSchedule[7] == BuildGeode && OreCapInventory(7) == Inventory(3, 1, 2, 1, 1, 1, 0, 0);
      assert OreCapInventory(k + 1) == Inventory(3, 1, 3, 1, 1, 1, 0, 1);
    } else {
      assert OreCapSchedule[8] == Wait && OreCapInventory(8) == Inventory(3, 1, 3, 1, 1, 1, 0, 1);
      assert OreCapInventory(k + 1) == Inventory(4, 1, 4, 1, 2, 1, 1, 1);
    }
  }


  /** The first `k` moves of `OreCapSchedule` reach its `k`-th inventory in `k`
      minutes; after all nine, one geode is open. */
  lemma {:induction false} OreCapScheduleOpensGeode(k: nat)
    requires k <= 9
    ensures Reachable(OreCapExample, OreCapInventory(k), k)
    ensures k == 9 ==> OreCapInventory(k).geode == 1
  {
    if k > 0 {
      OreCapScheduleOpensGeode(k - 1);
      OreCapMinute(k - 1);
      ApplyIsStep(OreCapExample, OreCapInventory(k - 1), OreCapSchedule[k - 1]);
    }
  }

  /** Every inventory one minute after `inv`: the robots mine, and at most one robot
      that `inv` can afford is built. */
  function Moves(b: Blueprint, inv: Inventory): (r: seq<Inventory>)
    ensures forall next :: next in r <==> Step(b, inv, next)
  {
    var c := inv.CollectMaterial();
    [c] + (if inv.CanAfford(b.oreRobot) then [c.BuildOreRobot(b.oreRobot)] else [])
        + (if inv.CanAfford(b.clayRobot) then [c.BuildClayRobot(b.clayRobot)] else [])
        + (if inv.CanAfford(b.obsidianRobot) then [c.BuildObsidianRobot(b.obsidianRobot)] else [])
        + (if inv.CanAfford(b.geodeRobot) then [c.BuildGeodeRobot(b.geodeRobot)] else [])
  }

  /** The inventories one minute after those of `layer`. */
  method NextLayer(b: Blueprint, layer: set<Inventory>) returns (next: set<Inventory>)
    ensures forall inv :: inv in next <==> exists prev :: prev in layer && Step(b, prev, inv)
  {
    next := {};
    var rest := layer;
    while rest != {}
      invariant rest <= layer
      invariant forall inv :: inv in next <==> exists prev :: prev in layer - rest && Step(b, prev, inv)
      decreases rest
    {
      var prev :| prev in rest;
      next := next + set inv | inv in Moves(b, prev);
      rest := rest - {prev};
    }
  }

  /** The largest geode count in a non-empty set of inventories. */
  method MostGeodesIn(layer: set<Inventory>) returns (most: int)
    requires layer != {}
    ensures forall inv :: inv in layer ==> inv.geode <= most
    ensures exists inv :: inv in layer && inv.geode == most
  {
    var first :| first in layer;
    most := first.geode;
    var rest := layer - {first};
    while rest != {}
      invariant rest <= layer && first !in rest
      invariant forall inv :: inv in layer - rest ==> inv.geode <= most
      invariant exists inv :: inv in layer && inv.geode == most
      decreases rest
    {
      var inv :| inv in rest;
      if inv.geode > most {
        most := inv.geode;
      }
      rest := rest - {inv};
    }
  }

  /** `y` is the largest number of geodes any schedule opens within the limit. */
  ghost predicate Optimal(b: Blueprint, timeLimit: int, y: int)
  {
    (exists inv :: Reachable(b, inv, Max(timeLimit, 0)) && inv.geode == y) &&
    forall inv :: Reachable(b, inv, Max(timeLimit, 0)) ==> inv.geode <= y
  }

  /** The exhaustive search: minute by minute, the set of all inventories reachable
      so far, then the largest geode count among those at the time limit. */
  method MostGeodes(b: Blueprint, timeLimit: int) returns (most: int)
    ensures Optimal(b, timeLimit, most)
  {
    var layer := {Start};
    var t := 0;
    while t < timeLimit
      invariant 0 <= t <= Max(timeLimit, 0)
      invariant layer != {}
      invariant forall inv :: inv in layer <==> Reachable(b, inv, t)
    {
      ghost var prev :| prev in layer;
      var next := NextLayer(b, layer);
      assert Step(b, prev, prev.CollectMaterial());
      assert prev.CollectMaterial() in next;
      layer, t := next, t + 1;
    }
    most := MostGeodesIn(layer);
  }

  /** The optimum of a blueprint and a time limit is unique, and no negative. */
  lemma OptimalUnique(b: Blueprint, timeLimit: int, y: int, z: int)
    requires Optimal(b, timeLimit, y) && Optimal(b, timeLimit, z)
    ensures y == z && y >= 0
  {
    var inv :| Reachable(b, inv, Max(timeLimit, 0)) && inv.geode == y;
    ReachableBounds(b, inv, Max(timeLimit, 0));
  }

  /** The search as written never claims more geodes than the best schedule opens. */
  lemma YieldAtMostOptimal(b: Blueprint, timeLimit: int, y: int, most: int)
    requires Yield(b, timeLimit, y) && Optimal(b, timeLimit, most)
    ensures y <= most
  {
    OptimalUnique(b, timeLimit, most, most);
    if y > 0 {
      var inv :| Reachable(b, inv, Max(timeLimit, 0)) && inv.geode == y;
      assert inv.geode <= most;
    }
  }

  /** `geodes[i]` is the optimum of `bs[i]` for every `i`. */
  ghost predicate AllOptimal(bs: seq<Blueprint>, timeLimit: int, geodes: seq<int>)
  {
    |geodes| == |bs| && forall i :: 0 <= i < |bs| ==> Optimal(bs[i], timeLimit, geodes[i])
  }

  /** The optimum of one more blueprint extends the optima of those before it. */
  lemma AllOptimalSnoc(bs: seq<Blueprint>, k: nat, timeLimit: int, geodes: seq<int>, y: int)
    requires k < |bs| && AllOptimal(bs[..k], timeLimit, geodes) && Optimal(bs[k], timeLimit, y)
    ensures AllOptimal(bs[..k + 1], timeLimit, geodes + [y])
    ensures y >= 0
  {
    OptimalUnique(bs[k], timeLimit, y, y);
    forall i | 0 <= i < k + 1 ensures Optimal(bs[..k + 1][i], timeLimit, (geodes + [y])[i]) {
      if i < k {
        assert bs[..k + 1][i] == bs[..k][i] && (geodes + [y])[i] == geodes[i];
      }
    }
  }

  /** The quality levels: each blueprint's identifier times its yield. */
  function Qualities(bs: seq<Blueprint>, geodes: seq<int>): (r: seq<int>)
    requires |geodes| == |bs|
    ensures |r| == |bs|
    ensures forall i :: 0 <= i < |r| ==> r[i] == bs[i].identifier * geodes[i]
  {
    seq(|bs|, i requires 0 <= i < |bs| => bs[i].identifier * geodes[i])
  }

  lemma QualitiesSnoc(bs: seq<Blueprint>, k: nat, geodes: seq<int>, y: int)
    requires k < |bs| && |geodes| == k
    ensures Qualities(bs[..k + 1], geodes + [y]) == Qualities(bs[..k], geodes) + [bs[k].identifier * y]
  {
    assert bs[..k + 1][..k] == bs[..k];
  }

  function Multiply(values: seq<int>): int
  {
    if values == [] then 1 else Multiply(values[..|values| - 1]) * values[|values| - 1]
  }

  /** Every optimal geode count is non-negative. */
  lemma AllOptimalNonNegative(bs: seq<Blueprint>, timeLimit: int, geodes: seq<int>)
    requires AllOptimal(bs, timeLimit, geodes)
    ensures forall i :: 0 <= i < |geodes| ==> geodes[i] >= 0
  {
    forall i | 0 <= i < |geodes| ensures geodes[i] >= 0 {
      OptimalUnique(bs[i], timeLimit, geodes[i], geodes[i]);
    }
  }

  /** A product of geode counts is non-negative. */
  lemma {:induction false} MultiplyNonNegative(values: seq<int>)
    requires forall i :: 0 <= i < |values| ==> values[i] >= 0
    ensures Multiply(values) >= 0
  {
    if values != [] {
      MultiplyNonNegative(values[..|values| - 1]);
    }
  }

  /** One more geode count multiplies the product by it. */
  lemma MultiplySnoc(values: seq<int>, product: int, y: int)
    requires product == Multiply(values)
    ensures Multiply(values + [y]) == product * y
  {
    assert (values + [y])[..|values|] == values;
  }

  /** Part one: the sum of the quality levels with a time limit of 24 minutes. */
  method ComputeSolution1(bs: seq<Blueprint>) returns (total: int, ghost geodes: seq<int>)
    ensures AllOptimal(bs, 24, geodes)
    ensures total == Sum(Qualities(bs, geodes))
  {
    total := 0;
    geodes := [];
    for k := 0 to |bs|
      invariant |geodes| == k
      invariant AllOptimal(bs[..k], 24, geodes)
      invariant total == Sum(Qualities(bs[..k], geodes))
    {
      var y := MostGeodes(bs[k], 24);
      AllOptimalSnoc(bs, k, 24, geodes, y);
      QualitiesSnoc(bs, k, geodes, y);
      total := total + bs[k].identifier * y;
      geodes := geodes + [y];
    }
    assert bs[..|bs|] == bs;
  }

  /** Part two: the product of the largest geode counts of the first three blueprints (fewer when
      there are fewer) with a time limit of 32 minutes. */
  method ComputeSolution2(bs: seq<Blueprint>) returns (product: int, ghost geodes: seq<int>)
    ensures AllOptimal(bs[..Min(3, |bs|)], 32, geodes)
    ensures product == Multiply(geodes) && product >= 0
  {
    product := 1;
    geodes := [];
    var n := Min(3, |bs|);
    for k := 0 to n
      invariant AllOptimal(bs[..k], 32, geodes)
      invariant product == Multiply(geodes)
    {
      var y := MostGeodes(bs[k], 32);
      AllOptimalSnoc(bs, k, 32, geodes, y);
      MultiplySnoc(geodes, product, y);
      product := product * y;
      geodes := geodes + [y];
    }
    AllOptimalNonNegative(bs[..n], 32, geodes);
    MultiplyNonNegative(geodes);
  }
}
