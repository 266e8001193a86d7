/** Runs of the simulation on small machines: unary increment on any number
    of 0s, a machine that cannot leave its start configuration, a
    nondeterministic machine with a looping branch, the tie between an
    accepting and a rejecting successor, and a start configuration that is
    enqueued again. */
module Scenarios {
  import opened TuringMachine
  import opened Engine

  /** A machine with start state `q0`, accept state `qacc`, reject state
      `qrej` and the given rules. */
  function Small(rules: seq<Rule>): Machine {
    Machine("small", ["q0", "q1", "qacc", "qrej"], ["0", "1"], ["0", "1", "_"], "q0", "qacc", "qrej", rules)
  }

  lemma OneRule(r: Rule, c: Config)
    ensures Successors([r], c) == Fire(r, c)
  {
    assert [r][..0] == [];
  }

  lemma TwoRules(r1: Rule, r2: Rule, c: Config)
    ensures Successors([r1, r2], c) == Fire(r1, c) + Fire(r2, c)
  {
    assert [r1, r2][..1] == [r1];
    OneRule(r1, c);
  }

  lemma FourRules(r1: Rule, r2: Rule, r3: Rule, r4: Rule, c: Config)
    ensures Successors([r1, r2, r3, r4], c) == Fire(r1, c) + Fire(r2, c) + Fire(r3, c) + Fire(r4, c)
  {
    assert [r1, r2, r3, r4][..3][..2] == [r1, r2];
    TwoRules(r1, r2, c);
  }

  /** Offering one configuration is one `Insert`. */
  lemma AddOne(d: Discovery, x: Config)
    ensures AddAll(d, [x]) == Insert(d, x)
  {
    assert [x][..0] == [];
  }

  /** A level of one non-halting configuration with successors `succ`,
      which leave the next level and the visited set as in `d`: the run
      stops or goes on from `d`. */
  lemma ExploreSingle(m: Machine, c: Config, visited: set<Config>, count: nat, maxSteps: int, succ: seq<Config>, d: Discovery)
    requires !Halting(m, c)
    requires Successors(m.transitions, c) == succ
    requires AddAll(Discovery([], visited), succ) == d
    ensures Explore(m, NextLevel(m), [c], visited, count, maxSteps) ==
              if d.next == [] then Stopped(count + 1, NoSuccessors)
              else if count + 1 >= maxSteps then Stopped(count + 1, StepBound)
              else Explore(m, NextLevel(m), d.next, d.visited, count + 1, maxSteps)
  {
    assert FirstHalt(m, [c]) == None;
    assert [c][..0] == [];
    assert Stream(m, [c]) == succ;
    assert NextLevel(m)([c], visited) == d;
    ExploreAfterLevel(m, NextLevel(m), [c], visited, count, maxSteps, d.next, d.visited, count + 1);
  }

  /** The machine's expansion of a level of one configuration. */
  lemma ExpandSingle(m: Machine, c: Config, visited: set<Config>, succ: seq<Config>, d: Discovery)
    requires Successors(m.transitions, c) == succ
    requires AddAll(Discovery([], visited), succ) == d
    ensures NextLevel(m)([c], visited) == d
  {
    assert [c][..0] == [];
    assert Stream(m, [c]) == succ;
  }

  /** A start level whose configuration expands into two different
      configurations: both are enqueued, in order, and form the second
      level. */
  lemma ExploreTwoSuccessors(m: Machine, expand: Expander, c: Config, x: Config, y: Config, maxSteps: int)
    requires !Halting(m, c) && 1 < maxSteps
    requires expand([c], {}) == Discovery([x, y], {x, y})
    ensures Explore(m, expand, [c], {}, 0, maxSteps) == Explore(m, expand, [x, y], {x, y}, 1, maxSteps)
  {
    assert FirstHalt(m, [c]) == None;
    ExploreAfterLevel(m, expand, [c], {}, 0, maxSteps, [x, y], {x, y}, 1);
  }

  // ---------------------------------------------------------------------------
  // Unary increment

  const SkipZero := Rule("q0", "0", "q0", "0", "R")
  const WriteOne := Rule("q0", "_", "qacc", "1", "R")

  /** Unary increment: skip the 0s, write a 1 on the first blank and accept. */
  function Increment(): Machine {
    Small([SkipZero, WriteOne])
  }

  function Zeros(n: nat): string {
    seq(n, _ => '0')
  }

  /** A machine with the rules of `Increment` and its start, accept and
      reject states. */
  predicate IsIncrement(m: Machine) {
    m.start == "q0" && m.accept == "qacc" && m.reject == "qrej" && m.transitions == [SkipZero, WriteOne]
  }

  lemma SkipStep(m: Machine, k: nat, j: nat)
    requires IsIncrement(m)
    requires j > 0
    ensures Successors(m.transitions, Config(Zeros(k), "q0", Zeros(j))) == [Config(Zeros(k + 1), "q0", Zeros(j - 1))]
  {
    var c := Config(Zeros(k), "q0", Zeros(j));
    TwoRules(SkipZero, WriteOne, c);
    assert HeadSymbol(c.tapeRight) == "0";
    assert Zeros(k) + "0" == Zeros(k + 1);
    assert Rest(Zeros(j)) == Zeros(j - 1);
  }

  lemma BlankStep(m: Machine, k: nat)
    requires IsIncrement(m)
    ensures Successors(m.transitions, Config(Zeros(k), "q0", Zeros(0))) == [Config(Zeros(k) + "1", "qacc", "")]
  {
    var c := Config(Zeros(k), "q0", "");
    assert Zeros(0) == "";
    TwoRules(SkipZero, WriteOne, c);
    assert !Matches(SkipZero, c);
  }

  /** The step from `k` 0s left of the head and none right of it: the
      accepting configuration is enqueued, then inspected unless the step
      bound intervenes. */
  lemma IncrementLast(m: Machine, k: nat, visited: set<Config>, maxSteps: int)
    requires m.accept == "qacc" && m.reject == "qrej"
    requires Successors(m.transitions, Config(Zeros(k), "q0", Zeros(0))) == [Config(Zeros(k) + "1", "qacc", "")]
    requires forall c :: c in visited ==> |c.tapeLeft| <= k
    ensures Explore(m, NextLevel(m), [Config(Zeros(k), "q0", Zeros(0))], visited, k, maxSteps) ==
              if maxSteps <= k + 1 then Stopped(k + 1, StepBound)
              else Accepted(k + 2, [Config(Zeros(k) + "1", "qacc", "")])
  {
    var acc := Config(Zeros(k) + "1", "qacc", "");
    assert acc !in visited;
    AddOne(Discovery([], visited), acc);
    ExploreSingle(m, Config(Zeros(k), "q0", Zeros(0)), visited, k, maxSteps, [acc], Discovery([acc], visited + {acc}));
    if k + 1 < maxSteps {
      ExploreAtHalt(m, NextLevel(m), [acc], visited + {acc}, k + 1, maxSteps, 0);
    }
  }

  /** The step over one 0: one more 0 moves left of the head. */
  lemma IncrementSkip(m: Machine, k: nat, j: nat, visited: set<Config>, maxSteps: int)
    requires m.accept == "qacc" && m.reject == "qrej" && j > 0
    requires Successors(m.transitions, Config(Zeros(k), "q0", Zeros(j))) == [Config(Zeros(k + 1), "q0", Zeros(j - 1))]
    requires forall c :: c in visited ==> |c.tapeLeft| <= k
    ensures var c' := Config(Zeros(k + 1), "q0", Zeros(j - 1));
            Explore(m, NextLevel(m), [Config(Zeros(k), "q0", Zeros(j))], visited, k, maxSteps) ==
              if maxSteps <= k + 1 then Stopped(k + 1, StepBound)
              else Explore(m, NextLevel(m), [c'], visited + {c'}, k + 1, maxSteps)
  {
    var c' := Config(Zeros(k + 1), "q0", Zeros(j - 1));
    assert c' !in visited;
    AddOne(Discovery([], visited), c');
    ExploreSingle(m, Config(Zeros(k), "q0", Zeros(j)), visited, k, maxSteps, [c'], Discovery([c'], visited + {c'}));
  }

  /** The run from `k` of `n` 0s left of the head, as `IncrementFrom`
      states it: the property for `k < n`, from the one for `k + 1`. */
  ghost predicate IncrementFromHolds(m: Machine, n: nat, k: nat, visited: set<Config>, maxSteps: int)
    requires k <= n
  {
    Explore(m, NextLevel(m), [Config(Zeros(k), "q0", Zeros(n - k))], visited, k, maxSteps) ==
      if maxSteps <= n + 1 then Stopped(if maxSteps <= k + 1 then k + 1 else maxSteps, StepBound)
      else Accepted(n + 2, [Config(Zeros(n) + "1", "qacc", "")])
  }

  /** One step over a 0 extends the run from `k + 1` 0s left of the head to
      the run from `k`. */
  lemma IncrementStepBack(m: Machine, n: nat, k: nat, visited: set<Config>, maxSteps: int)
    requires IsIncrement(m)
    requires k < n
    requires forall c :: c in visited ==> |c.tapeLeft| <= k
    requires k + 1 < maxSteps ==>
               IncrementFromHolds(m, n, k + 1, visited + {Config(Zeros(k + 1), "q0", Zeros(n - k - 1))}, maxSteps)
    ensures IncrementFromHolds(m, n, k, visited, maxSteps)
  {
    SkipStep(m, k, n - k);
    IncrementSkip(m, k, n - k, visited, maxSteps);
  }

  /** Adding a configuration with `k + 1` cells left of the head keeps every
      visited left half at most that long. */
  lemma ShortLeftHalves(visited: set<Config>, c': Config, k: nat)
    requires forall c :: c in visited ==> |c.tapeLeft| <= k
    requires c' == Config(Zeros(k + 1), "q0", c'.tapeRight)
    ensures forall c :: c in visited + {c'} ==> |c.tapeLeft| <= k + 1
  {
  }

  /** The run from all `n` 0s left of the head. */
  lemma IncrementAtEnd(m: Machine, n: nat, visited: set<Config>, maxSteps: int)
    requires IsIncrement(m)
    requires forall c :: c in visited ==> |c.tapeLeft| <= n
    ensures IncrementFromHolds(m, n, n, visited, maxSteps)
  {
    assert n - n == 0;
    BlankStep(m, n);
    IncrementLast(m, n, visited, maxSteps);
  }

  /** From `k` of `n` 0s left of the head and the rest right of it, with
      `k` configurations inspected and nothing visited that has a longer left
      half, the run either reaches the step bound in state `q0` or accepts
      with one configuration per cell plus the accepting one. */
  lemma {:induction false} IncrementFrom(m: Machine, n: nat, k: nat, visited: set<Config>, maxSteps: int)
    requires IsIncrement(m)
    requires k <= n
    requires forall c :: c in visited ==> |c.tapeLeft| <= k
    ensures IncrementFromHolds(m, n, k, visited, maxSteps)
    decreases n - k
  {
    if k == n {
      IncrementAtEnd(m, n, visited, maxSteps);
    } else {
      var c' := Config(Zeros(k + 1), "q0", Zeros(n - k - 1));
      if k + 1 < maxSteps {
        ShortLeftHalves(visited, c', k);
        IncrementFrom(m, n, k + 1, visited + {c'}, maxSteps);
      }
      IncrementStepBack(m, n, k, visited, maxSteps);
    }
  }

  /** Unary increment on `n` 0s accepts after inspecting `n + 2`
      configurations, with `n` 0s and a 1 left of the head, when the step
      bound allows it; otherwise it stops at the step bound. */
  lemma IncrementRun(n: nat, maxSteps: int)
    ensures Simulate(Increment(), Zeros(n), maxSteps) ==
              if maxSteps <= n + 1 then Stopped(if maxSteps <= 1 then 1 else maxSteps, StepBound)
              else Accepted(n + 2, [Config(Zeros(n) + "1", "qacc", "")])
  {
    assert Zeros(0) == "";
    IncrementFrom(Increment(), n, 0, {}, maxSteps);
  }

  /** On `00` the run inspects the three configurations in `q0` and then the
      accepting one, which is counted too: four in all, with `001` left of
      the head. */
  lemma IncrementTwoZeros()
    ensures Simulate(Increment(), "00", DefaultMaxSteps) == Accepted(4, [Config("001", "qacc", "")])
  {
    assert Zeros(2) == "00";
    assert Zeros(2) + "1" == "001";
    IncrementRun(2, DefaultMaxSteps);
  }

  /** The accepting configuration on `00` is shown as `001[qacc]_`. */
  lemma IncrementTwoZerosShown()
    ensures Render(Config("001", "qacc", "")) == "001[qacc]_"
  {
  }

  /** On `0000` the accepting configuration is the sixth inspected: a step
      bound of 5 stops the run after five, a bound of 6 lets it accept. */
  lemma IncrementStepBound()
    ensures Simulate(Increment(), "0000", 5) == Stopped(5, StepBound)
    ensures Simulate(Increment(), "0000", 6) == Accepted(6, [Config("00001", "qacc", "")])
  {
    assert Zeros(4) == "0000";
    assert Zeros(4) + "1" == "00001";
    IncrementRun(4, 5);
    IncrementRun(4, 6);
  }

  // ---------------------------------------------------------------------------
  // No rule fires on the start configuration

  /** When the start configuration neither halts nor has a rule that fires,
      the run stops after inspecting it alone. */
  lemma NoMatchStops(m: Machine, input: string, maxSteps: int)
    requires !Halting(m, Initial(m, input))
    requires forall i :: 0 <= i < |m.transitions| ==> !Matches(m.transitions[i], Initial(m, input))
    ensures Simulate(m, input, maxSteps) == Stopped(1, NoSuccessors)
  {
    NoRuleFires(m.transitions, Initial(m, input));
    ExploreSingle(m, Initial(m, input), {}, 0, maxSteps, [], Discovery([], {}));
  }

  // ---------------------------------------------------------------------------
  // Nondeterminism

  const Stay := Rule("q0", "a", "q0", "a", "R")
  const Branch := Rule("q0", "a", "q1", "a", "R")
  const Loop := Rule("q0", "_", "q0", "_", "R")
  const Finish := Rule("q1", "_", "qacc", "1", "R")

  /** On `a` the machine either stays in `q0`, where it then moves over
      blanks forever, or goes to `q1`, from which it accepts. */
  function Fork(): Machine {
    Small([Stay, Branch, Loop, Finish])
  }

  lemma ForkFirstStep()
    ensures Successors(Fork().transitions, Config("", "q0", "a")) == [Config("a", "q0", ""), Config("a", "q1", "")]
  {
    var c := Config("", "q0", "a");
    FourRules(Stay, Branch, Loop, Finish, c);
    assert Matches(Stay, c) && Matches(Branch, c) && !Matches(Loop, c) && !Matches(Finish, c);
    assert Apply(Stay, c) == Config("a", "q0", "") && Apply(Branch, c) == Config("a", "q1", "");
  }

  lemma ForkLoopStep()
    ensures Successors(Fork().transitions, Config("a", "q0", "")) == [Config("a_", "q0", "")]
  {
    var c := Config("a", "q0", "");
    FourRules(Stay, Branch, Loop, Finish, c);
    assert !Matches(Stay, c) && !Matches(Branch, c) && Matches(Loop, c) && !Matches(Finish, c);
    assert Apply(Loop, c) == Config("a_", "q0", "");
  }

  lemma ForkAcceptStep()
    ensures Successors(Fork().transitions, Config("a", "q1", "")) == [Config("a1", "qacc", "")]
  {
    var c := Config("a", "q1", "");
    FourRules(Stay, Branch, Loop, Finish, c);
    assert !Matches(Stay, c) && !Matches(Branch, c) && !Matches(Loop, c) && Matches(Finish, c);
    assert Apply(Finish, c) == Config("a1", "qacc", "");
  }

  /** Offering two distinct configurations that were not visited enqueues both. */
  lemma AddTwo(visited: set<Config>, x: Config, y: Config)
    requires x != y && x !in visited && y !in visited
    ensures AddAll(Discovery([], visited), [x, y]) == Discovery([x, y], visited + {x, y})
  {
    assert [x, y][..1] == [x];
    AddOne(Discovery([], visited), x);
  }

  lemma StreamTwo(m: Machine, x: Config, y: Config)
    ensures Stream(m, [x, y]) == Successors(m.transitions, x) + Successors(m.transitions, y)
  {
    assert [x, y][..1] == [x];
    assert [x][..0] == [];
    assert Stream(m, [x]) == Successors(m.transitions, x);
  }

  /** Expanding the second level: each branch has one successor. */
  lemma ForkSecondExpansion(m: Machine)
    requires Successors(m.transitions, Config("a", "q0", "")) == [Config("a_", "q0", "")]
    requires Successors(m.transitions, Config("a", "q1", "")) == [Config("a1", "qacc", "")]
    ensures NextLevel(m)([Config("a", "q0", ""), Config("a", "q1", "")], {Config("a", "q0", ""), Config("a", "q1", "")})
              == Discovery([Config("a_", "q0", ""), Config("a1", "qacc", "")],
                           {Config("a", "q0", ""), Config("a", "q1", "")} + {Config("a_", "q0", ""), Config("a1", "qacc", "")})
  {
    var s1, s2 := Config("a", "q0", ""), Config("a", "q1", "");
    var t1, t2 := Config("a_", "q0", ""), Config("a1", "qacc", "");
    StreamTwo(m, s1, s2);
    assert Stream(m, [s1, s2]) == [t1] + [t2] == [t1, t2];
    assert t1 != t2 && t1 !in {s1, s2} && t2 !in {s1, s2};
    AddTwo({s1, s2}, t1, t2);
  }

  /** The second level holds the two branches; the third holds the looping
      branch's next configuration and then the accepting one. */
  lemma ForkSecondLevel(m: Machine)
    requires m.accept == "qacc" && m.reject == "qrej"
    requires Successors(m.transitions, Config("a", "q0", "")) == [Config("a_", "q0", "")]
    requires Successors(m.transitions, Config("a", "q1", "")) == [Config("a1", "qacc", "")]
    ensures Explore(m, NextLevel(m), [Config("a", "q0", ""), Config("a", "q1", "")],
                    {Config("a", "q0", ""), Config("a", "q1", "")}, 1, DefaultMaxSteps)
              == Accepted(5, [Config("a_", "q0", ""), Config("a1", "qacc", "")])
  {
    var s1, s2 := Config("a", "q0", ""), Config("a", "q1", "");
    var t1, t2 := Config("a_", "q0", ""), Config("a1", "qacc", "");
    ForkSecondExpansion(m);
    assert FirstHalt(m, [s1, s2]) == None;
    ExploreAfterLevel(m, NextLevel(m), [s1, s2], {s1, s2}, 1, DefaultMaxSteps, [t1, t2], {s1, s2} + {t1, t2}, 3);
    ExploreAtHalt(m, NextLevel(m), [t1, t2], {s1, s2} + {t1, t2}, 3, DefaultMaxSteps, 1);
  }

  lemma ForkFirstExpansion()
    ensures NextLevel(Fork())([Config("", "q0", "a")], {})
              == Discovery([Config("a", "q0", ""), Config("a", "q1", "")], {Config("a", "q0", ""), Config("a", "q1", "")})
  {
    var s1, s2 := Config("a", "q0", ""), Config("a", "q1", "");
    ForkFirstStep();
    AddTwo({}, s1, s2);
    ExpandSingle(Fork(), Config("", "q0", "a"), {}, [s1, s2], Discovery([s1, s2], {s1, s2}));
  }

  /** The accepting branch is found on the third level, while the looping
      branch is still running: after 5 inspected configurations. */
  lemma ForkAccepts()
    ensures Simulate(Fork(), "a", DefaultMaxSteps) == Accepted(5, [Config("a_", "q0", ""), Config("a1", "qacc", "")])
  {
    ForkFirstStep();
    ForkLoopStep();
    ForkAcceptStep();
    ForkFirstExpansion();
    ExploreTwoSuccessors(Fork(), NextLevel(Fork()), Config("", "q0", "a"), Config("a", "q0", ""), Config("a", "q1", ""), DefaultMaxSteps);
    ForkSecondLevel(Fork());
  }

  // ---------------------------------------------------------------------------
  // Accepting and rejecting successors in one level

  const ToReject := Rule("q0", "a", "qrej", "x", "R")
  const ToAccept := Rule("q0", "a", "qacc", "y", "R")

  /** The expansion of the start configuration on `a`: both successors,
      in rule order. */
  lemma TieExpansion(r1: Rule, r2: Rule)
    requires [r1, r2] == [ToReject, ToAccept] || [r1, r2] == [ToAccept, ToReject]
    ensures var c := Config("", "q0", "a");
            var x, y := Apply(r1, c), Apply(r2, c);
            NextLevel(Small([r1, r2]))([c], {}) == Discovery([x, y], {x, y})
  {
    var c := Config("", "q0", "a");
    var x, y := Apply(r1, c), Apply(r2, c);
    TwoRules(r1, r2, c);
    assert x.state != y.state;
    AddTwo({}, x, y);
    ExpandSingle(Small([r1, r2]), c, {}, [x, y], Discovery([x, y], {x, y}));
  }

  /** A second level whose first configuration halts ends the run there,
      after two inspected configurations. */
  lemma TieLevel(m: Machine, first: Config, second: Config)
    requires m.accept == "qacc" && m.reject == "qrej"
    requires first.state in ["qacc", "qrej"]
    ensures Explore(m, NextLevel(m), [first, second], {first, second}, 1, DefaultMaxSteps)
              == if first.state == "qacc" then Accepted(2, [first, second]) else Rejected(2, [first, second])
  {
    ExploreAtHalt(m, NextLevel(m), [first, second], {first, second}, 1, DefaultMaxSteps, 0);
  }

  /** The run of the machine whose rules are `r1` and then `r2` on `a`: it
      ends at the first successor, after two inspected configurations. */
  lemma TieRun(r1: Rule, r2: Rule)
    requires [r1, r2] == [ToReject, ToAccept] || [r1, r2] == [ToAccept, ToReject]
    ensures var c := Config("", "q0", "a");
            var x, y := Apply(r1, c), Apply(r2, c);
            Simulate(Small([r1, r2]), "a", DefaultMaxSteps)
              == if x.state == "qacc" then Accepted(2, [x, y]) else Rejected(2, [x, y])
  {
    var m := Small([r1, r2]);
    var c := Config("", "q0", "a");
    var x, y := Apply(r1, c), Apply(r2, c);
    TieExpansion(r1, r2);
    ExploreTwoSuccessors(m, NextLevel(m), c, x, y, DefaultMaxSteps);
    TieLevel(m, x, y);
  }

  /** When one configuration has an accepting and a rejecting successor, the
      verdict follows the order of the rules. */
  lemma TieBreakByRuleOrder()
    ensures Simulate(Small([ToReject, ToAccept]), "a", DefaultMaxSteps)
              == Rejected(2, [Config("x", "qrej", ""), Config("y", "qacc", "")])
    ensures Simulate(Small([ToAccept, ToReject]), "a", DefaultMaxSteps)
              == Accepted(2, [Config("y", "qacc", ""), Config("x", "qrej", "")])
  {
    var c := Config("", "q0", "a");
    assert Apply(ToReject, c) == Config("x", "qrej", "") && Apply(ToAccept, c) == Config("y", "qacc", "");
    TieRun(ToReject, ToAccept);
    TieRun(ToAccept, ToReject);
  }

  // ---------------------------------------------------------------------------
  // The visited set starts empty

  const StandStill := Rule("q0", "_", "q0", "", "R")

  /** On the empty input, a rule that writes nothing leads from the start
      configuration back to itself. The visited set starts empty, so the
      start configuration is not marked visited before its first expansion.
      The rule enqueues it a second time and marks it visited then, so its
      second expansion finds nothing new and the run stops. */
  lemma StartInspectedTwice()
    ensures Simulate(Small([StandStill]), "", DefaultMaxSteps) == Stopped(2, NoSuccessors)
    ensures ScannedLevels(Small([StandStill]), "", DefaultMaxSteps)
              == [[Config("", "q0", "")], [Config("", "q0", "")]]
  {
    var m := Small([StandStill]);
    var start := Config("", "q0", "");
    OneRule(StandStill, start);
    assert Apply(StandStill, start) == start;
    AddOne(Discovery([], {}), start);
    AddOne(Discovery([], {start}), start);
    ExploreSingle(m, start, {}, 0, DefaultMaxSteps, [start], Discovery([start], {start}));
    ExploreSingle(m, start, {start}, 1, DefaultMaxSteps, [start], Discovery([], {start}));
    LevelsEnd(m, NextLevel(m), [start], {}, 0, DefaultMaxSteps);
    LevelsEnd(m, NextLevel(m), [start], {start}, 1, DefaultMaxSteps);
  }
}
