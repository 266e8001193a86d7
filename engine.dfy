/** The breadth-first simulation engine of traceTM (`execute_tm`): it scans
    one level of configurations at a time, counts every configuration it
    inspects, stops at the first accepting or rejecting configuration, and
    otherwise collects the not-yet-visited successors of the level, in order,
    into the next level. */
module Engine {
  import opened TuringMachine

  datatype Option<T> = None | Some(value: T)

  /** Why a run stopped without a verdict. */
  datatype StopReason = NoSuccessors | StepBound

  /** What one run reports: the verdict, the number of configurations
      inspected and, for a verdict of accept or reject, the level in which
      the deciding configuration was found. */
  datatype Outcome =
    | Accepted(count: nat, level: seq<Config>)
    | Rejected(count: nat, level: seq<Config>)
    | Stopped(count: nat, reason: StopReason)

  /** The word the engine returns for an outcome. */
  function Verdict(o: Outcome): (w: string)
    ensures w == "accepted" <==> o.Accepted?
    ensures w == "rejected" <==> o.Rejected?
    ensures w == "stopped" <==> o.Stopped?
  {
    match o
    case Accepted(_, _) => "accepted"
    case Rejected(_, _) => "rejected"
    case Stopped(_, _) => "stopped"
  }

  /** The step bound used by the command-line entry point. */
  const DefaultMaxSteps: int := 100

  /** The start configuration: nothing left of the head, the whole input at
      and right of it. */
  function Initial(m: Machine, input: string): (c: Config)
    ensures Render(c) == "[" + m.start + "]" + Visible(input)
  {
    Config("", m.start, input)
  }

  /** A configuration whose state ends the run. */
  predicate Halting(m: Machine, c: Config)
    ensures c.state == m.accept ==> Halting(m, c)
    ensures c.state == m.reject ==> Halting(m, c)
  {
    c.state == m.accept || c.state == m.reject
  }

  predicate Distinct(s: seq<Config>) {
    forall i, j :: 0 <= i < j < |s| ==> s[i] != s[j]
  }

  function Last<T>(s: seq<T>): T
    requires s != []
  {
    s[|s| - 1]
  }

  function Flatten(levels: seq<seq<Config>>): seq<Config> {
    if levels == [] then [] else levels[0] + Flatten(levels[1..])
  }

  // ---------------------------------------------------------------------------
  // Scan order: the first configuration that ends the run

  /** The position of the first halting configuration of `level`, if any. */
  function FirstHalt(m: Machine, level: seq<Config>): (r: Option<nat>)
    ensures r.Some? ==> r.value < |level| && Halting(m, level[r.value])
    ensures r.Some? ==> forall j :: 0 <= j < r.value ==> !Halting(m, level[j])
    ensures r.None? ==> forall j :: 0 <= j < |level| ==> !Halting(m, level[j])
  {
    if level == [] then None
    else if Halting(m, level[0]) then Some(0)
    else match FirstHalt(m, level[1..])
      case None => None
      case Some(k) => Some(k + 1)
  }

  /** The first halting position is the only position that halts with
      nothing halting before it. */
  lemma FirstHaltIs(m: Machine, s: seq<Config>, r: Option<nat>)
    requires r.Some? ==> r.value < |s| && Halting(m, s[r.value])
    requires r.Some? ==> forall j :: 0 <= j < r.value ==> !Halting(m, s[j])
    requires r.None? ==> forall j :: 0 <= j < |s| ==> !Halting(m, s[j])
    ensures FirstHalt(m, s) == r
  {
  }

  /** Scanning `a + b` when nothing in `a` halts finds what scanning `b`
      finds, shifted past `a`. */
  lemma FirstHaltAfter(m: Machine, a: seq<Config>, b: seq<Config>)
    requires FirstHalt(m, a) == None
    ensures FirstHalt(m, a + b) == match FirstHalt(m, b)
                                   case None => None
                                   case Some(p) => Some(|a| + p)
  {
    var s := a + b;
    forall j | 0 <= j < |a|
      ensures s[j] == a[j] && !Halting(m, s[j])
    {
    }
    match FirstHalt(m, b)
    case None =>
      forall j | |a| <= j < |s|
        ensures s[j] == b[j - |a|] && !Halting(m, s[j])
      {
      }
      FirstHaltIs(m, s, None);
    case Some(p) =>
      forall j | |a| <= j < |a| + p
        ensures s[j] == b[j - |a|] && !Halting(m, s[j])
      {
      }
      assert s[|a| + p] == b[p];
      FirstHaltIs(m, s, Some(|a| + p));
  }

  // ---------------------------------------------------------------------------
  // Expansion: successors appended to the next level unless already visited

  /** The next level under construction and the set of configurations ever
      enqueued. */
  datatype Discovery = Discovery(next: seq<Config>, visited: set<Config>)

  /** Enqueue `x` unless it was visited; it becomes visited at the same moment. */
  function Insert(d: Discovery, x: Config): Discovery {
    if x in d.visited then d else Discovery(d.next + [x], d.visited + {x})
  }

  /** Offer `cs` to `Insert`, one configuration at a time, in order. */
  function AddAll(d: Discovery, cs: seq<Config>): Discovery
    decreases |cs|
  {
    if cs == [] then d
    else Insert(AddAll(d, cs[..|cs| - 1]), cs[|cs| - 1])
  }

  /** Offering `cs` marks every one of them visited and nothing else. */
  lemma {:induction false} AddAllVisited(d: Discovery, cs: seq<Config>)
    ensures AddAll(d, cs).visited == d.visited + set x | x in cs
    decreases |cs|
  {
    if cs != [] {
      var init := cs[..|cs| - 1];
      var x := cs[|cs| - 1];
      AddAllVisited(d, init);
      assert cs == init + [x];
      assert (set y | y in cs) == (set y | y in init) + {x};
    }
  }

  /** Offering `cs` keeps the queue already built and appends only members
      of `cs` that were not visited before. */
  lemma {:induction false} AddAllExtends(d: Discovery, cs: seq<Config>)
    ensures |d.next| <= |AddAll(d, cs).next| && AddAll(d, cs).next[..|d.next|] == d.next
    ensures forall k :: |d.next| <= k < |AddAll(d, cs).next| ==>
              AddAll(d, cs).next[k] !in d.visited && AddAll(d, cs).next[k] in cs
    decreases |cs|
  {
    if cs != [] {
      var init := cs[..|cs| - 1];
      AddAllExtends(d, init);
      AddAllVisited(d, init);
      assert cs == init + [cs[|cs| - 1]];
    }
  }

  /** Every member of `cs` that was not visited before ends up in the queue. */
  lemma {:induction false} AddAllCovers(d: Discovery, cs: seq<Config>)
    ensures forall x :: x in cs && x !in d.visited ==> x in AddAll(d, cs).next
    decreases |cs|
  {
    if cs != [] {
      var init := cs[..|cs| - 1];
      AddAllCovers(d, init);
      AddAllVisited(d, init);
      AddAllExtends(d, init);
      assert cs == init + [cs[|cs| - 1]];
    }
  }

  /** A queue without repeats whose members are all visited stays so. */
  lemma {:induction false} AddAllDistinct(d: Discovery, cs: seq<Config>)
    requires Distinct(d.next) && forall k :: 0 <= k < |d.next| ==> d.next[k] in d.visited
    ensures Distinct(AddAll(d, cs).next)
    ensures forall k :: 0 <= k < |AddAll(d, cs).next| ==> AddAll(d, cs).next[k] in AddAll(d, cs).visited
    decreases |cs|
  {
    if cs != [] {
      AddAllDistinct(d, cs[..|cs| - 1]);
    }
  }

  /** The four facts above together. */
  lemma AddAllSpec(d: Discovery, cs: seq<Config>)
    ensures AddAll(d, cs).visited == d.visited + set x | x in cs
    ensures |d.next| <= |AddAll(d, cs).next| && AddAll(d, cs).next[..|d.next|] == d.next
    ensures forall k :: |d.next| <= k < |AddAll(d, cs).next| ==>
              AddAll(d, cs).next[k] !in d.visited && AddAll(d, cs).next[k] in cs
    ensures forall x :: x in cs && x !in d.visited ==> x in AddAll(d, cs).next
    ensures Distinct(d.next) && (forall k :: 0 <= k < |d.next| ==> d.next[k] in d.visited) ==>
              Distinct(AddAll(d, cs).next) &&
              forall k :: 0 <= k < |AddAll(d, cs).next| ==> AddAll(d, cs).next[k] in AddAll(d, cs).visited
  {
    AddAllVisited(d, cs);
    AddAllExtends(d, cs);
    AddAllCovers(d, cs);
    if Distinct(d.next) && (forall k :: 0 <= k < |d.next| ==> d.next[k] in d.visited) {
      AddAllDistinct(d, cs);
    }
  }

  /** Offering two sequences in turn is offering their concatenation. */
  lemma {:induction false} AddAllAppend(d: Discovery, xs: seq<Config>, ys: seq<Config>)
    ensures AddAll(d, xs + ys) == AddAll(AddAll(d, xs), ys)
    decreases |ys|
  {
    if ys == [] {
      assert xs + ys == xs;
    } else {
      var ys0 := ys[..|ys| - 1];
      AddAllAppend(d, xs, ys0);
      assert (xs + ys)[..|xs + ys| - 1] == xs + ys0;
    }
  }

  /** All successors of a level, in scan order, each configuration's in
      rule order. */
  function Stream(m: Machine, level: seq<Config>): seq<Config>
    decreases |level|
  {
    if level == [] then []
    else Stream(m, level[..|level| - 1]) + Successors(m.transitions, level[|level| - 1])
  }

  /** The next level is empty exactly when every successor of the level had
      already been visited. */
  lemma NothingNew(visited: set<Config>, cs: seq<Config>)
    ensures AddAll(Discovery([], visited), cs).next == [] <==> forall x :: x in cs ==> x in visited
  {
    var r := AddAll(Discovery([], visited), cs);
    AddAllSpec(Discovery([], visited), cs);
    if r.next != [] {
      assert r.next[0] in cs && r.next[0] !in visited;
    }
  }

  // ---------------------------------------------------------------------------
  // The run, over an expansion step

  /** One expansion step: from a level and the visited set to the next level
      and the new visited set. */
  type Expander = (seq<Config>, set<Config>) -> Discovery

  /** The expansion step of `m`: the successors of the level, in scan order,
      offered to an empty next level one at a time. */
  function NextLevel(m: Machine): Expander {
    (level: seq<Config>, visited: set<Config>) => AddAll(Discovery([], visited), Stream(m, level))
  }

  /** The outcome of scanning `level` and the levels after it, where
      `visited` holds every configuration enqueued so far and `count` the
      configurations inspected so far. Every level is non-empty, so `count`
      grows with each level and the step bound ends the recursion. */
  function Explore(m: Machine, expand: Expander, level: seq<Config>, visited: set<Config>, count: nat, maxSteps: int): Outcome
    requires level != []
    decreases if count < maxSteps then maxSteps - count else 0
  {
    match FirstHalt(m, level)
    case Some(k) =>
      if level[k].state == m.accept then Accepted(count + k + 1, level)
      else Rejected(count + k + 1, level)
    case None =>
      var d := expand(level, visited);
      var scanned := count + |level|;
      if d.next == [] then Stopped(scanned, NoSuccessors)
      else if scanned >= maxSteps then Stopped(scanned, StepBound)
      else Explore(m, expand, d.next, d.visited, scanned, maxSteps)
  }

  /** The levels `Explore` scans, in order, starting with `level`. */
  function Levels(m: Machine, expand: Expander, level: seq<Config>, visited: set<Config>, count: nat, maxSteps: int): (ls: seq<seq<Config>>)
    requires level != []
    ensures ls != [] && ls[0] == level
    decreases if count < maxSteps then maxSteps - count else 0
  {
    if FirstHalt(m, level).Some? then [level]
    else
      var d := expand(level, visited);
      var scanned := count + |level|;
      if d.next == [] || scanned >= maxSteps then [level]
      else [level] + Levels(m, expand, d.next, d.visited, scanned, maxSteps)
  }

  /** The configurations appended to the queue from the expansion of
      `level` on, level after level: each non-empty next level of a level
      with no halting configuration, the one appended just before a
      step-bound stop included, though that one is never scanned. */
  function Enqueued(m: Machine, expand: Expander, level: seq<Config>, visited: set<Config>, count: nat, maxSteps: int): seq<Config>
    requires level != []
    decreases if count < maxSteps then maxSteps - count else 0
  {
    if FirstHalt(m, level).Some? then []
    else
      var d := expand(level, visited);
      var scanned := count + |level|;
      if d.next == [] || scanned >= maxSteps then d.next
      else d.next + Enqueued(m, expand, d.next, d.visited, scanned, maxSteps)
  }

  /** What `execute_tm` computes for `m` on `input`: the run from the start
      configuration, with nothing visited and nothing counted. */
  function Simulate(m: Machine, input: string, maxSteps: int): (o: Outcome)
    ensures 1 <= o.count
  {
    ExploreCountBound(m, NextLevel(m), [Initial(m, input)], {}, 0, maxSteps);
    Explore(m, NextLevel(m), [Initial(m, input)], {}, 0, maxSteps)
  }

  /** The configurations that run appends to the queue after the start level. */
  function Queued(m: Machine, input: string, maxSteps: int): seq<Config> {
    Enqueued(m, NextLevel(m), [Initial(m, input)], {}, 0, maxSteps)
  }

  /** The levels that run scans, the first being the start configuration alone. */
  function ScannedLevels(m: Machine, input: string, maxSteps: int): (ls: seq<seq<Config>>)
    ensures ls != [] && ls[0] == [Initial(m, input)]
  {
    Levels(m, NextLevel(m), [Initial(m, input)], {}, 0, maxSteps)
  }

  /** `Explore` on a level whose configuration `i` is the first halting one. */
  lemma ExploreAtHalt(m: Machine, expand: Expander, level: seq<Config>, visited: set<Config>, count: nat, maxSteps: int, i: nat)
    requires i < |level| && Halting(m, level[i])
    requires forall j :: 0 <= j < i ==> !Halting(m, level[j])
    ensures Explore(m, expand, level, visited, count, maxSteps) ==
              if level[i].state == m.accept then Accepted(count + i + 1, level)
              else Rejected(count + i + 1, level)
  {
    assert FirstHalt(m, level) == Some(i);
  }

  /** `Explore` on a level with no halting configuration, whose expansion
      gives `next` and `visited'`, after which `scanned` configurations have
      been inspected. */
  lemma ExploreAfterLevel(m: Machine, expand: Expander, level: seq<Config>, visited: set<Config>, count: nat, maxSteps: int,
                          next: seq<Config>, visited': set<Config>, scanned: nat)
    requires level != [] && FirstHalt(m, level) == None
    requires expand(level, visited) == Discovery(next, visited')
    requires scanned == count + |level|
    ensures next == [] ==> Explore(m, expand, level, visited, count, maxSteps) == Stopped(scanned, NoSuccessors)
    ensures next != [] && scanned >= maxSteps ==>
              Explore(m, expand, level, visited, count, maxSteps) == Stopped(scanned, StepBound)
    ensures next != [] && scanned < maxSteps ==>
              Explore(m, expand, level, visited, count, maxSteps) == Explore(m, expand, next, visited', scanned, maxSteps)
  {
  }

  /** `Levels` stops after `level` exactly when `Explore` does. */
  lemma LevelsEnd(m: Machine, expand: Expander, level: seq<Config>, visited: set<Config>, count: nat, maxSteps: int)
    requires level != []
    ensures var d := expand(level, visited);
            Levels(m, expand, level, visited, count, maxSteps) ==
              if FirstHalt(m, level).Some? || d.next == [] || count + |level| >= maxSteps then [level]
              else [level] + Levels(m, expand, d.next, d.visited, count + |level|, maxSteps)
  {
  }

  /** `Levels` when the run ends with `level`. */
  lemma LevelsStop(m: Machine, expand: Expander, level: seq<Config>, visited: set<Config>, count: nat, maxSteps: int)
    requires level != []
    requires FirstHalt(m, level).Some? || expand(level, visited).next == [] || count + |level| >= maxSteps
    ensures Levels(m, expand, level, visited, count, maxSteps) == [level]
  {
  }

  /** `Levels` when the run goes on past `level`. */
  lemma LevelsGo(m: Machine, expand: Expander, level: seq<Config>, visited: set<Config>, count: nat, maxSteps: int,
                  d: Discovery, scanned: nat)
    requires level != [] && d == expand(level, visited) && scanned == count + |level|
    requires FirstHalt(m, level).None? && d.next != [] && scanned < maxSteps
    ensures Levels(m, expand, level, visited, count, maxSteps) == [level] + Levels(m, expand, d.next, d.visited, scanned, maxSteps)
  {
  }

  lemma FlattenOne(level: seq<Config>)
    ensures Flatten([level]) == level
  {
    assert [level][1..] == [];
  }

  lemma FlattenCons(level: seq<Config>, rest: seq<seq<Config>>)
    ensures Flatten([level] + rest) == level + Flatten(rest)
  {
    assert ([level] + rest)[1..] == rest;
  }

  /** The verdict and the count of `o` are decided by the first halting
      configuration in scan order over the levels `ls`, scanned from `count`
      on: it is accepted exactly when that configuration is in the accept
      state, the count is its position plus one, and the reported level is
      the last one scanned, in which that configuration is the first halting
      one. With no halting configuration the run stops,
      having inspected every scanned configuration. */
  predicate DecidedByFirstHalt(m: Machine, o: Outcome, ls: seq<seq<Config>>, count: nat)
    requires ls != []
  {
    DecidedBy(m, o, Flatten(ls), Last(ls), count)
  }

  /** `o` is decided by the first halting configuration of `scanned`, whose
      configurations are counted from `count` on, with `last` the level
      reported: when `last` ends `scanned`, the deciding configuration lies
      in `last` and is the first halting one there. */
  predicate DecidedBy(m: Machine, o: Outcome, scanned: seq<Config>, last: seq<Config>, count: nat) {
    match FirstHalt(m, scanned)
    case Some(p) =>
      && (o.Accepted? || o.Rejected?)
      && (o.Accepted? <==> scanned[p].state == m.accept)
      && o.count == count + p + 1
      && o.level == last
      && |scanned| - |last| <= p
      && FirstHalt(m, last) == Some(p - (|scanned| - |last|))
    case None =>
      o.Stopped? && o.count == count + |scanned|
  }

  /** Configurations that do not halt, scanned first, shift the decision. */
  lemma DecidedAfter(m: Machine, o: Outcome, level: seq<Config>, later: seq<Config>, last: seq<Config>, count: nat)
    requires FirstHalt(m, level) == None
    requires DecidedBy(m, o, later, last, count + |level|)
    ensures DecidedBy(m, o, level + later, last, count)
  {
    FirstHaltAfter(m, level, later);
    match FirstHalt(m, later)
    case Some(p) =>
      assert (level + later)[|level| + p] == later[p];
    case None =>
  }

  /** A level with no halting configuration, scanned before levels that
      decide `o`, leaves `o` decided by all of them together. */
  lemma DecidedAfterLevel(m: Machine, o: Outcome, ls: seq<seq<Config>>, level: seq<Config>, rest: seq<seq<Config>>, count: nat)
    requires ls == [level] + rest
    requires FirstHalt(m, level) == None && rest != []
    requires DecidedByFirstHalt(m, o, rest, count + |level|)
    ensures DecidedByFirstHalt(m, o, ls, count)
  {
    FlattenCons(level, rest);
    assert Last(ls) == Last(rest);
    DecidedAfter(m, o, level, Flatten(rest), Last(rest), count);
  }

  /** A run that ends with `level` is decided by `level` alone. */
  lemma DecidedAtStop(m: Machine, expand: Expander, level: seq<Config>, visited: set<Config>, count: nat, maxSteps: int,
                      d: Discovery, scanned: nat)
    requires level != [] && d == expand(level, visited) && scanned == count + |level|
    requires FirstHalt(m, level).Some? || d.next == [] || scanned >= maxSteps
    ensures DecidedByFirstHalt(m, Explore(m, expand, level, visited, count, maxSteps),
                               Levels(m, expand, level, visited, count, maxSteps), count)
  {
    LevelsStop(m, expand, level, visited, count, maxSteps);
    FlattenOne(level);
    match FirstHalt(m, level)
    case Some(k) =>
      ExploreAtHalt(m, expand, level, visited, count, maxSteps, k);
    case None =>
      ExploreAfterLevel(m, expand, level, visited, count, maxSteps, d.next, d.visited, scanned);
  }

  /** A run that goes on past `level` is decided as the run from its
      expansion is. */
  lemma DecidedAfterStep(m: Machine, expand: Expander, level: seq<Config>, visited: set<Config>, count: nat, maxSteps: int,
                         d: Discovery, scanned: nat)
    requires level != [] && d == expand(level, visited) && scanned == count + |level|
    requires FirstHalt(m, level).None? && d.next != [] && scanned < maxSteps
    requires DecidedByFirstHalt(m, Explore(m, expand, d.next, d.visited, scanned, maxSteps),
                                Levels(m, expand, d.next, d.visited, scanned, maxSteps), scanned)
    ensures DecidedByFirstHalt(m, Explore(m, expand, level, visited, count, maxSteps),
                               Levels(m, expand, level, visited, count, maxSteps), count)
  {
    var o := Explore(m, expand, level, visited, count, maxSteps);
    var ls := Levels(m, expand, level, visited, count, maxSteps);
    LevelsGo(m, expand, level, visited, count, maxSteps, d, scanned);
    ExploreAfterLevel(m, expand, level, visited, count, maxSteps, d.next, d.visited, scanned);
    assert o == Explore(m, expand, d.next, d.visited, scanned, maxSteps);
    DecidedAfterLevel(m, o, ls, level, Levels(m, expand, d.next, d.visited, scanned, maxSteps), count);
  }

  /** The outcome of a run is decided by the first halting configuration in
      scan order over the levels it scans. */
  lemma {:induction false} ExploreSummary(m: Machine, expand: Expander, level: seq<Config>, visited: set<Config>, count: nat, maxSteps: int)
    requires level != []
    ensures DecidedByFirstHalt(m, Explore(m, expand, level, visited, count, maxSteps),
                               Levels(m, expand, level, visited, count, maxSteps), count)
    decreases if count < maxSteps then maxSteps - count else 0
  {
    var d := expand(level, visited);
    var scanned := count + |level|;
    if FirstHalt(m, level).Some? || d.next == [] || scanned >= maxSteps {
      DecidedAtStop(m, expand, level, visited, count, maxSteps, d, scanned);
    } else {
      ExploreSummary(m, expand, d.next, d.visited, scanned, maxSteps);
      DecidedAfterStep(m, expand, level, visited, count, maxSteps, d, scanned);
    }
  }

  /** `execute_tm` answers "accepted" or "rejected" after the first
      configuration in the accept or reject state, in scan order over the
      levels it scans from the start configuration, and "stopped" only when
      it scanned no such configuration. */
  lemma SimulateSummary(m: Machine, input: string, maxSteps: int)
    ensures DecidedByFirstHalt(m, Simulate(m, input, maxSteps), ScannedLevels(m, input, maxSteps), 0)
  {
    ExploreSummary(m, NextLevel(m), [Initial(m, input)], {}, 0, maxSteps);
  }

  /** A verdict of accept or reject reports the last of the levels `ls`,
      scanned from `count` on; no earlier level holds a halting
      configuration, the reported level does, the first one in it has the
      verdict's state, and the count is every configuration of the earlier
      levels plus its position in the reported level, plus one. */
  predicate ReportsDecidingLevel(m: Machine, o: Outcome, ls: seq<seq<Config>>, count: nat)
    requires ls != []
  {
    (o.Accepted? || o.Rejected?) ==>
      NoHaltBeforeLast(m, ls) && ReportsLevel(m, o, Last(ls), count + (|Flatten(ls)| - |Last(ls)|))
  }

  /** No level of `ls` but the last holds a halting configuration. */
  predicate NoHaltBeforeLast(m: Machine, ls: seq<seq<Config>>) {
    forall i :: 0 <= i < |ls| - 1 ==> FirstHalt(m, ls[i]) == None
  }

  /** `o` reports `last`, whose first halting configuration has the
      verdict's state and is inspected as number `before + k + 1`, `k` being
      its position. */
  predicate ReportsLevel(m: Machine, o: Outcome, last: seq<Config>, before: int) {
    && (o.Accepted? || o.Rejected?)
    && o.level == last
    && match FirstHalt(m, last)
       case Some(k) =>
         && (o.Accepted? <==> last[k].state == m.accept)
         && o.count == before + k + 1
       case None => false
  }

  /** A run that ends with `level` reports `level` itself. */
  lemma ReportsAtStop(m: Machine, expand: Expander, level: seq<Config>, visited: set<Config>, count: nat, maxSteps: int,
                      d: Discovery, scanned: nat)
    requires level != [] && d == expand(level, visited) && scanned == count + |level|
    requires FirstHalt(m, level).Some? || d.next == [] || scanned >= maxSteps
    ensures ReportsDecidingLevel(m, Explore(m, expand, level, visited, count, maxSteps),
                                 Levels(m, expand, level, visited, count, maxSteps), count)
  {
    LevelsStop(m, expand, level, visited, count, maxSteps);
    FlattenOne(level);
    match FirstHalt(m, level)
    case Some(k) =>
      ExploreAtHalt(m, expand, level, visited, count, maxSteps, k);
    case None =>
      ExploreAfterLevel(m, expand, level, visited, count, maxSteps, d.next, d.visited, scanned);
  }

  /** A level with no halting configuration, scanned before levels of which
      `o` reports the last, leaves `o` reporting the last of them all. */
  lemma ReportsAfterLevel(m: Machine, o: Outcome, ls: seq<seq<Config>>, level: seq<Config>, rest: seq<seq<Config>>, count: nat)
    requires ls == [level] + rest
    requires FirstHalt(m, level) == None && rest != []
    requires ReportsDecidingLevel(m, o, rest, count + |level|)
    ensures ReportsDecidingLevel(m, o, ls, count)
  {
    if o.Accepted? || o.Rejected? {
      FlattenCons(level, rest);
      assert Last(ls) == Last(rest);
      assert count + (|Flatten(ls)| - |Last(ls)|) == count + |level| + (|Flatten(rest)| - |Last(rest)|);
      forall i | 0 <= i < |ls| - 1
        ensures FirstHalt(m, ls[i]) == None
      {
        if i > 0 {
          assert ls[i] == rest[i - 1];
        }
      }
    }
  }

  /** A run that goes on past `level` reports as the run from its expansion
      does. */
  lemma ReportsAfterStep(m: Machine, expand: Expander, level: seq<Config>, visited: set<Config>, count: nat, maxSteps: int,
                         d: Discovery, scanned: nat)
    requires level != [] && d == expand(level, visited) && scanned == count + |level|
    requires FirstHalt(m, level).None? && d.next != [] && scanned < maxSteps
    requires ReportsDecidingLevel(m, Explore(m, expand, d.next, d.visited, scanned, maxSteps),
                                  Levels(m, expand, d.next, d.visited, scanned, maxSteps), scanned)
    ensures ReportsDecidingLevel(m, Explore(m, expand, level, visited, count, maxSteps),
                                 Levels(m, expand, level, visited, count, maxSteps), count)
  {
    var o := Explore(m, expand, level, visited, count, maxSteps);
    var ls := Levels(m, expand, level, visited, count, maxSteps);
    LevelsGo(m, expand, level, visited, count, maxSteps, d, scanned);
    ExploreAfterLevel(m, expand, level, visited, count, maxSteps, d.next, d.visited, scanned);
    assert o == Explore(m, expand, d.next, d.visited, scanned, maxSteps);
    ReportsAfterLevel(m, o, ls, level, Levels(m, expand, d.next, d.visited, scanned, maxSteps), count);
  }

  /** Every run reports the level in which it decided: the levels scanned
      before it hold no halting configuration, and the count reaches into
      the reported level up to its first halting configuration. */
  lemma {:induction false} ExploreReportsLevel(m: Machine, expand: Expander, level: seq<Config>, visited: set<Config>, count: nat, maxSteps: int)
    requires level != []
    ensures ReportsDecidingLevel(m, Explore(m, expand, level, visited, count, maxSteps),
                                 Levels(m, expand, level, visited, count, maxSteps), count)
    decreases if count < maxSteps then maxSteps - count else 0
  {
    var d := expand(level, visited);
    var scanned := count + |level|;
    if FirstHalt(m, level).Some? || d.next == [] || scanned >= maxSteps {
      ReportsAtStop(m, expand, level, visited, count, maxSteps, d, scanned);
    } else {
      ExploreReportsLevel(m, expand, d.next, d.visited, scanned, maxSteps);
      ReportsAfterStep(m, expand, level, visited, count, maxSteps, d, scanned);
    }
  }

  /** The level `execute_tm` reports with "accepted" or "rejected" is the
      last level it scanned, the first to hold a configuration in the accept
      or reject state, and the count ends at the first such configuration. */
  lemma SimulateReportsLevel(m: Machine, input: string, maxSteps: int)
    ensures ReportsDecidingLevel(m, Simulate(m, input, maxSteps), ScannedLevels(m, input, maxSteps), 0)
  {
    ExploreReportsLevel(m, NextLevel(m), [Initial(m, input)], {}, 0, maxSteps);
  }

  /** The count grows with every run, may pass the step bound by less than
      the size of the last scanned level, and a step-bound stop has reached
      the bound. */
  lemma {:induction false} ExploreCountBound(m: Machine, expand: Expander, level: seq<Config>, visited: set<Config>, count: nat, maxSteps: int)
    requires level != []
    ensures var o := Explore(m, expand, level, visited, count, maxSteps);
            var ls := Levels(m, expand, level, visited, count, maxSteps);
            && count < o.count
            && o.count <= (if count < maxSteps then maxSteps - 1 else count) + |Last(ls)|
            && (o.Stopped? && o.reason == StepBound ==> o.count >= maxSteps)
    decreases if count < maxSteps then maxSteps - count else 0
  {
    var d := expand(level, visited);
    var scanned := count + |level|;
    LevelsEnd(m, expand, level, visited, count, maxSteps);
    match FirstHalt(m, level)
    case Some(k) =>
      ExploreAtHalt(m, expand, level, visited, count, maxSteps, k);
    case None =>
      ExploreAfterLevel(m, expand, level, visited, count, maxSteps, d.next, d.visited, scanned);
      if d.next != [] && scanned < maxSteps {
        ExploreCountBound(m, expand, d.next, d.visited, scanned, maxSteps);
        assert Last(Levels(m, expand, level, visited, count, maxSteps))
            == Last(Levels(m, expand, d.next, d.visited, scanned, maxSteps));
      }
  }

  /** `execute_tm` inspects at least the start configuration, passes the
      step bound by less than the size of the last level it scans, and stops
      at the step bound only once the bound is reached. */
  lemma SimulateCountBound(m: Machine, input: string, maxSteps: int)
    ensures var o := Simulate(m, input, maxSteps);
            && 1 <= o.count
            && o.count <= (if 0 < maxSteps then maxSteps - 1 else 0) + |Last(ScannedLevels(m, input, maxSteps))|
            && (o.Stopped? && o.reason == StepBound ==> o.count >= maxSteps)
  {
    ExploreCountBound(m, NextLevel(m), [Initial(m, input)], {}, 0, maxSteps);
  }

  /** Concatenating two duplicate-free sequences with no element in common
      gives a duplicate-free sequence. */
  lemma DistinctAppend(a: seq<Config>, b: seq<Config>)
    requires Distinct(a) && Distinct(b)
    requires forall i, j :: 0 <= i < |a| && 0 <= j < |b| ==> a[i] != b[j]
    ensures Distinct(a + b)
  {
    var s := a + b;
    forall i, j | 0 <= i < j < |s|
      ensures s[i] != s[j]
    {
      if j < |a| {
        assert s[i] == a[i] && s[j] == a[j];
      } else if i >= |a| {
        assert s[i] == b[i - |a|] && s[j] == b[j - |a|];
      } else {
        assert s[i] == a[i] && s[j] == b[j - |a|];
      }
    }
  }

  /** An expansion result that enqueues no configuration twice, only ones
      not visited before, and marks each one visited. */
  predicate FreshStep(d: Discovery, visited: set<Config>) {
    && visited <= d.visited
    && Distinct(d.next)
    && forall k :: 0 <= k < |d.next| ==> d.next[k] in d.visited && d.next[k] !in visited
  }

  /** An expansion step that is fresh on every level and visited set. */
  ghost predicate FreshExpander(expand: Expander) {
    forall level, visited :: FreshStep(expand(level, visited), visited)
  }

  /** The machine's expansion step never enqueues a configuration twice or
      one that was visited already. */
  lemma NextLevelIsFresh(m: Machine)
    ensures FreshExpander(NextLevel(m))
  {
    forall level, visited
      ensures FreshStep(NextLevel(m)(level, visited), visited)
    {
      AddAllSpec(Discovery([], visited), Stream(m, level));
    }
  }

  /** With a fresh expansion step no configuration is appended to the queue
      twice, nor one that was visited when the scan began. */
  lemma {:induction false} ExploreEnqueuesOnce(m: Machine, expand: Expander, level: seq<Config>, visited: set<Config>, count: nat, maxSteps: int)
    requires FreshExpander(expand)
    requires level != []
    ensures var q := Enqueued(m, expand, level, visited, count, maxSteps);
            Distinct(q) && forall k :: 0 <= k < |q| ==> q[k] !in visited
    decreases if count < maxSteps then maxSteps - count else 0
  {
    var q := Enqueued(m, expand, level, visited, count, maxSteps);
    var d := expand(level, visited);
    var scanned := count + |level|;
    if FirstHalt(m, level).Some? {
      assert q == [];
    } else if d.next == [] || scanned >= maxSteps {
      assert q == d.next + [];
      FreshPrefix(d, visited, []);
    } else {
      var tail := Enqueued(m, expand, d.next, d.visited, scanned, maxSteps);
      ExploreEnqueuesOnce(m, expand, d.next, d.visited, scanned, maxSteps);
      assert q == d.next + tail;
      FreshPrefix(d, visited, tail);
    }
  }

  /** The levels scanned after `level` are what was appended to the queue,
      up to the level appended just before a step-bound stop. */
  lemma {:induction false} ScannedWereEnqueued(m: Machine, expand: Expander, level: seq<Config>, visited: set<Config>, count: nat, maxSteps: int)
    requires level != []
    ensures Flatten(Levels(m, expand, level, visited, count, maxSteps)[1..]) <= Enqueued(m, expand, level, visited, count, maxSteps)
    decreases if count < maxSteps then maxSteps - count else 0
  {
    var ls := Levels(m, expand, level, visited, count, maxSteps);
    var d := expand(level, visited);
    var scanned := count + |level|;
    if FirstHalt(m, level).Some? || d.next == [] || scanned >= maxSteps {
      LevelsStop(m, expand, level, visited, count, maxSteps);
      assert ls[1..] == [];
    } else {
      var rest := Levels(m, expand, d.next, d.visited, scanned, maxSteps);
      LevelsGo(m, expand, level, visited, count, maxSteps, d, scanned);
      ScannedWereEnqueued(m, expand, d.next, d.visited, scanned, maxSteps);
      assert ls[1..] == rest;
      FlattenCons(rest[0], rest[1..]);
      assert [rest[0]] + rest[1..] == rest;
      assert Flatten(rest) == d.next + Flatten(rest[1..]);
      assert Enqueued(m, expand, level, visited, count, maxSteps)
          == d.next + Enqueued(m, expand, d.next, d.visited, scanned, maxSteps);
    }
  }

  lemma DistinctPrefix(p: seq<Config>, s: seq<Config>)
    requires Distinct(s) && p <= s
    ensures Distinct(p)
  {
    forall i, j | 0 <= i < j < |p|
      ensures p[i] != p[j]
    {
      assert p[i] == s[i] && p[j] == s[j];
    }
  }

  /** The simulation of `m` on `input` appends no configuration to the queue
      twice after the start level, and the levels it scans after the start
      level repeat nothing. The visited set starts empty, so the start
      configuration itself may be appended once more, and is marked visited
      then. */
  lemma EnqueuesOnce(m: Machine, input: string, maxSteps: int)
    ensures Distinct(Queued(m, input, maxSteps))
    ensures Flatten(ScannedLevels(m, input, maxSteps)[1..]) <= Queued(m, input, maxSteps)
    ensures Distinct(Flatten(ScannedLevels(m, input, maxSteps)[1..]))
  {
    NextLevelIsFresh(m);
    ExploreEnqueuesOnce(m, NextLevel(m), [Initial(m, input)], {}, 0, maxSteps);
    ScannedWereEnqueued(m, NextLevel(m), [Initial(m, input)], {}, 0, maxSteps);
    DistinctPrefix(Flatten(ScannedLevels(m, input, maxSteps)[1..]), Queued(m, input, maxSteps));
  }

  /** A fresh level followed by configurations outside its visited set
      repeats nothing and revisits nothing. */
  lemma FreshPrefix(d: Discovery, visited: set<Config>, tail: seq<Config>)
    requires FreshStep(d, visited)
    requires Distinct(tail) && forall k :: 0 <= k < |tail| ==> tail[k] !in d.visited
    ensures var s := d.next + tail;
            Distinct(s) && forall k :: 0 <= k < |s| ==> s[k] !in visited
  {
    forall i, j | 0 <= i < |d.next| && 0 <= j < |tail|
      ensures d.next[i] != tail[j]
    {
      assert d.next[i] in d.visited;
    }
    DistinctAppend(d.next, tail);
    var s := d.next + tail;
    forall k | 0 <= k < |s|
      ensures s[k] !in visited
    {
      if k < |d.next| {
        assert s[k] == d.next[k];
      } else {
        assert s[k] == tail[k - |d.next|];
        assert tail[k - |d.next|] !in d.visited;
      }
    }
  }

  // ---------------------------------------------------------------------------
  // Levels are frontiers

  /** Every configuration of `b` is a successor of one in `a`. */
  ghost predicate Follows(m: Machine, a: seq<Config>, b: seq<Config>) {
    forall x :: x in b ==> exists c :: c in a && x in Successors(m.transitions, c)
  }

  /** Every successor of a configuration of `a` is in `b`, in `visited`, or
      in `earlier`. */
  ghost predicate Covers(m: Machine, a: seq<Config>, b: seq<Config>, visited: set<Config>, earlier: seq<Config>) {
    forall c, x :: c in a && x in Successors(m.transitions, c) ==> x in b || x in visited || x in earlier
  }

  /** An expansion step that enqueues only successors of the level, enqueues
      every successor not visited before, and marks what it enqueues. */
  ghost predicate Faithful(m: Machine, expand: Expander) {
    forall level, visited ::
      && Follows(m, level, expand(level, visited).next)
      && Covers(m, level, expand(level, visited).next, visited, [])
      && expand(level, visited).visited == visited + (set x | x in expand(level, visited).next)
  }

  /** The stream of a level holds exactly the successors of its configurations. */
  lemma {:induction false} StreamMembers(m: Machine, level: seq<Config>)
    ensures forall x :: x in Stream(m, level) <==> exists c :: c in level && x in Successors(m.transitions, c)
    decreases |level|
  {
    if level != [] {
      var init, c0 := level[..|level| - 1], level[|level| - 1];
      StreamMembers(m, init);
      assert level == init + [c0];
      forall x | x in Stream(m, level)
        ensures exists c :: c in level && x in Successors(m.transitions, c)
      {
        if x !in Successors(m.transitions, c0) {
          assert x in Stream(m, init);
          var c :| c in init && x in Successors(m.transitions, c);
          assert c in level;
        }
      }
    }
  }

  /** The machine's expansion step is faithful. */
  lemma NextLevelIsFaithful(m: Machine)
    ensures Faithful(m, NextLevel(m))
  {
    forall level, visited
      ensures Follows(m, level, NextLevel(m)(level, visited).next)
      ensures Covers(m, level, NextLevel(m)(level, visited).next, visited, [])
      ensures NextLevel(m)(level, visited).visited == visited + (set x | x in NextLevel(m)(level, visited).next)
    {
      var cs := Stream(m, level);
      var d := AddAll(Discovery([], visited), cs);
      AddAllSpec(Discovery([], visited), cs);
      StreamMembers(m, level);
      forall x | x in d.next
        ensures x in cs
      {
        var k :| 0 <= k < |d.next| && d.next[k] == x;
      }
      assert (set x | x in cs) == (set x | x in cs && x in visited) + (set x | x in d.next);
    }
  }

  /** Splitting off the first level of `ls[1..j + 1]`. */
  lemma FlattenSplit(ls: seq<seq<Config>>, j: nat)
    requires 1 <= j < |ls|
    ensures Flatten(ls[1..j + 1]) == ls[1] + Flatten(ls[1..][1..j])
  {
    assert ls[1..j + 1] == [ls[1]] + ls[1..][1..j];
    FlattenCons(ls[1], ls[1..][1..j]);
  }

  /** What was marked visited by enqueueing `first` counts as enqueued
      earlier. */
  lemma CoversEarlier(m: Machine, a: seq<Config>, b: seq<Config>, visited: set<Config>, first: seq<Config>, earlier: seq<Config>)
    requires Covers(m, a, b, visited + (set x | x in first), earlier)
    ensures Covers(m, a, b, visited, first + earlier)
  {
  }

  /** Link `i` of `[level] + rest`, from the first link of the expansion of
      `level` or from link `i - 1` of `rest`, whose scan began with the
      configurations of `rest[0]` marked visited. */
  lemma LinkShift(m: Machine, level: seq<Config>, rest: seq<seq<Config>>, visited: set<Config>, i: nat)
    requires 0 <= i < |rest|
    requires Follows(m, level, rest[0]) && Covers(m, level, rest[0], visited, [])
    requires forall j :: 0 <= j < |rest| - 1 ==>
               Follows(m, rest[j], rest[j + 1]) && Covers(m, rest[j], rest[j + 1], visited + (set x | x in rest[0]), Flatten(rest[1..j + 1]))
    ensures var ls := [level] + rest;
            Follows(m, ls[i], ls[i + 1]) && Covers(m, ls[i], ls[i + 1], visited, Flatten(ls[1..i + 1]))
  {
    var ls := [level] + rest;
    if i == 0 {
      assert ls[1..1] == [];
    } else {
      assert ls[i] == rest[i - 1] && ls[i + 1] == rest[i];
      FlattenSplit(ls, i);
      assert ls[1..][1..i] == rest[1..i];
      CoversEarlier(m, rest[i - 1], rest[i], visited, rest[0], Flatten(rest[1..i]));
    }
  }

  /** Successive frontiers of a search that began with `visited` marked:
      each level after the first consists of successors of the level before
      it, holds every such successor not marked by then, and is marked in
      turn. */
  ghost predicate Frontiers(m: Machine, ls: seq<seq<Config>>, visited: set<Config>)
    decreases |ls|
  {
    |ls| <= 1 ||
    (&& Follows(m, ls[0], ls[1])
     && Covers(m, ls[0], ls[1], visited, [])
     && Frontiers(m, ls[1..], visited + (set x | x in ls[1])))
  }

  /** A level in front of frontiers that begin with its expansion, scanned
      with that expansion marked. */
  lemma FrontiersCons(m: Machine, ls: seq<seq<Config>>, level: seq<Config>, rest: seq<seq<Config>>, visited: set<Config>, marked: set<Config>)
    requires ls == [level] + rest
    requires rest != [] && marked == visited + (set x | x in rest[0])
    requires Follows(m, level, rest[0]) && Covers(m, level, rest[0], visited, [])
    requires Frontiers(m, rest, marked)
    ensures Frontiers(m, ls, visited)
  {
    assert ls[0] == level && ls[1..] == rest;
  }

  /** A run that ends with `level` scans a single frontier. */
  lemma FrontiersStop(m: Machine, expand: Expander, level: seq<Config>, visited: set<Config>, count: nat, maxSteps: int)
    requires level != []
    requires FirstHalt(m, level).Some? || expand(level, visited).next == [] || count + |level| >= maxSteps
    ensures Frontiers(m, Levels(m, expand, level, visited, count, maxSteps), visited)
  {
    LevelsStop(m, expand, level, visited, count, maxSteps);
  }

  /** A run that goes on past `level` scans `level` in front of the
      frontiers scanned from its faithful expansion. */
  lemma FrontiersStep(m: Machine, expand: Expander, level: seq<Config>, visited: set<Config>, count: nat, maxSteps: int,
                       d: Discovery, scanned: nat)
    requires Faithful(m, expand)
    requires level != [] && d == expand(level, visited) && scanned == count + |level|
    requires FirstHalt(m, level).None? && d.next != [] && scanned < maxSteps
    requires Frontiers(m, Levels(m, expand, d.next, d.visited, scanned, maxSteps), d.visited)
    ensures Frontiers(m, Levels(m, expand, level, visited, count, maxSteps), visited)
  {
    var rest := Levels(m, expand, d.next, d.visited, scanned, maxSteps);
    var ls := Levels(m, expand, level, visited, count, maxSteps);
    LevelsGo(m, expand, level, visited, count, maxSteps, d, scanned);
    assert rest[0] == d.next;
    assert Follows(m, level, d.next) && Covers(m, level, d.next, visited, []) && d.visited == visited + (set x | x in d.next);
    FrontiersCons(m, ls, level, rest, visited, d.visited);
  }

  /** Frontiers read level by level: every successor of a level that is not
      the last is in the next level, was marked when the search began, or
      was enqueued in an earlier level. */
  lemma {:induction false} FrontiersIndexed(m: Machine, ls: seq<seq<Config>>, visited: set<Config>)
    requires Frontiers(m, ls, visited)
    ensures forall i :: 0 <= i < |ls| - 1 ==>
              Follows(m, ls[i], ls[i + 1]) && Covers(m, ls[i], ls[i + 1], visited, Flatten(ls[1..i + 1]))
    decreases |ls|
  {
    if |ls| > 1 {
      var rest := ls[1..];
      FrontiersIndexed(m, rest, visited + (set x | x in rest[0]));
      assert ls == [ls[0]] + rest;
      forall i | 0 <= i < |ls| - 1
        ensures Follows(m, ls[i], ls[i + 1]) && Covers(m, ls[i], ls[i + 1], visited, Flatten(ls[1..i + 1]))
      {
        LinkShift(m, ls[0], rest, visited, i);
      }
    }
  }

  /** With a faithful expansion step the levels scanned are the successive
      frontiers of the search. */
  lemma {:induction false} ExploreLevelsLinked(m: Machine, expand: Expander, level: seq<Config>, visited: set<Config>, count: nat, maxSteps: int)
    requires Faithful(m, expand)
    requires level != []
    ensures Frontiers(m, Levels(m, expand, level, visited, count, maxSteps), visited)
    decreases if count < maxSteps then maxSteps - count else 0
  {
    var d := expand(level, visited);
    var scanned := count + |level|;
    if FirstHalt(m, level).Some? || d.next == [] || scanned >= maxSteps {
      FrontiersStop(m, expand, level, visited, count, maxSteps);
    } else {
      ExploreLevelsLinked(m, expand, d.next, d.visited, scanned, maxSteps);
      FrontiersStep(m, expand, level, visited, count, maxSteps, d, scanned);
    }
  }

  /** The levels of the simulation of `m` on `input` are its frontiers, in
      the sense of `ExploreLevelsLinked`, starting from the start
      configuration. */
  lemma LevelsAreFrontiers(m: Machine, input: string, maxSteps: int)
    ensures var ls := ScannedLevels(m, input, maxSteps);
            forall i :: 0 <= i < |ls| - 1 ==>
              Follows(m, ls[i], ls[i + 1]) && Covers(m, ls[i], ls[i + 1], {}, Flatten(ls[1..i + 1]))
  {
    var ls := ScannedLevels(m, input, maxSteps);
    assert ls == Levels(m, NextLevel(m), [Initial(m, input)], {}, 0, maxSteps);
    NextLevelIsFaithful(m);
    ExploreLevelsLinked(m, NextLevel(m), [Initial(m, input)], {}, 0, maxSteps);
    FrontiersIndexed(m, ls, {});
  }

  /** Offering the successors under one more rule is one more `Insert`
      when the rule fires, and nothing otherwise. */
  lemma StepRule(before: Discovery, rules: seq<Rule>, j: nat, c: Config)
    requires j < |rules|
    ensures AddAll(before, Successors(rules[..j + 1], c)) ==
              if Matches(rules[j], c) then Insert(AddAll(before, Successors(rules[..j], c)), Apply(rules[j], c))
              else AddAll(before, Successors(rules[..j], c))
  {
    assert rules[..j + 1][..j] == rules[..j];
    AddAllAppend(before, Successors(rules[..j], c), Fire(rules[j], c));
    if Matches(rules[j], c) {
      assert AddAll(AddAll(before, Successors(rules[..j], c)), [Apply(rules[j], c)])
          == Insert(AddAll(before, Successors(rules[..j], c)), Apply(rules[j], c));
    } else {
      assert Successors(rules[..j], c) + [] == Successors(rules[..j], c);
    }
  }

  /** Offering the successors of one more configuration of the level extends
      the stream of the level's prefix. */
  lemma StepLevel(m: Machine, d: Discovery, level: seq<Config>, i: nat)
    requires i < |level|
    ensures AddAll(AddAll(d, Stream(m, level[..i])), Successors(m.transitions, level[i]))
              == AddAll(d, Stream(m, level[..i + 1]))
  {
    assert level[..i + 1][..i] == level[..i];
    AddAllAppend(d, Stream(m, level[..i]), Successors(m.transitions, level[i]));
  }

  // ---------------------------------------------------------------------------
  // The engine

  /** Expand one non-halting configuration: every rule that fires, in
      declaration order, offers its successor, which is enqueued and marked
      visited unless it was visited already. */
  method Expand(m: Machine, c: Config, next: seq<Config>, visited: set<Config>)
    returns (next': seq<Config>, visited': set<Config>)
    ensures Discovery(next', visited') == AddAll(Discovery(next, visited), Successors(m.transitions, c))
  {
    next', visited' := next, visited;
    var head := HeadSymbol(c.tapeRight);
    for j := 0 to |m.transitions|
      invariant Discovery(next', visited') == AddAll(Discovery(next, visited), Successors(m.transitions[..j], c))
    {
      var rule := m.transitions[j];
      if rule.currentState == c.state && rule.readSymbol == head {
        var newConfig := Apply(rule, c);
        if newConfig !in visited' {
          visited' := visited' + {newConfig};
          next' := next' + [newConfig];
        }
      }
      StepRule(Discovery(next, visited), m.transitions, j, c);
    }
    assert m.transitions[..|m.transitions|] == m.transitions;
  }

  /** Simulate `m` on `input` breadth-first. The queue holds whole levels;
      the fallback after the loop is unreachable because the queue holds
      exactly one non-empty level at the head of every iteration. */
  method Execute(m: Machine, input: string, maxSteps: int) returns (outcome: Outcome)
    ensures outcome == Simulate(m, input, maxSteps)
  {
    var queue: seq<seq<Config>> := [[Initial(m, input)]];
    var visited: set<Config> := {};
    var count: nat := 0;
    while queue != []
      invariant |queue| == 1 && queue[0] != []
      invariant Explore(m, NextLevel(m), queue[0], visited, count, maxSteps) == Simulate(m, input, maxSteps)
      decreases if count < maxSteps then maxSteps - count else 0
    {
      var current := queue[0];
      queue := queue[1..];
      var next: seq<Config> := [];
      ghost var visited0, count0 := visited, count;
      for i := 0 to |current|
        invariant count == count0 + i
        invariant forall j :: 0 <= j < i ==> !Halting(m, current[j])
        invariant Discovery(next, visited) == AddAll(Discovery([], visited0), Stream(m, current[..i]))
      {
        var c := current[i];
        count := count + 1;
        if c.state == m.accept {
          ExploreAtHalt(m, NextLevel(m), current, visited0, count0, maxSteps, i);
          return Accepted(count, current);
        }
        if c.state == m.reject {
          ExploreAtHalt(m, NextLevel(m), current, visited0, count0, maxSteps, i);
          return Rejected(count, current);
        }
        next, visited := Expand(m, c, next, visited);
        StepLevel(m, Discovery([], visited0), current, i);
        assert forall j :: 0 <= j < i + 1 ==> !Halting(m, current[j]);
      }
      assert current[..|current|] == current;
      assert NextLevel(m)(current, visited0) == Discovery(next, visited);
      assert FirstHalt(m, current) == None;
      ExploreAfterLevel(m, NextLevel(m), current, visited0, count0, maxSteps, next, visited, count);
      if next != [] {
        queue := queue + [next];
      } else {
        return Stopped(count, NoSuccessors);
      }
      if count >= maxSteps {
        return Stopped(count, StepBound);
      }
      assert queue == [next];
    }
    assert false;
    outcome := Rejected(count, []);
  }
}
