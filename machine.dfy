/** The machine description, configurations, and the pure pieces of one
    simulation step of traceTM: the head symbol, the successor of a
    configuration under one rule, the successors of a configuration under all
    rules, and the one-line rendering of a configuration. */
module TuringMachine {

  /** One transition line `currentState,readSymbol,nextState,writeSymbol,direction`.
      Every field is the raw text between commas, so a symbol may be empty or
      longer than one character. */
  datatype Rule = Rule(
    currentState: string,
    readSymbol: string,
    nextState: string,
    writeSymbol: string,
    direction: string)

  /** A machine description as the loader builds it. Only `start`, `accept`,
      `reject` and `transitions` are read by the simulation; the rest is
      carried along for display. */
  datatype Machine = Machine(
    name: string,
    states: seq<string>,
    inputAlphabet: seq<string>,
    tapeAlphabet: seq<string>,
    start: string,
    accept: string,
    reject: string,
    transitions: seq<Rule>)

  /** A configuration `(tape_left, state, tape_right)`: `tapeRight` starts
      with the cell under the head; when it is empty the head rests on an
      implicit blank. Equality is structural. */
  datatype Config = Config(tapeLeft: string, state: string, tapeRight: string)

  /** The blank symbol read from an exhausted right half. */
  const Blank: string := "_"

  /** The right half as it is shown: the implicit blank made explicit. */
  function Visible(tapeRight: string): (v: string)
    ensures tapeRight <= v
    ensures |v| == if tapeRight == [] then 1 else |tapeRight|
  {
    if tapeRight == [] then Blank else tapeRight
  }

  /** The symbol under the head: the first cell of the right half, or the
      blank when the right half is empty. It is always one character long. */
  function HeadSymbol(tapeRight: string): (h: string)
    ensures |h| == 1 && h == Visible(tapeRight)[..1]
  {
    if |tapeRight| > 0 then [tapeRight[0]] else Blank
  }

  /** The right half without its first cell (`tape_right[1:]`); empty stays empty. */
  function Rest(tapeRight: string): (s: string)
    ensures HeadSymbol(tapeRight) + s == Visible(tapeRight)
    ensures |s| == if tapeRight == [] then 0 else |tapeRight| - 1
  {
    if |tapeRight| > 0 then tapeRight[1..] else ""
  }

  /** A rule fires on a configuration when its current state is the
      configuration's state and its read symbol is the head symbol. */
  predicate Matches(rule: Rule, c: Config) {
    rule.currentState == c.state && rule.readSymbol == HeadSymbol(c.tapeRight)
  }

  /** The configuration a rule produces: the written symbol is appended to the
      left half, the head cell is dropped from the right half, and the state
      becomes the rule's next state. The direction field is not consulted, and
      the right half is cut with an explicit length test, as `execute_tm`
      does at its line 77. */
  function Apply(rule: Rule, c: Config): (n: Config)
    ensures n.state == rule.nextState
    ensures n.tapeLeft == c.tapeLeft + rule.writeSymbol
    ensures n.tapeRight == Rest(c.tapeRight)
    ensures c.tapeRight != [] ==> c.tapeRight == [c.tapeRight[0]] + n.tapeRight
  {
    var newTapeLeft := c.tapeLeft + rule.writeSymbol;
    var newTapeRight := if |c.tapeRight| > 1 then c.tapeRight[1..] else "";
    Config(newTapeLeft, rule.nextState, newTapeRight)
  }

  /** The contribution of one rule to the successors of `c`. */
  function Fire(rule: Rule, c: Config): seq<Config> {
    if Matches(rule, c) then [Apply(rule, c)] else []
  }

  /** The successors of `c`, one per matching rule, in declaration order
      (defined on the last rule so that a prefix grows by one rule at a time). */
  function Successors(rules: seq<Rule>, c: Config): (s: seq<Config>)
    ensures |s| <= |rules|
    decreases |rules|
  {
    if rules == [] then []
    else Successors(rules[..|rules| - 1], c) + Fire(rules[|rules| - 1], c)
  }

  /** Every successor has moved one cell right: its left half extends that
      of `c`, and its right half has lost its head cell. */
  lemma {:induction false} SuccessorsMoveRight(rules: seq<Rule>, c: Config)
    ensures forall k :: 0 <= k < |Successors(rules, c)| ==>
              c.tapeLeft <= Successors(rules, c)[k].tapeLeft && Successors(rules, c)[k].tapeRight == Rest(c.tapeRight)
    decreases |rules|
  {
    if rules != [] {
      var init := rules[..|rules| - 1];
      SuccessorsMoveRight(init, c);
      var s := Successors(rules, c);
      var s0 := Successors(init, c);
      forall k | 0 <= k < |s|
        ensures c.tapeLeft <= s[k].tapeLeft && s[k].tapeRight == Rest(c.tapeRight)
      {
        if k < |s0| {
          assert s[k] == s0[k];
        } else {
          assert s[k] in Fire(rules[|rules| - 1], c);
        }
      }
    }
  }

  /** The positions of the rules that fire on `c`, in increasing order. */
  function MatchingIndices(rules: seq<Rule>, c: Config): (ix: seq<nat>)
    ensures forall t :: 0 <= t < |ix| ==> ix[t] < |rules| && Matches(rules[ix[t]], c)
    ensures forall s, t :: 0 <= s < t < |ix| ==> ix[s] < ix[t]
    ensures forall i :: 0 <= i < |rules| && Matches(rules[i], c) ==> i in ix
    decreases |rules|
  {
    if rules == [] then []
    else MatchingIndices(rules[..|rules| - 1], c)
         + (if Matches(rules[|rules| - 1], c) then [|rules| - 1] else [])
  }

  /** Successors are exactly the applications of the matching rules, one each,
      in the order the rules are declared. */
  lemma {:induction false} SuccessorsFollowRuleOrder(rules: seq<Rule>, c: Config)
    ensures |Successors(rules, c)| == |MatchingIndices(rules, c)|
    ensures forall t :: 0 <= t < |MatchingIndices(rules, c)| ==>
      Successors(rules, c)[t] == Apply(rules[MatchingIndices(rules, c)[t]], c)
    decreases |rules|
  {
    if rules != [] {
      var n := |rules| - 1;
      var init := rules[..n];
      SuccessorsFollowRuleOrder(init, c);
      var s, s0 := Successors(rules, c), Successors(init, c);
      var ix, ix0 := MatchingIndices(rules, c), MatchingIndices(init, c);
      assert s == s0 + Fire(rules[n], c);
      assert ix == ix0 + (if Matches(rules[n], c) then [n] else []);
      forall t | 0 <= t < |ix|
        ensures s[t] == Apply(rules[ix[t]], c)
      {
        if t < |ix0| {
          assert s[t] == s0[t] && ix[t] == ix0[t];
          assert rules[ix0[t]] == init[ix0[t]];
        } else {
          assert ix[t] == n && s[t] == Apply(rules[n], c);
        }
      }
    }
  }

  /** A configuration has no successors exactly when no rule fires on it. */
  lemma {:induction false} NoRuleFires(rules: seq<Rule>, c: Config)
    ensures Successors(rules, c) == [] <==> forall i :: 0 <= i < |rules| ==> !Matches(rules[i], c)
    decreases |rules|
  {
    if rules != [] {
      var init := rules[..|rules| - 1];
      NoRuleFires(init, c);
      if forall i :: 0 <= i < |init| ==> !Matches(init[i], c) {
        assert forall i :: 0 <= i < |init| ==> init[i] == rules[i];
      } else {
        var i :| 0 <= i < |init| && Matches(init[i], c);
        assert rules[i] == init[i];
      }
    }
  }

  /** A rule whose read symbol is not exactly one character never fires. */
  lemma WideReadSymbolNeverFires(rule: Rule, c: Config)
    requires |rule.readSymbol| != 1
    ensures !Matches(rule, c)
    ensures Fire(rule, c) == []
  {
  }

  /** The direction field has no effect: rules that differ only in their
      directions produce the same successors. */
  lemma {:induction false} DirectionIgnored(rules: seq<Rule>, others: seq<Rule>, c: Config)
    requires |rules| == |others|
    requires forall i :: 0 <= i < |rules| ==> others[i] == rules[i].(direction := others[i].direction)
    ensures Successors(rules, c) == Successors(others, c)
    decreases |rules|
  {
    if rules != [] {
      DirectionIgnored(rules[..|rules| - 1], others[..|others| - 1], c);
      var r, o := rules[|rules| - 1], others[|others| - 1];
      assert Matches(r, c) == Matches(o, c);
      assert Apply(r, c) == Apply(o, c);
    }
  }

  /** An empty right half and a right half holding one explicit blank have
      the same successors: the head reads the blank in both, and both leave an
      empty right half behind. */
  lemma {:induction false} ImplicitBlankIsExplicitBlank(rules: seq<Rule>, left: string, state: string)
    ensures Successors(rules, Config(left, state, "")) == Successors(rules, Config(left, state, Blank))
    decreases |rules|
  {
    if rules != [] {
      ImplicitBlankIsExplicitBlank(rules[..|rules| - 1], left, state);
      var r := rules[|rules| - 1];
      assert HeadSymbol("") == HeadSymbol(Blank);
      assert Apply(r, Config(left, state, "")) == Apply(r, Config(left, state, Blank));
    }
  }

  /** The rendering `tape_left[state]head rest` used to display a configuration. */
  function Render(c: Config): (s: string)
    ensures s == c.tapeLeft + "[" + c.state + "]" + Visible(c.tapeRight)
    ensures |s| == |c.tapeLeft| + |c.state| + 2 + |Visible(c.tapeRight)|
  {
    c.tapeLeft + "[" + c.state + "]" + HeadSymbol(c.tapeRight) + Rest(c.tapeRight)
  }

  /** The head symbol is the character shown right after the closing bracket. */
  lemma RenderShowsHead(c: Config)
    ensures Render(c)[|c.tapeLeft| + |c.state| + 2] == HeadSymbol(c.tapeRight)[0]
    ensures Render(c)[|c.tapeLeft|] == '[' && Render(c)[|c.tapeLeft| + |c.state| + 1] == ']'
  {
    var s := Render(c);
    var v := Visible(c.tapeRight);
    assert s == (c.tapeLeft + "[" + c.state + "]") + v;
    assert s[|c.tapeLeft| + |c.state| + 2] == v[0];
  }

  /** If `s` is `a + [x] + b`, then position `|a|` of `s` holds `x`. */
  lemma SplitAt(s: string, a: string, x: char, b: string)
    requires s == a + [x] + b
    ensures s[|a|] == x && s[..|a|] == a && s[|a| + 1..] == b
  {
    assert s == a + ([x] + b);
  }

  /** Two ways of splitting `s` around `mark`, with no `mark` in either
      prefix, are the same split: both prefixes end at the first `mark`. */
  lemma PrefixBeforeMarker(s: string, a1: string, b1: string, a2: string, b2: string, mark: char)
    requires s == a1 + [mark] + b1 && s == a2 + [mark] + b2
    requires mark !in a1 && mark !in a2
    ensures a1 == a2 && b1 == b2
  {
    SplitAt(s, a1, mark, b1);
    SplitAt(s, a2, mark, b2);
  }

  /** The rendering read as a left half, `[`, and the bracketed remainder. */
  lemma RenderSplit(c: Config)
    ensures Render(c) == c.tapeLeft + ['['] + (c.state + [']'] + Visible(c.tapeRight))
  {
    var l, q, v := c.tapeLeft, c.state, Visible(c.tapeRight);
    calc {
      Render(c);
      l + "[" + q + "]" + v;
      { assert l + "[" + q + "]" + v == l + ("[" + (q + "]" + v)); }
      l + ['['] + (q + [']'] + v);
    }
  }

  /** A rendering determines the configuration, up to the implicit blank,
      when no left half contains `[` and no state contains `]`. */
  lemma RenderInjective(c1: Config, c2: Config)
    requires '[' !in c1.tapeLeft && '[' !in c2.tapeLeft
    requires ']' !in c1.state && ']' !in c2.state
    requires Render(c1) == Render(c2)
    ensures c1.tapeLeft == c2.tapeLeft && c1.state == c2.state
    ensures Visible(c1.tapeRight) == Visible(c2.tapeRight)
  {
    var b1 := c1.state + [']'] + Visible(c1.tapeRight);
    var b2 := c2.state + [']'] + Visible(c2.tapeRight);
    RenderSplit(c1);
    RenderSplit(c2);
    PrefixBeforeMarker(Render(c1), c1.tapeLeft, b1, c2.tapeLeft, b2, '[');
    PrefixBeforeMarker(b1, c1.state, Visible(c1.tapeRight), c2.state, Visible(c2.tapeRight), ']');
  }

  /** The rendering cannot tell an empty right half from one explicit blank. */
  lemma RenderBlankAmbiguity(left: string, state: string)
    ensures Config(left, state, "") != Config(left, state, Blank)
    ensures Render(Config(left, state, "")) == Render(Config(left, state, Blank))
  {
  }
}
