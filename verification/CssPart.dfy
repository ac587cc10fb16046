/** What a walk that stops short may have reported: some of the page's facts, in order, each with some of its longhands. */
module CssPart {
  import opened Options
  import opened JsText
  import opened AuthoredReading
  import opened NestedSelectors
  import opened CssPage

  // ---- Everything a walk can come across ----

  function ResolvedSelector(limits: WalkLimits, selector: Option<JsString>, parent: Option<JsString>): Option<JsString> {
    if selector.None? then None else ResolveStyle(limits.selectorLength, selector.value, parent)
  }

  /** The fact of a rule under a selector that matches. */
  function OwnFact(limits: WalkLimits, page: Page, selector: Option<JsString>, style: Style): seq<Fact> {
    if selector.Some? && page.matches(selector.value) == Some(true) then StyleFacts(limits, selector.value, style) else []
  }

  /** The facts of a list of rules as far as the bounds on depth and length let a walk go. */
  function AllRules(limits: WalkLimits, page: Page, list: nat, parent: Option<JsString>, depth: nat,
                    active: set<nat>): seq<Fact>
    decreases Room(limits, depth), 3, 0
  {
    if depth > limits.cssRuleDepth then [] else AllFrom(limits, page, list, 0, parent, depth, active)
  }

  function AllFrom(limits: WalkLimits, page: Page, list: nat, index: nat, parent: Option<JsString>, depth: nat,
                   active: set<nat>): seq<Fact>
    requires depth <= limits.cssRuleDepth
    decreases Room(limits, depth), 2, if index <= limits.cssRules then limits.cssRules + 1 - index else 0
  {
    var rule := page.lists(list).at(index);
    if rule.None? || index >= limits.cssRules then []
    else AllOfRule(limits, page, rule.value, parent, depth, active) + AllFrom(limits, page, list, index + 1, parent, depth, active)
  }

  function AllOfRule(limits: WalkLimits, page: Page, rule: Rule, parent: Option<JsString>, depth: nat,
                     active: set<nat>): seq<Fact>
    requires depth <= limits.cssRuleDepth
    decreases Room(limits, depth), 1, 1
  {
    match rule
    case ImportRule(_, _, _, _) => AllImported(limits, page, rule, depth, active)
    case StyleRule(selector, style, nested) =>
      var resolved := ResolvedSelector(limits, selector, parent);
      OwnFact(limits, page, resolved, style) +
      if resolved.None? || page.matches(resolved.value).None? then []
      else AllNested(limits, page, nested, resolved, depth, active)
    case NestedRule(style, nested) =>
      OwnFact(limits, page, parent, style) +
      if parent.Some? && page.matches(parent.value).None? then [] else AllNested(limits, page, nested, parent, depth, active)
    case GroupRule(_, nested) => AllNested(limits, page, nested, parent, depth, active)
    case OtherRule => []
  }

  function AllNested(limits: WalkLimits, page: Page, nested: Option<nat>, parent: Option<JsString>, depth: nat,
                     active: set<nat>): seq<Fact>
    requires depth <= limits.cssRuleDepth
    decreases Room(limits, depth), 1, 0
  {
    if nested.None? || depth == limits.cssRuleDepth then []
    else AllRules(limits, page, nested.value, parent, depth + 1, active)
  }

  /** Whether an import is followed, wherever it stands. */
  predicate Follows(page: Page, rule: Rule, active: set<nat>)
    requires rule.ImportRule?
  {
    && rule.target.Imported? && IsTool(page, rule.target.sheet) == Some(false) && rule.target.sheet !in active
    && !rule.urlFails && rule.url.Some? && page.rulesOf(rule.target.sheet).Some?
  }

  function AllImported(limits: WalkLimits, page: Page, rule: Rule, depth: nat, active: set<nat>): seq<Fact>
    requires rule.ImportRule? && depth <= limits.cssRuleDepth
    decreases Room(limits, depth), 1, 0
  {
    if depth == limits.cssRuleDepth || !Follows(page, rule, active) then []
    else AllRules(limits, page, page.rulesOf(rule.target.sheet).value, None, depth + 1, active + {rule.target.sheet})
  }

  function AllOfSheet(limits: WalkLimits, page: Page, sheet: nat): seq<Fact> {
    if IsTool(page, sheet) != Some(false) || page.urlOf(sheet).None? || page.urlOf(sheet).value.None?
       || page.rulesOf(sheet).None? then []
    else AllRules(limits, page, page.rulesOf(sheet).value, None, 0, {sheet})
  }

  function AllOfRoot(limits: WalkLimits, page: Page, sheets: nat -> Option<nat>, index: nat): seq<Fact>
    decreases if index <= limits.stylesheets * 2 then limits.stylesheets * 2 + 1 - index else 0
  {
    if index >= limits.stylesheets * 2 || sheets(index).None? then []
    else AllOfSheet(limits, page, sheets(index).value) + AllOfRoot(limits, page, sheets, index + 1)
  }

  function AllOfDocument(limits: WalkLimits, page: Page, regular: nat -> Option<nat>,
                         adopted: Option<nat -> Option<nat>>): seq<Fact> {
    AllOfRoot(limits, page, regular, 0) + if adopted.None? then [] else AllOfRoot(limits, page, adopted.value, 0)
  }

  lemma NextAll(limits: WalkLimits, page: Page, list: nat, index: nat, parent: Option<JsString>, depth: nat,
                active: set<nat>)
    requires depth <= limits.cssRuleDepth
    ensures AllFrom(limits, page, list, index, parent, depth, active)
         == if page.lists(list).at(index).None? || index >= limits.cssRules then []
            else AllOfRule(limits, page, page.lists(list).at(index).value, parent, depth, active)
                 + AllFrom(limits, page, list, index + 1, parent, depth, active)
  {
  }

  // ---- It is the whole where there is one ----

  /** Where a walk without budgets knows all the facts, they are these. */
  ghost predicate Agrees(walked: Option<seq<Fact>>, all: seq<Fact>) {
    walked.Some? ==> walked.value == all
  }

  lemma {:induction false} RulesAgree(limits: WalkLimits, page: Page, list: nat, parent: Option<JsString>, depth: nat,
                                      active: set<nat>)
    ensures Agrees(RulesFacts(limits, page, list, parent, depth, active), AllRules(limits, page, list, parent, depth, active))
    decreases Room(limits, depth), 2, 0
  {
    if depth <= limits.cssRuleDepth { ListsAgree(limits, page, list, 0, parent, depth, active); }
  }

  lemma {:induction false} ListsAgree(limits: WalkLimits, page: Page, list: nat, index: nat, parent: Option<JsString>,
                                      depth: nat, active: set<nat>)
    requires depth <= limits.cssRuleDepth
    ensures Agrees(FactsFrom(limits, page, list, index, parent, depth, active),
                   AllFrom(limits, page, list, index, parent, depth, active))
    decreases Room(limits, depth), 1, if index <= limits.cssRules then limits.cssRules + 1 - index else 0
  {
    hide RuleFacts, AllOfRule;
    var rule := page.lists(list).at(index);
    if rule.Some? && index < limits.cssRules {
      RuleAgrees(limits, page, rule.value, parent, depth, active);
      ListsAgree(limits, page, list, index + 1, parent, depth, active);
    }
  }

  lemma {:induction false} RuleAgrees(limits: WalkLimits, page: Page, rule: Rule, parent: Option<JsString>, depth: nat,
                                      active: set<nat>)
    requires depth <= limits.cssRuleDepth
    ensures Agrees(RuleFacts(limits, page, rule, parent, depth, active), AllOfRule(limits, page, rule, parent, depth, active))
    decreases Room(limits, depth), 0, 0
  {
    hide RulesFacts, AllRules, StyleFacts, ResolveStyle;
    if depth < limits.cssRuleDepth {
      match rule
      case ImportRule(target, _, _, _) =>
        if Follows(page, rule, active) {
          RulesAgree(limits, page, page.rulesOf(target.sheet).value, None, depth + 1, active + {target.sheet});
        }
      case StyleRule(selector, _, nested) =>
        if nested.Some? {
          RulesAgree(limits, page, nested.value, ResolvedSelector(limits, selector, parent), depth + 1, active);
        }
      case NestedRule(_, nested) => if nested.Some? { RulesAgree(limits, page, nested.value, parent, depth + 1, active); }
      case GroupRule(_, nested) => if nested.Some? { RulesAgree(limits, page, nested.value, parent, depth + 1, active); }
      case OtherRule =>
    }
  }

  lemma {:induction false} RootsAgree(limits: WalkLimits, page: Page, sheets: nat -> Option<nat>, index: nat)
    ensures Agrees(RootFacts(limits, page, sheets, index), AllOfRoot(limits, page, sheets, index))
    decreases if index <= limits.stylesheets * 2 then limits.stylesheets * 2 + 1 - index else 0
  {
    hide RulesFacts, AllRules;
    if index < limits.stylesheets * 2 && sheets(index).Some? {
      var sheet := sheets(index).value;
      if page.rulesOf(sheet).Some? { RulesAgree(limits, page, page.rulesOf(sheet).value, None, 0, {sheet}); }
      RootsAgree(limits, page, sheets, index + 1);
    }
  }

  /** What a walk may have reported of a document is some of what a walk without budgets reports of it. */
  lemma AllIsWhole(limits: WalkLimits, page: Page, regular: nat -> Option<nat>, adopted: Option<nat -> Option<nat>>)
    requires DocumentFacts(limits, page, regular, adopted).Some?
    ensures DocumentFacts(limits, page, regular, adopted).value == AllOfDocument(limits, page, regular, adopted)
  {
    RootsAgree(limits, page, regular, 0);
    if adopted.Some? { RootsAgree(limits, page, adopted.value, 0); }
  }

  // ---- Some of it ----

  /** The first longhands of a fact. */
  ghost predicate PartOf(a: Fact, b: Fact) {
    a.selector == b.selector && a.longhands <= b.longhands
  }

  /** Some of the facts, in order, each with some of its first longhands. */
  ghost predicate Drawn(some: seq<Fact>, all: seq<Fact>)
    decreases |all|
  {
    some == [] ||
    (all != [] &&
     var init := all[..|all| - 1];
     Drawn(some, init) || (PartOf(some[|some| - 1], all[|all| - 1]) && Drawn(some[..|some| - 1], init)))
  }

  lemma {:induction false} DrawnConcat(a: seq<Fact>, all: seq<Fact>, b: seq<Fact>, more: seq<Fact>)
    requires Drawn(a, all) && Drawn(b, more)
    ensures Drawn(a + b, all + more)
    decreases |more|
  {
    if more == [] {
      assert b == [];
      assert a + b == a && all + more == all;
    } else {
      var init := more[..|more| - 1];
      assert (all + more)[..|all + more| - 1] == all + init;
      if Drawn(b, init) {
        DrawnConcat(a, all, b, init);
      } else {
        DrawnConcat(a, all, b[..|b| - 1], init);
        assert (a + b)[..|a + b| - 1] == a + b[..|b| - 1];
      }
    }
  }

  /** What was reported since is some of this. */
  ghost predicate Reports(before: seq<Fact>, after: seq<Fact>, all: seq<Fact>) {
    before <= after && Drawn(after[|before|..], all)
  }

  lemma ReportsNothing(facts: seq<Fact>, all: seq<Fact>)
    ensures Reports(facts, facts, all)
  {
    assert facts[|facts|..] == [];
  }

  lemma ReportsThen(a: seq<Fact>, b: seq<Fact>, c: seq<Fact>, all: seq<Fact>, more: seq<Fact>)
    requires Reports(a, b, all) && Reports(b, c, more)
    ensures Reports(a, c, all + more)
  {
    assert c[|a|..] == b[|a|..] + c[|b|..];
    DrawnConcat(b[|a|..], all, c[|b|..], more);
  }

  /** What was reported is as much some of anything that goes on from there. */
  lemma ReportsSome(a: seq<Fact>, b: seq<Fact>, all: seq<Fact>, more: seq<Fact>)
    requires Reports(a, b, all)
    ensures Reports(a, b, all + more) && all + [] == all && [] + all == all
  {
    ReportsNothing(b, more);
    ReportsThen(a, b, b, all, more);
  }

  /** In a loop over `all`: what was reported is some of what comes before `rest`. */
  ghost predicate ReportsUpTo(before: seq<Fact>, now: seq<Fact>, all: seq<Fact>, rest: seq<Fact>) {
    |rest| <= |all| && all[|all| - |rest|..] == rest && Reports(before, now, all[..|all| - |rest|])
  }

  lemma UpToAll(facts: seq<Fact>, all: seq<Fact>)
    ensures ReportsUpTo(facts, facts, all, all) && Reports(facts, facts, all)
  {
    ReportsNothing(facts, []);
    ReportsNothing(facts, all);
  }

  lemma UpToReports(before: seq<Fact>, now: seq<Fact>, all: seq<Fact>, rest: seq<Fact>)
    requires ReportsUpTo(before, now, all, rest)
    ensures Reports(before, now, all)
  {
    ReportsSome(before, now, all[..|all| - |rest|], rest);
    assert all == all[..|all| - |rest|] + rest;
  }

  lemma UpToThen(before: seq<Fact>, mid: seq<Fact>, now: seq<Fact>, all: seq<Fact>, own: seq<Fact>, rest: seq<Fact>)
    requires ReportsUpTo(before, mid, all, own + rest) && Reports(mid, now, own)
    ensures ReportsUpTo(before, now, all, rest) && Reports(before, now, all)
  {
    var n := |all| - |own + rest|;
    ReportsThen(before, mid, now, all[..n], own);
    assert all[n..][..|own|] == own && all[n..][|own|..] == rest;
    assert all[..n] + own == all[..n + |own|];
    UpToReports(before, now, all, rest);
  }

  lemma ReportsFact(facts: seq<Fact>, fact: Fact, whole: Fact)
    requires PartOf(fact, whole)
    ensures Reports(facts, facts + [fact], [whole])
  {
    assert (facts + [fact])[|facts|..] == [fact];
    assert [fact][..0] == [] && [whole][..0] == [];
  }

  // ---- Fewer names, fewer longhands ----

  lemma {:induction false} NamesPrefix(limits: WalkLimits, style: Style, count: nat, all: nat)
    requires count <= all
    ensures Names(limits, style, count) <= Names(limits, style, all)
    decreases all
  {
    if count < all { NamesPrefix(limits, style, count, all - 1); }
  }

  lemma {:induction false} LonghandsPrefix(limits: WalkLimits, style: Style, some: seq<JsString>, all: seq<JsString>)
    requires some <= all
    ensures LonghandsOf(limits, style, some) <= LonghandsOf(limits, style, all)
    decreases |all|
  {
    hide LonghandOf;
    if |some| < |all| {
      LonghandsPrefix(limits, style, some, all[..|all| - 1]);
    } else {
      assert some == all;
    }
  }
}
