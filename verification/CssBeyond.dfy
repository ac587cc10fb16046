/**
 * The facts of a page when imports are followed at any depth up to a bound, and where the walk, which passes over the
 * imports at its deepest level, falls short of them.
 */
module CssBeyond {
  import opened Options
  import opened JsText
  import opened CssScan
  import opened AuthoredReading
  import opened NestedSelectors
  import opened CssPage
  import opened CssCost

  /** What is inside a rule: nothing to enter, something that cannot be classified, or a list of rules. */
  datatype Inner = Closed | Barred | Open(list: nat, parent: Option<JsString>, active: set<nat>)

  function ResolvedBy(limits: WalkLimits, rule: Rule, parent: Option<JsString>): Option<JsString>
    requires rule.StyleRule?
  {
    if rule.selector.None? then None else ResolveStyle(limits.selectorLength, rule.selector.value, parent)
  }

  function Entering(nested: Option<nat>, parent: Option<JsString>, active: set<nat>): Inner {
    if nested.None? then Closed else Open(nested.value, parent, active)
  }

  /** An import is entered unless it is the tool's, on the way here already, or cannot be read. */
  function Inside(limits: WalkLimits, page: Page, rule: Rule, parent: Option<JsString>, active: set<nat>): Inner {
    match rule
    case ImportRule(target, url, urlFails, _) =>
      if !target.Imported? then Closed
      else if IsTool(page, target.sheet).None? then Barred
      else if IsTool(page, target.sheet).value || target.sheet in active || urlFails || url.None? then Closed
      else Entering(page.rulesOf(target.sheet), None, active + {target.sheet})
    case StyleRule(_, _, nested) =>
      var resolved := ResolvedBy(limits, rule, parent);
      if resolved.None? || page.matches(resolved.value).None? then Closed else Entering(nested, resolved, active)
    case NestedRule(_, nested) =>
      if parent.Some? && page.matches(parent.value).None? then Closed else Entering(nested, parent, active)
    case GroupRule(_, nested) => Entering(nested, parent, active)
    case OtherRule => Closed
  }

  /** The fact of the rule itself. */
  function Own(limits: WalkLimits, page: Page, rule: Rule, parent: Option<JsString>): seq<Fact> {
    match rule
    case StyleRule(_, style, _) =>
      var resolved := ResolvedBy(limits, rule, parent);
      if resolved.Some? && page.matches(resolved.value) == Some(true) then StyleFacts(limits, resolved.value, style) else []
    case NestedRule(style, _) =>
      if parent.Some? && page.matches(parent.value) == Some(true) then StyleFacts(limits, parent.value, style) else []
    case _ => []
  }

  // ---- Every import followed ----

  function Below(bound: nat, depth: nat): nat {
    if depth <= bound then bound + 1 - depth else 0
  }

  function WholeRules(limits: WalkLimits, page: Page, bound: nat, list: nat, parent: Option<JsString>, depth: nat,
                      active: set<nat>): Option<seq<Fact>>
    decreases Below(bound, depth), 2, 0
  {
    if depth > bound then None else WholeFrom(limits, page, bound, list, 0, parent, depth, active)
  }

  function WholeFrom(limits: WalkLimits, page: Page, bound: nat, list: nat, index: nat, parent: Option<JsString>,
      depth: nat,
                     active: set<nat>): Option<seq<Fact>>
    requires depth <= bound
    decreases Below(bound, depth), 1, if index <= limits.cssRules then limits.cssRules + 1 - index else 0
  {
    var rule := page.lists(list).at(index);
    if rule.None? then Some([])
    else if index >= limits.cssRules then None
    else Both(WholeRule(limits, page, bound, rule.value, parent, depth, active),
              WholeFrom(limits, page, bound, list, index + 1, parent, depth, active))
  }

  /** What is inside a rule at the bound is not known, whether it is an import or not. */
  function WholeRule(limits: WalkLimits, page: Page, bound: nat, rule: Rule, parent: Option<JsString>, depth: nat,
                     active: set<nat>): Option<seq<Fact>>
    requires depth <= bound
    decreases Below(bound, depth), 0, 0
  {
    match Inside(limits, page, rule, parent, active)
    case Closed => Some(Own(limits, page, rule, parent))
    case Barred => None
    case Open(list, inner, more) =>
      if depth == bound then None
      else Both(Some(Own(limits, page, rule, parent)), WholeRules(limits, page, bound, list, inner, depth + 1, more))
  }

  function WholeSheet(limits: WalkLimits, page: Page, bound: nat, sheet: nat): Option<seq<Fact>> {
    if IsTool(page, sheet).None? then None
    else if IsTool(page, sheet).value || page.urlOf(sheet).None? || page.urlOf(sheet).value.None? || page.rulesOf(sheet).None? then Some([])
    else WholeRules(limits, page, bound, page.rulesOf(sheet).value, None, 0, {sheet})
  }

  function WholeRoot(limits: WalkLimits, page: Page, bound: nat, sheets: nat -> Option<nat>,
      index: nat): Option<seq<Fact>>
    decreases if index <= limits.stylesheets * 2 then limits.stylesheets * 2 + 1 - index else 0
  {
    if index >= limits.stylesheets * 2 then None
    else if sheets(index).None? then Some([])
    else Both(WholeSheet(limits, page, bound, sheets(index).value), WholeRoot(limits, page, bound, sheets, index + 1))
  }

  function WholeDocument(limits: WalkLimits, page: Page, bound: nat, regular: nat -> Option<nat>,
                         adopted: Option<nat -> Option<nat>>): Option<seq<Fact>> {
    Both(WholeRoot(limits, page, bound, regular, 0),
         if adopted.None? then Some([]) else WholeRoot(limits, page, bound, adopted.value, 0))
  }

  // ---- Where an import is passed over ----

  /** At the walk's deepest level there is an import that would be entered, or that cannot be classified. */
  predicate BeyondRules(limits: WalkLimits, page: Page, list: nat, parent: Option<JsString>, depth: nat,
      active: set<nat>)
    decreases Room(limits, depth), 2, 0
  {
    depth <= limits.cssRuleDepth && BeyondFrom(limits, page, list, 0, parent, depth, active)
  }

  predicate BeyondFrom(limits: WalkLimits, page: Page, list: nat, index: nat, parent: Option<JsString>, depth: nat,
                       active: set<nat>)
    requires depth <= limits.cssRuleDepth
    decreases Room(limits, depth), 1, if index <= limits.cssRules then limits.cssRules + 1 - index else 0
  {
    var rule := page.lists(list).at(index);
    && rule.Some? && index < limits.cssRules
    && (BeyondRule(limits, page, rule.value, parent, depth, active)
        || BeyondFrom(limits, page, list, index + 1, parent, depth, active))
  }

  predicate BeyondRule(limits: WalkLimits, page: Page, rule: Rule, parent: Option<JsString>, depth: nat,
      active: set<nat>)
    requires depth <= limits.cssRuleDepth
    decreases Room(limits, depth), 0, 0
  {
    var inner := Inside(limits, page, rule, parent, active);
    if depth == limits.cssRuleDepth then rule.ImportRule? && !inner.Closed?
    else inner.Open? && BeyondRules(limits, page, inner.list, inner.parent, depth + 1, inner.active)
  }

  predicate BeyondRoot(limits: WalkLimits, page: Page, sheets: nat -> Option<nat>, index: nat)
    decreases if index <= limits.stylesheets * 2 then limits.stylesheets * 2 + 1 - index else 0
  {
    && index < limits.stylesheets * 2 && sheets(index).Some?
    && (BeyondSheet(limits, page, sheets(index).value) || BeyondRoot(limits, page, sheets, index + 1))
  }

  predicate BeyondSheet(limits: WalkLimits, page: Page, sheet: nat) {
    && IsTool(page, sheet) == Some(false) && page.urlOf(sheet).Some? && page.urlOf(sheet).value.Some? && page.rulesOf(sheet).Some?
    && BeyondRules(limits, page, page.rulesOf(sheet).value, None, 0, {sheet})
  }

  predicate BeyondDocument(limits: WalkLimits, page: Page, regular: nat -> Option<nat>,
      adopted: Option<nat -> Option<nat>>) {
    BeyondRoot(limits, page, regular, 0) || (adopted.Some? && BeyondRoot(limits, page, adopted.value, 0))
  }

  // ---- When the walk's facts are the whole ----

  /** What a walk would report of something, against the whole of it. */
  ghost predicate FallsShort(walked: Option<seq<Fact>>, whole: Option<seq<Fact>>, beyond: bool) {
    if walked.None? || beyond then whole.None? else whole == walked
  }

  lemma BothNothing(facts: Option<seq<Fact>>)
    ensures Both(Some([]), facts) == facts && Both(facts, Some([])) == facts && Both(facts, None) == None
  {
    if facts.Some? { assert [] + facts.value == facts.value && facts.value + [] == facts.value; }
  }

  lemma {:induction false} RulesAgree(limits: WalkLimits, page: Page, list: nat, parent: Option<JsString>, depth: nat,
      active: set<nat>)
    ensures FallsShort(RulesFacts(limits, page, list, parent, depth, active),
                       WholeRules(limits, page, limits.cssRuleDepth, list, parent, depth, active),
                       BeyondRules(limits, page, list, parent, depth, active))
    decreases Room(limits, depth), 2, 0
  {
    if depth <= limits.cssRuleDepth { ListsAgree(limits, page, list, 0, parent, depth, active); }
  }

  lemma {:induction false} ListsAgree(limits: WalkLimits, page: Page, list: nat, index: nat, parent: Option<JsString>,
      depth: nat, active: set<nat>)
    requires depth <= limits.cssRuleDepth
    ensures FallsShort(FactsFrom(limits, page, list, index, parent, depth, active),
                       WholeFrom(limits, page, limits.cssRuleDepth, list, index, parent, depth, active),
                       BeyondFrom(limits, page, list, index, parent, depth, active))
    decreases Room(limits, depth), 1, if index <= limits.cssRules then limits.cssRules + 1 - index else 0
  {
    hide RuleFacts, WholeRule, BeyondRule;
    var rule := page.lists(list).at(index);
    if rule.Some? && index < limits.cssRules {
      RuleAgrees(limits, page, rule.value, parent, depth, active);
      ListsAgree(limits, page, list, index + 1, parent, depth, active);
    }
  }

  lemma {:induction false} RuleAgrees(limits: WalkLimits, page: Page, rule: Rule, parent: Option<JsString>,
      depth: nat, active: set<nat>)
    requires depth <= limits.cssRuleDepth
    ensures FallsShort(RuleFacts(limits, page, rule, parent, depth, active),
                       WholeRule(limits, page, limits.cssRuleDepth, rule, parent, depth, active),
                       BeyondRule(limits, page, rule, parent, depth, active))
    decreases Room(limits, depth), 0, 0
  {
    hide RulesFacts, WholeRules, BeyondRules, StyleFacts, ResolveStyle, Both;
    BothNothing(Some(Own(limits, page, rule, parent)));
    var inner := Inside(limits, page, rule, parent, active);
    if inner.Open? && depth < limits.cssRuleDepth {
      BothNothing(RulesFacts(limits, page, inner.list, inner.parent, depth + 1, inner.active));
      RulesAgree(limits, page, inner.list, inner.parent, depth + 1, inner.active);
    }
  }

  lemma SheetAgrees(limits: WalkLimits, page: Page, sheet: nat)
    ensures FallsShort(SheetFacts(limits, page, sheet), WholeSheet(limits, page, limits.cssRuleDepth, sheet), BeyondSheet(limits, page, sheet))
  {
    hide RulesFacts, WholeRules, BeyondRules;
    if page.rulesOf(sheet).Some? { RulesAgree(limits, page, page.rulesOf(sheet).value, None, 0, {sheet}); }
  }

  lemma {:induction false} RootsAgree(limits: WalkLimits, page: Page, sheets: nat -> Option<nat>, index: nat)
    ensures FallsShort(RootFacts(limits, page, sheets, index), WholeRoot(limits, page, limits.cssRuleDepth, sheets, index),
                       BeyondRoot(limits, page, sheets, index))
    decreases if index <= limits.stylesheets * 2 then limits.stylesheets * 2 + 1 - index else 0
  {
    hide SheetFacts, WholeSheet, BeyondSheet;
    if index < limits.stylesheets * 2 && sheets(index).Some? {
      SheetAgrees(limits, page, sheets(index).value);
      RootsAgree(limits, page, sheets, index + 1);
    }
  }

  // ---- The whole does not depend on the bound ----

  lemma {:induction false} WholeDeeper(limits: WalkLimits, page: Page, bound: nat, further: nat, list: nat,
      parent: Option<JsString>, depth: nat,
                                       active: set<nat>)
    requires bound <= further && WholeRules(limits, page, bound, list, parent, depth, active).Some?
    ensures WholeRules(limits, page, further, list, parent, depth, active) == WholeRules(limits, page, bound, list, parent, depth, active)
    decreases Below(bound, depth), 2, 0
  {
    WholeListDeeper(limits, page, bound, further, list, 0, parent, depth, active);
  }

  lemma {:induction false} WholeListDeeper(limits: WalkLimits, page: Page, bound: nat, further: nat, list: nat,
      index: nat,
                                           parent: Option<JsString>, depth: nat, active: set<nat>)
    requires bound <= further && depth <= bound && WholeFrom(limits, page, bound, list, index, parent, depth, active).Some?
    ensures WholeFrom(limits, page, further, list, index, parent, depth, active) == WholeFrom(limits, page, bound, list, index, parent, depth, active)
    decreases Below(bound, depth), 1, if index <= limits.cssRules then limits.cssRules + 1 - index else 0
  {
    hide WholeRule;
    var rule := page.lists(list).at(index);
    if rule.Some? && index < limits.cssRules {
      WholeRuleDeeper(limits, page, bound, further, rule.value, parent, depth, active);
      WholeListDeeper(limits, page, bound, further, list, index + 1, parent, depth, active);
    }
  }

  lemma {:induction false} WholeRuleDeeper(limits: WalkLimits, page: Page, bound: nat, further: nat, rule: Rule,
      parent: Option<JsString>,
                                           depth: nat, active: set<nat>)
    requires bound <= further && depth <= bound && WholeRule(limits, page, bound, rule, parent, depth, active).Some?
    ensures WholeRule(limits, page, further, rule, parent, depth, active) == WholeRule(limits, page, bound, rule, parent, depth, active)
    decreases Below(bound, depth), 0, 0
  {
    hide WholeRules, Inside, Own;
    var inner := Inside(limits, page, rule, parent, active);
    if inner.Open? { WholeDeeper(limits, page, bound, further, inner.list, inner.parent, depth + 1, inner.active); }
  }

  lemma {:induction false} RootDeeper(limits: WalkLimits, page: Page, bound: nat, further: nat,
      sheets: nat -> Option<nat>, index: nat)
    requires bound <= further && WholeRoot(limits, page, bound, sheets, index).Some?
    ensures WholeRoot(limits, page, further, sheets, index) == WholeRoot(limits, page, bound, sheets, index)
    decreases if index <= limits.stylesheets * 2 then limits.stylesheets * 2 + 1 - index else 0
  {
    hide WholeRules;
    if sheets(index).Some? {
      var sheet := sheets(index).value;
      if page.rulesOf(sheet).Some? && WholeRules(limits, page, bound, page.rulesOf(sheet).value, None, 0, {sheet}).Some? {
        WholeDeeper(limits, page, bound, further, page.rulesOf(sheet).value, None, 0, {sheet});
      }
      RootDeeper(limits, page, bound, further, sheets, index + 1);
    }
  }

  /**
   * What a walk without budgets reports is the whole exactly when it passes over no import at its deepest level; and then
   * it is the whole at every greater depth too.
   */
  lemma WholeExactly(limits: WalkLimits, page: Page, regular: nat -> Option<nat>, adopted: Option<nat -> Option<nat>>)
    requires DocumentFacts(limits, page, regular, adopted).Some?
    ensures var facts := DocumentFacts(limits, page, regular, adopted);
      && (WholeDocument(limits, page, limits.cssRuleDepth, regular, adopted) == facts <==> !BeyondDocument(limits, page, regular, adopted))
      && (!BeyondDocument(limits, page, regular, adopted) ==>
            forall bound: nat :: bound >= limits.cssRuleDepth ==> WholeDocument(limits, page, bound, regular, adopted) == facts)
  {
    hide RootFacts, WholeRoot, BeyondRoot;
    RootsAgree(limits, page, regular, 0);
    if adopted.Some? { RootsAgree(limits, page, adopted.value, 0); }
    if !BeyondDocument(limits, page, regular, adopted) {
      forall bound: nat | bound >= limits.cssRuleDepth
        ensures WholeDocument(limits, page, bound, regular, adopted) == DocumentFacts(limits, page, regular, adopted)
      {
        RootDeeper(limits, page, limits.cssRuleDepth, bound, regular, 0);
        if adopted.Some? { RootDeeper(limits, page, limits.cssRuleDepth, bound, adopted.value, 0); }
      }
    }
  }

  /** With such an import the whole is not known at that depth. */
  lemma BeyondUnknown(limits: WalkLimits, page: Page, regular: nat -> Option<nat>, adopted: Option<nat -> Option<nat>>)
    requires BeyondDocument(limits, page, regular, adopted)
    ensures WholeDocument(limits, page, limits.cssRuleDepth, regular, adopted).None?
  {
    hide RootFacts, WholeRoot, BeyondRoot;
    RootsAgree(limits, page, regular, 0);
    if adopted.Some? { RootsAgree(limits, page, adopted.value, 0); }
  }

  // ---- A page that loses a fact, and one that loses nothing ----

  const LETTER: JsString := [97]

  function OnlyFirst(): nat -> Option<nat> {
    i => if i == 0 then Some(0) else None
  }

  /** Groups down to the deepest level, where an import leads to a style rule. */
  function LostRule(limits: WalkLimits, style: Style, list: nat): Rule {
    if list < limits.cssRuleDepth then GroupRule(0, Some(list + 1))
    else if list == limits.cssRuleDepth then ImportRule(Imported(1), Some([]), false, None)
    else StyleRule(Some(LETTER), style, None)
  }

  function LostList(limits: WalkLimits, style: Style, list: nat): RuleList {
    RuleList(None, i => if i == 0 then Some(LostRule(limits, style, list)) else None)
  }

  function PageOf(lists: nat -> RuleList, rulesOf: nat -> Option<nat>, expand: Expander): Page {
    Page(lists, rulesOf, _ => Some(false), false, _ => Some(Some([])), _ => Some(true), _ => Some(0), expand)
  }

  function LostPage(limits: WalkLimits, style: Style, expand: Expander): Page {
    PageOf((list: nat) => LostList(limits, style, list),
           (sheet: nat) => if sheet == 0 then Some(0) else if sheet == 1 then Some(limits.cssRuleDepth + 1) else None, expand)
  }

  /** A need of that many rules and no more than some stylesheets. */
  ghost predicate OnlyRules(need: Option<Use>, rules: nat, sheets: nat) {
    && need.Some? && need.value.rules == rules && need.value.reach <= rules && need.value.sheets == sheets
    && need.value.declarations == 0 && need.value.records == 0 && need.value.bytes == 0
  }

  lemma LetterResolves(limit: nat)
    requires limit >= 1
    ensures ResolveStyle(limit, LETTER, None) == Some(LETTER)
  {
    LexNothing(OUTSIDE);
    Snoc(OUTSIDE, [], 97, []);
    assert LETTER == [] + [97];
  }

  lemma LostRules(limits: WalkLimits, style: Style, expand: Expander, list: nat)
    ensures var rules := LostPage(limits, style, expand).lists(list);
      rules.length.None? && rules.at(0) == Some(LostRule(limits, style, list)) && rules.at(1).None?
  {
  }

  /** A group with a list inside it, above the deepest level. */
  lemma GroupLeads(limits: WalkLimits, page: Page, bound: nat, list: nat, depth: nat, active: set<nat>)
    requires depth < limits.cssRuleDepth <= bound
    ensures var rule := GroupRule(0, Some(list));
      && RuleFacts(limits, page, rule, None, depth, active) == RulesFacts(limits, page, list, None, depth + 1, active)
      && WholeRule(limits, page, bound, rule, None, depth, active) == WholeRules(limits, page, bound, list, None, depth + 1, active)
      && OneRuleNeed(limits, page, rule, None, depth, active)
         == Then(Some(NOTHING.(rules := 1)), Then(Some(NOTHING), RulesNeed(limits, page, list, None, depth + 1, active)))
  {
    hide RulesFacts, WholeRules, RulesNeed, Then;
    BothNothing(WholeRules(limits, page, bound, list, None, depth + 1, active));
    var rule := GroupRule(0, Some(list));
    assert RuleFacts(limits, page, rule, None, depth, active) == NestedFacts(limits, page, Some(list), None, depth, active);
    assert RuleNeed(limits, page, rule, None, depth, active) == NestedNeed(limits, page, rule, Some(list), None, depth, active);
  }

  /** The import at the deepest level: nothing to the walk, and a fact one level further. */
  lemma ImportLeads(limits: WalkLimits, style: Style, expand: Expander)
    requires limits.cssRules >= 1 && limits.selectorLength >= 1
    ensures var page, depth := LostPage(limits, style, expand), limits.cssRuleDepth; var rule := LostRule(limits, style, depth);
      && RuleFacts(limits, page, rule, None, depth, {0}) == Some([])
      && WholeRule(limits, page, depth + 1, rule, None, depth, {0}) == Some(StyleFacts(limits, LETTER, style))
      && OneRuleNeed(limits, page, rule, None, depth, {0}) == Some(NOTHING.(rules := 1, reach := 1))
  {
    hide StyleFacts, ResolveStyle, WholeRules;
    var page, bound := LostPage(limits, style, expand), limits.cssRuleDepth + 1;
    LetterResolves(limits.selectorLength);
    LostRules(limits, style, expand, bound);
    WholeEndsAfterOne(limits, page, bound, bound, None, bound, {0} + {1});
    BothNothing(Some(StyleFacts(limits, LETTER, style)));
    var rule := LostRule(limits, style, limits.cssRuleDepth);
    assert Inside(limits, page, rule, None, {0}) == Open(bound, None, {0} + {1});
    assert RuleFacts(limits, page, rule, None, bound - 1, {0}) == ImportFacts(limits, page, rule, bound - 1, {0});
    assert RuleNeed(limits, page, rule, None, bound - 1, {0}) == ImportNeed(limits, page, rule, bound - 1, {0});
  }

  lemma {:induction false} LostBelow(limits: WalkLimits, style: Style, expand: Expander, depth: nat)
    requires depth <= limits.cssRuleDepth && limits.cssRules >= 1 && limits.selectorLength >= 1
    ensures var page := LostPage(limits, style, expand);
      && RulesFacts(limits, page, depth, None, depth, {0}) == Some([])
      && WholeRules(limits, page, limits.cssRuleDepth + 1, depth, None, depth, {0}) == Some(StyleFacts(limits, LETTER, style))
      && OnlyRules(RulesNeed(limits, page, depth, None, depth, {0}), limits.cssRuleDepth + 1 - depth, 0)
    decreases limits.cssRuleDepth - depth
  {
    hide StyleFacts, LostPage, RulesFacts, WholeRules, RulesNeed, RuleFacts, WholeRule, OneRuleNeed;
    var page, bound := LostPage(limits, style, expand), limits.cssRuleDepth + 1;
    LostRules(limits, style, expand, depth);
    EndsAfterOne(limits, page, bound, depth, None, depth, {0});
    BothNothing(Some(StyleFacts(limits, LETTER, style)));
    BothNothing(Some([]));
    if depth < limits.cssRuleDepth {
      LostBelow(limits, style, expand, depth + 1);
      GroupLeads(limits, page, bound, depth + 1, depth, {0});
    } else {
      ImportLeads(limits, style, expand);
    }
  }

  lemma EndsAfterOne(limits: WalkLimits, page: Page, bound: nat, list: nat, parent: Option<JsString>, depth: nat,
      active: set<nat>)
    requires depth <= limits.cssRuleDepth <= bound && page.lists(list).at(1).None? && page.lists(list).at(0).Some? && limits.cssRules >= 1
    requires page.lists(list).length.None?
    ensures var rule := page.lists(list).at(0).value;
      && RulesFacts(limits, page, list, parent, depth, active) == Both(RuleFacts(limits, page, rule, parent, depth, active), Some([]))
      && WholeRules(limits, page, bound, list, parent, depth, active)
         == Both(WholeRule(limits, page, bound, rule, parent, depth, active), Some([]))
      && RulesNeed(limits, page, list, parent, depth, active)
         == Then(Some(NOTHING), Then(OneRuleNeed(limits, page, rule, parent, depth, active), Some(NOTHING)))
  {
    hide RuleFacts, WholeRule, RuleNeed;
    assert FactsFrom(limits, page, list, 1, parent, depth, active) == Some([]);
    assert WholeFrom(limits, page, bound, list, 1, parent, depth, active) == Some([]);
    assert NeedFrom(limits, page, list, 1, parent, depth, active) == Some(NOTHING);
    NextNeed(limits, page, list, 0, parent, depth, active);
  }

  lemma WholeEndsAfterOne(limits: WalkLimits, page: Page, bound: nat, list: nat, parent: Option<JsString>, depth: nat,
      active: set<nat>)
    requires depth <= bound && page.lists(list).at(1).None? && page.lists(list).at(0).Some? && limits.cssRules >= 1
    ensures WholeRules(limits, page, bound, list, parent, depth, active)
         == Both(WholeRule(limits, page, bound, page.lists(list).at(0).value, parent, depth, active), Some([]))
  {
    hide WholeRule;
    assert WholeFrom(limits, page, bound, list, 1, parent, depth, active) == Some([]);
  }

  lemma LostSheet(limits: WalkLimits, style: Style, expand: Expander)
    ensures var page := LostPage(limits, style, expand);
      && SheetFacts(limits, page, 0) == RulesFacts(limits, page, 0, None, 0, {0})
      && WholeSheet(limits, page, limits.cssRuleDepth + 1, 0)
         == WholeRules(limits, page, limits.cssRuleDepth + 1, 0, None, 0, {0})
      && SheetNeed(limits, page, 0)
         == Then(Some(NOTHING.(sheets := 1)), Then(Some(NOTHING), RulesNeed(limits, page, 0, None, 0, {0})))
  {
    hide SheetFacts, WholeSheet, SheetNeed, RulesFacts, WholeRules, RulesNeed, Then;
    var page := LostPage(limits, style, expand);
    PlainSheet(limits, page.lists, page.rulesOf, limits.cssRuleDepth + 1, expand);
  }

  /** One level deeper the page has a fact; to the walk it has none, and hardly a cost. */
  lemma LostFact(limits: WalkLimits, style: Style, expand: Expander)
    requires limits.cssRules >= 1 && limits.selectorLength >= 1 && limits.stylesheets >= 1
    ensures var page := LostPage(limits, style, expand);
      && DocumentFacts(limits, page, OnlyFirst(), None) == Some([])
      && WholeDocument(limits, page, limits.cssRuleDepth + 1, OnlyFirst(), None) == Some(StyleFacts(limits, LETTER, style))
      && OnlyRules(DocumentNeed(limits, page, OnlyFirst(), None), limits.cssRuleDepth + 1, 1)
  {
    hide RulesFacts, WholeRules, RulesNeed, StyleFacts, SheetFacts, WholeSheet, SheetNeed, RootFacts, WholeRoot, RootNeed, LostPage;
    var page := LostPage(limits, style, expand);
    LostSheet(limits, style, expand);
    LostBelow(limits, style, expand, 0);
    BothNothing(Some(StyleFacts(limits, LETTER, style)));
    BothNothing(Some([]));
    OneSheet(limits, page, limits.cssRuleDepth + 1);
  }

  /** The one stylesheet of such a page, which can be read and is not the tool's. */
  lemma PlainSheet(limits: WalkLimits, lists: nat -> RuleList, rulesOf: nat -> Option<nat>, bound: nat, expand: Expander)
    requires rulesOf(0) == Some(0)
    ensures var page := PageOf(lists, rulesOf, expand);
      && SheetFacts(limits, page, 0) == RulesFacts(limits, page, 0, None, 0, {0})
      && WholeSheet(limits, page, bound, 0) == WholeRules(limits, page, bound, 0, None, 0, {0})
      && SheetNeed(limits, page, 0)
         == Then(Some(NOTHING.(sheets := 1)), Then(Some(NOTHING), RulesNeed(limits, page, 0, None, 0, {0})))
  {
    hide RulesFacts, WholeRules, RulesNeed, Then;
  }

  lemma OneSheet(limits: WalkLimits, page: Page, bound: nat)
    requires limits.stylesheets >= 1
    ensures RootFacts(limits, page, OnlyFirst(), 0) == Both(SheetFacts(limits, page, 0), Some([]))
    ensures WholeRoot(limits, page, bound, OnlyFirst(), 0) == Both(WholeSheet(limits, page, bound, 0), Some([]))
    ensures RootNeed(limits, page, OnlyFirst(), 0) == Then(SheetNeed(limits, page, 0), Some(NOTHING))
  {
    hide SheetFacts, WholeSheet, SheetNeed;
    assert RootFacts(limits, page, OnlyFirst(), 1) == Some([]);
    assert WholeRoot(limits, page, bound, OnlyFirst(), 1) == Some([]);
    assert RootNeed(limits, page, OnlyFirst(), 1) == Some(NOTHING);
  }

  /** As many rules as the limit, none of which holds anything. */
  function FullPage(limits: WalkLimits, expand: Expander): Page {
    PageOf(_ => RuleList(None, i => if i < limits.cssRules then Some(OtherRule) else None),
           (sheet: nat) => if sheet == 0 then Some(0) else None, expand)
  }

  lemma FullRules(limits: WalkLimits, expand: Expander, index: nat)
    ensures var page := FullPage(limits, expand);
      && page.lists(0).length.None? && page.lists(0).at(index) == (if index < limits.cssRules then Some(OtherRule) else None)
      && RuleFacts(limits, page, OtherRule, None, 0, {0}) == Some([])
      && OneRuleNeed(limits, page, OtherRule, None, 0, {0}) == Some(NOTHING.(rules := 1, reach := 1))
  {
  }

  lemma {:induction false} FullList(limits: WalkLimits, expand: Expander, index: nat)
    requires index <= limits.cssRules
    ensures var page := FullPage(limits, expand);
      && FactsFrom(limits, page, 0, index, None, 0, {0}) == Some([])
      && OnlyRules(NeedFrom(limits, page, 0, index, None, 0, {0}), limits.cssRules - index, 0)
    decreases limits.cssRules - index
  {
    hide FullPage, RuleFacts, OneRuleNeed, NeedFrom;
    FullRules(limits, expand, index);
    NextNeed(limits, FullPage(limits, expand), 0, index, None, 0, {0});
    if index < limits.cssRules {
      FullList(limits, expand, index + 1);
      BothNothing(Some([]));
    }
  }

  lemma FullSheet(limits: WalkLimits, expand: Expander)
    ensures var page := FullPage(limits, expand);
      && SheetFacts(limits, page, 0) == Some([]) && OnlyRules(SheetNeed(limits, page, 0), limits.cssRules, 1)
  {
    hide FactsFrom, NeedFrom, SheetFacts, SheetNeed, WholeSheet;
    FullList(limits, expand, 0);
    FullRules(limits, expand, 0);
    var page := FullPage(limits, expand);
    PlainSheet(limits, page.lists, page.rulesOf, 0, expand);
  }

  lemma FullNeed(limits: WalkLimits, expand: Expander)
    requires limits.stylesheets >= 1
    ensures var page := FullPage(limits, expand);
      && DocumentFacts(limits, page, OnlyFirst(), None) == Some([])
      && OnlyRules(DocumentNeed(limits, page, OnlyFirst(), None), limits.cssRules, 1)
  {
    hide FullPage, RootFacts, RootNeed, SheetFacts, SheetNeed, RulesFacts, RulesNeed, WholeRoot, WholeSheet;
    FullSheet(limits, expand);
    BothNothing(Some([]));
    OneSheet(limits, FullPage(limits, expand), 0);
  }
}
