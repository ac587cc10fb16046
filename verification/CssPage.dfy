/**
 * A page's stylesheets as a walk may find them, and everything a walk without budgets would report of them. The page is
 * any graph: rules may nest and import in circles, lists may go on forever, every read may fail.
 */
module CssPage {
  import opened Options
  import opened JsText
  import opened CssScan
  import opened AuthoredDeclarations
  import opened AuthoredReading
  import opened NestedSelectors

  datatype WalkLimits = WalkLimits(
    cssRules: nat,
    stylesheets: nat,
    factsPerTarget: nat,
    cssRuleDepth: nat,
    selectorLength: nat,
    valueLength: nat,
    inaccessibleStylesheets: nat,
    text: Limits
  )

  datatype Truncation =
    | FactsLimit | RulesLimit | ByteLimit | DeclarationsLimit | StylesheetsLimit | ExclusionFailed | DepthLimit

  /** A declaration block as the page answers for it; an absent answer is a failed read or no string. */
  datatype Style = Style(
    length: Option<int>,
    item: nat -> Option<JsString>,
    priority: JsString -> Option<JsString>,
    value: JsString -> Option<JsString>,
    cssText: Option<JsString>
  )

  /** What `styleSheet` of an import rule yields. */
  datatype ImportTarget = Unreadable | NoStylesheet | Imported(sheet: nat)

  /** A rule as the walk sees it. Lists and stylesheets are named by numbers, so that they may contain each other. */
  datatype Rule =
    | ImportRule(target: ImportTarget, url: Option<JsString>, urlFails: bool, mediaBytes: Option<nat>)
    | StyleRule(selector: Option<JsString>, style: Style, nested: Option<nat>)
    | NestedRule(style: Style, nested: Option<nat>)
    | GroupRule(contextBytes: nat, nested: Option<nat>)
    | OtherRule

  /** A list of rules: its length, when it has one, and what is at each position until it ends. */
  datatype RuleList = RuleList(length: Option<int>, at: nat -> Option<Rule>)

  datatype Page = Page(
    lists: nat -> RuleList,
    // The rules of a stylesheet, when they can be read.
    rulesOf: nat -> Option<nat>,
    // Whether a stylesheet is the tool's own; absent when classifying it fails.
    isRuntime: nat -> Option<bool>,
    filtersRuntime: bool,
    urlOf: nat -> Option<Option<JsString>>,
    matches: JsString -> Option<bool>,
    bytes: JsString -> Option<nat>,
    expand: Expander
  )

  function Room(limits: WalkLimits, depth: nat): nat {
    if depth <= limits.cssRuleDepth then limits.cssRuleDepth + 1 - depth else 0
  }

  function Min(a: int, b: int): int {
    if a <= b then a else b
  }

  /** `boundedLength` */
  function BoundedLength(length: int, limit: int): int {
    if length <= 0 then 0 else Min(length, limit)
  }

  function Truncate(s: JsString, limit: nat): JsString {
    if |s| <= limit then s else s[..limit]
  }

  // ---- What there is to report ----

  /** The longhands of one matching rule, under its resolved selector. */
  datatype Fact = Fact(selector: JsString, longhands: seq<Longhand>)

  /** The property names among the first items of a declaration block. */
  function Names(limits: WalkLimits, style: Style, count: nat): (r: seq<JsString>)
    ensures |r| <= count
  {
    if count == 0 then []
    else
      var name := style.item(count - 1);
      Names(limits, style, count - 1) +
      if name.Some? && name.value != [] && |name.value| <= limits.text.propertyNameLength then [name.value] else []
  }

  /** What a name says about its longhand: nothing when its priority or its value cannot be read. */
  function LonghandOf(limits: WalkLimits, style: Style, name: JsString): (r: seq<Longhand>)
    ensures |r| <= 1
  {
    var priority, value := style.priority(name), style.value(name);
    if priority.None? || (priority.value != [] && priority.value != ImportantWord()) || value.None? then []
    else [Longhand(name, Trim(Truncate(value.value, limits.valueLength)), priority.value != [])]
  }

  function LonghandsOf(limits: WalkLimits, style: Style, names: seq<JsString>): seq<Longhand> {
    if names == [] then []
    else LonghandsOf(limits, style, names[..|names| - 1]) + LonghandOf(limits, style, names[|names| - 1])
  }

  /** A matching rule is a fact when its block says how long it is. */
  function StyleFacts(limits: WalkLimits, selector: JsString, style: Style): seq<Fact> {
    if style.length.None? then []
    else [Fact(selector, LonghandsOf(limits, style, Names(limits, style, BoundedLength(style.length.value, style.length.value))))]
  }

  function Both(a: Option<seq<Fact>>, b: Option<seq<Fact>>): Option<seq<Fact>> {
    if a.None? || b.None? then None else Some(a.value + b.value)
  }

  /** The facts of a list of rules; none when rules nest deeper than the bound or a list is longer than any walk goes. */
  function RulesFacts(limits: WalkLimits, page: Page, list: nat, parent: Option<JsString>, depth: nat,
                      active: set<nat>): Option<seq<Fact>>
    decreases Room(limits, depth), 3, 0
  {
    if depth > limits.cssRuleDepth then None else FactsFrom(limits, page, list, 0, parent, depth, active)
  }

  function FactsFrom(limits: WalkLimits, page: Page, list: nat, index: nat, parent: Option<JsString>, depth: nat,
                     active: set<nat>)
    : Option<seq<Fact>>
    requires depth <= limits.cssRuleDepth
    decreases Room(limits, depth), 2, if index <= limits.cssRules then limits.cssRules + 1 - index else 0
  {
    var rule := page.lists(list).at(index);
    if rule.None? then Some([])
    else if index >= limits.cssRules then None
    else Both(RuleFacts(limits, page, rule.value, parent, depth, active),
              FactsFrom(limits, page, list, index + 1, parent, depth, active))
  }

  function RuleFacts(limits: WalkLimits, page: Page, rule: Rule, parent: Option<JsString>, depth: nat,
                     active: set<nat>): Option<seq<Fact>>
    requires depth <= limits.cssRuleDepth
    decreases Room(limits, depth), 1, 1
  {
    match rule
    case ImportRule(_, _, _, _) => ImportFacts(limits, page, rule, depth, active)
    case StyleRule(selector, style, nested) =>
      var resolved := if selector.None? then None else ResolveStyle(limits.selectorLength, selector.value, parent);
      if resolved.None? || page.matches(resolved.value).None? then Some([])
      else
        Both(Some(if page.matches(resolved.value).value then StyleFacts(limits, resolved.value, style) else []),
             NestedFacts(limits, page, nested, resolved, depth, active))
    case NestedRule(style, nested) =>
      if parent.Some? && page.matches(parent.value).None? then Some([])
      else
        Both(Some(if parent.Some? && page.matches(parent.value).value then StyleFacts(limits, parent.value, style) else []),
             NestedFacts(limits, page, nested, parent, depth, active))
    case GroupRule(_, nested) => NestedFacts(limits, page, nested, parent, depth, active)
    case OtherRule => Some([])
  }

  function NestedFacts(limits: WalkLimits, page: Page, nested: Option<nat>, parent: Option<JsString>, depth: nat,
                       active: set<nat>)
    : Option<seq<Fact>>
    requires depth <= limits.cssRuleDepth
    decreases Room(limits, depth), 1, 0
  {
    if nested.None? then Some([])
    else if depth == limits.cssRuleDepth then None
    else RulesFacts(limits, page, nested.value, parent, depth + 1, active)
  }

  /** What is known of a stylesheet before its rules are read: whether it is the tool's own. */
  function IsTool(page: Page, sheet: nat): Option<bool> {
    if page.filtersRuntime then page.isRuntime(sheet) else Some(false)
  }

  /** An import is followed unless it is the deepest possible, the tool's, on the way here already, or cannot be read. */
  function ImportFacts(limits: WalkLimits, page: Page, rule: Rule, depth: nat, active: set<nat>): Option<seq<Fact>>
    requires rule.ImportRule? && depth <= limits.cssRuleDepth
    decreases Room(limits, depth), 1, 0
  {
    if depth == limits.cssRuleDepth || !rule.target.Imported? then Some([])
    else
      var sheet := rule.target.sheet;
      if IsTool(page, sheet).None? then None
      else if IsTool(page, sheet).value || sheet in active || rule.urlFails || rule.url.None? || page.rulesOf(sheet).None? then Some([])
      else RulesFacts(limits, page, page.rulesOf(sheet).value, None, depth + 1, active + {sheet})
  }

  function SheetFacts(limits: WalkLimits, page: Page, sheet: nat): Option<seq<Fact>> {
    if IsTool(page, sheet).None? then None
    else if IsTool(page, sheet).value || page.urlOf(sheet).None? || page.urlOf(sheet).value.None? || page.rulesOf(sheet).None? then Some([])
    else RulesFacts(limits, page, page.rulesOf(sheet).value, None, 0, {sheet})
  }

  /** The facts of a list of stylesheets from a position on; none when it is longer than any walk pulls. */
  function RootFacts(limits: WalkLimits, page: Page, sheets: nat -> Option<nat>, index: nat): Option<seq<Fact>>
    decreases if index <= limits.stylesheets * 2 then limits.stylesheets * 2 + 1 - index else 0
  {
    if index >= limits.stylesheets * 2 then None
    else if sheets(index).None? then Some([])
    else Both(SheetFacts(limits, page, sheets(index).value), RootFacts(limits, page, sheets, index + 1))
  }

  function DocumentFacts(limits: WalkLimits, page: Page, regular: nat -> Option<nat>,
                         adopted: Option<nat -> Option<nat>>): Option<seq<Fact>> {
    Both(RootFacts(limits, page, regular, 0), if adopted.None? then Some([]) else RootFacts(limits, page, adopted.value, 0))
  }

  // ---- How a fact is presented ----

  /** The records of one matching rule: as its text spells it, or longhand by longhand. */
  datatype Emission =
    | AsWritten(selector: JsString, declarations: seq<Authored>)
    | InLonghands(selector: JsString, longhands: seq<Longhand>)

  function Records(e: Emission): nat {
    match e
    case AsWritten(_, declarations) => |declarations|
    case InLonghands(_, longhands) => |longhands|
  }

  function Total(es: seq<Emission>): nat {
    if es == [] then 0 else Total(es[..|es| - 1]) + Records(es[|es| - 1])
  }

  lemma TotalSnoc(es: seq<Emission>, e: Emission)
    ensures Total(es + [e]) == Total(es) + Records(e)
  {
    assert (es + [e])[..|es|] == es;
  }

  /** Whichever way a fact is presented, its longhands are all there, once, with their values and importance. */
  ghost predicate Presents(e: Emission, f: Fact) {
    e.selector == f.selector
    && match e
       case AsWritten(_, declarations) => Partitions(declarations, f.longhands)
       case InLonghands(_, longhands) => longhands == f.longhands
  }

  /** A declaration as its record shows it: the value cut to what a record may hold. */
  function Shown(limits: WalkLimits, ds: seq<Authored>): (r: seq<Authored>)
    ensures |r| == |ds|
  {
    seq(|ds|, i requires 0 <= i < |ds| =>
      ds[i].(declaration := ds[i].declaration.(value := Trim(Truncate(ds[i].declaration.value, limits.valueLength)))))
  }

  lemma {:induction false} ShownListsTheSame(limits: WalkLimits, ds: seq<Authored>)
    ensures Listed(Shown(limits, ds)) == Listed(ds)
  {
    if ds != [] {
      var init := ds[..|ds| - 1];
      ShownListsTheSame(limits, init);
      assert Shown(limits, ds)[..|ds| - 1] == Shown(limits, init);
      assert ListedBy(Shown(limits, ds)[|ds| - 1]) == ListedBy(ds[|ds| - 1]);
    }
  }

  lemma AccountsNoRepeats(longhands: seq<Longhand>, parsed: seq<Declaration>, expand: Expander)
    requires Accounts(longhands, parsed, expand)
    ensures NoRepeats(longhands)
  {
  }
}
