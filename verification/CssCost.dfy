/**
 * What a walk of a page takes from its budgets. What it takes of rules is exact; of the rest it is the most there can be,
 * since a rule's text is read only when its bytes fit.
 */
module CssCost {
  import opened Options
  import opened JsText
  import opened AuthoredDeclarations
  import opened NestedSelectors
  import opened CssPage

  /** `reach` is how many rules must be left, at the start, for no list to claim more rules than are left when it is met. */
  datatype Use = Use(rules: nat, reach: nat, sheets: nat, declarations: nat, records: nat, bytes: nat)

  const NOTHING: Use := Use(0, 0, 0, 0, 0, 0)

  function Max(a: nat, b: nat): nat {
    if a >= b then a else b
  }

  /** One after the other; no budget is enough for what has no cost. */
  function Then(a: Option<Use>, b: Option<Use>): Option<Use> {
    if a.None? || b.None? then None
    else Some(Use(a.value.rules + b.value.rules, Max(a.value.reach, a.value.rules + b.value.reach),
                  a.value.sheets + b.value.sheets, a.value.declarations + b.value.declarations,
                  a.value.records + b.value.records, a.value.bytes + b.value.bytes))
  }

  lemma ThenLaws(a: Option<Use>, b: Option<Use>, c: Option<Use>)
    ensures Then(Then(a, b), c) == Then(a, Then(b, c)) && Then(Some(NOTHING), a) == a
  {
  }

  // ---- What a page costs ----

  function BytesNeed(bytes: Option<nat>): Option<Use> {
    if bytes.None? then None else Some(NOTHING.(bytes := bytes.value))
  }

  /** Exactly the bytes of this cost are gone. */
  ghost predicate Took(need: Option<Use>, before: int, after: int) {
    need.Some? && after == before - need.value.bytes
  }

  lemma TookThen(a: Option<Use>, b: Option<Use>, before: int, mid: int, after: int)
    requires Took(a, before, mid) && Took(b, mid, after)
    ensures Took(Then(a, b), before, after)
  {
  }

  function NameNeed(page: Page, name: Option<JsString>): Option<Use> {
    Then(Some(NOTHING.(declarations := 1)), if name.None? then Some(NOTHING) else BytesNeed(page.bytes(name.value)))
  }

  function NamesNeed(page: Page, style: Style, count: nat): Option<Use> {
    if count == 0 then Some(NOTHING) else Then(NamesNeed(page, style, count - 1), NameNeed(page, style.item(count - 1)))
  }

  function LonghandNeed(page: Page, style: Style, name: JsString): Option<Use> {
    var priority, value := style.priority(name), style.value(name);
    if priority.None? then Some(NOTHING)
    else
      Then(BytesNeed(page.bytes(priority.value)),
           if (priority.value != [] && priority.value != ImportantWord()) || value.None? then Some(NOTHING)
           else BytesNeed(page.bytes(value.value)))
  }

  function LonghandsNeed(page: Page, style: Style, names: seq<JsString>): Option<Use> {
    if names == [] then Some(NOTHING)
    else Then(LonghandsNeed(page, style, names[..|names| - 1]), LonghandNeed(page, style, names[|names| - 1]))
  }

  /** Reading a rule's text is offered, never insisted on. */
  function TextNeed(page: Page, style: Style): Use {
    if style.cssText.None? || page.bytes(style.cssText.value).None? then NOTHING
    else NOTHING.(bytes := page.bytes(style.cssText.value).value)
  }

  function ReadNeed(limits: WalkLimits, page: Page, style: Style, count: nat): Option<Use> {
    Then(NamesNeed(page, style, count),
         Then(LonghandsNeed(page, style, Names(limits, style, count)), Some(TextNeed(page, style))))
  }

  lemma NameDeclaresOne(page: Page, name: Option<JsString>)
    ensures NameNeed(page, name).Some? ==> NameNeed(page, name).value.declarations == 1
  {
  }

  lemma {:induction false} NamesDeclare(page: Page, style: Style, count: nat)
    requires NamesNeed(page, style, count).Some?
    ensures NamesNeed(page, style, count).value.declarations == count
  {
    hide NameNeed;
    if count > 0 {
      NameDeclaresOne(page, style.item(count - 1));
      NamesDeclare(page, style, count - 1);
    }
  }

  lemma {:induction false} LonghandsDeclareNothing(page: Page, style: Style, names: seq<JsString>)
    requires LonghandsNeed(page, style, names).Some?
    ensures LonghandsNeed(page, style, names).value.declarations == 0
  {
    if names != [] { LonghandsDeclareNothing(page, style, names[..|names| - 1]); }
  }

  lemma ReadDeclares(limits: WalkLimits, page: Page, style: Style, count: nat)
    requires ReadNeed(limits, page, style, count).Some?
    ensures ReadNeed(limits, page, style, count).value.declarations == count
  {
    NamesDeclare(page, style, count);
    LonghandsDeclareNothing(page, style, Names(limits, style, count));
  }

  lemma ReadNothing(limits: WalkLimits, page: Page, style: Style)
    ensures ReadNeed(limits, page, style, 0).Some?
  {
  }

  function StyleNeed(limits: WalkLimits, page: Page, style: Style): Option<Use> {
    if style.length.None? then Some(NOTHING)
    else if style.length.value > limits.text.declarationsPerRule then None
    else
      var count := BoundedLength(style.length.value, style.length.value);
      Then(ReadNeed(limits, page, style, count), Some(NOTHING.(records := count)))
  }

  function StyleRuleNeed(limits: WalkLimits, page: Page, selector: Option<JsString>, style: Style,
      parent: Option<JsString>): Option<Use> {
    if selector.None? then Some(NOTHING)
    else
      var resolved := ResolveStyle(limits.selectorLength, selector.value, parent);
      Then(BytesNeed(page.bytes(selector.value)),
           if resolved.Some? && page.matches(resolved.value) == Some(true) then StyleNeed(limits, page, style)
           else Some(NOTHING))
  }

  function ContextBytes(rule: Rule): nat {
    if rule.GroupRule? then rule.contextBytes else 0
  }

  function Claim(list: RuleList): Use {
    NOTHING.(reach := if list.length.None? || list.length.value < 0 then 0 else list.length.value)
  }

  function RulesNeed(limits: WalkLimits, page: Page, list: nat, parent: Option<JsString>, depth: nat,
                     active: set<nat>): Option<Use>
    decreases Room(limits, depth), 3, 0
  {
    if depth > limits.cssRuleDepth then None
    else Then(Some(Claim(page.lists(list))), NeedFrom(limits, page, list, 0, parent, depth, active))
  }

  function NeedFrom(limits: WalkLimits, page: Page, list: nat, index: nat, parent: Option<JsString>, depth: nat,
                    active: set<nat>): Option<Use>
    requires depth <= limits.cssRuleDepth
    decreases Room(limits, depth), 2, if index <= limits.cssRules then limits.cssRules + 1 - index else 0
  {
    var rule := page.lists(list).at(index);
    if rule.None? then Some(NOTHING)
    else if index >= limits.cssRules then None
    else Then(Then(Some(NOTHING.(rules := 1)), RuleNeed(limits, page, rule.value, parent, depth, active)),
              NeedFrom(limits, page, list, index + 1, parent, depth, active))
  }

  function RuleNeed(limits: WalkLimits, page: Page, rule: Rule, parent: Option<JsString>, depth: nat,
                    active: set<nat>): Option<Use>
    requires depth <= limits.cssRuleDepth
    decreases Room(limits, depth), 1, 1
  {
    match rule
    case ImportRule(_, _, _, _) => ImportNeed(limits, page, rule, depth, active)
    case StyleRule(selector, style, nested) =>
      var resolved := if selector.None? then None else ResolveStyle(limits.selectorLength, selector.value, parent);
      Then(StyleRuleNeed(limits, page, selector, style, parent),
           if resolved.None? || page.matches(resolved.value).None? then Some(NOTHING)
           else NestedNeed(limits, page, rule, nested, resolved, depth, active))
    case NestedRule(style, nested) =>
      if parent.Some? && page.matches(parent.value).None? then Some(NOTHING)
      else
        Then(if parent.Some? && page.matches(parent.value).value then StyleNeed(limits, page, style) else Some(NOTHING),
             NestedNeed(limits, page, rule, nested, parent, depth, active))
    case GroupRule(_, nested) => NestedNeed(limits, page, rule, nested, parent, depth, active)
    case OtherRule => Some(NOTHING)
  }

  function NestedNeed(limits: WalkLimits, page: Page, rule: Rule, nested: Option<nat>, parent: Option<JsString>,
      depth: nat,
                      active: set<nat>): Option<Use>
    requires depth <= limits.cssRuleDepth
    decreases Room(limits, depth), 1, 0
  {
    if nested.None? then Some(NOTHING)
    else if depth == limits.cssRuleDepth then None
    else Then(Some(NOTHING.(bytes := ContextBytes(rule))), RulesNeed(limits, page, nested.value, parent, depth + 1, active))
  }

  function ImportNeed(limits: WalkLimits, page: Page, rule: Rule, depth: nat, active: set<nat>): Option<Use>
    requires rule.ImportRule? && depth <= limits.cssRuleDepth
    decreases Room(limits, depth), 1, 0
  {
    if depth == limits.cssRuleDepth || rule.target.NoStylesheet? then Some(NOTHING)
    else if rule.target.Unreadable? then Some(NOTHING.(sheets := 1))
    else
      var tool := IsTool(page, rule.target.sheet);
      if tool.None? then None
      else if tool.value || rule.target.sheet in active then Some(NOTHING)
      else Then(Some(NOTHING.(sheets := 1)), ImportedNeed(limits, page, rule, depth, active))
  }

  function MediaNeed(rule: Rule): Use
    requires rule.ImportRule?
  {
    NOTHING.(bytes := if rule.mediaBytes.Some? then rule.mediaBytes.value else 0)
  }

  function ImportedNeed(limits: WalkLimits, page: Page, rule: Rule, depth: nat, active: set<nat>): Option<Use>
    requires rule.ImportRule? && rule.target.Imported? && depth < limits.cssRuleDepth
    decreases Room(limits, depth), 0, 0
  {
    if rule.urlFails || rule.url.None? then Some(NOTHING)
    else
      var rules := page.rulesOf(rule.target.sheet);
      Then(BytesNeed(page.bytes(rule.url.value)),
           Then(Some(MediaNeed(rule)),
                if rules.None? then Some(NOTHING)
                else RulesNeed(limits, page, rules.value, None, depth + 1, active + {rule.target.sheet})))
  }

  function SheetNeed(limits: WalkLimits, page: Page, sheet: nat): Option<Use> {
    var tool, url := IsTool(page, sheet), page.urlOf(sheet);
    if tool.None? then None
    else if tool.value then Some(NOTHING)
    else Then(Some(NOTHING.(sheets := 1)),
              if url.None? || url.value.None? then Some(NOTHING)
              else Then(BytesNeed(page.bytes(url.value.value)),
                        if page.rulesOf(sheet).None? then Some(NOTHING)
                        else RulesNeed(limits, page, page.rulesOf(sheet).value, None, 0, {sheet})))
  }

  function RootNeed(limits: WalkLimits, page: Page, sheets: nat -> Option<nat>, index: nat): Option<Use>
    decreases if index <= limits.stylesheets * 2 then limits.stylesheets * 2 + 1 - index else 0
  {
    if index >= limits.stylesheets * 2 then None
    else if sheets(index).None? then Some(NOTHING)
    else Then(SheetNeed(limits, page, sheets(index).value), RootNeed(limits, page, sheets, index + 1))
  }

  function DocumentNeed(limits: WalkLimits, page: Page, regular: nat -> Option<nat>,
      adopted: Option<nat -> Option<nat>>): Option<Use> {
    Then(RootNeed(limits, page, regular, 0), if adopted.None? then Some(NOTHING) else RootNeed(limits, page, adopted.value, 0))
  }

  lemma NextNeed(limits: WalkLimits, page: Page, list: nat, index: nat, parent: Option<JsString>, depth: nat,
                 active: set<nat>)
    requires depth <= limits.cssRuleDepth
    ensures NeedFrom(limits, page, list, index, parent, depth, active)
         == if page.lists(list).at(index).None? then Some(NOTHING)
            else if index >= limits.cssRules then None
            else Then(OneRuleNeed(limits, page, page.lists(list).at(index).value, parent, depth, active),
                      NeedFrom(limits, page, list, index + 1, parent, depth, active))
  {
  }

  /** A rule is charged for before it is walked. */
  function OneRuleNeed(limits: WalkLimits, page: Page, rule: Rule, parent: Option<JsString>, depth: nat,
                       active: set<nat>): Option<Use>
    requires depth <= limits.cssRuleDepth
  {
    Then(Some(NOTHING.(rules := 1)), RuleNeed(limits, page, rule, parent, depth, active))
  }

  // ---- What a stretch of a walk took ----

  datatype Totals = Totals(stylesheets: int, rules: int, declarations: int, bytes: int)

  datatype Left = Left(rules: int, sheets: int, declarations: int, records: int, bytes: int)

  /** A moment of a walk: what is left to it, its rules so far, its reasons, and what other walks took. */
  datatype Moment = Moment(left: Left, rulesVisited: int, reasons: set<Truncation>, others: Totals)

  ghost predicate Full(m: Moment) {
    m.left.rules <= 0 || m.left.declarations <= 0 || m.left.records <= 0 || m.left.bytes <= 0
  }

  ghost predicate Exceeds(left: Left, need: Use) {
    && left.rules > need.rules && left.rules >= need.reach && left.sheets > need.sheets
    && left.declarations > need.declarations && left.records > need.records && left.bytes > need.bytes
  }

  /** Enough rules: more than there are, and as many as any list claims when it is met. */
  ghost predicate EnoughRules(left: Left, need: Use) {
    left.rules > need.rules && left.rules >= need.reach
  }

  ghost predicate Passes(a: Moment, b: Moment) {
    && b.left.rules <= a.left.rules && b.left.sheets <= a.left.sheets && b.left.declarations <= a.left.declarations
    && b.left.records <= a.left.records && b.left.bytes <= a.left.bytes && a.reasons <= b.reasons
    && a.others.stylesheets <= b.others.stylesheets && a.others.rules <= b.others.rules
    && a.others.declarations <= b.others.declarations && a.others.bytes <= b.others.bytes
  }

  /** A stretch that started without a reason and with more than needed of everything but rules, and no other walk spent. */
  ghost predicate OnlyRulesShort(a: Moment, b: Moment, need: Option<Use>) {
    && need.Some? && a.reasons == {} && a.others == b.others
    && a.left.sheets > need.value.sheets && a.left.declarations > need.value.declarations
    && a.left.records > need.value.records && a.left.bytes > need.value.bytes
  }

  /**
   * A stretch against its cost. A stretch that gives no reason and reaches no limit has a cost, visited that many rules,
   * and had as many left as its lists claimed.
   * One that starts with more than its cost, while no other walk spends, gives no reason and takes no more than its cost.
   * Another walk can spend only where there is a record to yield.
   */
  ghost predicate Costs(a: Moment, b: Moment, need: Option<Use>) {
    && Passes(a, b)
    && (b.reasons == {} && !Full(b) ==>
          && need.Some? && b.rulesVisited == a.rulesVisited + need.value.rules
          && b.left.rules <= a.left.rules - need.value.rules && a.left.rules >= need.value.reach)
    && (need.Some? && need.value.records == 0 ==> a.others == b.others)
    && (need.Some? && a.reasons == {} && a.others == b.others && Exceeds(a.left, need.value) ==>
          && b.reasons == {} && b.left.rules >= a.left.rules - need.value.rules
          && b.left.sheets >= a.left.sheets - need.value.sheets
          && b.left.declarations >= a.left.declarations - need.value.declarations
          && b.left.records >= a.left.records - need.value.records && b.left.bytes >= a.left.bytes - need.value.bytes)
  }

  /** While records are with the consumer the walk stands still and only other walks spend. */
  ghost predicate Waits(a: Moment, b: Moment) {
    Passes(a, b) && a.rulesVisited == b.rulesVisited && a.reasons == b.reasons && (a.others == b.others ==> a == b)
  }

  lemma WaitsThen(a: Moment, b: Moment, c: Moment)
    requires Waits(a, b) && Waits(b, c)
    ensures Waits(a, c)
  {
  }

  lemma CostsYielded(a: Moment, b: Moment, c: Moment, records: nat)
    requires Costs(a, b, Some(NOTHING.(records := records))) && Waits(b, c) && (records == 0 ==> b == c)
    ensures Costs(a, c, Some(NOTHING.(records := records)))
  {
  }

  lemma NoCost(a: Moment)
    ensures Costs(a, a, Some(NOTHING))
  {
  }

  lemma CostsThen(a: Moment, b: Moment, c: Moment, first: Option<Use>, rest: Option<Use>)
    requires Costs(a, b, first) && Costs(b, c, rest)
    ensures Costs(a, c, Then(first, rest))
  {
  }

  /** What stops for a reason or at a limit was not given its cost, so whatever was to follow does not matter. */
  lemma CostsStop(a: Moment, b: Moment, first: Option<Use>, rest: Option<Use>)
    requires Costs(a, b, first) && (b.reasons != {} || Full(b))
    ensures Costs(a, b, Then(first, rest))
  {
  }

  /** Steps that cost nothing, before and after. */
  lemma CostsAfter(a: Moment, b: Moment, c: Moment, need: Option<Use>)
    requires Costs(a, b, Some(NOTHING)) && Costs(b, c, need)
    ensures Costs(a, c, need)
  {
  }

  lemma CostsBefore(a: Moment, b: Moment, c: Moment, need: Option<Use>)
    requires Costs(a, b, need) && Costs(b, c, Some(NOTHING))
    ensures Costs(a, c, need)
  {
  }

  lemma CostsHalt(a: Moment, b: Moment, need: Option<Use>)
    requires Costs(a, b, Some(NOTHING)) && (b.reasons != {} || Full(b))
    ensures Costs(a, b, need)
  {
  }

  lemma CostsReason(a: Moment, b: Moment)
    requires b == a.(reasons := b.reasons) && a.reasons <= b.reasons && b.reasons != {}
    ensures Costs(a, b, None)
  {
  }

  /** At a closed boundary a reason is given. */
  lemma CostsClosed(a: Moment, b: Moment, c: Moment, passes: bool)
    requires b == a.(reasons := b.reasons) && a.reasons <= b.reasons && c == b.(reasons := c.reasons) && b.reasons <= c.reasons
    requires c.reasons != {} && a.left.sheets <= 0
    ensures Costs(a, c, if passes then Some(NOTHING) else None)
  {
  }

  lemma CostsLess(a: Moment, b: Moment, need: Use, more: Use)
    requires Costs(a, b, Some(need)) && need.rules == more.rules && need.reach == more.reach && need.sheets <= more.sheets
    requires need.declarations <= more.declarations && need.records <= more.records && need.bytes <= more.bytes
    ensures Costs(a, b, Some(more))
  {
  }

  /** Without a stylesheet left nothing that is given a reason counts as given its cost. */
  lemma CostsNoSheet(a: Moment, b: Moment, need: Option<Use>)
    requires Costs(a, b, None) && a.left.sheets <= 0 && a.others == b.others
    ensures Costs(a, b, need)
  {
  }

  /** Counting a rule's declarations gives a reason exactly when there are too many for the rule or for what is left. */
  ghost predicate CountsAll(limits: WalkLimits, a: Moment, b: Moment, length: int, count: nat) {
    && Passes(a, b) && b == a.(reasons := b.reasons)
    && count <= BoundedLength(length, length)
    && (b.reasons == {} ==> length <= limits.text.declarationsPerRule && count == BoundedLength(length, length))
    && (length <= limits.text.declarationsPerRule && length <= a.left.declarations && length <= a.left.records ==> b.reasons == a.reasons)
  }

  lemma StyleCosts(limits: WalkLimits, page: Page, a: Moment, b: Moment, c: Moment, style: Style, count: nat)
    requires style.length.Some? && CountsAll(limits, a, b, style.length.value, count)
    requires Costs(b, c, Then(ReadNeed(limits, page, style, count), Some(NOTHING.(records := count))))
    ensures Costs(a, c, StyleNeed(limits, page, style))
  {
    hide ReadNeed;
    ReadNothing(limits, page, style);
    if StyleNeed(limits, page, style).Some? { ReadDeclares(limits, page, style, BoundedLength(style.length.value, style.length.value)); }
  }
}
