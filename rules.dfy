/** The rule engine of osm2po.rb: rule normalisation in `Translator#initialize`
    (osm2po.rb:42-58) and `Translator#match` (osm2po.rb:60-66). The `eval`'d
    match code of a rule (osm2po.rb:50) is replaced by a declarative predicate
    evaluated by a total, side-effect-free interpreter. */
module Rules {
  import opened Wrappers

  datatype OsmType = Node | Way | Relation

  /** `element.type` as the OSM library spells it. */
  function TypeName(t: OsmType): string {
    match t
    case Node => "node"
    case Way => "way"
    case Relation => "relation"
  }

  /** A node, way or relation: its type, its id and its tags in order. */
  datatype Record = Record(kind: OsmType, id: string, tags: seq<(string, string)>)

  /** `element[key]`: the value of the tag named `key`, or nil. */
  function Lookup(tags: seq<(string, string)>, key: string): (r: Option<string>)
    ensures r.Some? <==> exists i :: 0 <= i < |tags| && tags[i].0 == key
    ensures r.Some? ==> exists i :: 0 <= i < |tags| && tags[i] == (key, r.value)
  {
    if tags == [] then None
    else if tags[0].0 == key then Some(tags[0].1)
    else
      var r := Lookup(tags[1..], key);
      assert forall i :: 0 < i < |tags| ==> tags[i] == tags[1..][i - 1];
      r
  }

  /** `is_tagged?` (osm2po.rb:155, 161, 167). */
  predicate IsTagged(e: Record) {
    |e.tags| > 0
  }

  /** The match condition of a rule. */
  datatype Pred =
    | HasTag(key: string)
    | TagEquals(key: string, value: string)
    | TypeIs(kind: string)
    | And(left: Pred, right: Pred)
    | Or(left: Pred, right: Pred)
    | Not(operand: Pred)

  /** The interpreter that stands for calling the rule's `Proc`; a tag the
      record lacks reads as absent. */
  function Eval(p: Pred, e: Record): (r: bool)
    ensures p.HasTag? ==> (r <==> exists i :: 0 <= i < |e.tags| && e.tags[i].0 == p.key)
    ensures p.TagEquals? && r ==> exists i :: 0 <= i < |e.tags| && e.tags[i] == (p.key, p.value)
  {
    match p
    case HasTag(k) => Lookup(e.tags, k).Some?
    case TagEquals(k, v) => Lookup(e.tags, k) == Some(v)
    case TypeIs(t) => TypeName(e.kind) == t
    case And(l, r) => Eval(l, e) && Eval(r, e)
    case Or(l, r) => Eval(l, e) || Eval(r, e)
    case Not(q) => !Eval(q, e)
  }

  /** The `tags` entry of a rule as it comes from the configuration: a list
      or a single key. */
  datatype TagsEntry = TagList(keys: seq<string>) | TagScalar(key: string)

  /** One rule of the configuration before normalisation. */
  datatype RuleSource = RuleSource(kind: string, cond: Pred, tags: TagsEntry)

  /** A normalised rule: its type (`any` or an element type), its condition
      and its list of translatable tag keys. */
  datatype Rule = Rule(kind: string, cond: Pred, tags: seq<string>)

  /** The translator's configuration: the language code and the rules. */
  datatype Translator = Translator(lang: string, rules: seq<Rule>)

  function Normalize(r: RuleSource): Rule {
    Rule(r.kind, r.cond, match r.tags case TagList(ks) => ks case TagScalar(k) => [k])
  }

  /** `Translator.new`: the rules in configuration order, a scalar `tags`
      entry wrapped into a one-element list. */
  method NewTranslator(sources: seq<RuleSource>, lang: string) returns (t: Translator)
    ensures t.lang == lang && |t.rules| == |sources|
    ensures forall i :: 0 <= i < |sources| ==>
      t.rules[i].kind == sources[i].kind && t.rules[i].cond == sources[i].cond &&
      t.rules[i].tags == (if sources[i].tags.TagList? then sources[i].tags.keys else [sources[i].tags.key])
  {
    var rules: seq<Rule> := [];
    var i := 0;
    while i < |sources|
      invariant 0 <= i <= |sources| && |rules| == i
      invariant forall j :: 0 <= j < i ==> rules[j] == Normalize(sources[j])
    {
      var r := sources[i];
      var tags := if r.tags.TagList? then r.tags.keys else [r.tags.key];
      rules := rules + [Rule(r.kind, r.cond, tags)];
      i := i + 1;
    }
    t := Translator(lang, rules);
  }

  /** The type gate of a rule: its type is `any` or the element's type. */
  predicate TypeAllows(r: Rule, e: Record) {
    r.kind == "any" || r.kind == TypeName(e.kind)
  }

  predicate Qualifies(r: Rule, e: Record) {
    TypeAllows(r, e) && Eval(r.cond, e)
  }

  /** The keys `match` collects from `rules`, defined on the last rule so
      that it follows the loop. */
  function Matched(rules: seq<Rule>, e: Record): seq<string> {
    if rules == [] then []
    else
      var last := rules[|rules| - 1];
      Matched(rules[..|rules| - 1], e) + (if Qualifies(last, e) then last.tags else [])
  }

  /** `Translator#match`: `tags +=` over the rules in order. */
  method Match(t: Translator, e: Record) returns (tags: seq<string>)
    ensures tags == Matched(t.rules, e)
  {
    tags := [];
    var i := 0;
    while i < |t.rules|
      invariant 0 <= i <= |t.rules|
      invariant tags == Matched(t.rules[..i], e)
    {
      var rule := t.rules[i];
      assert t.rules[..i + 1][..i] == t.rules[..i];
      if (rule.kind == "any" || TypeName(e.kind) == rule.kind) && Eval(rule.cond, e) {
        tags := tags + rule.tags;
      }
      i := i + 1;
    }
    assert t.rules[..i] == t.rules;
  }

  // ----- properties -----

  /** Matching over two lists of rules is matching over each, in order; no
      key is dropped or merged. */
  lemma {:induction false} MatchedAppend(a: seq<Rule>, b: seq<Rule>, e: Record)
    ensures Matched(a + b, e) == Matched(a, e) + Matched(b, e)
    decreases |b|
  {
    if b == [] {
      assert a + b == a;
    } else {
      var b' := b[..|b| - 1];
      assert (a + b)[..|a + b| - 1] == a + b';
      MatchedAppend(a, b', e);
    }
  }

  /** A rule whose type is neither `any` nor the element's contributes
      nothing, whatever its condition. */
  lemma MatchedTypeGate(a: seq<Rule>, r: Rule, b: seq<Rule>, e: Record)
    requires !TypeAllows(r, e)
    ensures Matched(a + [r] + b, e) == Matched(a + b, e)
  {
    MatchedAppend(a + [r], b, e);
    MatchedAppend(a, [r], e);
    MatchedAppend(a, b, e);
    assert Matched([r], e) == Matched([], e) + [];
  }

  /** A key is matched exactly when some qualifying rule lists it. */
  lemma {:induction false} MatchedMembership(rules: seq<Rule>, e: Record, k: string)
    ensures k in Matched(rules, e) <==>
      exists i :: 0 <= i < |rules| && Qualifies(rules[i], e) && k in rules[i].tags
  {
    if rules != [] {
      var init := rules[..|rules| - 1];
      MatchedMembership(init, e, k);
      if k in Matched(rules, e) && k !in Matched(init, e) {
        assert Qualifies(rules[|rules| - 1], e) && k in rules[|rules| - 1].tags;
      }
      if exists i :: 0 <= i < |rules| && Qualifies(rules[i], e) && k in rules[i].tags {
        var i :| 0 <= i < |rules| && Qualifies(rules[i], e) && k in rules[i].tags;
        if i < |rules| - 1 {
          assert init[i] == rules[i];
        }
      }
    }
  }

  /** Two rules, one for ways with `highway` and one for anything with
      `shop`: a way with `highway` and `name` but no `shop` matches `name`
      once. */
  lemma TwoRulesExample(id: string)
    ensures var rules := [Rule("way", HasTag("highway"), ["name"]), Rule("any", HasTag("shop"), ["name"])];
      Matched(rules, Record(Way, id, [("highway", "primary"), ("name", "Main St")])) == ["name"]
  {
    var rules := [Rule("way", HasTag("highway"), ["name"]), Rule("any", HasTag("shop"), ["name"])];
    var e := Record(Way, id, [("highway", "primary"), ("name", "Main St")]);
    assert Lookup(e.tags, "highway") == Some("primary");
    assert Lookup(e.tags, "shop") == None;
    assert rules[..1] == [rules[0]] && [rules[0]][..0] == [];
    assert !Qualifies(rules[1], e);
    assert Qualifies(rules[0], e);
    assert Matched([rules[0]], e) == Matched([], e) + ["name"];
    assert Matched(rules, e) == Matched([rules[0]], e) + [];
  }
}
