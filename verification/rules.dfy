// Choosing the rule that paces a request.

module Rules {
  import opened Wrappers
  import opened SlidingWindow

  datatype Rule = Rule(verb: string, prefix: string, limit: RateLimit)

  predicate Applies(rule: Rule, verb: string, path: string) {
    (rule.verb == "" || rule.verb == verb) && rule.prefix <= path
  }

  // The longer prefix is more specific; at equal length, naming a method is.
  predicate Outranks(a: Rule, b: Rule) {
    |a.prefix| > |b.prefix| || (|a.prefix| == |b.prefix| && a.verb != "" && b.verb == "")
  }

  // Applicable, outranked by none, and ahead of every rule of its own rank.
  ghost predicate Best(rules: seq<Rule>, verb: string, path: string, i: int) {
    && 0 <= i < |rules|
    && Applies(rules[i], verb, path)
    && (forall j :: 0 <= j < |rules| && Applies(rules[j], verb, path) ==> !Outranks(rules[j], rules[i]))
    && (forall j :: 0 <= j < i && Applies(rules[j], verb, path) ==> Outranks(rules[i], rules[j]))
  }

  ghost function Matched(rules: seq<Rule>, verb: string, path: string): (m: Option<nat>)
    ensures m.Some? ==> Best(rules, verb, path, m.value)
  {
    if i :| Best(rules, verb, path, i) then Some(i) else None
  }

  method Match(rules: seq<Rule>, verb: string, path: string) returns (m: Option<nat>)
    ensures m == Matched(rules, verb, path)
    ensures m.None? <==> forall i :: 0 <= i < |rules| ==> !Applies(rules[i], verb, path)
  {
    var best, bestScore, found := 0, -1, false;
    for i := 0 to |rules|
      invariant if found then 0 <= best < i && Best(rules[..i], verb, path, best) && bestScore == Score(rules[best])
                else bestScore == -1 && forall j :: 0 <= j < i ==> !Applies(rules[j], verb, path)
    {
      var rule := rules[i];
      if rule.verb != "" && rule.verb != verb {
        continue;
      }
      if !(rule.prefix <= path) {
        continue;
      }
      var score := |rule.prefix|;
      if rule.verb != "" {
        score := score * 2 + 1;
      } else {
        score := score * 2;
      }
      if score > bestScore {
        best, bestScore, found := i, score, true;
      }
    }
    assert rules[..|rules|] == rules;
    m := if found then Some(best) else None;
    assert found ==> Best(rules, verb, path, best);
  }

  function Score(rule: Rule): nat {
    |rule.prefix| * 2 + if rule.verb != "" then 1 else 0
  }

  // A table that never lists the same method and prefix twice.
  ghost predicate Distinct(rules: seq<Rule>) {
    forall i, j :: 0 <= i < j < |rules| ==> rules[i].verb != rules[j].verb || rules[i].prefix != rules[j].prefix
  }

  ghost function MatchedRule(rules: seq<Rule>, verb: string, path: string): Option<Rule> {
    var m := Matched(rules, verb, path);
    if m.Some? then Some(rules[m.value]) else None
  }

  // Some rule is matched whenever any applies.
  lemma {:induction false} MatchExists(rules: seq<Rule>, verb: string, path: string, i: nat)
    requires i < |rules| && Applies(rules[i], verb, path)
    ensures Matched(rules, verb, path).Some?
    decreases |rules|, i
  {
    var init, last := rules[..|rules| - 1], |rules| - 1;
    if i < last {
      MatchExists(init, verb, path, i);
      var b := Matched(init, verb, path).value;
      assert forall j :: 0 <= j < last ==> init[j] == rules[j];
      if Applies(rules[last], verb, path) && Outranks(rules[last], rules[b]) {
        assert Best(rules, verb, path, last);
      } else {
        assert Best(rules, verb, path, b);
      }
    } else if k :| 0 <= k < last && Applies(rules[k], verb, path) {
      MatchExists(rules, verb, path, k);
    } else {
      assert Best(rules, verb, path, last);
    }
  }

  // What is matched, in the rule's own terms: the path starts with its prefix
  // and it names this method or none; no such rule has a longer prefix; and none
  // of its length names the method unless it does too.
  lemma {:induction false} MatchLongest(rules: seq<Rule>, verb: string, path: string)
    ensures var m := Matched(rules, verb, path);
      && (m.None? ==> forall j :: 0 <= j < |rules| ==> !Fitting(rules[j].verb, rules[j].prefix, verb, path))
      && (m.Some? ==>
            var best := rules[m.value];
            && Fitting(best.verb, best.prefix, verb, path)
            && forall j :: 0 <= j < |rules| && Fitting(rules[j].verb, rules[j].prefix, verb, path) ==>
                 |rules[j].prefix| < |best.prefix|
                 || (|rules[j].prefix| == |best.prefix| && (rules[j].verb == verb && verb != "" ==> best.verb == verb)))
  {
    var m := Matched(rules, verb, path);
    forall j | 0 <= j < |rules| && Fitting(rules[j].verb, rules[j].prefix, verb, path) ensures m.Some? {
      MatchExists(rules, verb, path, j);
    }
  }

  ghost predicate Fitting(ruleVerb: string, prefix: string, verb: string, path: string) {
    (ruleVerb == "" || ruleVerb == verb) && |prefix| <= |path| && path[..|prefix|] == prefix
  }

  // The rule a request falls under does not depend on the order of the table.
  lemma {:induction false} OrderIrrelevant(rules: seq<Rule>, other: seq<Rule>, verb: string, path: string)
    requires multiset(rules) == multiset(other) && Distinct(rules)
    ensures MatchedRule(rules, verb, path) == MatchedRule(other, verb, path)
  {
    forall r ensures r in rules <==> r in other {
      assert r in rules <==> r in multiset(rules);
      assert r in other <==> r in multiset(other);
    }
    var a, b := Matched(rules, verb, path), Matched(other, verb, path);
    if a.Some? {
      assert rules[a.value] in other;
      var j :| 0 <= j < |other| && other[j] == rules[a.value];
      MatchExists(other, verb, path, j);
    }
    if b.Some? {
      assert other[b.value] in rules;
      var i :| 0 <= i < |rules| && rules[i] == other[b.value];
      MatchExists(rules, verb, path, i);
      var ra := rules[Matched(rules, verb, path).value];
      assert ra in other;
      assert rules[i].prefix == path[..|rules[i].prefix|] && ra.prefix == path[..|ra.prefix|];
    }
  }
}
