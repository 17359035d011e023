/** compile_pathspecs and find_all_reviewers (action.py:22-35). A pattern is compiled
    into a matcher by the pathspec library, whose gitwildmatch semantics are not part of
    this model: `compile` stands for PathSpec.from_lines("gitwildmatch", [pattern]), and
    every property here holds whatever it does. */
module Pathspecs {
  import opened Codeowners

  /** A compiled PathSpec: does it match a file path? */
  type Matcher = string -> bool

  /** A rule paired with its compiled matcher; the pattern is kept for diagnostics. */
  datatype CompiledRule = CompiledRule(pattern: string, spec: Matcher, owners: seq<string>)

  /** The compiled counterparts of a list of rules. */
  function CompileRules(rules: seq<Rule>, compile: string -> Matcher): (specs: seq<CompiledRule>)
    ensures |specs| == |rules|
    ensures forall k :: 0 <= k < |rules| ==>
              specs[k] == CompiledRule(rules[k].pattern, compile(rules[k].pattern), rules[k].owners)
  {
    if rules == [] then []
    else
      var last := rules[|rules| - 1];
      CompileRules(rules[..|rules| - 1], compile) + [CompiledRule(last.pattern, compile(last.pattern), last.owners)]
  }

  /** The loop of compile_pathspecs: one matcher per rule, in rule order. */
  method CompilePathspecs(rules: seq<Rule>, compile: string -> Matcher) returns (compiled: seq<CompiledRule>)
    ensures compiled == CompileRules(rules, compile)
  {
    compiled := [];
    for i := 0 to |rules|
      invariant compiled == CompileRules(rules[..i], compile)
    {
      assert rules[..i + 1][..i] == rules[..i];
      var pattern, owners := rules[i].pattern, rules[i].owners;
      var spec := compile(pattern);
      compiled := compiled + [CompiledRule(pattern, spec, owners)];
    }
    assert rules[..|rules|] == rules;
  }

  /** The owners of every compiled rule that matches path, pooled together: an owner is in
      the result exactly when some matching rule lists it. */
  function MatchedOwners(path: string, specs: seq<CompiledRule>): (r: set<string>)
    ensures forall o :: o in r <==>
              exists k :: 0 <= k < |specs| && specs[k].spec(path) && o in specs[k].owners
  {
    if specs == [] then {}
    else
      var front := specs[..|specs| - 1];
      var last := specs[|specs| - 1];
      var r := MatchedOwners(path, front) + (if last.spec(path) then set o | o in last.owners else {});
      assert forall k :: 0 <= k < |front| ==> front[k] == specs[k];
      r
  }

  /** The loop of find_all_reviewers: union of the owners of all matching rules, not the
      owners of the last match. */
  method FindAllReviewers(filepath: string, compiledSpecs: seq<CompiledRule>) returns (matched: set<string>)
    ensures matched == MatchedOwners(filepath, compiledSpecs)
  {
    matched := {};
    for i := 0 to |compiledSpecs|
      invariant matched == MatchedOwners(filepath, compiledSpecs[..i])
    {
      assert compiledSpecs[..i + 1][..i] == compiledSpecs[..i];
      var spec, owners := compiledSpecs[i].spec, compiledSpecs[i].owners;
      if spec(filepath) {
        matched := matched + set o | o in owners;
      }
    }
    assert compiledSpecs[..|compiledSpecs|] == compiledSpecs;
  }

  /** Resolution through compiled rules is resolution over the rules themselves: an owner
      is found for path exactly when some rule whose pattern matches path lists it. */
  lemma ResolveRules(path: string, rules: seq<Rule>, compile: string -> Matcher)
    ensures forall o :: o in MatchedOwners(path, CompileRules(rules, compile)) <==>
              exists k :: 0 <= k < |rules| && compile(rules[k].pattern)(path) && o in rules[k].owners
  {
    var specs := CompileRules(rules, compile);
    forall o | o in MatchedOwners(path, specs)
      ensures exists k :: 0 <= k < |rules| && compile(rules[k].pattern)(path) && o in rules[k].owners
    {
      var k :| 0 <= k < |specs| && specs[k].spec(path) && o in specs[k].owners;
      assert specs[k] == CompiledRule(rules[k].pattern, compile(rules[k].pattern), rules[k].owners);
    }
    forall o, k | 0 <= k < |rules| && compile(rules[k].pattern)(path) && o in rules[k].owners
      ensures o in MatchedOwners(path, specs)
    {
      assert specs[k] == CompiledRule(rules[k].pattern, compile(rules[k].pattern), rules[k].owners);
    }
  }

  /** Union does not care where a rule stands: splitting the rules anywhere and pooling the
      two halves gives the same owners, so swapping the halves changes nothing. */
  lemma MatchedOwnersAppend(path: string, a: seq<CompiledRule>, b: seq<CompiledRule>)
    ensures MatchedOwners(path, a + b) == MatchedOwners(path, a) + MatchedOwners(path, b)
    ensures MatchedOwners(path, a + b) == MatchedOwners(path, b + a)
  {
    var ab, ba := a + b, b + a;
    forall o | o in MatchedOwners(path, ab)
      ensures o in MatchedOwners(path, a) + MatchedOwners(path, b)
    {
      var k :| 0 <= k < |ab| && ab[k].spec(path) && o in ab[k].owners;
      if k < |a| { assert ab[k] == a[k]; } else { assert ab[k] == b[k - |a|]; }
    }
    forall o | o in MatchedOwners(path, a)
      ensures o in MatchedOwners(path, ab) && o in MatchedOwners(path, ba)
    {
      var k :| 0 <= k < |a| && a[k].spec(path) && o in a[k].owners;
      assert ab[k] == a[k] && ba[k + |b|] == a[k];
    }
    forall o | o in MatchedOwners(path, b)
      ensures o in MatchedOwners(path, ab) && o in MatchedOwners(path, ba)
    {
      var k :| 0 <= k < |b| && b[k].spec(path) && o in b[k].owners;
      assert ab[k + |a|] == b[k] && ba[k] == b[k];
    }
    forall o | o in MatchedOwners(path, ba)
      ensures o in MatchedOwners(path, a) + MatchedOwners(path, b)
    {
      var k :| 0 <= k < |ba| && ba[k].spec(path) && o in ba[k].owners;
      if k < |b| { assert ba[k] == b[k]; } else { assert ba[k] == a[k - |b|]; }
    }
  }

  /** The owners found for a path depend only on which rules are present, not on their
      order or on repetitions. */
  lemma MatchedOwnersOrderFree(path: string, a: seq<CompiledRule>, b: seq<CompiledRule>)
    requires forall r :: r in a <==> r in b
    ensures MatchedOwners(path, a) == MatchedOwners(path, b)
  {
    forall o | o in MatchedOwners(path, a)
      ensures o in MatchedOwners(path, b)
    {
      var k :| 0 <= k < |a| && a[k].spec(path) && o in a[k].owners;
      assert a[k] in b;
      var j :| 0 <= j < |b| && b[j] == a[k];
    }
    forall o | o in MatchedOwners(path, b)
      ensures o in MatchedOwners(path, a)
    {
      var k :| 0 <= k < |b| && b[k].spec(path) && o in b[k].owners;
      assert b[k] in a;
      var j :| 0 <= j < |a| && a[j] == b[k];
    }
  }

  /** No owner is found for a path exactly when every rule that matches it lists no owner. */
  lemma MatchedOwnersEmpty(path: string, specs: seq<CompiledRule>)
    ensures MatchedOwners(path, specs) == {} <==>
              forall k :: 0 <= k < |specs| && specs[k].spec(path) ==> specs[k].owners == []
  {
    if exists k :: 0 <= k < |specs| && specs[k].spec(path) && specs[k].owners != [] {
      var k :| 0 <= k < |specs| && specs[k].spec(path) && specs[k].owners != [];
      assert specs[k].owners[0] in MatchedOwners(path, specs);
    }
  }
}
