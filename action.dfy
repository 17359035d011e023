/** The decision block of main (action.py:70-90): a draft pull request is left alone;
    otherwise the owners resolved for every changed file are pooled, and either nothing is
    requested (no owner at all) or the pool is split into user and team reviewers. Reading
    the environment and the event file, the GitHub calls and the printing are not part of
    this model: the draft flag, the changed file names and the CODEOWNERS lines are inputs,
    and the request that would be submitted is the result. */
module Action {
  import opened PyStr
  import opened Codeowners
  import opened Pathspecs
  import opened Reviewers

  /** How a run ends. */
  datatype Outcome =
    | DraftSkipped
    | NoMatch
    | ReviewRequest(reviewers: seq<string>, teamReviewers: seq<string>)

  /** The owners of all changed files, pooled. */
  function AllOwners(files: seq<string>, specs: seq<CompiledRule>): set<string> {
    if files == [] then {}
    else AllOwners(files[..|files| - 1], specs) + MatchedOwners(files[|files| - 1], specs)
  }

  /** An owner is in the pool exactly when it is resolved for at least one changed file. */
  lemma {:induction false} AllOwnersMembers(files: seq<string>, specs: seq<CompiledRule>)
    ensures forall o :: o in AllOwners(files, specs) <==>
              exists i :: 0 <= i < |files| && o in MatchedOwners(files[i], specs)
  {
    if files != [] {
      var front := files[..|files| - 1];
      AllOwnersMembers(front, specs);
      assert forall i :: 0 <= i < |front| ==> front[i] == files[i];
      forall o | exists i :: 0 <= i < |files| && o in MatchedOwners(files[i], specs)
        ensures o in AllOwners(files, specs)
      {
        var i :| 0 <= i < |files| && o in MatchedOwners(files[i], specs);
        if i < |front| {
          assert o in MatchedOwners(front[i], specs);
        }
      }
    }
  }

  /** The pool a run computes from its inputs. */
  function RequestedOwners(files: seq<string>, codeowners: seq<string>, compile: string -> Matcher): set<string> {
    AllOwners(files, CompileRules(ParsedRules(codeowners), compile))
  }

  /** order lists every element of s exactly once: one way of iterating over the set. */
  ghost predicate Enumerates(order: seq<string>, s: set<string>) {
    && (forall x :: x in order <==> x in s)
    && (forall i, j :: 0 <= i < j < |order| ==> order[i] != order[j])
  }

  /** Iterating over a Python set visits its elements in an order the program does not
      control; any order can come out. */
  method IterationOrder(s: set<string>) returns (order: seq<string>)
    ensures Enumerates(order, s)
  {
    order := [];
    var rest := s;
    while rest != {}
      invariant forall x :: x in s <==> x in order || x in rest
      invariant forall x :: x in order ==> x !in rest
      invariant forall i, j :: 0 <= i < j < |order| ==> order[i] != order[j]
      decreases |rest|
    {
      var x :| x in rest;
      order := order + [x];
      rest := rest - {x};
    }
  }

  /** One run of main from the draft check on. */
  method Run(draft: bool, changedFiles: seq<string>, codeowners: seq<string>, compile: string -> Matcher)
    returns (outcome: Outcome, ghost order: seq<string>)
    ensures draft ==> outcome == DraftSkipped
    ensures !draft ==>
              var owners := RequestedOwners(changedFiles, codeowners, compile);
              && (outcome == NoMatch <==> owners == {})
              && (owners != {} ==> Enumerates(order, owners)
                                   && outcome == ReviewRequest(UserReviewers(order), TeamReviewers(order)))
  {
    if draft {
      return DraftSkipped, [];
    }
    var rules := ParseCodeowners(codeowners);
    var compiledSpecs := CompilePathspecs(rules, compile);
    var allOwners: set<string> := {};
    for i := 0 to |changedFiles|
      invariant allOwners == AllOwners(changedFiles[..i], compiledSpecs)
    {
      assert changedFiles[..i + 1][..i] == changedFiles[..i];
      var matched := FindAllReviewers(changedFiles[i], compiledSpecs);
      if matched != {} {
        allOwners := allOwners + matched;
      }
    }
    assert changedFiles[..|changedFiles|] == changedFiles;
    if allOwners == {} {
      return NoMatch, [];
    }
    var ownersInOrder := IterationOrder(allOwners);
    order := ownersInOrder;
    var reviewers, teamReviewers := SplitUsersAndTeams(ownersInOrder);
    outcome := ReviewRequest(reviewers, teamReviewers);
  }

  /** The pool, in terms of the rules: an owner is requested exactly when some rule that
      lists it has a pattern matching some changed file. */
  lemma AllOwnersOfRules(files: seq<string>, rules: seq<Rule>, compile: string -> Matcher)
    ensures forall o :: o in AllOwners(files, CompileRules(rules, compile)) <==>
              exists i, k :: 0 <= i < |files| && 0 <= k < |rules|
                             && compile(rules[k].pattern)(files[i]) && o in rules[k].owners
  {
    var specs := CompileRules(rules, compile);
    AllOwnersMembers(files, specs);
    forall i | 0 <= i < |files| {
      ResolveRules(files[i], rules, compile);
    }
  }

  /** Nothing is requested exactly when every rule whose pattern matches a changed file
      lists no owner. */
  lemma NoMatchExactly(files: seq<string>, rules: seq<Rule>, compile: string -> Matcher)
    ensures AllOwners(files, CompileRules(rules, compile)) == {} <==>
              forall i, k :: 0 <= i < |files| && 0 <= k < |rules| && compile(rules[k].pattern)(files[i])
                             ==> rules[k].owners == []
  {
    AllOwnersOfRules(files, rules, compile);
    if exists i, k :: 0 <= i < |files| && 0 <= k < |rules| && compile(rules[k].pattern)(files[i])
                      && rules[k].owners != [] {
      var i, k :| 0 <= i < |files| && 0 <= k < |rules| && compile(rules[k].pattern)(files[i])
                  && rules[k].owners != [];
      assert rules[k].owners[0] in AllOwners(files, CompileRules(rules, compile));
    }
  }

  lemma {:induction false} DistinctCount(order: seq<string>, x: string)
    requires forall i, j :: 0 <= i < j < |order| ==> order[i] != order[j]
    ensures multiset(order)[x] == if x in order then 1 else 0
  {
    if order != [] {
      var front := order[..|order| - 1];
      assert order == front + [order[|order| - 1]];
      DistinctCount(front, x);
    }
  }

  /** Two iteration orders of one set hold the same owners the same number of times. */
  lemma EnumerationsPermute(a: seq<string>, b: seq<string>, s: set<string>)
    requires Enumerates(a, s) && Enumerates(b, s)
    ensures multiset(a) == multiset(b)
  {
    forall x ensures multiset(a)[x] == multiset(b)[x] {
      DistinctCount(a, x);
      DistinctCount(b, x);
    }
  }

  /** The request made from a pool: every owner of the pool is asked once, as the user or
      the team it classifies as, and the two lists are the same, up to order, whatever
      order the set is iterated in. */
  lemma RequestFromPool(order: seq<string>, other: seq<string>, owners: set<string>)
    requires Enumerates(order, owners) && Enumerates(other, owners)
    ensures |UserReviewers(order)| + |TeamReviewers(order)| == |owners|
    ensures forall u :: u in UserReviewers(order) <==> exists o :: o in owners && Classify(o) == User(u)
    ensures forall t :: t in TeamReviewers(order) <==> exists o :: o in owners && Classify(o) == Team(t)
    ensures multiset(UserReviewers(order)) == multiset(UserReviewers(other))
    ensures multiset(TeamReviewers(order)) == multiset(TeamReviewers(other))
  {
    SplitSizes(order);
    assert |order| == |owners| by {
      EnumerationsSize(order, owners);
    }
    UserReviewersMembers(order);
    TeamReviewersMembers(order);
    forall u | exists o :: o in owners && Classify(o) == User(u)
      ensures exists k :: 0 <= k < |order| && Classify(order[k]) == User(u)
    {
      var o :| o in owners && Classify(o) == User(u);
      var k :| 0 <= k < |order| && order[k] == o;
    }
    forall t | exists o :: o in owners && Classify(o) == Team(t)
      ensures exists k :: 0 <= k < |order| && Classify(order[k]) == Team(t)
    {
      var o :| o in owners && Classify(o) == Team(t);
      var k :| 0 <= k < |order| && order[k] == o;
    }
    EnumerationsPermute(order, other, owners);
    SplitPermutation(order, other);
  }

  lemma EnumerationsSize(order: seq<string>, s: set<string>)
    requires Enumerates(order, s)
    ensures |order| == |s|
  {
    var m := multiset(order);
    forall x ensures m[x] == multiset(s)[x] {
      DistinctCount(order, x);
    }
    assert m == multiset(s);
  }

  /** A file holding only "* @everyone" requests nobody, whatever files changed. */
  lemma CatchAllOnlyRequestsNobody(files: seq<string>, compile: string -> Matcher)
    ensures RequestedOwners(files, ["* @everyone"], compile) == {}
  {
    CatchAllFile();
    NoMatchExactly(files, [], compile);
  }

  /** The pool of two changed files, each matched by its own rule, is every owner of the
      two rules, whatever else the patterns match. */
  lemma TwoFilePool(files: seq<string>, rules: seq<Rule>, compile: string -> Matcher)
    requires |files| == 2 && |rules| == 2
    requires compile(rules[0].pattern)(files[0]) && compile(rules[1].pattern)(files[1])
    ensures AllOwners(files, CompileRules(rules, compile)) == set o | o in rules[0].owners + rules[1].owners
  {
    AllOwnersOfRules(files, rules, compile);
    var pool := AllOwners(files, CompileRules(rules, compile));
    forall o | o in rules[0].owners + rules[1].owners
      ensures o in pool
    {
      if o in rules[0].owners {
        assert compile(rules[0].pattern)(files[0]);
      } else {
        assert compile(rules[1].pattern)(files[1]);
      }
    }
  }

  /** A pool of three owners written in order user, team, user. */
  lemma ThreeOwnerRequest(a: string, b: string, c: string, ua: string, tb: string, uc: string)
    requires Classify(a) == User(ua) && Classify(b) == Team(tb) && Classify(c) == User(uc)
    ensures UserReviewers([a, b, c]) == [ua, uc]
    ensures TeamReviewers([a, b, c]) == [tb]
  {
    UserAndTeam(a, b, ua, tb);
    SingleOwner(c);
    UserReviewersAppend([a, b], [c]);
    TeamReviewersAppend([a, b], [c]);
    assert [a, b] + [c] == [a, b, c];
  }

  /** Whatever order a pool of owners user, team, user is iterated in, the two users are
      requested and the one team. */
  lemma ThreeOwnerPool(order: seq<string>, a: string, b: string, c: string, ua: string, tb: string, uc: string)
    requires Classify(a) == User(ua) && Classify(b) == Team(tb) && Classify(c) == User(uc) && a != c
    requires Enumerates(order, {a, b, c})
    ensures multiset(UserReviewers(order)) == multiset{ua, uc}
    ensures TeamReviewers(order) == [tb]
  {
    ThreeOwnerRequest(a, b, c, ua, tb, uc);
    assert a != b && b != c by {
      assert Classify(a) != Classify(b) && Classify(b) != Classify(c);
    }
    ThreeEnumerated(a, b, c);
    EnumerationsPermute(order, [a, b, c], {a, b, c});
    SplitPermutation(order, [a, b, c]);
    OnlyElement(TeamReviewers(order), tb);
  }

  /** Three distinct owners, written in order, are one iteration order of their set. */
  lemma ThreeEnumerated(a: string, b: string, c: string)
    requires a != b && b != c && a != c
    ensures Enumerates([a, b, c], {a, b, c})
  {
  }

  /** A list holding x once and nothing else is [x]. */
  lemma OnlyElement(s: seq<string>, x: string)
    requires multiset(s) == multiset{x}
    ensures s == [x]
  {
    assert |s| == |multiset(s)| == 1;
    assert s[0] in multiset(s);
  }

  /** The shape of the worked example below: one owner on the first rule, two on the second. */
  lemma OneThenTwoOwners(f1: string, f2: string, p1: string, p2: string, o1: string, o2: string, o3: string,
                         compile: string -> Matcher)
    requires compile(p1)(f1) && compile(p2)(f2)
    ensures AllOwners([f1, f2], CompileRules([Rule(p1, [o1]), Rule(p2, [o2, o3])], compile)) == {o1, o2, o3}
  {
    var rules := [Rule(p1, [o1]), Rule(p2, [o2, o3])];
    TwoFilePool([f1, f2], rules, compile);
    assert rules[0].owners + rules[1].owners == [o1, o2, o3];
    assert (set o | o in [o1, o2, o3]) == {o1, o2, o3};
  }

  // Worked example: the lines "docs/* @writers" and "src/**/*.go @org/backend @carol",
  // with docs/readme.md and src/pkg/main.go changed, each matched by the rule written for
  // it. The pool is the three owner tokens, and the request is the users writers and carol
  // (in the order the set is iterated) and the team backend.
  lemma WorkedExamplePool(compile: string -> Matcher)
    requires compile("docs/*")("docs/readme.md")
    requires compile("src/**/*.go")("src/pkg/main.go")
    ensures RequestedOwners(["docs/readme.md", "src/pkg/main.go"],
                            ["docs/* @writers", "src/**/*.go @org/backend @carol"], compile)
            == {"@writers", "@org/backend", "@carol"}
  {
    ExampleFileRules();
    OneThenTwoOwners("docs/readme.md", "src/pkg/main.go", "docs/*", "src/**/*.go",
                     "@writers", "@org/backend", "@carol", compile);
  }

  lemma WorkedExampleRequest(order: seq<string>)
    requires Enumerates(order, {"@writers", "@org/backend", "@carol"})
    ensures multiset(UserReviewers(order)) == multiset{"writers", "carol"}
    ensures TeamReviewers(order) == ["backend"]
  {
    UserExampleWriters();
    TeamExampleBackend();
    UserExampleCarol();
    assert "@writers"[1] != "@carol"[1];
    ThreeOwnerPool(order, "@writers", "@org/backend", "@carol", "writers", "backend", "carol");
  }
}
