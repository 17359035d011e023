/** parse_codeowners (action.py:7-20): the lines of a CODEOWNERS file become an ordered
    list of (pattern, owners) rules. Blank lines, comments and the two catch-all patterns
    produce no rule; every other line produces exactly one, even with no owners. */
module Codeowners {
  import opened PyStr

  datatype Option<T> = None | Some(value: T)

  /** One ownership rule: a gitwildmatch pattern and the owner tokens that follow it,
      in the order they appear on the line. */
  datatype Rule = Rule(pattern: string, owners: seq<string>)

  /** The patterns the parser refuses, so that no rule hands every file to a default owner. */
  predicate IsCatchAll(pattern: string) {
    pattern == "*" || pattern == "/.*"
  }

  /** A line that is empty, or starts with '#', once trimmed. */
  predicate IsBlankOrComment(line: string) {
    var t := Strip(line);
    t == [] || t[0] == '#'
  }

  /** line.strip().split(): the whitespace-separated tokens of a line. */
  function Tokens(line: string): seq<string> {
    Split(Strip(line))
  }

  /** The rule one line contributes, if any. */
  function ParseLine(line: string): Option<Rule> {
    if IsBlankOrComment(line) then None
    else
      var parts := Tokens(line);
      if IsCatchAll(parts[0]) then None else Some(Rule(parts[0], parts[1..]))
  }

  /** A blank or comment line gives no rule; any other line has at least one token, and
      gives no rule exactly when its first token is a catch-all. A rule's pattern is the
      first token (never empty, never holding whitespace, never starting with '#', never a
      catch-all) and its owners are the remaining tokens, each non-empty and free of
      whitespace. */
  lemma ParseLineMeaning(line: string)
    ensures IsBlankOrComment(line) ==> ParseLine(line) == None
    ensures !IsBlankOrComment(line) ==>
              Tokens(line) != [] && (ParseLine(line) == None <==> IsCatchAll(Tokens(line)[0]))
    ensures ParseLine(line).Some? ==>
              var r := ParseLine(line).value;
              && r.pattern == Tokens(line)[0] && r.owners == Tokens(line)[1..]
              && r.pattern != [] && NoSpace(r.pattern) && r.pattern[0] != '#' && !IsCatchAll(r.pattern)
              && forall k :: 0 <= k < |r.owners| ==> r.owners[k] != [] && NoSpace(r.owners[k])
  {
    StripMeaning(line);
    SplitMeaning(Strip(line));
    if !IsBlankOrComment(line) {
      SplitFirstChar(Strip(line));
    }
  }

  /** The rules of a whole file, in line order. */
  function ParsedRules(lines: seq<string>): (rules: seq<Rule>)
    ensures |rules| <= |lines|
    ensures forall k :: 0 <= k < |rules| ==> !IsCatchAll(rules[k].pattern) && rules[k].pattern != []
  {
    if lines == [] then []
    else
      var front := ParsedRules(lines[..|lines| - 1]);
      ParseLineMeaning(lines[|lines| - 1]);
      match ParseLine(lines[|lines| - 1])
      case None => front
      case Some(r) => front + [r]
  }

  /** The loop of parse_codeowners over the lines of the file. */
  method ParseCodeowners(lines: seq<string>) returns (rules: seq<Rule>)
    ensures rules == ParsedRules(lines)
  {
    rules := [];
    for i := 0 to |lines|
      invariant rules == ParsedRules(lines[..i])
    {
      ParsedRulesStep(lines, i);
      LineSteps(lines[i]);
      var line := Strip(lines[i]);
      if line != [] && line[0] != '#' {
        var parts := Split(line);
        var pattern, owners := parts[0], parts[1..];
        if !(pattern == "*" || pattern == "/.*") {
          rules := rules + [Rule(pattern, owners)];
        }
      }
    }
    assert lines[..|lines|] == lines;
  }

  /** ParseLine, step by step as parse_codeowners takes it: trim, skip blanks and
      comments, split, skip catch-alls. */
  lemma LineSteps(line: string)
    ensures var t := Strip(line);
            && (t == [] || t[0] == '#' ==> ParseLine(line) == None)
            && (t != [] && t[0] != '#' ==>
                  var parts := Split(t);
                  && parts != []
                  && ParseLine(line) == if parts[0] == "*" || parts[0] == "/.*" then None
                                        else Some(Rule(parts[0], parts[1..])))
  {
    ParseLineMeaning(line);
  }

  /** One more line adds the rule it contributes, if any, after the rules before it. */
  lemma ParsedRulesStep(lines: seq<string>, i: nat)
    requires i < |lines|
    ensures ParsedRules(lines[..i + 1]) ==
              ParsedRules(lines[..i]) + (if ParseLine(lines[i]).Some? then [ParseLine(lines[i]).value] else [])
  {
    var prefix := lines[..i + 1];
    assert prefix[..|prefix| - 1] == lines[..i] && prefix[|prefix| - 1] == lines[i];
  }

  /** Parsing is line by line: the rules of two pieces of a file are the rules of each
      piece, one after the other. */
  lemma {:induction false} ParsedRulesAppend(a: seq<string>, b: seq<string>)
    ensures ParsedRules(a + b) == ParsedRules(a) + ParsedRules(b)
    decreases |b|
  {
    if b == [] {
      assert a + b == a;
    } else {
      var b' := b[..|b| - 1];
      assert (a + b)[..|a + b| - 1] == a + b';
      assert (a + b)[|a + b| - 1] == b[|b| - 1];
      ParsedRulesAppend(a, b');
    }
  }

  /** A line that is blank, a comment or a catch-all leaves the rules unchanged. */
  lemma SkippedLineInvisible(a: seq<string>, line: string, b: seq<string>)
    requires ParseLine(line) == None
    ensures ParsedRules(a + [line] + b) == ParsedRules(a + b)
  {
    ParsedRulesAppend(a + [line], b);
    ParsedRulesAppend(a, [line]);
    ParsedRulesAppend(a, b);
    assert [line][..0] == [];
  }

  /** A line that yields a rule puts it right after the rules of the lines before it:
      rules come out in line order, one per kept line. */
  lemma RuleOfLine(lines: seq<string>, i: nat)
    requires i < |lines| && ParseLine(lines[i]).Some?
    ensures |ParsedRules(lines[..i])| < |ParsedRules(lines)|
    ensures ParsedRules(lines)[|ParsedRules(lines[..i])|] == ParseLine(lines[i]).value
  {
    assert lines == lines[..i] + [lines[i]] + lines[i + 1..];
    ParsedRulesAppend(lines[..i] + [lines[i]], lines[i + 1..]);
    ParsedRulesAppend(lines[..i], [lines[i]]);
    OneRuleLine(lines[i], ParseLine(lines[i]).value);
  }

  /** Every rule comes from some line of the file. */
  lemma {:induction false} RulesComeFromLines(lines: seq<string>)
    ensures forall k :: 0 <= k < |ParsedRules(lines)| ==>
              exists i :: 0 <= i < |lines| && ParseLine(lines[i]) == Some(ParsedRules(lines)[k])
  {
    if lines == [] {
      assert ParsedRules(lines) == [];
    } else {
      var n := |lines| - 1;
      var front := lines[..n];
      RulesComeFromLines(front);
      ParsedRulesStep(lines, n);
      assert lines[..n + 1] == lines;
      var rules := ParsedRules(lines);
      forall k | 0 <= k < |rules|
        ensures exists i :: 0 <= i < |lines| && ParseLine(lines[i]) == Some(rules[k])
      {
        if k < |ParsedRules(front)| {
          var i :| 0 <= i < |front| && ParseLine(front[i]) == Some(ParsedRules(front)[k]);
          assert lines[i] == front[i] && rules[k] == ParsedRules(front)[k];
        } else {
          assert ParseLine(lines[n]) == Some(rules[k]);
        }
      }
    }
  }

  /** A canonical line (a pattern and owner tokens joined by single spaces) parses back
      into its pattern and owners, unless the pattern is a catch-all. */
  lemma ParseCanonicalLine(pattern: string, owners: seq<string>)
    requires pattern != [] && NoSpace(pattern) && pattern[0] != '#'
    requires forall k :: 0 <= k < |owners| ==> owners[k] != [] && NoSpace(owners[k])
    ensures ParseLine(Join([pattern] + owners)) ==
              if IsCatchAll(pattern) then None else Some(Rule(pattern, owners))
  {
    var words := [pattern] + owners;
    CanonicalTokens(words);
    var line := Join(words);
    assert !IsBlankOrComment(line);
    assert words[0] == pattern && words[1..] == owners;
  }

  /** Words joined by single spaces are already trimmed, and their tokens are the words. */
  lemma CanonicalTokens(words: seq<string>)
    requires words != []
    requires forall k :: 0 <= k < |words| ==> words[k] != [] && NoSpace(words[k])
    ensures Join(words) != [] && Join(words)[0] == words[0][0]
    ensures Strip(Join(words)) == Join(words)
    ensures Tokens(Join(words)) == words
  {
    JoinEnds(words);
    StripTrimmed(Join(words));
    SplitJoin(words);
  }

  /** A file holding only the catch-all line "* @everyone" yields no rule. */
  lemma CatchAllFile()
    ensures ParsedRules(["* @everyone"]) == []
  {
    var line := "* @everyone";
    assert ["*"] + ["@everyone"] == ["*", "@everyone"];
    assert Join(["*", "@everyone"]) == line;
    ParseCanonicalLine("*", ["@everyone"]);
    assert ParseLine(line) == None;
    assert [line][..0] == [];
  }

  lemma DocsLine()
    ensures ParseLine("docs/* @writers") == Some(Rule("docs/*", ["@writers"]))
  {
    JoinDocs();
    assert NoSpace("docs/*") && NoSpace("@writers");
    ParseCanonicalLine("docs/*", ["@writers"]);
    assert ["docs/*"] + ["@writers"] == ["docs/*", "@writers"];
  }

  lemma JoinDocs()
    ensures Join(["docs/*", "@writers"]) == "docs/* @writers"
  {
    var words := ["docs/*", "@writers"];
    assert words[1..] == ["@writers"];
    assert Join(words[1..]) == "@writers";
  }

  lemma SourcesLine()
    ensures ParseLine("src/**/*.go @org/backend @carol") == Some(Rule("src/**/*.go", ["@org/backend", "@carol"]))
  {
    JoinSources();
    assert NoSpace("src/**/*.go");
    assert NoSpace("@org/backend") && NoSpace("@carol");
    ParseCanonicalLine("src/**/*.go", ["@org/backend", "@carol"]);
    assert ["src/**/*.go"] + ["@org/backend", "@carol"] == ["src/**/*.go", "@org/backend", "@carol"];
  }

  lemma JoinSources()
    ensures Join(["src/**/*.go", "@org/backend", "@carol"]) == "src/**/*.go @org/backend @carol"
  {
    JoinThree("src/**/*.go", "@org/backend", "@carol");
  }

  lemma JoinThree(a: string, b: string, c: string)
    ensures Join([a, b, c]) == a + " " + b + " " + c
  {
    var words := [a, b, c];
    assert words[1..] == [b, c] && words[1..][1..] == [c];
    assert Join([b, c]) == b + " " + c;
    assert a + " " + (b + " " + c) == a + " " + b + " " + c;
  }

  /** A pattern and one owner separated by a single whitespace character of any kind,
      a tab included, are a rule with that owner. */
  lemma ParseTwoTokenLine(pattern: string, c: char, owner: string)
    requires pattern != [] && NoSpace(pattern) && pattern[0] != '#' && !IsCatchAll(pattern)
    requires owner != [] && NoSpace(owner) && IsSpace(c)
    ensures ParseLine(pattern + [c] + owner) == Some(Rule(pattern, [owner]))
  {
    var line := pattern + [c] + owner;
    assert line[0] == pattern[0] && line[|line| - 1] == owner[|owner| - 1];
    StripTrimmed(line);
    SplitTwoWords(pattern, c, owner);
    assert Tokens(line) == [pattern, owner];
    assert [pattern, owner][1..] == [owner];
  }

  // The pattern "docs/*", a tab and the owner "@writers" are the same rule as with a space.
  lemma TabSeparatedLine()
    ensures ParseLine("docs/*" + ['\t'] + "@writers") == Some(Rule("docs/*", ["@writers"]))
  {
    assert NoSpace("docs/*");
    assert NoSpace("@writers");
    ParseTwoTokenLine("docs/*", '\t', "@writers");
  }

  /** A file of one line that yields a rule has exactly that rule. */
  lemma OneRuleLine(line: string, r: Rule)
    requires ParseLine(line) == Some(r)
    ensures ParsedRules([line]) == [r]
  {
    assert [line][..0] == [];
  }

  /** Two lines that each parse to a rule give those two rules, in file order. */
  lemma TwoRuleLines(first: string, second: string, r1: Rule, r2: Rule)
    requires ParseLine(first) == Some(r1) && ParseLine(second) == Some(r2)
    ensures ParsedRules([first, second]) == [r1, r2]
  {
    OneRuleLine(first, r1);
    OneRuleLine(second, r2);
    ParsedRulesAppend([first], [second]);
    assert [first] + [second] == [first, second];
  }

  // The worked two-line file below gives one rule per line, in order, each with its
  // owners as written.
  lemma ExampleFileRules()
    ensures ParsedRules(["docs/* @writers", "src/**/*.go @org/backend @carol"]) ==
              [Rule("docs/*", ["@writers"]), Rule("src/**/*.go", ["@org/backend", "@carol"])]
  {
    DocsLine();
    SourcesLine();
    TwoRuleLines("docs/* @writers", "src/**/*.go @org/backend @carol",
                 Rule("docs/*", ["@writers"]), Rule("src/**/*.go", ["@org/backend", "@carol"]));
  }
}
