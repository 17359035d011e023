# CODEOWNERS reviewer assignment, modelled in Dafny

`action.py` is a one-shot pull-request automation step. It reads a CODEOWNERS file and
matches every changed file of the pull request against the file's patterns. It pools the
owners of all matching rules and asks GitHub for reviews from the users and teams in
that pool. A draft pull request is left alone.

This project models the decision logic of that step and proves its properties. The
modules follow the program's pipeline:

- `PyStr` (`pystr.dfy`) models the Python string built-ins the script relies on:
  - `str.isspace` over its exact code points
  - `strip`
  - `split()` with no separator
  - `lstrip("@")`
  - `split("/", 1)[1]`
- `Codeowners` (`codeowners.dfy`) models `parse_codeowners`. The file is a sequence of
  lines and becomes an ordered list of `Rule(pattern, owners)`. The method
  `ParseCodeowners` is the loop. The function `ParsedRules` is its specification.
- `Pathspecs` (`pathspecs.dfy`) models `compile_pathspecs` and `find_all_reviewers`:
  - The gitwildmatch compiler is a parameter, `compile: string -> Matcher`.
  - Every property holds for any compiler.
  - Resolution takes the union of the owners of every matching rule, not the last match.
- `Reviewers` (`reviewers.dfy`) models `split_users_and_teams`:
  - Every leading `@` is stripped.
  - A token that still holds `/` is a team, and its slug is what follows the first `/`.
  - Any other token is a user.
- `Action` (`action.py:70-90`, in `action.dfy`) models the decision block of `main`:
  - A draft is skipped.
  - The owners of every changed file are pooled.
  - An empty pool ends the run with no request.
  - Otherwise the pool is split into `reviewers` and `team_reviewers`.

  The pool is a Python set, and iterating over it visits its elements in an order the
  program does not control. So `Run` picks an arbitrary enumeration of the pool and
  returns it as a ghost output. Its contract holds for every enumeration.
  `RequestFromPool` proves that the two lists are the same, up to order, whichever
  enumeration is taken.

Where the code's behaviour differs from the conventional reading of CODEOWNERS, the
model follows the code:

- `lstrip("@")` removes every leading `@`, not just one.
- `@org/a/b` is the team `a/b`: only the first `/` separates, and the slug can hold `/`.
- The two output lists are not deduplicated and not sorted. `@alice` and `alice` are two
  distinct owners that both become the user `alice`.
- A name can be requested as a user and as a team in the same run.
- A rule with no owners is still kept.
- A file is resolved by the union of the owners of all matching rules. CODEOWNERS'
  last-match-wins override is not used.

## Model

| member | source | states |
|---|---|---|
| PyStr.StripMeaning | action.py:11 | `strip()` is empty exactly when the line is all whitespace; otherwise it starts and ends with a non-whitespace character and is the infix left once the leading and trailing whitespace are cut off |
| PyStr.SplitMeaning | action.py:14 | `split()` yields no token exactly when the string is all whitespace, and every token is non-empty and free of whitespace |
| PyStr.SplitKeepsNonSpace | action.py:14 | the tokens of `split()`, put back together, are exactly the non-whitespace characters of the string in order: nothing is dropped or added |
| PyStr.SplitJoin | action.py:14 | round trip: splitting words joined by single spaces gives the words back, when each word is non-empty and free of whitespace |
| PyStr.IsSpace | action.py:11-14 | the characters `str.isspace` accepts, which `strip()` and `split()` treat as whitespace: tab, line feed, vertical tab, form feed, carriage return, the separators U+001C-U+001F, space, U+0085, U+00A0, U+1680, U+2000-U+200A, U+2028, U+2029, U+202F, U+205F and U+3000 |
| PyStr.SplitLeadingSpace | action.py:14 | a leading whitespace character of any kind, a tab included, does not change the tokens; with `SplitWordThen` this fixes the tokens of every string |
| PyStr.SplitWordThen | action.py:14 | a non-empty whitespace-free word followed by nothing or by whitespace is the first token, followed by the tokens of the rest |
| PyStr.SplitWordSpace | action.py:14 | a word, any one whitespace character, then anything: the word, then the tokens of the rest |
| PyStr.SplitTwoWords | action.py:14 | two words separated by any one whitespace character split into those two words |
| PyStr.SplitTabSeparated | action.py:14 | `docs/*`, a tab and `@writers` split into `docs/*` and `@writers` |
| PyStr.StripLeadingMeaning | action.py:41 | `lstrip("@")` leaves a suffix of the token, everything it removed is `@`, and what is left is empty or does not start with `@` |
| PyStr.IndexOf | action.py:43 | the position of the first occurrence: the character there is the one sought and none comes before it |
| PyStr.AfterFirstMeaning | action.py:43 | `s.split("/", 1)[1]` is the suffix of `s` right after a `/` that has no `/` before it |
| PyStr.IndexOfAfter | action.py:43 | the first `/` of `a + "/" + b` is the one right after `a` when `a` holds no `/` |
| Codeowners.ParseLineMeaning | action.py:11-19 | a blank or `#` line gives no rule; any other line has a first token and gives no rule exactly when that token is `*` or `/.*`; a rule's pattern is the first token and its owners are the remaining tokens, in order, possibly none |
| Codeowners.ParsedRules | action.py:8-20 | a file gives at most one rule per line, and no rule has an empty or catch-all pattern |
| Codeowners.ParseCodeowners | action.py:7-20 | the loop over the lines returns exactly the specified rules |
| Codeowners.ParsedRulesAppend | action.py:10-19 | parsing is line by line: the rules of a file are the rules of any two pieces of it, one after the other |
| Codeowners.SkippedLineInvisible | action.py:12-18 | a blank, comment or catch-all line can be removed from anywhere in the file without changing the rules |
| Codeowners.RuleOfLine | action.py:19 | a line that gives a rule puts it right after the rules of the lines before it, so rules come out in line order |
| Codeowners.RulesComeFromLines | action.py:10-19 | every rule is the rule of some line of the file |
| Codeowners.ParseCanonicalLine | action.py:11-19 | a pattern that is non-empty, free of whitespace and does not start with `#`, and owner tokens that are non-empty and free of whitespace, joined by single spaces, parse back into that pattern and those owners, unless the pattern is a catch-all |
| Codeowners.ParseTwoTokenLine | action.py:11-19 | such a pattern, not a catch-all, and one such owner separated by any one whitespace character, a tab included, are the rule with that pattern and that owner |
| Codeowners.TabSeparatedLine | action.py:11-19 | `docs/*`, a tab and `@writers` are the rule (`docs/*`, [`@writers`]) |
| Codeowners.CanonicalTokens | action.py:11-14 | such a line is already trimmed and its tokens are the words |
| Codeowners.CatchAllFile | action.py:16-18 | the file `* @everyone` gives no rule |
| Codeowners.DocsLine | action.py:11-19 | `docs/* @writers` is the rule (`docs/*`, [`@writers`]) |
| Codeowners.SourcesLine | action.py:11-19 | `src/**/*.go @org/backend @carol` is the rule (`src/**/*.go`, [`@org/backend`, `@carol`]) |
| Codeowners.TwoRuleLines | action.py:10-19 | two lines that each give a rule give those two rules, in order |
| Codeowners.ExampleFileRules | action.py:7-20 | the two-line example file gives its two rules in file order |
| Pathspecs.CompileRules | action.py:22-27 | one compiled rule per rule, in rule order, each holding its rule's pattern, the compiled matcher of that pattern and the rule's owners unchanged |
| Pathspecs.CompilePathspecs | action.py:22-27 | the loop returns exactly those compiled rules |
| Pathspecs.MatchedOwners | action.py:29-35 | an owner is resolved for a path exactly when some compiled rule that matches the path lists it |
| Pathspecs.FindAllReviewers | action.py:29-35 | the loop returns exactly that union |
| Pathspecs.ResolveRules | action.py:29-35 | through compilation: an owner is resolved exactly when some rule whose compiled pattern matches the path lists it |
| Pathspecs.MatchedOwnersAppend | action.py:31-34 | the owners of a concatenation of rule lists are the union of the owners of each part, so swapping the parts changes nothing |
| Pathspecs.MatchedOwnersOrderFree | action.py:31-34 | rule lists holding the same rules, in any order and with any repetitions, resolve to the same owners |
| Pathspecs.MatchedOwnersEmpty | action.py:29-35 | nothing is resolved for a path exactly when every rule that matches it has no owners |
| Reviewers.ClassifyMeaning | action.py:41-45 | with `s` the token stripped of its leading `@`s: the token is a user exactly when `s` has no `/`, and the login is `s`, which has no `/` and does not start with `@`; otherwise the slug is what follows the first `/` of `s` |
| Reviewers.UserReviewers | action.py:44-45 | no login in `reviewers` contains `/` or starts with `@` |
| Reviewers.UserReviewersMembers | action.py:40-45 | a login is in `reviewers` exactly when some owner classifies as that user |
| Reviewers.TeamReviewers | action.py:39-43 | the `team_reviewers` list has at most one slug per owner; which slugs it holds is stated by `TeamReviewersMembers` and its order by `TeamReviewersAppend` |
| Reviewers.TeamReviewersMembers | action.py:40-43 | a slug is in `team_reviewers` exactly when some owner classifies as that team |
| Reviewers.SplitUsersAndTeams | action.py:37-46 | the loop returns exactly the specified user list and team list |
| Reviewers.SplitSizes | action.py:40-45 | every owner lands in exactly one of the two lists: the lengths add up to the number of owners |
| Reviewers.UserReviewersAppend | action.py:40-45 | `reviewers` keeps the owners' order: the users of a concatenation are the users of each part, in order |
| Reviewers.TeamReviewersAppend | action.py:40-43 | `team_reviewers` keeps the owners' order in the same way |
| Reviewers.SplitPermutation | action.py:40-45 | owner lists that are permutations of each other give user lists, and team lists, that are permutations of each other |
| Reviewers.StripLeadingPrefix | action.py:41 | removing some leading `@`s first does not change what `lstrip("@")` returns |
| Reviewers.StripLeadingStops | action.py:41 | `lstrip("@")` stops at the first character that is not `@` |
| Reviewers.ClassifyUser | action.py:41-45 | any number of `@`s followed by a login without `/` and not starting with `@` is that user |
| Reviewers.ClassifyTeam | action.py:41-43 | any number of `@`s, an organisation without `/`, a `/` and any slug is the team with that slug; the organisation is dropped |
| Reviewers.TeamExample | action.py:41-43 | `@org/team-x` is the team `team-x` |
| Reviewers.NestedTeamExample | action.py:41-43 | `@org/a/b` is the team `a/b` |
| Reviewers.UserExamples | action.py:41-45 | `@alice`, `@@alice` and `alice` are all the user `alice` |
| Reviewers.SingleOwner | action.py:40-45 | one owner is requested in exactly the list its classification names |
| Reviewers.TwoOwners | action.py:40-45 | two owners are requested in their order |
| Reviewers.SameUserTwice | action.py:44-45 | two distinct owners that are the same user give that login twice |
| Reviewers.UserAndTeam | action.py:40-45 | a user followed by a team is requested as that user and that team |
| Reviewers.RepeatedNames | action.py:38-45 | the lists are not deduplicated: [`@alice`, `alice`] gives the users [`alice`, `alice`], and [`alice`, `@org/alice`] gives `alice` as a user and as a team |
| Action.AllOwnersMembers | action.py:79-84 | an owner is in the pool exactly when it is resolved for at least one changed file |
| Action.AllOwnersOfRules | action.py:76-84 | an owner is in the pool exactly when some rule listing it has a pattern matching some changed file |
| Action.NoMatchExactly | action.py:79-88 | the pool is empty exactly when every rule whose pattern matches a changed file has no owners |
| Action.IterationOrder | action.py:90 | iterating over the pool visits each of its owners exactly once |
| Action.Run | action.py:70-90 | a draft is skipped; otherwise the run ends with no request exactly when the pool of the changed files is empty, and otherwise requests the users and teams of the pool in the order it is iterated |
| Action.EnumerationsPermute | action.py:90 | two iteration orders of one pool are permutations of each other |
| Action.EnumerationsSize | action.py:90 | an iteration order has as many entries as the pool has owners |
| Action.RequestFromPool | action.py:90 | whatever the iteration order, every owner of the pool is requested once, as the user or the team it classifies as, and the lists agree up to order with those of any other iteration order |
| Action.CatchAllOnlyRequestsNobody | action.py:76-88 | a CODEOWNERS file holding only `* @everyone` gives an empty pool for any changed files |
| Action.TwoFilePool | action.py:79-84 | two changed files, each matched by its own rule, pool every owner of the two rules |
| Action.OneThenTwoOwners | action.py:79-84 | in particular, one owner on the first rule and two on the second give a pool of those three owners |
| Action.ThreeOwnerRequest | action.py:40-45 | a user, a team and a user, in that order, give the two logins and the one slug |
| Action.ThreeOwnerPool | action.py:90 | whatever order such a pool is iterated in, the two logins are requested, up to order, and the one slug |
| Action.WorkedExamplePool | action.py:76-84 | with `docs/readme.md` and `src/pkg/main.go` changed and the example file, the pool is `@writers`, `@org/backend` and `@carol` |
| Action.WorkedExampleRequest | action.py:90 | that pool requests the users `writers` and `carol` in some order and the team `backend` |

## Left out

- Reading `GITHUB_TOKEN`, `GITHUB_EVENT_PATH` and `GITHUB_REPOSITORY`, and the `RuntimeError`s raised when they are missing (action.py:49-58): configuration outside the decision logic.
- Loading the event JSON and reading the pull-request number (action.py:60-64): configuration input.
- The PyGithub calls `Github`, `get_repo`, `get_pull`, `get_files` and `create_review_request`, with the `try`/`except` around the submission (action.py:66-68, 73, 94-98): network I/O through a foreign library. The draft flag and the changed file names are inputs of `Run`, and the request it returns is what would be submitted.
- Opening the CODEOWNERS file and splitting it into lines (action.py:9-10): file I/O. The lines are an input. A line's trailing newline is whitespace, so `strip` removes it as the model does.
- The gitwildmatch semantics of `pathspec.PathSpec.from_lines` and `match_file`: a foreign library. `compile` is an arbitrary total function, so an exception that the library raises on an invalid pattern is not modelled.
- Every `print` and the `sys.exit(0)` call (action.py:17, 33, 64, 71, 74, 83, 87, 91-92, 96, 98): output only. The exit for a draft is the `DraftSkipped` outcome.
- Action.Run: Python's set iteration order is not modelled. The order is an arbitrary enumeration, returned as a ghost output. So the contract fixes the two lists only up to that order, and `RequestFromPool` proves that this is as precise as the code allows.
- Characters are Dafny's Unicode scalar values. Python strings can also hold lone surrogate code points, which the model does not represent.
