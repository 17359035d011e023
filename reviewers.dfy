/** split_users_and_teams (action.py:37-46): every owner token is stripped of ALL its
    leading '@' characters; a token that then contains '/' names a team, whose slug is
    what follows the first '/', and any other token names a user. */
module Reviewers {
  import opened PyStr

  /** What one owner token is requested as. */
  datatype Reviewer = User(login: string) | Team(slug: string)

  /** The classification of one owner token. */
  function Classify(owner: string): Reviewer {
    var s := StripLeading(owner, '@');
    if '/' in s then Team(AfterFirst(s, '/')) else User(s)
  }

  /** What a classification means: with s the owner stripped of its leading '@'s, the
      owner is a user exactly when s has no '/', and then the login is s, which neither
      contains '/' nor starts with '@'; otherwise the team slug is what follows the first
      '/' of s. */
  lemma ClassifyMeaning(owner: string)
    ensures var r, s := Classify(owner), StripLeading(owner, '@');
            && (r.User? <==> '/' !in s)
            && (r.User? ==> r.login == s && '/' !in r.login && (r.login == [] || r.login[0] != '@'))
            && (r.Team? ==> var i := |s| - |r.slug| - 1;
                            0 <= i && s[i] == '/' && '/' !in s[..i] && r.slug == s[i + 1..])
  {
    var s := StripLeading(owner, '@');
    StripLeadingMeaning(owner, '@');
    if '/' in s {
      AfterFirstMeaning(s, '/');
    }
  }

  /** The user logins of the owners, in the owners' order: the `reviewers` list. None of
      them contains '/' or starts with '@'. */
  function UserReviewers(owners: seq<string>): (users: seq<string>)
    ensures forall k :: 0 <= k < |users| ==> '/' !in users[k] && (users[k] == [] || users[k][0] != '@')
  {
    if owners == [] then []
    else
      var front := UserReviewers(owners[..|owners| - 1]);
      var last := owners[|owners| - 1];
      ClassifyMeaning(last);
      match Classify(last)
      case User(u) =>
        assert forall k :: 0 <= k < |front| ==> (front + [u])[k] == front[k];
        front + [u]
      case Team(_) => front
  }

  /** The team slugs of the owners, in the owners' order: the `team_reviewers` list. */
  function TeamReviewers(owners: seq<string>): (teams: seq<string>)
    ensures |teams| <= |owners|
  {
    if owners == [] then []
    else
      var front := TeamReviewers(owners[..|owners| - 1]);
      match Classify(owners[|owners| - 1])
      case User(_) => front
      case Team(t) => front + [t]
  }

  /** A login is requested exactly when some owner classifies as that user. */
  lemma {:induction false} UserReviewersMembers(owners: seq<string>)
    ensures forall u :: u in UserReviewers(owners) <==>
              exists k :: 0 <= k < |owners| && Classify(owners[k]) == User(u)
  {
    if owners != [] {
      var front, last := owners[..|owners| - 1], owners[|owners| - 1];
      UserReviewersMembers(front);
      assert UserReviewers(owners) ==
        UserReviewers(front) + (if Classify(last).User? then [Classify(last).login] else []);
      forall u
        ensures u in UserReviewers(owners) <==> exists k :: 0 <= k < |owners| && Classify(owners[k]) == User(u)
      {
        if u in UserReviewers(front) {
          var k :| 0 <= k < |front| && Classify(front[k]) == User(u);
          assert owners[k] == front[k];
        }
        if exists k :: 0 <= k < |owners| && Classify(owners[k]) == User(u) {
          var k :| 0 <= k < |owners| && Classify(owners[k]) == User(u);
          if k < |front| {
            assert front[k] == owners[k];
          }
        }
      }
    }
  }

  /** A slug is requested exactly when some owner classifies as that team. */
  lemma {:induction false} TeamReviewersMembers(owners: seq<string>)
    ensures forall t :: t in TeamReviewers(owners) <==>
              exists k :: 0 <= k < |owners| && Classify(owners[k]) == Team(t)
  {
    if owners != [] {
      var front, last := owners[..|owners| - 1], owners[|owners| - 1];
      TeamReviewersMembers(front);
      assert TeamReviewers(owners) ==
        TeamReviewers(front) + (if Classify(last).Team? then [Classify(last).slug] else []);
      forall t
        ensures t in TeamReviewers(owners) <==> exists k :: 0 <= k < |owners| && Classify(owners[k]) == Team(t)
      {
        if t in TeamReviewers(front) {
          var k :| 0 <= k < |front| && Classify(front[k]) == Team(t);
          assert owners[k] == front[k];
        }
        if exists k :: 0 <= k < |owners| && Classify(owners[k]) == Team(t) {
          var k :| 0 <= k < |owners| && Classify(owners[k]) == Team(t);
          if k < |front| {
            assert front[k] == owners[k];
          }
        }
      }
    }
  }

  /** The loop of split_users_and_teams. */
  method SplitUsersAndTeams(owners: seq<string>) returns (reviewers: seq<string>, teamReviewers: seq<string>)
    ensures reviewers == UserReviewers(owners)
    ensures teamReviewers == TeamReviewers(owners)
  {
    reviewers, teamReviewers := [], [];
    for i := 0 to |owners|
      invariant reviewers == UserReviewers(owners[..i])
      invariant teamReviewers == TeamReviewers(owners[..i])
    {
      assert owners[..i + 1][..i] == owners[..i];
      var owner := StripLeading(owners[i], '@');
      if '/' in owner {
        teamReviewers := teamReviewers + [AfterFirst(owner, '/')];
      } else {
        reviewers := reviewers + [owner];
      }
    }
    assert owners[..|owners|] == owners;
  }

  /** Each owner lands in exactly one of the two lists. */
  lemma {:induction false} SplitSizes(owners: seq<string>)
    ensures |UserReviewers(owners)| + |TeamReviewers(owners)| == |owners|
  {
    if owners != [] {
      SplitSizes(owners[..|owners| - 1]);
    }
  }

  lemma {:induction false} UserReviewersAppend(a: seq<string>, b: seq<string>)
    ensures UserReviewers(a + b) == UserReviewers(a) + UserReviewers(b)
    decreases |b|
  {
    if b == [] {
      assert a + b == a;
    } else {
      assert (a + b)[..|a + b| - 1] == a + b[..|b| - 1];
      assert (a + b)[|a + b| - 1] == b[|b| - 1];
      UserReviewersAppend(a, b[..|b| - 1]);
    }
  }

  lemma {:induction false} TeamReviewersAppend(a: seq<string>, b: seq<string>)
    ensures TeamReviewers(a + b) == TeamReviewers(a) + TeamReviewers(b)
    decreases |b|
  {
    if b == [] {
      assert a + b == a;
    } else {
      assert (a + b)[..|a + b| - 1] == a + b[..|b| - 1];
      assert (a + b)[|a + b| - 1] == b[|b| - 1];
      TeamReviewersAppend(a, b[..|b| - 1]);
    }
  }

  /** The contribution of one owner to each list does not depend on where it stands. */
  lemma ListsWithout(b1: seq<string>, x: string, b2: seq<string>)
    ensures multiset(UserReviewers(b1 + [x] + b2)) == multiset(UserReviewers(b1 + b2)) + multiset(UserReviewers([x]))
    ensures multiset(TeamReviewers(b1 + [x] + b2)) == multiset(TeamReviewers(b1 + b2)) + multiset(TeamReviewers([x]))
  {
    UserReviewersAppend(b1 + [x], b2);
    UserReviewersAppend(b1, [x]);
    UserReviewersAppend(b1, b2);
    TeamReviewersAppend(b1 + [x], b2);
    TeamReviewersAppend(b1, [x]);
    TeamReviewersAppend(b1, b2);
  }

  /** Classification is a function of the owners up to their order: owner lists that are
      permutations of each other give reviewer lists, and team lists, that are permutations
      of each other, repetitions included. */
  lemma {:induction false} SplitPermutation(a: seq<string>, b: seq<string>)
    requires multiset(a) == multiset(b)
    ensures multiset(UserReviewers(a)) == multiset(UserReviewers(b))
    ensures multiset(TeamReviewers(a)) == multiset(TeamReviewers(b))
    decreases |a|
  {
    if a == [] {
      assert |b| == |multiset(b)| == |multiset(a)| == 0;
    } else {
      var x := a[|a| - 1];
      var a' := a[..|a| - 1];
      assert a == a' + [x];
      assert x in multiset(b);
      var j :| 0 <= j < |b| && b[j] == x;
      var b1, b2 := b[..j], b[j + 1..];
      RemoveOne(a', x, b, j);
      SplitPermutation(a', b1 + b2);
      UserReviewersAppend(a', [x]);
      TeamReviewersAppend(a', [x]);
      ListsWithout(b1, x, b2);
    }
  }

  /** Taking one x out of two lists that are permutations of each other leaves lists that
      are permutations of each other. */
  lemma RemoveOne(a: seq<string>, x: string, b: seq<string>, j: nat)
    requires multiset(a + [x]) == multiset(b) && j < |b| && b[j] == x
    ensures b == b[..j] + [x] + b[j + 1..]
    ensures multiset(a) == multiset(b[..j] + b[j + 1..])
  {
    var b1, b2 := b[..j], b[j + 1..];
    assert b == b1 + [x] + b2;
    assert multiset(a + [x]) == multiset(a) + multiset{x};
    assert multiset(b) == multiset(b1) + multiset{x} + multiset(b2);
    assert multiset(b1 + b2) == multiset(b1) + multiset(b2);
    assert multiset(a) == multiset(a + [x]) - multiset{x};
    assert multiset(b1 + b2) == multiset(b) - multiset{x};
  }

  /** Stripping an all-'@' prefix away first does not change what lstrip("@") returns. */
  lemma {:induction false} StripLeadingPrefix(prefix: string, s: string)
    requires forall k :: 0 <= k < |prefix| ==> prefix[k] == '@'
    ensures StripLeading(prefix + s, '@') == StripLeading(s, '@')
  {
    if prefix != [] {
      assert (prefix + s)[0] == '@' && (prefix + s)[1..] == prefix[1..] + s;
      assert forall k :: 0 <= k < |prefix| - 1 ==> prefix[1..][k] == prefix[k + 1];
      StripLeadingPrefix(prefix[1..], s);
    } else {
      assert prefix + s == s;
    }
  }

  /** lstrip("@") stops at the first character that is not '@'. */
  lemma {:induction false} StripLeadingStops(x: string, y: string)
    requires y != [] && y[0] != '@'
    ensures StripLeading(x + y, '@') == StripLeading(x, '@') + y
  {
    if x == [] {
      assert x + y == y;
    } else if x[0] == '@' {
      assert (x + y)[1..] == x[1..] + y;
      StripLeadingStops(x[1..], y);
    }
  }

  /** Any number of '@' characters followed by a login free of '/' and not starting with
      '@' is the user with that login. */
  lemma ClassifyUser(ats: string, login: string)
    requires forall k :: 0 <= k < |ats| ==> ats[k] == '@'
    requires '/' !in login && (login == [] || login[0] != '@')
    ensures Classify(ats + login) == User(login)
  {
    StripLeadingPrefix(ats, login);
  }

  /** Any number of '@' characters, an organisation free of '/', a '/' and a slug is the
      team with that slug; the organisation is dropped and the slug may contain '/'. */
  lemma ClassifyTeam(ats: string, org: string, slug: string)
    requires forall k :: 0 <= k < |ats| ==> ats[k] == '@'
    requires '/' !in org
    ensures Classify(ats + org + "/" + slug) == Team(slug)
  {
    var owner := ats + org + "/" + slug;
    assert owner == ats + (org + ("/" + slug));
    StripLeadingPrefix(ats, org + ("/" + slug));
    StripLeadingStops(org, "/" + slug);
    var head := StripLeading(org, '@');
    assert '/' !in head by {
      StripLeadingMeaning(org, '@');
      assert head == org[|org| - |head|..];
    }
    var s := head + ['/'] + slug;
    assert StripLeading(owner, '@') == s;
    IndexOfAfter(head, '/', slug);
    assert s[|head|] == '/';
    assert s[|head| + 1..] == slug;
  }

  /** "@org/team-x" is the team "team-x": the organisation is dropped. */
  lemma TeamExample()
    ensures Classify("@org/team-x") == Team("team-x")
  {
    assert '/' !in "org" by { assert "org" == ['o', 'r', 'g']; }
    ClassifyTeam("@", "org", "team-x");
    assert "@" + "org" + "/" + "team-x" == "@org/team-x";
  }

  /** "@org/a/b" is the team "a/b": only the first '/' separates. */
  lemma NestedTeamExample()
    ensures Classify("@org/a/b") == Team("a/b")
  {
    assert '/' !in "org" by { assert "org" == ['o', 'r', 'g']; }
    ClassifyTeam("@", "org", "a/b");
    assert "@" + "org" + "/" + "a/b" == "@org/a/b";
  }

  /** "@alice", "@@alice" and "alice" are all the user "alice". */
  lemma UserExamples()
    ensures Classify("@alice") == User("alice")
    ensures Classify("@@alice") == User("alice")
    ensures Classify("alice") == User("alice")
  {
    assert '/' !in "alice" by { assert "alice" == ['a', 'l', 'i', 'c', 'e']; }
    ClassifyUser("@", "alice");
    assert "@" + "alice" == "@alice";
    ClassifyUser("@@", "alice");
    assert "@@" + "alice" == "@@alice";
    ClassifyUser("", "alice");
    assert "" + "alice" == "alice";
  }

  lemma UserExampleWriters()
    ensures Classify("@writers") == User("writers")
  {
    assert '/' !in "writers" by { assert "writers" == ['w', 'r', 'i', 't', 'e', 'r', 's']; }
    ClassifyUser("@", "writers");
    assert "@" + "writers" == "@writers";
  }

  lemma UserExampleCarol()
    ensures Classify("@carol") == User("carol")
  {
    assert '/' !in "carol" by { assert "carol" == ['c', 'a', 'r', 'o', 'l']; }
    ClassifyUser("@", "carol");
    assert "@" + "carol" == "@carol";
  }

  lemma TeamExampleBackend()
    ensures Classify("@org/backend") == Team("backend")
  {
    assert '/' !in "org" by { assert "org" == ['o', 'r', 'g']; }
    ClassifyTeam("@", "org", "backend");
    assert "@" + "org" + "/" + "backend" == "@org/backend";
  }

  /** A single owner is requested as the user or the team it classifies as. */
  lemma SingleOwner(o: string)
    ensures UserReviewers([o]) == (if Classify(o).User? then [Classify(o).login] else [])
    ensures TeamReviewers([o]) == (if Classify(o).Team? then [Classify(o).slug] else [])
  {
    assert [o][..0] == [];
  }

  /** Two owners are requested as the first one, then the second one. */
  lemma TwoOwners(a: string, b: string)
    ensures UserReviewers([a, b]) == UserReviewers([a]) + UserReviewers([b])
    ensures TeamReviewers([a, b]) == TeamReviewers([a]) + TeamReviewers([b])
  {
    UserReviewersAppend([a], [b]);
    TeamReviewersAppend([a], [b]);
    assert [a] + [b] == [a, b];
  }

  /** Two distinct owners that are the same user give that login twice. */
  lemma SameUserTwice(a: string, b: string, login: string)
    requires Classify(a) == User(login) && Classify(b) == User(login)
    ensures UserReviewers([a, b]) == [login, login]
  {
    SingleOwner(a);
    SingleOwner(b);
    TwoOwners(a, b);
  }

  /** A user followed by a team: each is requested in its own list. */
  lemma UserAndTeam(a: string, b: string, login: string, slug: string)
    requires Classify(a) == User(login) && Classify(b) == Team(slug)
    ensures UserReviewers([a, b]) == [login] && TeamReviewers([a, b]) == [slug]
  {
    SingleOwner(a);
    SingleOwner(b);
    TwoOwners(a, b);
  }

  /** The lists are not deduplicated: "@alice" and "alice" are distinct owners that both
      become the reviewer "alice", and one name can be a user and a team at once. */
  lemma RepeatedNames()
    ensures UserReviewers(["@alice", "alice"]) == ["alice", "alice"]
    ensures UserReviewers(["alice", "@org/alice"]) == ["alice"]
    ensures TeamReviewers(["alice", "@org/alice"]) == ["alice"]
  {
    UserExamples();
    TeamExampleAlice();
    SameUserTwice("@alice", "alice", "alice");
    UserAndTeam("alice", "@org/alice", "alice", "alice");
  }

  lemma TeamExampleAlice()
    ensures Classify("@org/alice") == Team("alice")
  {
    assert '/' !in "org" by { assert "org" == ['o', 'r', 'g']; }
    ClassifyTeam("@", "org", "alice");
    assert "@" + "org" + "/" + "alice" == "@org/alice";
  }
}
