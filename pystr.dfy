/** The Python string built-ins that action.py relies on (str.isspace, str.strip,
    str.lstrip, str.split, the `in` test and str.split(sep, 1)), over Dafny strings. */
module PyStr {

  /** str.isspace() for one character: the code points Python treats as whitespace
      (bidirectional class WS, B or S, or general category Zs). */
  predicate IsSpace(c: char) {
    var n := c as int;
    n == 0x20 || 0x09 <= n <= 0x0D || 0x1C <= n <= 0x1F || n == 0x85 || n == 0xA0
    || n == 0x1680 || 0x2000 <= n <= 0x200A || n == 0x2028 || n == 0x2029
    || n == 0x202F || n == 0x205F || n == 0x3000
  }

  predicate AllSpace(s: string) {
    forall k :: 0 <= k < |s| ==> IsSpace(s[k])
  }

  predicate NoSpace(s: string) {
    forall k :: 0 <= k < |s| ==> !IsSpace(s[k])
  }

  /** Length of the longest all-whitespace prefix. */
  function LeadingSpace(s: string): (n: nat)
    ensures n <= |s| && AllSpace(s[..n])
    ensures n < |s| ==> !IsSpace(s[n])
  {
    if s == [] || !IsSpace(s[0]) then 0
    else
      var m := LeadingSpace(s[1..]);
      assert forall k :: 1 <= k < 1 + m ==> s[k] == s[1..][k - 1];
      1 + m
  }

  /** Length of the longest all-whitespace suffix. */
  function TrailingSpace(s: string): (n: nat)
    ensures n <= |s| && AllSpace(s[|s| - n..])
    ensures n < |s| ==> !IsSpace(s[|s| - n - 1])
  {
    if s == [] || !IsSpace(s[|s| - 1]) then 0
    else
      var m := TrailingSpace(s[..|s| - 1]);
      assert forall k :: |s| - 1 - m <= k < |s| - 1 ==> s[k] == s[..|s| - 1][k];
      1 + m
  }

  /** Length of the longest prefix without whitespace. */
  function WordLength(s: string): (n: nat)
    ensures n <= |s| && NoSpace(s[..n])
    ensures n < |s| ==> IsSpace(s[n])
  {
    if s == [] || IsSpace(s[0]) then 0
    else
      var m := WordLength(s[1..]);
      assert forall k :: 1 <= k < 1 + m ==> s[k] == s[1..][k - 1];
      1 + m
  }

  /** s.lstrip(): drops leading whitespace only. */
  function StripLeft(s: string): (r: string)
  {
    s[LeadingSpace(s)..]
  }

  /** s.rstrip(): drops trailing whitespace only. */
  function StripRight(s: string): (r: string)
  {
    s[..|s| - TrailingSpace(s)]
  }

  /** s.strip(): the part of s between its leading and its trailing whitespace. */
  function Strip(s: string): string {
    StripRight(StripLeft(s))
  }

  /** s.strip() is empty exactly when s is all whitespace; otherwise it starts and ends
      with a non-whitespace character, and it is the infix of s that is left once the
      leading and trailing whitespace are cut off. */
  lemma StripMeaning(s: string)
    ensures Strip(s) == [] <==> AllSpace(s)
    ensures Strip(s) != [] ==> !IsSpace(Strip(s)[0]) && !IsSpace(Strip(s)[|Strip(s)| - 1])
    ensures exists i :: 0 <= i <= |s| - |Strip(s)| && Strip(s) == s[i..i + |Strip(s)|]
                        && AllSpace(s[..i]) && AllSpace(s[i + |Strip(s)|..])
  {
    var t := StripLeft(s);
    var i := |s| - |t|;
    StripInfix(s);
    if Strip(s) == [] {
      assert t == t[|Strip(s)|..];
      AllSpaceAppend(s[..i], t);
      assert s == s[..i] + t;
    }
  }

  /** The position the leading whitespace ends at is a witness for the infix. */
  lemma StripInfix(s: string)
    ensures var i := |s| - |StripLeft(s)|;
            && 0 <= i <= |s| - |Strip(s)| && Strip(s) == s[i..i + |Strip(s)|]
            && AllSpace(s[..i]) && AllSpace(s[i + |Strip(s)|..])
  {
    var t := StripLeft(s);
    var r := StripRight(t);
    var i := |s| - |t|;
    assert r == s[i..i + |r|];
    assert s[i + |r|..] == t[|r|..];
  }

  lemma AllSpaceAppend(a: string, b: string)
    requires AllSpace(a) && AllSpace(b)
    ensures AllSpace(a + b)
  {
    assert forall k :: |a| <= k < |a + b| ==> (a + b)[k] == b[k - |a|];
  }

  /** s.split() with no separator: the maximal runs of non-whitespace characters, in order. */
  function Split(s: string): seq<string>
    decreases |s|
  {
    var t := StripLeft(s);
    if t == [] then []
    else
      var n := WordLength(t);
      [t[..n]] + Split(t[n..])
  }

  /** s.split() is empty exactly when s is all whitespace, and every token is non-empty
      and free of whitespace. */
  lemma {:induction false} SplitMeaning(s: string)
    ensures Split(s) == [] <==> AllSpace(s)
    ensures forall k :: 0 <= k < |Split(s)| ==> Split(s)[k] != [] && NoSpace(Split(s)[k])
    decreases |s|
  {
    var t := StripLeft(s);
    if t == [] {
      assert s[..|s|] == s;
    } else {
      var n := WordLength(t);
      assert !IsSpace(s[|s| - |t|]);
      SplitMeaning(t[n..]);
      var rest := Split(t[n..]);
      assert Split(s) == [t[..n]] + rest;
      assert t[..n] != [] by {
        assert !IsSpace(t[0]);
      }
      forall k | 0 <= k < |Split(s)|
        ensures Split(s)[k] != [] && NoSpace(Split(s)[k])
      {
        if k > 0 {
          assert Split(s)[k] == rest[k - 1];
        }
      }
    }
  }

  /** " ".join(words). */
  function Join(words: seq<string>): (r: string)
  {
    if words == [] then ""
    else if |words| == 1 then words[0]
    else words[0] + " " + Join(words[1..])
  }

  /** s.lstrip(c): drops every leading occurrence of c, not just the first. */
  function StripLeading(s: string, c: char): string {
    if s != [] && s[0] == c then StripLeading(s[1..], c) else s
  }

  /** What lstrip(c) leaves: a suffix of s, preceded only by copies of c, that is empty
      or does not start with c. */
  lemma {:induction false} StripLeadingMeaning(s: string, c: char)
    ensures |StripLeading(s, c)| <= |s| && StripLeading(s, c) == s[|s| - |StripLeading(s, c)|..]
    ensures forall k :: 0 <= k < |s| - |StripLeading(s, c)| ==> s[k] == c
    ensures StripLeading(s, c) == [] || StripLeading(s, c)[0] != c
  {
    if s != [] && s[0] == c {
      StripLeadingMeaning(s[1..], c);
      var r := StripLeading(s, c);
      assert forall k :: 1 <= k < |s| - |r| ==> s[k] == s[1..][k - 1];
    }
  }

  /** s.index(c): the position of the first occurrence of c. */
  function IndexOf(s: string, c: char): (i: nat)
    requires c in s
    ensures i < |s| && s[i] == c && c !in s[..i]
  {
    if s[0] == c then 0
    else
      var j := IndexOf(s[1..], c);
      assert s[..1 + j] == [s[0]] + s[1..][..j];
      1 + j
  }

  /** The first c in a + [c] + b is the one after a, when a holds no c. */
  lemma {:induction false} IndexOfAfter(a: string, c: char, b: string)
    requires c !in a
    ensures IndexOf(a + [c] + b, c) == |a|
  {
    if a != [] {
      assert (a + [c] + b)[1..] == a[1..] + [c] + b;
      assert a[0] != c;
      IndexOfAfter(a[1..], c, b);
    } else {
      assert (a + [c] + b)[0] == c;
    }
  }

  /** s.split(c, 1)[1]: everything after the first occurrence of c. */
  function AfterFirst(s: string, c: char): string
    requires c in s
  {
    s[IndexOf(s, c) + 1..]
  }

  /** What s.split(c, 1)[1] leaves: the suffix of s right after a c that has no c before it. */
  lemma AfterFirstMeaning(s: string, c: char)
    requires c in s
    ensures var r := AfterFirst(s, c);
            && |r| < |s| && s[|s| - |r| - 1] == c && c !in s[..|s| - |r| - 1]
            && r == s[|s| - |r|..]
  {
  }

  /** One leading whitespace character, of any kind, does not change the tokens. */
  lemma {:induction false} SplitLeadingSpace(c: char, s: string)
    requires IsSpace(c)
    ensures Split([c] + s) == Split(s)
  {
    assert LeadingSpace([c] + s) == 1 + LeadingSpace(s) by {
      assert ([c] + s)[1..] == s;
    }
    assert StripLeft([c] + s) == StripLeft(s);
  }

  /** Splitting words joined by single spaces gives the words back, when every word
      is non-empty and free of whitespace. */
  lemma {:induction false} SplitJoin(words: seq<string>)
    requires forall k :: 0 <= k < |words| ==> words[k] != [] && NoSpace(words[k])
    ensures Split(Join(words)) == words
  {
    if words == [] {
      assert StripLeft([]) == [];
    } else if |words| == 1 {
      SplitWordThen(words[0], "");
      assert words[0] + "" == words[0];
      assert Split("") == [] by {
        assert StripLeft([]) == [];
      }
      assert [words[0]] + [] == words;
    } else {
      var rest := words[1..];
      assert Join(words) == words[0] + " " + Join(rest);
      SplitWordSpace(words[0], ' ', Join(rest));
      assert words[0] + " " + Join(rest) == words[0] + [' '] + Join(rest);
      forall k | 0 <= k < |rest|
        ensures rest[k] != [] && NoSpace(rest[k])
      {
        assert rest[k] == words[k + 1];
      }
      SplitJoin(rest);
      assert [words[0]] + rest == words;
    }
  }

  /** A word, one whitespace character, then anything: the word, then the tokens of the rest. */
  lemma SplitWordSpace(w: string, c: char, rest: string)
    requires w != [] && NoSpace(w) && IsSpace(c)
    ensures Split(w + [c] + rest) == [w] + Split(rest)
  {
    var tail := [c] + rest;
    assert w + [c] + rest == w + tail;
    SplitWordThen(w, tail);
    SplitLeadingSpace(c, rest);
  }

  /** Two words separated by one whitespace character of any kind split into those words. */
  lemma SplitTwoWords(w1: string, c: char, w2: string)
    requires w1 != [] && NoSpace(w1) && w2 != [] && NoSpace(w2) && IsSpace(c)
    ensures Split(w1 + [c] + w2) == [w1, w2]
  {
    SplitWordSpace(w1, c, w2);
    SplitWordThen(w2, "");
    assert w2 + "" == w2;
    assert Split("") == [] by {
      assert StripLeft([]) == [];
    }
  }

  // A tab separates tokens as a space does: the pattern "docs/*", a tab and the owner
  // "@writers" split into the pattern and the owner.
  lemma SplitTabSeparated()
    ensures Split("docs/*" + ['\t'] + "@writers") == ["docs/*", "@writers"]
  {
    assert NoSpace("docs/*");
    assert NoSpace("@writers");
    SplitTwoWords("docs/*", '\t', "@writers");
  }

  /** A non-empty whitespace-free word followed by a tail that is empty or starts with
      whitespace is split into that word and the tokens of the tail. */
  lemma SplitWordThen(w: string, tail: string)
    requires w != [] && NoSpace(w)
    requires tail == [] || IsSpace(tail[0])
    ensures Split(w + tail) == [w] + Split(tail)
  {
    var s := w + tail;
    assert LeadingSpace(s) == 0;
    assert StripLeft(s) == s;
    WordLengthOfWord(w, tail);
    assert s[..|w|] == w && s[|w|..] == tail;
  }

  /** The word length of a whitespace-free word followed by a tail that is empty or
      starts with whitespace is the word's length. */
  lemma {:induction false} WordLengthOfWord(w: string, tail: string)
    requires NoSpace(w)
    requires tail == [] || IsSpace(tail[0])
    ensures WordLength(w + tail) == |w|
  {
    if w != [] {
      assert (w + tail)[1..] == w[1..] + tail;
      WordLengthOfWord(w[1..], tail);
    }
  }

  /** The characters of s that are not whitespace, in order. */
  function NonSpace(s: string): (r: string)
    ensures NoSpace(r)
  {
    if s == [] then []
    else if IsSpace(s[0]) then NonSpace(s[1..])
    else [s[0]] + NonSpace(s[1..])
  }

  function Concat(words: seq<string>): string {
    if words == [] then [] else words[0] + Concat(words[1..])
  }

  lemma {:induction false} NonSpaceAppend(a: string, b: string)
    ensures NonSpace(a + b) == NonSpace(a) + NonSpace(b)
  {
    if a != [] {
      assert (a + b)[0] == a[0] && (a + b)[1..] == a[1..] + b;
      NonSpaceAppend(a[1..], b);
      if IsSpace(a[0]) {
        assert NonSpace(a + b) == NonSpace(a[1..] + b);
      } else {
        assert NonSpace(a + b) == [a[0]] + NonSpace(a[1..] + b);
      }
    } else {
      assert a + b == b;
    }
  }

  lemma {:induction false} NonSpaceOfSpace(s: string)
    requires AllSpace(s)
    ensures NonSpace(s) == []
  {
    if s != [] {
      NonSpaceOfSpace(s[1..]);
    }
  }

  lemma {:induction false} NonSpaceOfWord(s: string)
    requires NoSpace(s)
    ensures NonSpace(s) == s
  {
    if s != [] {
      NonSpaceOfWord(s[1..]);
    }
  }

  /** Splitting neither drops nor adds a non-whitespace character: the tokens put back
      together are exactly the non-whitespace characters of s, in order. */
  lemma {:induction false} SplitKeepsNonSpace(s: string)
    ensures Concat(Split(s)) == NonSpace(s)
    decreases |s|
  {
    var t := s[LeadingSpace(s)..];
    NonSpaceAfterLeading(s);
    if t == [] {
      assert Split(s) == [];
    } else {
      var n := WordLength(t);
      var rest := t[n..];
      NonSpaceAfterWord(t);
      SplitKeepsNonSpace(rest);
      assert Split(s) == [t[..n]] + Split(rest);
      assert ([t[..n]] + Split(rest))[1..] == Split(rest);
    }
  }

  /** Leading whitespace contributes no non-whitespace character. */
  lemma NonSpaceAfterLeading(s: string)
    ensures NonSpace(s) == NonSpace(s[LeadingSpace(s)..])
  {
    var l := LeadingSpace(s);
    assert s == s[..l] + s[l..];
    NonSpaceAppend(s[..l], s[l..]);
    NonSpaceOfSpace(s[..l]);
  }

  /** A leading word contributes itself. */
  lemma NonSpaceAfterWord(t: string)
    ensures NonSpace(t) == t[..WordLength(t)] + NonSpace(t[WordLength(t)..])
  {
    var n := WordLength(t);
    assert t == t[..n] + t[n..];
    NonSpaceAppend(t[..n], t[n..]);
    NonSpaceOfWord(t[..n]);
  }

  /** The first token of a string that does not start with whitespace begins with the
      string's first character. */
  lemma SplitFirstChar(s: string)
    requires s != [] && !IsSpace(s[0])
    ensures Split(s) != [] && Split(s)[0][0] == s[0]
  {
    assert LeadingSpace(s) == 0;
    assert StripLeft(s) == s;
  }

  /** A string whose first and last characters are not whitespace is its own strip. */
  lemma StripTrimmed(s: string)
    requires s != [] && !IsSpace(s[0]) && !IsSpace(s[|s| - 1])
    ensures Strip(s) == s
  {
    assert LeadingSpace(s) == 0;
    assert StripLeft(s) == s;
    assert TrailingSpace(s) == 0;
  }

  /** Joining non-empty words starts with the first word's first character and ends with
      the last word's last character. */
  lemma {:induction false} JoinEnds(words: seq<string>)
    requires words != []
    requires forall k :: 0 <= k < |words| ==> words[k] != []
    ensures Join(words) != []
    ensures Join(words)[0] == words[0][0]
    ensures Join(words)[|Join(words)| - 1] == words[|words| - 1][|words[|words| - 1]| - 1]
  {
    if |words| == 1 {
      assert Join(words) == words[0];
    } else {
      var rest := words[1..];
      forall k | 0 <= k < |rest|
        ensures rest[k] != []
      {
        assert rest[k] == words[k + 1];
      }
      JoinEnds(rest);
      var line := words[0] + " " + Join(rest);
      assert Join(words) == line;
      assert line[0] == words[0][0];
      assert line[|line| - 1] == Join(rest)[|Join(rest)| - 1];
      assert rest[|rest| - 1] == words[|words| - 1];
    }
  }
}
