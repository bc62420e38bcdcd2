/**
  The two string helpers of rhino's StringUtil: `isBlank` and `split`.

  Strings are `seq<char>`. `std::string::find` is modelled by `Find`, which
  returns `None` where C++ returns `npos`.
*/
module StringUtil {
  import opened Wrappers

  /** The characters `isspace` accepts in the "C" locale: the space and the
      control characters tab, line feed, vertical tab, form feed and carriage
      return (codes 9 to 13). */
  predicate IsSpace(c: char) {
    c == ' ' || '\t' <= c <= '\r'
  }

  /** `isBlank`: `std::all_of(isspace)` over the string, scanned from the front. */
  function IsBlank(s: string): (r: bool)
    ensures r <==> forall i :: 0 <= i < |s| ==> IsSpace(s[i])
  {
    if |s| == 0 then true else IsSpace(s[0]) && IsBlank(s[1..])
  }

  /** The empty string is blank, and blankness distributes over concatenation. */
  lemma {:induction false} BlankConcat(a: string, b: string)
    ensures IsBlank("")
    ensures IsBlank(a + b) == (IsBlank(a) && IsBlank(b))
  {
    if |a| > 0 {
      assert (a + b)[1..] == a[1..] + b;
      BlankConcat(a[1..], b);
    } else {
      assert a + b == b;
    }
  }

  // ---------------------------------------------------------------------
  // Occurrences of a delimiter and std::string::find
  // ---------------------------------------------------------------------

  /** `d` occurs in `s` starting at index `i`. */
  predicate OccursAt(s: string, d: string, i: nat) {
    i + |d| <= |s| && s[i..i + |d|] == d
  }

  /** `d` is a substring of `s`. */
  predicate Contains(s: string, d: string) {
    exists i: nat | i <= |s| :: OccursAt(s, d, i)
  }

  /** `s.find(d, start)`: the least index at or after `start` where `d`
      occurs, or `None` (npos). As in C++, an empty `d` is found at `start`
      whenever `start <= |s|`. */
  function Find(s: string, d: string, start: nat): (r: Option<nat>)
    ensures r.Some? ==> start <= r.value && r.value + |d| <= |s| && OccursAt(s, d, r.value)
    ensures forall j: nat :: start <= j && (r.None? || j < r.value) ==> !OccursAt(s, d, j)
    decreases |s| - start
  {
    if start + |d| > |s| then None
    else if OccursAt(s, d, start) then Some(start)
    else Find(s, d, start + 1)
  }

  /** With an empty delimiter, `find` answers `start` itself, and the next
      scan position `end + delimiter.length()` equals `start` again: the
      loop of `split` would never advance, hence `Split`'s precondition. */
  lemma EmptyDelimiterNeverAdvances(s: string, start: nat)
    requires start <= |s|
    ensures Find(s, "", start) == Some(start)
    ensures Find(s, "", Find(s, "", start).value + |""|) == Some(start)
  {
    assert OccursAt(s, "", start);
  }

  /** An occurrence inside a slice is an occurrence in the whole string. */
  lemma OccursInSlice(s: string, d: string, a: nat, b: nat, k: nat)
    requires a <= b <= |s|
    requires OccursAt(s[a..b], d, k)
    ensures OccursAt(s, d, a + k) && a + k + |d| <= b
  {
    var t := s[a..b];
    forall j | 0 <= j < |d|
      ensures s[a + k..a + k + |d|][j] == d[j]
    {
      assert d[j] == t[k..k + |d|][j] == t[k + j];
    }
  }

  // ---------------------------------------------------------------------
  // split
  // ---------------------------------------------------------------------

  /** The tokens `split` produces from scan position `start` on: the text up
      to the next occurrence of `d`, then the rest after skipping `d`; the
      text after the last occurrence is always the final token. */
  function SplitFrom(s: string, d: string, start: nat): (tokens: seq<string>)
    requires |d| > 0
    requires start <= |s|
    ensures |tokens| >= 1
    decreases |s| - start
  {
    match Find(s, d, start)
    case None => [s[start..]]
    case Some(e) => [s[start..e]] + SplitFrom(s, d, e + |d|)
  }

  /** `split(s, delimiter)`: at least one token, and joining the tokens
      with the delimiter gives back the input. An empty delimiter makes the
      source loop forever (see `EmptyDelimiterNeverAdvances`), so it is
      excluded. */
  function Split(s: string, d: string): (tokens: seq<string>)
    requires |d| > 0
    ensures |tokens| >= 1
    ensures Join(tokens, d) == s
  {
    JoinSplitFrom(s, d, 0);
    assert s[0..] == s;
    SplitFrom(s, d, 0)
  }

  /** The C++ loop of `split`, statement for statement. */
  method SplitLoop(s: string, d: string) returns (tokens: seq<string>)
    requires |d| > 0
    ensures tokens == Split(s, d)
    ensures Join(tokens, d) == s
  {
    tokens := [];
    var start: nat := 0;
    var end := Find(s, d, start);
    while end.Some?
      invariant start <= |s|
      invariant end == Find(s, d, start)
      invariant tokens + SplitFrom(s, d, start) == SplitFrom(s, d, 0)
      decreases |s| - start
    {
      tokens, start := SplitLoopStep(s, d, tokens, start);
      end := Find(s, d, start);
    }
    SplitLoopExit(s, d, tokens, start);
    tokens := tokens + [s[start..]];
  }

  /** When `find` answers npos, the last segment completes the tokens. */
  lemma SplitLoopExit(s: string, d: string, tokens: seq<string>, start: nat)
    requires |d| > 0 && start <= |s|
    requires Find(s, d, start).None?
    requires tokens + SplitFrom(s, d, start) == SplitFrom(s, d, 0)
    ensures tokens + [s[start..]] == Split(s, d)
  {
    SplitFromStep(s, d, start);
  }

  /** One iteration of `SplitLoop`: push the text up to the delimiter and
      move past it, keeping the invariant and making progress. */
  method SplitLoopStep(s: string, d: string, tokens: seq<string>, start: nat)
    returns (tokens': seq<string>, start': nat)
    requires |d| > 0 && start <= |s|
    requires Find(s, d, start).Some?
    requires tokens + SplitFrom(s, d, start) == SplitFrom(s, d, 0)
    ensures start < start' <= |s|
    ensures tokens' + SplitFrom(s, d, start') == SplitFrom(s, d, 0)
  {
    var e := Find(s, d, start).value;
    SplitFromStep(s, d, start);
    var t := s[start..e];
    PushToken(tokens, t, SplitFrom(s, d, start), SplitFrom(s, d, e + |d|), SplitFrom(s, d, 0));
    tokens' := tokens + [t];
    start' := e + |d|;
  }

  /** Tokens glued back together with `d` between consecutive ones. */
  function Join(tokens: seq<string>, d: string): string {
    if |tokens| == 0 then ""
    else if |tokens| == 1 then tokens[0]
    else tokens[0] + d + Join(tokens[1..], d)
  }

  /** One step of `SplitFrom`, unfolded. */
  lemma SplitFromStep(s: string, d: string, start: nat)
    requires |d| > 0 && start <= |s|
    ensures Find(s, d, start).None? ==> SplitFrom(s, d, start) == [s[start..]]
    ensures Find(s, d, start).Some? ==> var e := Find(s, d, start).value;
      SplitFrom(s, d, start) == [s[start..e]] + SplitFrom(s, d, e + |d|)
  {
  }

  /** Moving the next token from the pending tokens onto the pushed ones
      keeps the whole sequence. */
  lemma PushToken(tokens: seq<string>, t: string, rest: seq<string>, tail: seq<string>, all: seq<string>)
    requires tokens + rest == all && rest == [t] + tail
    ensures (tokens + [t]) + tail == all
  {
    AppendAssoc(tokens, t, tail);
  }

  lemma AppendAssoc(tokens: seq<string>, t: string, rest: seq<string>)
    ensures tokens + ([t] + rest) == (tokens + [t]) + rest
  {
  }

  /** Joining a token in front of at least one more token puts `d` between. */
  lemma JoinCons(t: string, rest: seq<string>, d: string)
    requires |rest| >= 1
    ensures Join([t] + rest, d) == t + d + Join(rest, d)
  {
    assert ([t] + rest)[1..] == rest;
  }

  /** Cutting `s` around an occurrence of `d` and gluing it back with `d`
      gives the original text. */
  lemma GlueAround(s: string, d: string, start: nat, e: nat)
    requires start <= e && OccursAt(s, d, e)
    ensures s[start..e] + d + s[e + |d|..] == s[start..]
  {
    assert s[start..] == s[start..e] + s[e..e + |d|] + s[e + |d|..];
  }

  lemma {:induction false} JoinSplitFrom(s: string, d: string, start: nat)
    requires |d| > 0 && start <= |s|
    ensures Join(SplitFrom(s, d, start), d) == s[start..]
    decreases |s| - start
  {
    SplitFromStep(s, d, start);
    match Find(s, d, start)
    case None =>
    case Some(e) =>
      JoinSplitFrom(s, d, e + |d|);
      JoinCons(s[start..e], SplitFrom(s, d, e + |d|), d);
      GlueAround(s, d, start, e);
  }

  lemma {:induction false} TokensAvoidDelimiterFrom(s: string, d: string, start: nat)
    requires |d| > 0 && start <= |s|
    ensures forall i :: 0 <= i < |SplitFrom(s, d, start)| ==> !Contains(SplitFrom(s, d, start)[i], d)
    decreases |s| - start
  {
    var tokens := SplitFrom(s, d, start);
    match Find(s, d, start)
    case None =>
      if Contains(s[start..], d) {
        var k: nat :| OccursAt(s[start..], d, k);
        assert s[start..] == s[start..|s|];
        OccursInSlice(s, d, start, |s|, k);
        assert false;
      }
    case Some(e) =>
      TokensAvoidDelimiterFrom(s, d, e + |d|);
      var rest := SplitFrom(s, d, e + |d|);
      assert tokens == [s[start..e]] + rest;
      if Contains(s[start..e], d) {
        var k: nat :| OccursAt(s[start..e], d, k);
        OccursInSlice(s, d, start, e, k);
        assert false;
      }
      forall i | 0 <= i < |tokens|
        ensures !Contains(tokens[i], d)
      {
        if i > 0 {
          assert tokens[i] == rest[i - 1];
        }
      }
  }

  /** With a non-empty delimiter no token contains the delimiter. */
  lemma TokensAvoidDelimiter(s: string, d: string)
    requires |d| > 0
    ensures forall i :: 0 <= i < |Split(s, d)| ==> !Contains(Split(s, d)[i], d)
  {
    TokensAvoidDelimiterFrom(s, d, 0);
  }

  /** If `d` does not occur in `s` the whole input is the one token; in
      particular `split("", d) == [""]`. */
  lemma SplitWithoutDelimiter(s: string, d: string)
    requires |d| > 0
    ensures !Contains(s, d) <==> Split(s, d) == [s]
    ensures Split("", d) == [""]
  {
    if !Contains(s, d) {
      assert Find(s, d, 0) == None;
      assert s[0..] == s;
    } else {
      var i: nat :| OccursAt(s, d, i);
      assert Find(s, d, 0).Some?;
      assert |Split(s, d)| >= 2;
    }
    assert Find("", d, 0) == None;
  }

  /** The first token is the text before the leftmost occurrence of `d`:
      when there are two or more tokens, `d` occurs right after the first
      and nowhere earlier. */
  lemma SplitFirstToken(s: string, d: string)
    requires |d| > 0
    ensures var t := Split(s, d);
      |t| >= 2 ==> OccursAt(s, d, |t[0]|) && forall j: nat :: j < |t[0]| ==> !OccursAt(s, d, j)
  {
  }

  // ---------------------------------------------------------------------
  // Counting occurrences
  // ---------------------------------------------------------------------

  /** Leftmost non-overlapping occurrences of `d` in `s` at or after `i`,
      counted one character at a time: after a match the scan resumes just
      past it. */
  function CountFrom(s: string, d: string, i: nat): nat
    requires |d| > 0
    decreases |s| - i
  {
    if i + |d| > |s| then 0
    else if OccursAt(s, d, i) then 1 + CountFrom(s, d, i + |d|)
    else CountFrom(s, d, i + 1)
  }

  lemma {:induction false} CountSkip(s: string, d: string, i: nat, j: nat)
    requires |d| > 0 && i <= j
    requires forall k: nat :: i <= k < j ==> !OccursAt(s, d, k)
    ensures CountFrom(s, d, i) == CountFrom(s, d, j)
    decreases j - i
  {
    if i < j && i + |d| <= |s| {
      CountSkip(s, d, i + 1, j);
    }
  }

  lemma {:induction false} SplitCountFrom(s: string, d: string, start: nat)
    requires |d| > 0 && start <= |s|
    ensures |SplitFrom(s, d, start)| == 1 + CountFrom(s, d, start)
    decreases |s| - start
  {
    SplitFromStep(s, d, start);
    match Find(s, d, start)
    case None =>
      var j: nat := if start + |d| > |s| then start else |s| - |d| + 1;
      CountSkip(s, d, start, j);
      assert CountFrom(s, d, j) == 0;
    case Some(e) =>
      CountSkip(s, d, start, e);
      assert CountFrom(s, d, e) == 1 + CountFrom(s, d, e + |d|);
      SplitCountFrom(s, d, e + |d|);
  }

  /** The number of tokens is one more than the number of leftmost
      non-overlapping occurrences of the delimiter. */
  lemma SplitCount(s: string, d: string)
    requires |d| > 0
    ensures |Split(s, d)| == 1 + CountFrom(s, d, 0)
  {
    SplitCountFrom(s, d, 0);
  }
}
