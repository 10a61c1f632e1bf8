/** The email check of the registration route, `emailRegex.test(email)` with
    `emailRegex = /^[^\s@]+@[^\s@]+\.[^\s@]+$/`, as the deterministic
    automaton a regex engine runs for it, proved to accept exactly the strings
    the pattern describes. */
module EmailPattern {
  import opened Text

  /** A character of the class `[^\s@]`. */
  predicate EmailChar(c: char) {
    c != '@' && !IsWhitespace(c)
  }

  /** The language of the pattern: a non-empty local part, the only `@`, a
      non-empty run, a `.`, and a non-empty run, with no white space
      anywhere. The domain part may hold further dots. */
  ghost predicate MatchesEmailRegex(s: string) {
    exists i, j :: 0 < i && i + 1 < j && j + 1 < |s| && s[i] == '@' && s[j] == '.'
      && forall k :: 0 <= k < |s| && k != i ==> EmailChar(s[k])
  }

  /** Automaton states: `Local` has read the local part, `AfterAt` the `@`,
      `Domain` part of the domain without a usable dot, `Dot` a dot that
      follows at least one domain character, `Accept` a usable dot and at
      least one character after it. */
  datatype State = Start | Local | AfterAt | Domain | Dot | Accept | Dead

  function Step(q: State, c: char): State {
    match q
    case Start => if EmailChar(c) then Local else Dead
    case Local => if EmailChar(c) then Local else if c == '@' then AfterAt else Dead
    case AfterAt => if EmailChar(c) then Domain else Dead
    case Domain => if c == '.' then Dot else if EmailChar(c) then Domain else Dead
    case Dot => if EmailChar(c) then Accept else Dead
    case Accept => if EmailChar(c) then Accept else Dead
    case Dead => Dead
  }

  /** The state after reading all of `p`. */
  function Run(p: string): State {
    if p == [] then Start else Step(Run(p[..|p| - 1]), p[|p| - 1])
  }

  /** What each live state says about the prefix read so far. */
  ghost predicate Sound(q: State, p: string) {
    match q
    case Start => p == []
    case Local => |p| >= 1 && forall k :: 0 <= k < |p| ==> EmailChar(p[k])
    case AfterAt => |p| >= 2 && p[|p| - 1] == '@' && forall k :: 0 <= k < |p| - 1 ==> EmailChar(p[k])
    case Domain => exists i :: AtSplit(p, i)
    case Dot => exists i :: AtSplit(p, i) && i + 1 < |p| - 1 && p[|p| - 1] == '.'
    case Accept => MatchesEmailRegex(p)
    case Dead => true
  }

  /** `p` is a non-empty local part, `@` at i, and a non-empty domain. */
  ghost predicate AtSplit(p: string, i: int) {
    0 < i < |p| - 1 && p[i] == '@' && forall k :: 0 <= k < |p| && k != i ==> EmailChar(p[k])
  }

  /** Every state the automaton reaches describes its input correctly. */
  lemma {:induction false} RunSound(p: string)
    ensures Sound(Run(p), p)
    decreases |p|
  {
    if p != [] {
      var p', c := p[..|p| - 1], p[|p| - 1];
      RunSound(p');
      var q' := Run(p');
      assert forall k :: 0 <= k < |p'| ==> p[k] == p'[k];
      match q'
      case Start =>
      case Local =>
      case AfterAt =>
        if EmailChar(c) {
          assert AtSplit(p, |p'| - 1);
        }
      case Domain =>
        var i :| AtSplit(p', i);
        if c == '.' || EmailChar(c) {
          assert AtSplit(p, i);
        }
      case Dot =>
        var i :| AtSplit(p', i) && i + 1 < |p'| - 1 && p'[|p'| - 1] == '.';
        if EmailChar(c) {
          assert AtSplit(p, i);
          assert p[|p'| - 1] == '.';
          assert 0 < i && i + 1 < |p'| - 1 && |p'| - 1 + 1 < |p|;
        }
      case Accept =>
        var i, j :| 0 < i && i + 1 < j && j + 1 < |p'| && p'[i] == '@' && p'[j] == '.'
          && forall k :: 0 <= k < |p'| && k != i ==> EmailChar(p'[k]);
        if EmailChar(c) {
          assert p[i] == '@' && p[j] == '.';
        }
      case Dead =>
    }
  }

  /** Where the automaton is after `n` characters of a string the pattern
      matches, with `@` at i and the chosen dot at j. */
  lemma {:induction false} RunOnMatch(s: string, i: int, j: int, n: nat)
    requires 0 < i && i + 1 < j && j + 1 < |s| && s[i] == '@' && s[j] == '.'
    requires forall k :: 0 <= k < |s| && k != i ==> EmailChar(s[k])
    requires n <= |s|
    ensures n == 0 ==> Run(s[..n]) == Start
    ensures 1 <= n <= i ==> Run(s[..n]) == Local
    ensures n == i + 1 ==> Run(s[..n]) == AfterAt
    ensures i + 1 < n <= j ==> Run(s[..n]) in {Domain, Dot, Accept}
    ensures n == j + 1 ==> Run(s[..n]) in {Dot, Accept}
    ensures j + 1 < n ==> Run(s[..n]) == Accept
  {
    if n > 0 {
      RunOnMatch(s, i, j, n - 1);
      assert s[..n][..n - 1] == s[..n - 1];
      assert Run(s[..n]) == Step(Run(s[..n - 1]), s[n - 1]);
    }
  }

  /** The automaton accepts every string the pattern matches. */
  lemma RunComplete(s: string)
    requires MatchesEmailRegex(s)
    ensures Run(s) == Accept
  {
    var i, j :| 0 < i && i + 1 < j && j + 1 < |s| && s[i] == '@' && s[j] == '.'
      && forall k :: 0 <= k < |s| && k != i ==> EmailChar(s[k]);
    RunOnMatch(s, i, j, |s|);
    assert s[..|s|] == s;
  }

  /** `emailRegex.test(s)`: run the automaton and check where it stops. */
  function TestEmail(s: string): (ok: bool)
    ensures ok <==> MatchesEmailRegex(s)
  {
    RunSound(s);
    if Run(s) == Accept then true
    else
      assert !MatchesEmailRegex(s) by {
        if MatchesEmailRegex(s) {
          RunComplete(s);
        }
      }
      false
  }
}
