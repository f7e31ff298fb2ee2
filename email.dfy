/** The e-mail address validator of the subscription route.

    The application accepts an address when Python's `re.match` finds the
    pattern `^[a-zA-Z0-9_.+-]+@[a-zA-Z0-9-]+\.[a-zA-Z0-9-.]+$` at its start.
    The pattern is given here twice: declaratively, as the positions of the
    `@` and of the first `.` after it (`MatchesPattern`), and as a hand-written
    left-to-right scanner (`IsValidEmail`).  `ValidEmailIffPattern` proves that
    the two agree on every string.

    Python's `$` (without MULTILINE) matches at the end of the string and also
    just before a newline that ends it, so one trailing "\n" is accepted. */
module EmailAddress {

  predicate IsAsciiAlnum(c: char) {
    'a' <= c <= 'z' || 'A' <= c <= 'Z' || '0' <= c <= '9'
  }

  /** `[a-zA-Z0-9_.+-]`, the local part */
  predicate IsLocalChar(c: char) {
    IsAsciiAlnum(c) || c == '_' || c == '.' || c == '+' || c == '-'
  }

  /** `[a-zA-Z0-9-]`, the domain label before the first dot */
  predicate IsLabelChar(c: char) {
    IsAsciiAlnum(c) || c == '-'
  }

  /** `[a-zA-Z0-9-.]`, everything after that dot */
  predicate IsTailChar(c: char) {
    IsAsciiAlnum(c) || c == '-' || c == '.'
  }

  predicate Every(s: string, p: char -> bool) {
    forall i :: 0 <= i < |s| ==> p(s[i])
  }

  predicate AllLocal(s: string) { Every(s, IsLocalChar) }
  predicate AllLabel(s: string) { Every(s, IsLabelChar) }
  predicate AllTail(s: string) { Every(s, IsTailChar) }

  lemma EveryCons(c: char, s: string, p: char -> bool)
    requires p(c) && Every(s, p)
    ensures Every([c] + s, p)
  {
    assert forall i :: 0 < i < |s| + 1 ==> ([c] + s)[i] == s[i - 1];
  }

  /** `s` is `local@label.tail` with the `@` at `at` and the dot at `dot`,
      each of the three parts non-empty. */
  ghost predicate ShapeAt(s: string, at: int, dot: int) {
    && 0 < at && at + 1 < dot && dot + 1 < |s|
    && s[at] == '@' && s[dot] == '.'
    && AllLocal(s[..at]) && AllLabel(s[at + 1..dot]) && AllTail(s[dot + 1..])
  }

  ghost predicate Shaped(s: string) {
    exists at, dot :: ShapeAt(s, at, dot)
  }

  /** The strings the anchored pattern matches under Python's `re.match`. */
  ghost predicate MatchesPattern(s: string) {
    || Shaped(s)
    || (|s| > 0 && s[|s| - 1] == '\n' && Shaped(s[..|s| - 1]))
  }

  /** States of the scanner: which part of the address is being read, and
      whether at least one character of it has been seen. */
  datatype ScanState =
    | LocalStart | InLocal
    | DomainStart | InLabel
    | TailStart | InTail
    | AfterNewline
    | Dead

  function Step(q: ScanState, c: char): ScanState {
    match q
    case LocalStart => if IsLocalChar(c) then InLocal else Dead
    case InLocal => if IsLocalChar(c) then InLocal else if c == '@' then DomainStart else Dead
    case DomainStart => if IsLabelChar(c) then InLabel else Dead
    case InLabel => if IsLabelChar(c) then InLabel else if c == '.' then TailStart else Dead
    case TailStart => if IsTailChar(c) then InTail else Dead
    case InTail => if IsTailChar(c) then InTail else if c == '\n' then AfterNewline else Dead
    case AfterNewline => Dead
    case Dead => Dead
  }

  function Run(q: ScanState, s: string): ScanState
    decreases |s|
  {
    if s == [] then q else Run(Step(q, s[0]), s[1..])
  }

  predicate Accepting(q: ScanState) {
    q == InTail || q == AfterNewline
  }

  /** `is_valid_email` */
  predicate IsValidEmail(email: string) {
    Accepting(Run(LocalStart, email))
  }

  lemma {:induction false} RunAppend(q: ScanState, a: string, b: string)
    ensures Run(q, a + b) == Run(Run(q, a), b)
    decreases |a|
  {
    if a == [] {
      assert a + b == b;
    } else {
      assert (a + b)[1..] == a[1..] + b;
      RunAppend(Step(q, a[0]), a[1..], b);
    }
  }

  lemma {:induction false} RunDead(s: string)
    ensures Run(Dead, s) == Dead
  {
    if s != [] {
      RunDead(s[1..]);
    }
  }

  /** Reading from position `i` is one step on `s[i]`, then the rest. */
  lemma RunStep(q: ScanState, s: string, i: nat)
    requires i < |s|
    ensures Run(q, s[i..]) == Run(Step(q, s[i]), s[i + 1..])
  {
    assert s[i..][0] == s[i];
    assert s[i..][1..] == s[i + 1..];
  }

  /** A property of every character of a slice, stated on the whole string */
  lemma EveryRange(s: string, from: nat, to: nat, p: char -> bool)
    requires from <= to <= |s| && Every(s[from..to], p)
    ensures forall j :: from <= j < to ==> p(s[j])
  {
    forall j | from <= j < to
      ensures p(s[j])
    {
      assert s[from..to][j - from] == s[j];
    }
  }

  /** Reading local characters from `i` up to the `@` lands at the domain. */
  lemma {:induction false} RunLocal(s: string, i: nat, at: nat)
    requires i <= at < |s| && s[at] == '@'
    requires forall j :: i <= j < at ==> IsLocalChar(s[j])
    ensures Run(InLocal, s[i..]) == Run(DomainStart, s[at + 1..])
    decreases at - i
  {
    RunStep(InLocal, s, i);
    if i < at {
      RunLocal(s, i + 1, at);
    }
  }

  /** Reading label characters from `i` up to the dot lands at the tail. */
  lemma {:induction false} RunLabel(s: string, i: nat, dot: nat)
    requires i <= dot < |s| && s[dot] == '.'
    requires forall j :: i <= j < dot ==> IsLabelChar(s[j])
    ensures Run(InLabel, s[i..]) == Run(TailStart, s[dot + 1..])
    decreases dot - i
  {
    RunStep(InLabel, s, i);
    if i < dot {
      RunLabel(s, i + 1, dot);
    }
  }

  /** Tail characters to the end keep the scanner in the tail. */
  lemma {:induction false} RunTail(s: string, i: nat)
    requires i <= |s|
    requires forall j :: i <= j < |s| ==> IsTailChar(s[j])
    ensures Run(InTail, s[i..]) == InTail
    decreases |s| - i
  {
    if i < |s| {
      RunStep(InTail, s, i);
      RunTail(s, i + 1);
    } else {
      assert s[i..] == [];
    }
  }

  /** From the domain on: a label, the dot and a tail end in the tail. */
  lemma DomainRuns(s: string, at: nat, dot: nat)
    requires at + 1 < dot && dot + 1 < |s| && s[dot] == '.'
    requires forall j :: at + 1 <= j < dot ==> IsLabelChar(s[j])
    requires forall j :: dot + 1 <= j < |s| ==> IsTailChar(s[j])
    ensures Run(DomainStart, s[at + 1..]) == InTail
  {
    RunStep(DomainStart, s, at + 1);
    RunLabel(s, at + 2, dot);
    RunStep(TailStart, s, dot + 1);
    RunTail(s, dot + 2);
  }

  lemma ShapeRuns(s: string, at: int, dot: int)
    requires ShapeAt(s, at, dot)
    ensures Run(LocalStart, s) == InTail
  {
    EveryRange(s, 0, at, IsLocalChar);
    EveryRange(s, at + 1, dot, IsLabelChar);
    EveryRange(s, dot + 1, |s|, IsTailChar);
    assert s[0..] == s;
    RunStep(LocalStart, s, 0);
    RunLocal(s, 1, at);
    DomainRuns(s, at, dot);
  }

  /** The pattern is enough: every matching string is accepted. */
  lemma PatternAccepted(s: string)
    requires MatchesPattern(s)
    ensures IsValidEmail(s)
  {
    if Shaped(s) {
      var at, dot :| ShapeAt(s, at, dot);
      ShapeRuns(s, at, dot);
    } else {
      var n := |s| - 1;
      var at, dot :| ShapeAt(s[..n], at, dot);
      ShapeRuns(s[..n], at, dot);
      assert s == s[..n] + [s[n]];
      RunAppend(LocalStart, s[..n], [s[n]]);
    }
  }

  lemma {:induction false} AfterNewlineAccepts(s: string)
    requires Accepting(Run(AfterNewline, s))
    ensures s == []
  {
    if s != [] {
      RunDead(s[1..]);
      assert false;
    }
  }

  lemma {:induction false} TailPhaseSplit(t: string)
    requires Accepting(Run(InTail, t))
    ensures AllTail(t) || (|t| > 0 && t[|t| - 1] == '\n' && AllTail(t[..|t| - 1]))
  {
    if t != [] {
      if IsTailChar(t[0]) {
        TailPhaseSplit(t[1..]);
        if AllTail(t[1..]) {
          assert t == [t[0]] + t[1..];
          EveryCons(t[0], t[1..], IsTailChar);
        } else {
          var n := |t| - 1;
          assert t[1..][..n - 1] == t[1..n];
          assert t[..n] == [t[0]] + t[1..n];
          EveryCons(t[0], t[1..n], IsTailChar);
        }
      } else if t[0] == '\n' {
        AfterNewlineAccepts(t[1..]);
      } else {
        RunDead(t[1..]);
        assert false;
      }
    }
  }

  /** An accepted run from inside the local part passes exactly one `@`. */
  lemma {:induction false} LocalPhaseSplit(t: string) returns (k: nat)
    requires Accepting(Run(InLocal, t))
    ensures k < |t| && AllLocal(t[..k]) && t[k] == '@'
    ensures Accepting(Run(DomainStart, t[k + 1..]))
  {
    if t == [] {
      assert false;
    } else if IsLocalChar(t[0]) {
      var k' := LocalPhaseSplit(t[1..]);
      k := k' + 1;
      assert t[1..][..k'] == t[1..k];
      assert t[..k] == [t[0]] + t[1..k];
      EveryCons(t[0], t[1..k], IsLocalChar);
      assert t[1..][k' + 1..] == t[k + 1..];
    } else if t[0] == '@' {
      k := 0;
    } else {
      RunDead(t[1..]);
      assert false;
    }
  }

  /** An accepted run from inside the first label passes a dot. */
  lemma {:induction false} LabelPhaseSplit(t: string) returns (k: nat)
    requires Accepting(Run(InLabel, t))
    ensures k < |t| && AllLabel(t[..k]) && t[k] == '.'
    ensures Accepting(Run(TailStart, t[k + 1..]))
  {
    if t == [] {
      assert false;
    } else if IsLabelChar(t[0]) {
      var k' := LabelPhaseSplit(t[1..]);
      k := k' + 1;
      assert t[1..][..k'] == t[1..k];
      assert t[..k] == [t[0]] + t[1..k];
      EveryCons(t[0], t[1..k], IsLabelChar);
      assert t[1..][k' + 1..] == t[k + 1..];
    } else if t[0] == '.' {
      k := 0;
    } else {
      RunDead(t[1..]);
      assert false;
    }
  }

  /** What may follow the dot: a non-empty tail, possibly closed by one newline. */
  ghost predicate TailOk(w: string) {
    || (|w| > 0 && AllTail(w))
    || (|w| > 1 && w[|w| - 1] == '\n' && AllTail(w[..|w| - 1]))
  }

  lemma TailStartSplit(w: string)
    requires Accepting(Run(TailStart, w))
    ensures TailOk(w)
  {
    if w == [] || !IsTailChar(w[0]) {
      if w != [] {
        RunDead(w[1..]);
      }
      assert false;
    }
    TailPhaseSplit(w[1..]);
    if AllTail(w[1..]) {
      assert w == [w[0]] + w[1..];
      EveryCons(w[0], w[1..], IsTailChar);
    } else {
      var n := |w| - 1;
      assert w[1..][..n - 1] == w[1..n];
      assert w[..n] == [w[0]] + w[1..n];
      EveryCons(w[0], w[1..n], IsTailChar);
    }
  }

  lemma DomainStartSplit(u: string) returns (k: nat)
    requires Accepting(Run(DomainStart, u))
    ensures 0 < k < |u| && AllLabel(u[..k]) && u[k] == '.'
    ensures TailOk(u[k + 1..])
  {
    if u == [] || !IsLabelChar(u[0]) {
      if u != [] {
        RunDead(u[1..]);
      }
      assert false;
    }
    var k' := LabelPhaseSplit(u[1..]);
    k := k' + 1;
    assert u[1..][..k'] == u[1..k];
    assert u[..k] == [u[0]] + u[1..k];
    EveryCons(u[0], u[1..k], IsLabelChar);
    assert u[1..][k' + 1..] == u[k + 1..];
    TailStartSplit(u[k + 1..]);
  }

  lemma LocalStartSplit(s: string) returns (at: nat)
    requires Accepting(Run(LocalStart, s))
    ensures 0 < at < |s| && AllLocal(s[..at]) && s[at] == '@'
    ensures Accepting(Run(DomainStart, s[at + 1..]))
  {
    if s == [] || !IsLocalChar(s[0]) {
      if s != [] {
        RunDead(s[1..]);
      }
      assert false;
    }
    var k := LocalPhaseSplit(s[1..]);
    at := k + 1;
    assert s[1..][..k] == s[1..at];
    assert s[..at] == [s[0]] + s[1..at];
    EveryCons(s[0], s[1..at], IsLocalChar);
    assert s[1..][k + 1..] == s[at + 1..];
  }

  /** Reassembles the three parts into the shape of `s` or of `s` without
      its final newline. */
  lemma AssembleShape(s: string, at: nat, k: nat)
    requires 0 < at < |s| && AllLocal(s[..at]) && s[at] == '@'
    requires 0 < k < |s[at + 1..]| && AllLabel(s[at + 1..][..k]) && s[at + 1..][k] == '.'
    requires TailOk(s[at + 1..][k + 1..])
    ensures MatchesPattern(s)
  {
    var dot := at + 1 + k;
    var w := s[dot + 1..];
    assert s[at + 1..][..k] == s[at + 1..dot];
    assert s[at + 1..][k + 1..] == w;
    if |w| > 0 && AllTail(w) {
      assert ShapeAt(s, at, dot);
    } else {
      var n := |s| - 1;
      var s' := s[..n];
      assert s'[..at] == s[..at];
      assert s'[at + 1..dot] == s[at + 1..dot];
      assert s'[dot + 1..] == w[..|w| - 1];
      assert ShapeAt(s', at, dot);
    }
  }

  /** The scanner is no more permissive than the pattern. */
  lemma AcceptedMatchesPattern(s: string)
    requires IsValidEmail(s)
    ensures MatchesPattern(s)
  {
    var at := LocalStartSplit(s);
    var k := DomainStartSplit(s[at + 1..]);
    AssembleShape(s, at, k);
  }

  /** `is_valid_email` accepts exactly the strings the pattern matches. */
  lemma ValidEmailIffPattern(s: string)
    ensures IsValidEmail(s) <==> MatchesPattern(s)
  {
    if IsValidEmail(s) {
      AcceptedMatchesPattern(s);
    }
    if MatchesPattern(s) {
      PatternAccepted(s);
    }
  }

  /** A well-shaped address has exactly one `@`: the local part, the label
      and the tail cannot contain another. */
  lemma ShapeHasOneAt(s: string, at: int, dot: int)
    requires ShapeAt(s, at, dot)
    ensures forall i :: 0 <= i < |s| && s[i] == '@' ==> i == at
  {
  }

  /** Every accepted address has exactly one `@`, preceded by a non-empty
      local part. */
  lemma ValidEmailHasOneAt(s: string) returns (at: nat)
    requires IsValidEmail(s)
    ensures 0 < at && at + 1 < |s| && s[at] == '@'
    ensures forall i :: 0 <= i < |s| && s[i] == '@' ==> i == at
  {
    AcceptedMatchesPattern(s);
    if Shaped(s) {
      var a, dot :| ShapeAt(s, a, dot);
      ShapeHasOneAt(s, a, dot);
      at := a;
    } else {
      var n := |s| - 1;
      var a, dot :| ShapeAt(s[..n], a, dot);
      ShapeHasOneAt(s[..n], a, dot);
      at := a;
      forall i | 0 <= i < |s| && s[i] == '@'
        ensures i == at
      {
        if i < n {
          assert s[..n][i] == s[i];
        }
      }
    }
  }

  lemma ExampleRuns()
    ensures Run(LocalStart, "a@x.com") == InTail
  {
    assert ShapeAt("a@x.com", 1, 3);
    ShapeRuns("a@x.com", 1, 3);
  }

  /** "a@x.com" is accepted, with or without one final newline. */
  lemma ExampleAccepted()
    ensures IsValidEmail("a@x.com")
    ensures IsValidEmail("a@x.com\n")
  {
    ExampleRuns();
    assert "a@x.com" + "\n" == "a@x.com\n";
    RunAppend(LocalStart, "a@x.com", "\n");
  }

  /** Two newlines in a row always stop the scanner. */
  lemma TwoNewlinesDead(q: ScanState)
    ensures Run(q, "\n\n") == Dead
  {
    var nl: string := "\n";
    assert "\n\n" == nl + nl;
    RunAppend(q, nl, nl);
    assert nl[1..] == [];
    assert Run(q, nl) == Step(q, '\n');
    assert Step(Step(q, '\n'), '\n') == Dead;
  }

  /** `$` forgives one final newline, never two: whatever precedes them, a
      string ending in two newlines is refused. */
  lemma TwoFinalNewlinesRefused(s: string)
    ensures !IsValidEmail(s + "\n\n")
  {
    RunAppend(LocalStart, s, "\n\n");
    TwoNewlinesDead(Run(LocalStart, s));
  }
}
