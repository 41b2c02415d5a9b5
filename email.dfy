/** The e-mail syntax check of the user update handler: the regular
    expression `^[^\s@]+@[^\s@]+\.[^\s@]+$`, its language stated as a
    predicate, and a left-to-right scanner (the automaton of the expression)
    proved to accept exactly that language. */
module EmailFormat {

  import Js

  /** The class `[^\s@]`. */
  predicate InClass(c: char) { !Js.IsWhitespace(c) && c != '@' }

  predicate AllInClass(w: string) { forall i :: 0 <= i < |w| ==> InClass(w[i]) }

  /** `[^\s@]+`. */
  predicate Word(w: string) { |w| > 0 && AllInClass(w) }

  /** `[^\s@]+\.[^\s@]+`: some dot splits d into two words. */
  predicate DomainPart(d: string)
  {
    exists j :: 0 < j < |d| - 1 && d[j] == '.' && Word(d[..j]) && Word(d[j + 1..])
  }

  /** The language of `^[^\s@]+@[^\s@]+\.[^\s@]+$`. */
  predicate MatchesPattern(s: string)
  {
    exists i :: 0 < i < |s| && s[i] == '@' && Word(s[..i]) && DomainPart(s[i + 1..])
  }

  /** Where the scanner stands: before the first character, in the local
      part, right after "@", in the host before a usable dot, right after
      such a dot, in the last label (accepting), or rejected. */
  datatype State = Start | Local | AfterAt | Host | Dot | Tld | Reject

  function Step(q: State, c: char): State
  {
    if c == '@' && q == Local then AfterAt
    else if !InClass(c) then Reject
    else match q
      case Start => Local
      case Local => Local
      case AfterAt => Host
      case Host => if c == '.' then Dot else Host
      case Dot => Tld
      case Tld => Tld
      case Reject => Reject
  }

  function Run(q: State, s: string): State
    decreases |s|
  {
    if s == [] then q else Run(Step(q, s[0]), s[1..])
  }

  /** `emailRegex.test(email)`: the scanner run from its start state, which
      accepts exactly the language of the expression. */
  function IsValidEmail(s: string): (valid: bool)
    ensures valid <==> MatchesPattern(s)
  {
    ScannerAcceptsPattern(s);
    Run(Start, s) == Tld
  }

  lemma AllInClassAppend(a: string, b: string)
    ensures AllInClass(a + b) <==> AllInClass(a) && AllInClass(b)
  {
    if AllInClass(a + b) {
      forall i | 0 <= i < |a| ensures InClass(a[i]) {
        assert a[i] == (a + b)[i];
      }
      forall i | 0 <= i < |b| ensures InClass(b[i]) {
        assert b[i] == (a + b)[|a| + i];
      }
    }
  }

  lemma AllInClassTail(v: string)
    requires v != []
    ensures AllInClass(v) <==> InClass(v[0]) && AllInClass(v[1..])
  {
    assert v == [v[0]] + v[1..];
    AllInClassAppend([v[0]], v[1..]);
  }

  lemma {:induction false} RejectIsFinal(v: string)
    ensures Run(Reject, v) == Reject
  {
    if v != [] {
      RejectIsFinal(v[1..]);
    }
  }

  lemma {:induction false} TldAccepts(v: string)
    ensures Run(Tld, v) == Tld <==> AllInClass(v)
  {
    if v != [] {
      AllInClassTail(v);
      if InClass(v[0]) {
        TldAccepts(v[1..]);
      } else {
        RejectIsFinal(v[1..]);
      }
    }
  }

  lemma DotAccepts(v: string)
    ensures Run(Dot, v) == Tld <==> Word(v)
  {
    if v != [] {
      AllInClassTail(v);
      if InClass(v[0]) {
        TldAccepts(v[1..]);
      } else {
        RejectIsFinal(v[1..]);
      }
    }
  }

  /** Some dot of v has at least one character after it. */
  predicate HasDotBeforeLast(v: string)
  {
    exists j :: 0 <= j < |v| - 1 && v[j] == '.'
  }

  lemma HasDotBeforeLastTail(v: string)
    requires v != []
    ensures HasDotBeforeLast(v) <==> (v[0] == '.' && |v| > 1) || HasDotBeforeLast(v[1..])
  {
    var t := v[1..];
    if HasDotBeforeLast(v) {
      var j :| 0 <= j < |v| - 1 && v[j] == '.';
      if j > 0 {
        assert t[j - 1] == '.';
      }
    }
    if HasDotBeforeLast(t) {
      var j :| 0 <= j < |t| - 1 && t[j] == '.';
      assert v[j + 1] == '.';
    }
  }

  lemma {:induction false} HostAccepts(v: string)
    ensures Run(Host, v) == Tld <==> AllInClass(v) && HasDotBeforeLast(v)
  {
    if v != [] {
      var t := v[1..];
      AllInClassTail(v);
      HasDotBeforeLastTail(v);
      if !InClass(v[0]) {
        RejectIsFinal(t);
      } else if v[0] == '.' {
        DotAccepts(t);
      } else {
        HostAccepts(t);
      }
    }
  }

  lemma DomainPartSplits(d: string, j: int)
    requires 0 < j < |d| - 1 && d[j] == '.' && Word(d[..j]) && Word(d[j + 1..])
    ensures InClass(d[0]) && AllInClass(d[1..]) && HasDotBeforeLast(d[1..])
  {
    assert d[1..] == d[1..j] + ['.'] + d[j + 1..];
    assert d[..j] == [d[0]] + d[1..j];
    AllInClassAppend([d[0]], d[1..j]);
    AllInClassAppend(d[1..j], ['.']);
    AllInClassAppend(d[1..j] + ['.'], d[j + 1..]);
    assert d[1..][j - 1] == '.';
  }

  lemma DomainPartJoins(d: string, k: int)
    requires 0 < k < |d| - 1 && d[k] == '.' && InClass(d[0]) && AllInClass(d[1..])
    ensures Word(d[..k]) && Word(d[k + 1..])
  {
    assert d[1..] == d[1..k] + d[k..];
    assert d[k..] == [d[k]] + d[k + 1..];
    AllInClassAppend(d[1..k], d[k..]);
    AllInClassAppend([d[k]], d[k + 1..]);
    assert d[..k] == [d[0]] + d[1..k];
    AllInClassAppend([d[0]], d[1..k]);
  }

  lemma DomainPartByDot(d: string)
    ensures DomainPart(d) <==> |d| > 0 && InClass(d[0]) && AllInClass(d[1..]) && HasDotBeforeLast(d[1..])
  {
    if DomainPart(d) {
      var j :| 0 < j < |d| - 1 && d[j] == '.' && Word(d[..j]) && Word(d[j + 1..]);
      DomainPartSplits(d, j);
    }
    if |d| > 0 && InClass(d[0]) && AllInClass(d[1..]) && HasDotBeforeLast(d[1..]) {
      var j :| 0 <= j < |d[1..]| - 1 && d[1..][j] == '.';
      DomainPartJoins(d, j + 1);
    }
  }

  lemma AfterAtAccepts(v: string)
    ensures Run(AfterAt, v) == Tld <==> DomainPart(v)
  {
    DomainPartByDot(v);
    if v != [] {
      if InClass(v[0]) {
        HostAccepts(v[1..]);
      } else {
        RejectIsFinal(v[1..]);
      }
    }
  }

  /** The rest of the local part, then "@" and a domain part. */
  predicate LocalRest(v: string)
  {
    exists i :: 0 <= i < |v| && v[i] == '@' && AllInClass(v[..i]) && DomainPart(v[i + 1..])
  }

  /** Moving the witness of LocalRest one character to the left or right. */
  lemma LocalRestShift(v: string, i: int)
    requires 0 < i < |v| && v[i] == '@'
    ensures AllInClass(v[..i]) <==> InClass(v[0]) && AllInClass(v[1..][..i - 1])
    ensures v[1..][i - 1] == '@' && v[1..][i..] == v[i + 1..]
  {
    assert v[..i] == [v[0]] + v[1..][..i - 1];
    AllInClassAppend([v[0]], v[1..][..i - 1]);
  }

  lemma LocalRestTail(v: string)
    requires v != []
    ensures LocalRest(v) <==> (v[0] == '@' && DomainPart(v[1..])) || (InClass(v[0]) && LocalRest(v[1..]))
  {
    var t := v[1..];
    if LocalRest(v) {
      var i :| 0 <= i < |v| && v[i] == '@' && AllInClass(v[..i]) && DomainPart(v[i + 1..]);
      if i > 0 {
        LocalRestShift(v, i);
        assert 0 <= i - 1 < |t| && t[i - 1] == '@' && AllInClass(t[..i - 1]) && DomainPart(t[i - 1 + 1..]);
      }
    }
    if v[0] == '@' && DomainPart(t) {
      assert AllInClass(v[..0]);
      assert 0 <= 0 < |v| && v[0] == '@' && AllInClass(v[..0]) && DomainPart(v[0 + 1..]);
    }
    if InClass(v[0]) && LocalRest(t) {
      var i :| 0 <= i < |t| && t[i] == '@' && AllInClass(t[..i]) && DomainPart(t[i + 1..]);
      LocalRestShift(v, i + 1);
      assert 0 <= i + 1 < |v| && v[i + 1] == '@' && AllInClass(v[..i + 1]) && DomainPart(v[i + 1 + 1..]);
    }
  }

  lemma {:induction false} LocalAccepts(v: string)
    ensures Run(Local, v) == Tld <==> LocalRest(v)
  {
    if v != [] {
      var t := v[1..];
      LocalRestTail(v);
      if v[0] == '@' {
        AfterAtAccepts(t);
      } else if InClass(v[0]) {
        LocalAccepts(t);
      } else {
        RejectIsFinal(t);
      }
    }
  }

  lemma MatchesPatternTail(s: string)
    requires s != []
    ensures MatchesPattern(s) <==> InClass(s[0]) && LocalRest(s[1..])
  {
    var t := s[1..];
    if MatchesPattern(s) {
      var i :| 0 < i < |s| && s[i] == '@' && Word(s[..i]) && DomainPart(s[i + 1..]);
      LocalRestShift(s, i);
      assert 0 <= i - 1 < |t| && t[i - 1] == '@' && AllInClass(t[..i - 1]) && DomainPart(t[i - 1 + 1..]);
    }
    if InClass(s[0]) && LocalRest(t) {
      var i :| 0 <= i < |t| && t[i] == '@' && AllInClass(t[..i]) && DomainPart(t[i + 1..]);
      LocalRestShift(s, i + 1);
      assert 0 < i + 1 < |s| && s[i + 1] == '@' && Word(s[..i + 1]) && DomainPart(s[i + 1 + 1..]);
    }
  }

  /** The scanner accepts exactly the strings the regular expression matches. */
  lemma ScannerAcceptsPattern(s: string)
    ensures Run(Start, s) == Tld <==> MatchesPattern(s)
  {
    if s != [] {
      MatchesPatternTail(s);
      if InClass(s[0]) {
        LocalAccepts(s[1..]);
      } else {
        RejectIsFinal(s[1..]);
      }
    }
  }

  /** In a match, every character but the "@" belongs to `[^\s@]`. */
  lemma MatchIsInClassBesideAt(s: string, i: int)
    requires 0 < i < |s| && s[i] == '@' && Word(s[..i]) && DomainPart(s[i + 1..])
    ensures forall k :: 0 <= k < |s| && k != i ==> InClass(s[k])
  {
    var d := s[i + 1..];
    DomainPartByDot(d);
    AllInClassTail(d);
    forall k | 0 <= k < |s| && k != i
      ensures InClass(s[k])
    {
      if k < i {
        assert s[k] == s[..i][k];
      } else {
        assert s[k] == d[k - i - 1];
      }
    }
  }

  /** A valid address holds no white space. */
  lemma ValidEmailHasNoWhitespace(s: string)
    requires IsValidEmail(s)
    ensures forall k :: 0 <= k < |s| ==> !Js.IsWhitespace(s[k])
  {
    var i :| 0 < i < |s| && s[i] == '@' && Word(s[..i]) && DomainPart(s[i + 1..]);
    MatchIsInClassBesideAt(s, i);
  }

  /** A valid address has exactly one "@", neither first nor last. */
  lemma ValidEmailHasOneAt(s: string)
    requires IsValidEmail(s)
    ensures exists i :: 0 < i < |s| - 1 && s[i] == '@' && forall k :: 0 <= k < |s| && s[k] == '@' ==> k == i
  {
    var i :| 0 < i < |s| && s[i] == '@' && Word(s[..i]) && DomainPart(s[i + 1..]);
    MatchIsInClassBesideAt(s, i);
  }
}
