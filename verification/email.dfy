/**
 The fixed email pattern `^[a-zA-Z0-9+_.-]+@[a-zA-Z0-9.-]+$`.

 `Matches` runs the anchored pattern as a finite automaton, one character
 at a time, the way a regular-expression engine decides it. `Shape` is an
 independent description of the same language: some position holds an
 '@', everything before it is a non-empty run of local characters and
 everything after it a non-empty run of domain characters. Neither class
 contains '@', so a matching value has exactly one '@'; no dot is required
 after it.
 */
module Email {

  predicate IsAlnum(c: char) {
    ('a' <= c <= 'z') || ('A' <= c <= 'Z') || ('0' <= c <= '9')
  }

  /** The class `[a-zA-Z0-9+_.-]` before the '@'. */
  predicate LocalChar(c: char) {
    IsAlnum(c) || c == '+' || c == '_' || c == '.' || c == '-'
  }

  /** The class `[a-zA-Z0-9.-]` after the '@'. */
  predicate DomainChar(c: char) {
    IsAlnum(c) || c == '.' || c == '-'
  }

  /** Where the automaton is: before any character, inside the local part,
      just after the '@', inside the domain, or rejected for good. */
  datatype Phase = Start | InLocal | AtSign | InDomain | Dead

  function Step(q: Phase, c: char): Phase {
    match q
    case Start => if LocalChar(c) then InLocal else Dead
    case InLocal => if LocalChar(c) then InLocal else if c == '@' then AtSign else Dead
    case AtSign => if DomainChar(c) then InDomain else Dead
    case InDomain => if DomainChar(c) then InDomain else Dead
    case Dead => Dead
  }

  function Run(q: Phase, s: string): Phase
    decreases |s|
  {
    if s == [] then q else Run(Step(q, s[0]), s[1..])
  }

  /** The anchored pattern accepts `s`. */
  predicate Matches(s: string) {
    Run(Start, s) == InDomain
  }

  predicate AllLocal(s: string) {
    forall i | 0 <= i < |s| :: LocalChar(s[i])
  }

  predicate AllDomain(s: string) {
    forall i | 0 <= i < |s| :: DomainChar(s[i])
  }

  /** `s` splits at position `i` into local part, '@' and domain. */
  predicate SplitAt(s: string, i: int)
    requires 0 <= i < |s|
  {
    s[i] == '@' && AllLocal(s[..i]) && AllDomain(s[i + 1..])
  }

  /** Reference description: a non-empty local part, one '@', a non-empty domain. */
  predicate Shape(s: string) {
    exists i | 0 < i < |s| - 1 :: SplitAt(s, i)
  }

  lemma {:induction false} DeadStaysDead(s: string)
    ensures Run(Dead, s) == Dead
    decreases |s|
  {
    if s != [] {
      DeadStaysDead(s[1..]);
    }
  }

  /** From inside the domain, the automaton accepts iff the rest is domain characters. */
  lemma {:induction false} DomainRun(s: string)
    ensures Run(InDomain, s) == InDomain <==> AllDomain(s)
    decreases |s|
  {
    if s != [] {
      var t := s[1..];
      if DomainChar(s[0]) {
        DomainRun(t);
        assert AllDomain(s) <==> AllDomain(t) by {
          if AllDomain(t) {
            forall i | 0 <= i < |s| ensures DomainChar(s[i]) {
              if i > 0 { assert s[i] == t[i - 1]; }
            }
          }
          if AllDomain(s) {
            forall i | 0 <= i < |t| ensures DomainChar(t[i]) {
              assert t[i] == s[i + 1];
            }
          }
        }
      } else {
        DeadStaysDead(t);
      }
    }
  }

  /** Right after the '@', the automaton accepts iff a non-empty domain follows. */
  lemma AtSignRun(s: string)
    ensures Run(AtSign, s) == InDomain <==> |s| > 0 && AllDomain(s)
  {
    if s != [] {
      var t := s[1..];
      if DomainChar(s[0]) {
        DomainRun(t);
        assert AllDomain(s) <==> AllDomain(t) by {
          if AllDomain(t) {
            forall i | 0 <= i < |s| ensures DomainChar(s[i]) {
              if i > 0 { assert s[i] == t[i - 1]; }
            }
          }
        }
      } else {
        DeadStaysDead(t);
      }
    }
  }

  /** A leading local character can be put in front of a split. */
  lemma SplitGrows(s: string, j: int)
    requires |s| > 0 && LocalChar(s[0]) && 0 <= j < |s| - 1 && SplitAt(s[1..], j)
    ensures SplitAt(s, j + 1)
  {
    var t := s[1..];
    var pre := s[..j + 1];
    forall k | 0 <= k < |pre|
      ensures LocalChar(pre[k])
    {
      if k > 0 {
        assert pre[k] == t[..j][k - 1];
      }
    }
    assert s[j + 2..] == t[j + 1..];
  }

  /** A split after the first character is a split of the rest. */
  lemma SplitShrinks(s: string, i: int)
    requires 0 < i < |s| && SplitAt(s, i)
    ensures SplitAt(s[1..], i - 1)
  {
    var t := s[1..];
    var pre := t[..i - 1];
    forall k | 0 <= k < |pre|
      ensures LocalChar(pre[k])
    {
      assert pre[k] == s[..i][k + 1];
    }
    assert t[i..] == s[i + 1..];
  }

  /** Inside the local part, the automaton accepts iff the rest splits at some
      '@' into local characters (possibly none) and a non-empty domain. */
  lemma {:induction false} LocalRun(s: string)
    ensures Run(InLocal, s) == InDomain <==> exists i | 0 <= i < |s| - 1 :: SplitAt(s, i)
    decreases |s|
  {
    if s == [] {
      return;
    }
    var t := s[1..];
    var c := s[0];
    if LocalChar(c) {
      assert c != '@';
      LocalRun(t);
      if Run(InLocal, s) == InDomain {
        var j :| 0 <= j < |t| - 1 && SplitAt(t, j);
        SplitGrows(s, j);
      }
      if exists i | 0 <= i < |s| - 1 :: SplitAt(s, i) {
        var i :| 0 <= i < |s| - 1 && SplitAt(s, i);
        assert i != 0;
        SplitShrinks(s, i);
      }
    } else if c == '@' {
      AtSignRun(t);
      if Run(InLocal, s) == InDomain {
        assert s[..0] == [];
        assert s[1..] == t;
        assert SplitAt(s, 0);
      }
      if exists i | 0 <= i < |s| - 1 :: SplitAt(s, i) {
        var i :| 0 <= i < |s| - 1 && SplitAt(s, i);
        if i > 0 {
          assert false;
        }
        assert s[i + 1..] == t;
      }
    } else {
      DeadStaysDead(t);
      forall i | 0 <= i < |s| - 1
        ensures !SplitAt(s, i)
      {
        if i > 0 {
          assert s[..i][0] == c;
        }
      }
    }
  }

  /** The automaton and the reference description accept the same values. */
  lemma MatchesIffShape(s: string)
    ensures Matches(s) <==> Shape(s)
  {
    if s == [] {
      return;
    }
    var t := s[1..];
    if LocalChar(s[0]) {
      LocalRun(t);
      if Matches(s) {
        var j :| 0 <= j < |t| - 1 && SplitAt(t, j);
        SplitGrows(s, j);
      }
      if Shape(s) {
        var i :| 0 < i < |s| - 1 && SplitAt(s, i);
        SplitShrinks(s, i);
      }
    } else {
      DeadStaysDead(t);
      if Shape(s) {
        assert false;
      }
    }
  }

  /** A matching value holds exactly one '@'. */
  lemma ShapeHasOneAt(s: string)
    requires Shape(s)
    ensures exists i | 0 <= i < |s| :: s[i] == '@'
    ensures forall i, j | 0 <= i < |s| && 0 <= j < |s| && s[i] == '@' && s[j] == '@' :: i == j
  {
  }

  lemma ExampleAccepts()
    ensures Matches("a@b")
  {
  }

  lemma ExampleNoAt()
    ensures !Matches("not-an-email")
  {
  }

  lemma ExampleTwoAts()
    ensures !Matches("a@b@c")
  {
  }

  lemma ExampleEmptyParts()
    ensures !Matches("@b")
    ensures !Matches("a@")
  {
  }
}
