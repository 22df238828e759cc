/** The contact form's e-mail rule, the anchored pattern `^[^\s@]+@[^\s@]+\.[^\s@]+$`,
    written as a predicate over characters, together with a plain-words reading of it. */
module EmailRule {

  /** JavaScript's `\s`: the WhiteSpace and LineTerminator code points of ECMAScript. */
  predicate IsSpace(c: char) {
    var n := c as int;
    n == 0x09 || n == 0x0A || n == 0x0B || n == 0x0C || n == 0x0D || n == 0x20 ||
    n == 0xA0 || n == 0x1680 || (0x2000 <= n <= 0x200A) || n == 0x2028 || n == 0x2029 ||
    n == 0x202F || n == 0x205F || n == 0x3000 || n == 0xFEFF
  }

  /** The character class `[^\s@]`. */
  predicate IsPlain(c: char) {
    !IsSpace(c) && c != '@'
  }

  /** The pattern's `[^\s@]+`: a non-empty run of plain characters. */
  predicate IsRun(s: string) {
    |s| > 0 && forall j :: 0 <= j < |s| ==> IsPlain(s[j])
  }

  /** The pattern matches all of `s` with its `@` at index `at` and its literal `.` at `dot`. */
  predicate MatchesAt(s: string, at: int, dot: int) {
    0 <= at < dot < |s| && s[at] == '@' && s[dot] == '.' &&
    IsRun(s[..at]) && IsRun(s[at + 1..dot]) && IsRun(s[dot + 1..])
  }

  /** `validateEmail`: some choice of the two cut points makes the pattern match. */
  predicate ValidateEmail(s: string)
    ensures ValidateEmail(s) ==> '@' in s && '.' in s && |s| >= 5
  {
    exists at, dot | 0 <= at < dot < |s| :: MatchesAt(s, at, dot)
  }

  predicate NoSpace(s: string) {
    forall j :: 0 <= j < |s| ==> !IsSpace(s[j])
  }

  /** Number of occurrences of `c` in `s`. */
  function Count(s: string, c: char): (n: nat)
    ensures n <= |s|
    ensures n == 0 <==> c !in s
  {
    if s == [] then 0 else (if s[0] == c then 1 else 0) + Count(s[1..], c)
  }

  lemma {:induction false} CountAppend(a: string, b: string, c: char)
    ensures Count(a + b, c) == Count(a, c) + Count(b, c)
  {
    if a == [] {
      assert a + b == b;
    } else {
      assert (a + b)[1..] == a[1..] + b;
      CountAppend(a[1..], b, c);
    }
  }

  /** Two occurrences at different indices count twice. */
  lemma CountTwo(s: string, c: char, h: int, k: int)
    requires 0 <= h < k < |s| && s[h] == c && s[k] == c
    ensures Count(s, c) >= 2
  {
    assert s == s[..k] + s[k..];
    CountAppend(s[..k], s[k..], c);
    assert s[..k][h] == c;
    assert s[k..][0] == c;
  }

  /** The plain-words reading of the pattern: no white space, exactly one `@`, something
      before it, and a `.` in the domain that is neither its first nor its last character. */
  predicate WellFormed(s: string) {
    NoSpace(s) && Count(s, '@') == 1 &&
    exists at | 0 < at < |s| && s[at] == '@' ::
      exists dot | at + 1 < dot < |s| - 1 :: s[dot] == '.'
  }

  lemma MatchIsWellFormed(s: string, at: int, dot: int)
    requires MatchesAt(s, at, dot)
    ensures WellFormed(s)
  {
    var local, host, tld := s[..at], s[at + 1..dot], s[dot + 1..];
    forall j | 0 <= j < |s|
      ensures !IsSpace(s[j])
      ensures j != at ==> s[j] != '@'
    {
      if j < at {
        assert s[j] == local[j];
      } else if at < j < dot {
        assert s[j] == host[j - at - 1];
      } else if dot < j {
        assert s[j] == tld[j - dot - 1];
      }
    }
    assert s == local + ([s[at]] + s[at + 1..]);
    CountAppend(local, [s[at]] + s[at + 1..], '@');
    CountAppend([s[at]], s[at + 1..], '@');
    assert '@' !in local by {
      forall j | 0 <= j < at ensures local[j] != '@' {
        assert local[j] == s[j];
      }
    }
    var domain := s[at + 1..];
    assert '@' !in domain by {
      forall j | 0 <= j < |domain| ensures domain[j] != '@' {
        assert domain[j] == s[at + 1 + j];
      }
    }
    assert s[dot] == '.';
  }

  lemma WellFormedMatches(s: string) returns (at: int, dot: int)
    requires WellFormed(s)
    ensures MatchesAt(s, at, dot)
  {
    at :| 0 < at < |s| && s[at] == '@' && exists dot | at + 1 < dot < |s| - 1 :: s[dot] == '.';
    dot :| at + 1 < dot < |s| - 1 && s[dot] == '.';
    forall j | 0 <= j < |s| && j != at
      ensures IsPlain(s[j])
    {
      if s[j] == '@' {
        if j < at { CountTwo(s, '@', j, at); } else { CountTwo(s, '@', at, j); }
      }
    }
    assert IsRun(s[..at]);
    assert IsRun(s[at + 1..dot]);
    assert IsRun(s[dot + 1..]);
  }

  /** The pattern accepts exactly the well-formed addresses. */
  lemma EmailCharacterisation(s: string)
    ensures ValidateEmail(s) <==> WellFormed(s)
  {
    if ValidateEmail(s) {
      var at, dot :| 0 <= at < dot < |s| && MatchesAt(s, at, dot);
      MatchIsWellFormed(s, at, dot);
    }
    if WellFormed(s) {
      var at, dot := WellFormedMatches(s);
    }
  }

  /** Sample addresses the pattern accepts and rejects. */
  lemma EmailExamples()
    ensures ValidateEmail("a@b.co")
    ensures ValidateEmail("a@b.c.d")
    ensures !ValidateEmail("a@b")
    ensures !ValidateEmail("@b.co")
    ensures !ValidateEmail("a@@b.co")
    ensures !ValidateEmail("a b@c.de")
  {
    assert MatchesAt("a@b.co", 1, 3);
    assert MatchesAt("a@b.c.d", 1, 3);
    EmailCharacterisation("a@b");
    EmailCharacterisation("@b.co");
    EmailCharacterisation("a@@b.co");
    assert Count("a@@b.co", '@') == 2;
    EmailCharacterisation("a b@c.de");
    assert IsSpace("a b@c.de"[1]);
  }
}
