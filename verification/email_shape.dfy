/** The e-mail shape test `/^[^\s@]+@[^\s@]+\.[^\s@]+$/` that the login and
    registration handlers and the registration form all apply. */
module EmailShape {
  import opened Common

  /** A character of the class `[^\s@]`. */
  predicate Plain(c: char) {
    !IsSpace(c) && c != '@'
  }

  predicate AllPlain(s: string) {
    forall k | 0 <= k < |s| :: Plain(s[k])
  }

  /** The regular expression read literally: three non-empty runs of plain
      characters, joined by one `@` and one `.`. */
  ghost predicate MatchesPattern(s: string) {
    exists i, j :: MatchesAt(s, i, j)
  }

  /** The match whose `@` is at `i` and whose `.` is at `j`. */
  predicate MatchesAt(s: string, i: int, j: int) {
    && 0 < i && i + 1 < j && j + 1 < |s|
    && s[i] == '@' && s[j] == '.'
    && AllPlain(s[..i]) && AllPlain(s[i + 1..j]) && AllPlain(s[j + 1..])
  }

  /** A slice whose characters are all plain. */
  lemma PlainRange(s: string, a: nat, b: nat)
    requires a <= b <= |s| && forall m | a <= m < b :: Plain(s[m])
    ensures AllPlain(s[a..b])
  {
    forall m | 0 <= m < b - a ensures Plain(s[a..b][m]) {
      assert s[a..b][m] == s[a + m];
    }
  }

  /** The domain part: no `@` and no white space, with a `.` that is neither
      its first nor its last character. */
  predicate DomainShape(d: string) {
    AllPlain(d) && exists k | 0 < k < |d| - 1 :: d[k] == '.'
  }

  /** The shape every handler tests: a non-empty local part without `@` or
      white space, one `@`, and a domain of the shape above. */
  predicate IsEmail(s: string) {
    exists i | 0 < i < |s| :: s[i] == '@' && AllPlain(s[..i]) && DomainShape(s[i + 1..])
  }

  lemma ShapeImpliesPattern(s: string)
    requires IsEmail(s)
    ensures MatchesPattern(s)
  {
    var i :| 0 < i < |s| && s[i] == '@' && AllPlain(s[..i]) && DomainShape(s[i + 1..]);
    var d := s[i + 1..];
    var k :| 0 < k < |d| - 1 && d[k] == '.';
    var j := i + 1 + k;
    forall m | i < m < |s| ensures Plain(s[m]) {
      assert s[m] == d[m - i - 1];
    }
    PlainRange(s, i + 1, j);
    PlainRange(s, j + 1, |s|);
    assert MatchesAt(s, i, j);
  }

  lemma PatternImpliesShape(s: string)
    requires MatchesPattern(s)
    ensures IsEmail(s)
  {
    var i, j :| MatchesAt(s, i, j);
    var d := s[i + 1..];
    var k := j - (i + 1);
    forall m | 0 <= m < |d|
      ensures Plain(d[m])
    {
      if m < k {
        assert d[m] == s[i + 1..j][m];
      } else if m > k {
        assert d[m] == s[j + 1..][m - k - 1];
      }
    }
    assert d[k] == '.';
    assert DomainShape(d);
  }

  /** The characterisation agrees with the regular expression on every
      string, in both directions. */
  lemma EmailShapeMatchesPattern(s: string)
    ensures IsEmail(s) <==> MatchesPattern(s)
  {
    if IsEmail(s) {
      ShapeImpliesPattern(s);
    }
    if MatchesPattern(s) {
      PatternImpliesShape(s);
    }
  }

  /** A well-shaped address holds exactly one `@` and no white space. */
  lemma EmailHasOneAt(s: string)
    requires IsEmail(s)
    ensures exists i | 0 < i < |s| :: s[i] == '@' && forall k | 0 <= k < |s| && k != i :: s[k] != '@'
    ensures forall k | 0 <= k < |s| :: !IsSpace(s[k])
    ensures |s| >= 5
  {
    var i :| 0 < i < |s| && s[i] == '@' && AllPlain(s[..i]) && DomainShape(s[i + 1..]);
    forall k | 0 <= k < |s| && k != i
      ensures Plain(s[k])
    {
      if k < i {
        assert s[k] == s[..i][k];
      } else {
        assert s[k] == s[i + 1..][k - i - 1];
      }
    }
  }

  lemma AliceIsEmail()
    ensures IsEmail("alice@example.com")
  {
    var s := "alice@example.com";
    assert s[5] == '@';
    assert s[6..][7] == '.';
  }

  /** Without a `.` after the `@` there is no domain. */
  lemma NoDotNoEmail()
    ensures !IsEmail("alice@example")
  {
    var s := "alice@example";
    assert '.' !in s;
    if IsEmail(s) {
      ShapeImpliesPattern(s);
    }
  }

  /** `c` occurs in `s` at position `n` and nowhere else. */
  lemma OnlyAt(s: string, c: char, n: nat)
    requires n < |s| && s[n] == c && c !in s[..n] && c !in s[n + 1..]
    ensures forall k | 0 <= k < |s| && s[k] == c :: k == n
  {
  }

  /** The local part cannot be empty. */
  lemma NoLocalPartNoEmail()
    ensures !IsEmail("@example.com")
  {
    var s := "@example.com";
    if IsEmail(s) {
      EmailHasOneAt(s);
    }
  }

  /** The `.` cannot open the domain: an address whose only `.` after the
      `@` comes directly after it is rejected, whatever precedes the `@`. */
  lemma DotFirstNoEmail(local: string, rest: string)
    requires '.' !in rest
    ensures !IsEmail(local + "@." + rest)
  {
    var s := local + "@." + rest;
    assert s[|local|] == '@' && s[|local| + 1] == '.';
  }

  /** The example of the form: `alice@.com`. */
  lemma AliceDotFirstNoEmail()
    ensures !IsEmail("alice@.com")
  {
    assert "alice@.com" == "alice" + "@." + "com";
    DotFirstNoEmail("alice", "com");
  }

  /** White space is never part of an address. */
  lemma SpaceNoEmail()
    ensures !IsEmail("ali ce@example.com")
  {
    var s := "ali ce@example.com";
    SpaceRefutes(s, 3);
  }

  lemma SpaceRefutes(s: string, k: nat)
    requires k < |s| && IsSpace(s[k])
    ensures !IsEmail(s)
  {
    if IsEmail(s) {
      EmailHasOneAt(s);
    }
  }
}
