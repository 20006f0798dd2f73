/** The email pattern of the login handler,
      ^[a-z0-9]+[\._]?[a-z0-9]+[@]\w+[.]\w{2,3}$
    as the language it accepts under re.search. A match of the unanchored body is
    a way of cutting the string at its '@' and at the '.' of the domain; `$`
    also matches just before a newline that ends the string. */
module EmailPattern {
  import opened PyChars

  predicate AllLowerAlnum(s: string) { forall i :: 0 <= i < |s| ==> IsLowerAlnum(s[i]) }

  predicate AllWord(s: string) { forall i :: 0 <= i < |s| ==> IsWordChar(s[i]) }

  predicate IsSeparator(c: char) { c == '.' || c == '_' }

  /** `[a-z0-9]+[\._]?[a-z0-9]+` matches all of `l`: two non-empty runs of
      [a-z0-9], with or without one separator between them. */
  predicate LocalPart(l: string) {
    (exists k :: 1 <= k < |l| && AllLowerAlnum(l[..k]) && AllLowerAlnum(l[k..]))
    || (exists k :: 1 <= k < |l| - 1 && IsSeparator(l[k]) && AllLowerAlnum(l[..k]) && AllLowerAlnum(l[k + 1..]))
  }

  /** `\w+[.]\w{2,3}` matches all of `d`. */
  predicate Domain(d: string) {
    exists k :: 1 <= k && k + 3 <= |d| <= k + 4 && d[k] == '.' && AllWord(d[..k]) && AllWord(d[k + 1..])
  }

  /** The pattern between `^` and `$` matches all of `s`. */
  predicate Body(s: string) {
    exists at :: 0 <= at < |s| && s[at] == '@' && LocalPart(s[..at]) && Domain(s[at + 1..])
  }

  /** re.search(pattern, s) finds a match. The shortest matches, such as
      `ab@c.de`, have seven characters. */
  predicate Matches(s: string)
    ensures Matches(s) ==> '@' in s && |s| >= 7
  {
    Body(s) || (|s| > 0 && s[|s| - 1] == '\n' && Body(s[..|s| - 1]))
  }

  lemma LocalPartIsLong(l: string)
    requires LocalPart(l)
    ensures |l| >= 2
  {
  }

  lemma {:induction false} LocalPartHasNoAt(l: string, i: int)
    requires LocalPart(l) && 0 <= i < |l|
    ensures l[i] != '@'
  {
    if k :| 1 <= k < |l| && AllLowerAlnum(l[..k]) && AllLowerAlnum(l[k..]) {
      if i < k { assert l[..k][i] == l[i]; } else { assert l[k..][i - k] == l[i]; }
    } else {
      var k :| 1 <= k < |l| - 1 && IsSeparator(l[k]) && AllLowerAlnum(l[..k]) && AllLowerAlnum(l[k + 1..]);
      if i < k { assert l[..k][i] == l[i]; } else if i > k { assert l[k + 1..][i - k - 1] == l[i]; }
    }
  }

  /** A string without an '@' never matches. */
  lemma NoAtRejected(s: string)
    requires '@' !in s
    ensures !Matches(s)
  {
  }

  /** Only a dot in the domain can be the last dot of a matching body, so the
      characters after it number two or three. */
  lemma {:induction false} LastDotInBody(s: string, k: int)
    requires Body(s)
    requires 0 <= k < |s| && s[k] == '.' && AllWord(s[k + 1..])
    ensures 2 <= |s| - k - 1 <= 3
  {
    var at :| 0 <= at < |s| && s[at] == '@' && LocalPart(s[..at]) && Domain(s[at + 1..]);
    var d := s[at + 1..];
    var m :| 1 <= m && m + 3 <= |d| <= m + 4 && d[m] == '.' && AllWord(d[..m]) && AllWord(d[m + 1..]);
    var p := at + 1 + m;
    forall j | k < j < |s| ensures IsWordChar(s[j]) {
      assert s[k + 1..][j - k - 1] == s[j];
    }
    forall j | p < j < |s| ensures IsWordChar(s[j]) {
      assert d[m + 1..][j - p - 1] == s[j];
    }
    assert s[p] == '.';
    assert !(k < p);
    assert !(p < k);
  }

  /** A matching body ends in a word character, never in a newline. */
  lemma BodyEndsInWord(s: string)
    requires Body(s)
    ensures |s| > 0 && IsWordChar(s[|s| - 1])
  {
    var at :| 0 <= at < |s| && s[at] == '@' && LocalPart(s[..at]) && Domain(s[at + 1..]);
    var d := s[at + 1..];
    var m :| 1 <= m && m + 3 <= |d| <= m + 4 && d[m] == '.' && AllWord(d[..m]) && AllWord(d[m + 1..]);
    assert d[m + 1..][|d| - m - 2] == s[|s| - 1];
  }

  /** A string that ends in a dot followed by four or more word characters never
      matches, with or without a final newline: the part after the last dot
      must have two or three characters. */
  lemma {:induction false} LongTldRejected(s: string, k: int)
    requires 0 <= k && k + 5 <= |s| && s[k] == '.' && AllWord(s[k + 1..])
    ensures !Matches(s)
    ensures !Matches(s + "\n")
  {
    if Body(s) {
      LastDotInBody(s, k);
    }
    if |s| > 0 && s[|s| - 1] == '\n' {
      assert false;
    }
    var t := s + "\n";
    if Body(t) {
      BodyEndsInWord(t);
    }
    assert t[..|t| - 1] == s;
  }

  /** A local part of a single character never matches. */
  lemma ShortLocalRejected(s: string)
    requires |s| >= 2 && s[0] != '@' && s[1] == '@'
    ensures !Matches(s)
  {
    if Body(s) {
      var at :| 0 <= at < |s| && s[at] == '@' && LocalPart(s[..at]) && Domain(s[at + 1..]);
      LocalPartIsLong(s[..at]);
      LocalPartHasNoAt(s[..at], 1);
    }
    if |s| >= 3 && s[|s| - 1] == '\n' {
      ShortLocalRejected(s[..|s| - 1]);
    }
  }

  lemma AcceptsPlainAddress()
    ensures Matches("ab@cd.com")
  {
    var s := "ab@cd.com";
    var l := s[..2];
    assert l[..1] == "a" && l[1..] == "b";
    assert AllLowerAlnum(l[..1]) && AllLowerAlnum(l[1..]);
    assert "cd.com"[..2] == "cd" && "cd.com"[3..] == "com";
    assert Domain(s[3..]);
  }

  lemma AcceptsTrailingNewline()
    ensures Matches("ab@cd.com\n")
  {
    AcceptsPlainAddress();
    assert "ab@cd.com\n"[..9] == "ab@cd.com";
  }

  lemma AcceptsSeparatedLocalPart()
    ensures Matches("a.b@cd.ca")
  {
    var s := "a.b@cd.ca";
    var l := s[..3];
    assert l[..1] == "a" && l[2..] == "b";
    assert IsSeparator(l[1]) && AllLowerAlnum(l[..1]) && AllLowerAlnum(l[2..]);
    assert "cd.ca"[..2] == "cd" && "cd.ca"[3..] == "ca";
    assert Domain(s[4..]);
  }

  lemma RejectedExamples()
    ensures !Matches("a@cd.com")
    ensures !Matches("abcd.com")
    ensures !Matches("ab@cd.info")
  {
    ShortLocalRejected("a@cd.com");
    NoAtRejected("abcd.com");
    var s := "ab@cd.info";
    assert s[6..] == "info";
    assert AllWord("info");
    LongTldRejected(s, 5);
  }
}
