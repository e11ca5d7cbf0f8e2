/**
 The three regular expressions the registration form checks its fields with,
 written out as predicates over characters.

 The patterns carry no `u` flag, so JavaScript matches them against UTF-16
 code units. Every character class below lies in the Basic Multilingual
 Plane, and a character outside it is two surrogate units that no class
 admits, so reading the strings as sequences of Unicode characters accepts
 exactly the same inputs.
 */
module RegisterPatterns {
  import opened Sequences

  predicate IsAsciiLetter(c: char) { 'a' <= c <= 'z' || 'A' <= c <= 'Z' }

  /** `\d`: without the `u` flag, only the ASCII digits. */
  predicate IsDigit(c: char) { '0' <= c <= '9' }

  predicate IsAsciiAlnum(c: char) { IsAsciiLetter(c) || IsDigit(c) }

  /** The characters a JavaScript `.` does not match. */
  predicate IsLineTerminator(c: char) { c == '\n' || c == '\r' || c == '\U{2028}' || c == '\U{2029}' }

  // ---------------------------------------------------------------- names

  /** The accented Hungarian letters the name pattern admits besides the ASCII letters. */
  const HungarianAccented: string := "ÁÉÍÓÖŐÚÜŰáéíóöőúüű"

  predicate IsNameChar(c: char) { IsAsciiLetter(c) || c in HungarianAccented }

  /**
   `nameRegex`, `/^[A-Za-zÁÉÍÓÖŐÚÜŰáéíóöőúüű]{2,}$/`: two or more letters,
   so an accepted name holds no digit, space or hyphen.
   */
  function NameRegexTest(s: string): (ok: bool)
    ensures ok ==> |s| >= 2
    ensures ok ==> forall i :: 0 <= i < |s| ==> !IsDigit(s[i]) && s[i] != ' ' && s[i] != '-'
  {
    |s| >= 2 && forall i :: 0 <= i < |s| ==> IsNameChar(s[i])
  }

  /** A name needs two characters, and digits, spaces and hyphens are refused anywhere in it. */
  lemma NameRejects(s: string)
    ensures |s| < 2 ==> !NameRegexTest(s)
    ensures (exists i :: 0 <= i < |s| && (IsDigit(s[i]) || s[i] == ' ' || s[i] == '-')) ==> !NameRegexTest(s)
  {
  }

  // ------------------------------------------------------------ passwords

  /** The lookahead `(?=.*C)` at the start of `s`: a character of class `C` before any line terminator. */
  predicate LookaheadFinds(s: string, inClass: char -> bool)
  {
    exists i :: 0 <= i < |s| && inClass(s[i]) && forall j :: 0 <= j < i ==> !IsLineTerminator(s[j])
  }

  /** `passwordRegex`, `/^(?=.*[a-zA-Z])(?=.*\d)[a-zA-Z\d]{8,}$/`, read construct by construct. */
  function PasswordRegexTest(s: string): (ok: bool)
    ensures ok ==> |s| >= 8
    ensures ok ==> exists i :: 0 <= i < |s| && IsAsciiLetter(s[i])
    ensures ok ==> exists i :: 0 <= i < |s| && IsDigit(s[i])
  {
    && LookaheadFinds(s, IsAsciiLetter)
    && LookaheadFinds(s, IsDigit)
    && |s| >= 8
    && forall i :: 0 <= i < |s| ==> IsAsciiAlnum(s[i])
  }

  /**
   The password rule as it reads in words: at least eight ASCII letters and
   digits, with at least one of each. The lookaheads' stop at line
   terminators never matters, because the body admits none.
   */
  lemma PasswordRegexMeaning(s: string)
    ensures PasswordRegexTest(s) <==>
      && |s| >= 8
      && (forall i :: 0 <= i < |s| ==> IsAsciiAlnum(s[i]))
      && (exists i :: 0 <= i < |s| && IsAsciiLetter(s[i]))
      && (exists i :: 0 <= i < |s| && IsDigit(s[i]))
  {
    if (forall i :: 0 <= i < |s| ==> IsAsciiAlnum(s[i])) {
      assert forall j :: 0 <= j < |s| ==> !IsLineTerminator(s[j]);
    }
  }

  /** Eight letters and digits with a digit among them pass. */
  lemma PasswordAcceptsExample()
    ensures PasswordRegexTest("abcdefg1")
  {
    var ok := "abcdefg1";
    forall i | 0 <= i < |ok|
      ensures IsAsciiAlnum(ok[i])
    {
      assert ok[i] in "abcdefg1";
    }
    PasswordRegexMeaning(ok);
    assert IsAsciiLetter(ok[0]) && IsDigit(ok[7]);
  }

  /** Without a digit, too short, or with a symbol, a password fails. */
  lemma PasswordRejectsExamples()
    ensures !PasswordRegexTest("abcdefgh")
    ensures !PasswordRegexTest("abc1")
    ensures !PasswordRegexTest("1234567a!")
  {
    var noDigit := "abcdefgh";
    forall i | 0 <= i < |noDigit|
      ensures !IsDigit(noDigit[i])
    {
      assert noDigit[i] in "abcdefgh";
    }
    PasswordRegexMeaning(noDigit);
    assert "1234567a!"[8] == '!';
  }

  // ------------------------------------------------------------ addresses

  /** The symbols the local part may hold besides ASCII letters and digits. */
  const LocalPartSymbols: string := ".!#$%&'*+/=?^_`{|}~-"

  predicate IsLocalPartChar(c: char) { IsAsciiAlnum(c) || c in LocalPartSymbols }

  /** `[a-zA-Z0-9.!#$%&'*+/=?^_`{|}~-]+`. */
  function IsLocalPart(s: string): (ok: bool)
    ensures ok ==> |s| >= 1
    ensures ok ==> forall i :: 0 <= i < |s| ==> s[i] != '@'
  {
    |s| >= 1 && forall i :: 0 <= i < |s| ==> IsLocalPartChar(s[i])
  }

  /**
   `[a-zA-Z0-9](?:[a-zA-Z0-9-]{0,61}[a-zA-Z0-9])?`: one to 63 letters, digits
   and hyphens, starting and ending with a letter or digit.
   */
  function IsLabel(l: string): (ok: bool)
    ensures ok ==> |l| >= 1 && l[0] != '-' && l[|l| - 1] != '-'
    ensures ok ==> forall i :: 0 <= i < |l| ==> l[i] != '.' && l[i] != '@'
  {
    && 1 <= |l| <= 63
    && IsAsciiAlnum(l[0])
    && IsAsciiAlnum(l[|l| - 1])
    && forall i :: 0 <= i < |l| ==> IsAsciiAlnum(l[i]) || l[i] == '-'
  }

  /** The labels written one after another with a dot between neighbours. */
  function JoinLabels(labels: seq<string>): string
  {
    if |labels| == 0 then ""
    else if |labels| == 1 then labels[0]
    else labels[0] + "." + JoinLabels(labels[1..])
  }

  /** `d` cut at every dot; joining the pieces again gives `d` back. */
  function SplitLabels(d: string): (labels: seq<string>)
    ensures |labels| >= 1
    ensures forall i :: 0 <= i < |labels| ==> '.' !in labels[i]
    ensures JoinLabels(labels) == d
    decreases |d|
  {
    var k := IndexOf(d, '.');
    if k == |d| then
      assert d[..k] == d;
      [d]
    else
      var rest := SplitLabels(d[k + 1..]);
      assert d == d[..k] + "." + d[k + 1..];
      [d[..k]] + rest
  }

  /** A string without dots is a single piece. */
  lemma SplitLabelsNoDot(d: string)
    requires '.' !in d
    ensures SplitLabels(d) == [d]
  {
    IndexOfUnique(d, '.', |d|);
    assert d[..|d|] == d;
  }

  /** A string is cut first at its first dot. */
  lemma SplitLabelsAtFirstDot(l: string, rest: string)
    requires '.' !in l
    ensures SplitLabels(l + "." + rest) == [l] + SplitLabels(rest)
  {
    var d := l + "." + rest;
    assert d[..|l|] == l;
    IndexOfUnique(d, '.', |l|);
    assert d[|l| + 1..] == rest;
  }

  /** Cutting a dot-joined list of dot-free labels at its dots gives the labels back. */
  lemma {:induction false} SplitJoinLabels(labels: seq<string>)
    requires |labels| >= 1
    requires forall i :: 0 <= i < |labels| ==> '.' !in labels[i]
    ensures SplitLabels(JoinLabels(labels)) == labels
  {
    if |labels| == 1 {
      SplitLabelsNoDot(labels[0]);
    } else {
      var l, rest := labels[0], labels[1..];
      assert JoinLabels(labels) == l + "." + JoinLabels(rest);
      SplitLabelsAtFirstDot(l, JoinLabels(rest));
      SplitJoinLabels(rest);
      assert labels == [l] + rest;
    }
  }

  /** The domain part: one or more labels joined by dots. */
  ghost predicate IsDomain(d: string)
  {
    exists labels: seq<string> ::
      && |labels| >= 1
      && (forall i :: 0 <= i < |labels| ==> IsLabel(labels[i]))
      && d == JoinLabels(labels)
  }

  /** `emailRegex` as the language it denotes: a local part, `@`, then a domain. */
  ghost function EmailPattern(e: string): (ok: bool)
    ensures ok ==> |e| >= 3 && e[0] != '@' && '@' in e
  {
    exists k :: 0 <= k < |e| && e[k] == '@' && IsLocalPart(e[..k]) && IsDomain(e[k + 1..])
  }

  /** `emailRegex.test`: split at the first `@`, then cut the domain at its dots and check each label. */
  function EmailRegexTest(e: string): (ok: bool)
    ensures ok ==> |e| >= 3 && e[0] != '@'
  {
    var k := IndexOf(e, '@');
    && k < |e|
    && IsLocalPart(e[..k])
    && var labels := SplitLabels(e[k + 1..]);
       forall i :: 0 <= i < |labels| ==> IsLabel(labels[i])
  }

  /** No label holds a dot or an `@`. */
  lemma LabelChars(l: string)
    requires IsLabel(l)
    ensures '.' !in l && '@' !in l
  {
    forall i | 0 <= i < |l|
      ensures l[i] != '.' && l[i] != '@'
    {
    }
  }

  /** A domain holds no `@`. */
  lemma {:induction false} JoinLabelsHasNoAt(labels: seq<string>)
    requires forall i :: 0 <= i < |labels| ==> IsLabel(labels[i])
    ensures '@' !in JoinLabels(labels)
  {
    if |labels| == 1 {
      LabelChars(labels[0]);
    } else if |labels| > 1 {
      LabelChars(labels[0]);
      JoinLabelsHasNoAt(labels[1..]);
    }
  }

  /** Whatever the test accepts is in the pattern's language. */
  lemma EmailRegexTestSound(e: string)
    requires EmailRegexTest(e)
    ensures EmailPattern(e)
  {
    var k := IndexOf(e, '@');
    var labels := SplitLabels(e[k + 1..]);
    assert IsDomain(e[k + 1..]);
  }

  /** A local part holds no `@`, so the `@` after it is the first one. */
  lemma LocalPartHasNoAt(s: string)
    requires IsLocalPart(s)
    ensures '@' !in s
  {
    forall i | 0 <= i < |s|
      ensures s[i] != '@'
    {
    }
  }

  /** Cutting a domain at its dots gives back the labels it was built from, all valid. */
  lemma DomainSplitsIntoLabels(d: string)
    requires IsDomain(d)
    ensures forall i :: 0 <= i < |SplitLabels(d)| ==> IsLabel(SplitLabels(d)[i])
  {
    var labels :| |labels| >= 1 && (forall i :: 0 <= i < |labels| ==> IsLabel(labels[i]))
      && d == JoinLabels(labels);
    forall i | 0 <= i < |labels|
      ensures '.' !in labels[i]
    {
      LabelChars(labels[i]);
    }
    SplitJoinLabels(labels);
  }

  /** Whatever the pattern's language holds, the test accepts. */
  lemma EmailRegexTestComplete(e: string)
    requires EmailPattern(e)
    ensures EmailRegexTest(e)
  {
    var j :| 0 <= j < |e| && e[j] == '@' && IsLocalPart(e[..j]) && IsDomain(e[j + 1..]);
    LocalPartHasNoAt(e[..j]);
    IndexOfUnique(e, '@', j);
    DomainSplitsIntoLabels(e[j + 1..]);
  }

  /** The split-based test accepts exactly the language of the pattern. */
  lemma EmailRegexTestMeaning(e: string)
    ensures EmailRegexTest(e) <==> EmailPattern(e)
  {
    if EmailRegexTest(e) {
      EmailRegexTestSound(e);
    }
    if EmailPattern(e) {
      EmailRegexTestComplete(e);
    }
  }

  /** The domain of an accepted address, after its first `@`, holds no further `@`. */
  lemma AcceptedDomainHasNoAt(e: string)
    requires EmailRegexTest(e)
    ensures IndexOf(e, '@') < |e| && '@' !in e[IndexOf(e, '@') + 1..]
  {
    var domain := e[IndexOf(e, '@') + 1..];
    var labels := SplitLabels(domain);
    JoinLabelsHasNoAt(labels);
  }

  /** An `@` with none before it and none after it is the only one. */
  lemma OnlyAt(e: string, k: nat)
    requires k < |e| && e[k] == '@'
    requires '@' !in e[..k] && '@' !in e[k + 1..]
    ensures forall i :: 0 <= i < |e| && e[i] == '@' ==> i == k
  {
    forall i | k < i < |e|
      ensures e[i] != '@'
    {
      assert e[i] == e[k + 1..][i - k - 1];
    }
    forall i | 0 <= i < k
      ensures e[i] != '@'
    {
      assert e[i] == e[..k][i];
    }
  }

  /** An accepted address holds exactly one `@`, the one that ends the local part. */
  lemma EmailHasOneAt(e: string)
    requires EmailRegexTest(e)
    ensures '@' in e
    ensures forall i :: 0 <= i < |e| && e[i] == '@' ==> i == IndexOf(e, '@')
  {
    AcceptedDomainHasNoAt(e);
    OnlyAt(e, IndexOf(e, '@'));
  }

  /** A domain without a dot is accepted: `a@b`. */
  lemma EmailAcceptsDotlessDomain()
    ensures EmailRegexTest("a@b")
  {
    IndexOfUnique("a@b", '@', 1);
    IndexOfUnique("b", '.', 1);
    assert SplitLabels("b") == ["b"];
  }

  /** An empty label between two dots is refused: `a@b..c`. */
  lemma EmailRejectsEmptyLabel()
    ensures !EmailRegexTest("a@b..c")
  {
    IndexOfUnique("a@b..c", '@', 1);
    IndexOfUnique("b..c", '.', 1);
    IndexOfUnique(".c", '.', 0);
    assert SplitLabels("b..c")[1] == "";
  }

  /** A label may not start with a hyphen: `a@-b`. */
  lemma EmailRejectsLeadingHyphen()
    ensures !EmailRegexTest("a@-b")
  {
    IndexOfUnique("a@-b", '@', 1);
    IndexOfUnique("-b", '.', 2);
    assert SplitLabels("-b") == ["-b"];
  }

  /** A second `@` is refused: `a@b@c`. */
  lemma EmailRejectsSecondAt()
    ensures !EmailRegexTest("a@b@c")
  {
    IndexOfUnique("a@b@c", '@', 1);
    IndexOfUnique("b@c", '.', 3);
    assert SplitLabels("b@c") == ["b@c"];
  }
}
