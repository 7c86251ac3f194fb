/** The e-mail validator of the waitlist form (`isValidEmail`).

    The address must match the pattern
      local-part: one or more of  a-z A-Z 0-9 . ! # $ % & ' * + / = ? ^ _ ` { | } ~ -
      then exactly "@"
      domain:     label ("." label)*, each label 1 to 63 letters, digits or
                  hyphens, starting and ending with a letter or digit
                  (section 2.3.1 of RFC 1035 as relaxed by section 2.1 of
                  RFC 1123, which lets a label start with a digit),
    anchored at both ends, and then pass two length ceilings: at most 64
    characters before the "@" and at most 255 after it.

    `RegexTest` is a hand-written recogniser for the pattern; `MatchesPattern`
    states the pattern the way the regular expression is written, and
    `RegexTestCorrect` proves that they agree. */
module Email {
  import opened Wrappers
  import opened JsString

  const MaxLocalLength: nat := 64
  const MaxDomainLength: nat := 255
  const MaxLabelLength: nat := 63

  predicate IsAlnum(c: char)
  {
    ('a' <= c <= 'z') || ('A' <= c <= 'Z') || ('0' <= c <= '9')
  }

  /** The character class of a domain label. */
  predicate IsLabelChar(c: char)
  {
    IsAlnum(c) || c == '-'
  }

  /** The character class of the local part. */
  predicate IsLocalChar(c: char)
  {
    IsAlnum(c) || c in ".!#$%&'*+/=?^_`{|}~-"
  }

  /** A non-empty local part over the local-part class. */
  predicate ValidLocal(l: string)
  {
    |l| >= 1 && forall k :: 0 <= k < |l| ==> IsLocalChar(l[k])
  }

  /** `[a-zA-Z0-9](?:[a-zA-Z0-9-]{0,61}[a-zA-Z0-9])?`: 1 to 63 label
      characters, the first and the last a letter or a digit. */
  predicate IsLabel(l: string)
  {
    1 <= |l| <= MaxLabelLength && IsAlnum(l[0]) && IsAlnum(l[|l| - 1])
    && forall k :: 0 <= k < |l| ==> IsLabelChar(l[k])
  }

  /** Every dot-separated piece of the domain is a label. */
  predicate ValidDomain(d: string)
  {
    forall p | p in Split(d, '.') :: IsLabel(p)
  }

  /** The pattern as the regular expression states it: a local part, "@", and
      one or more labels joined by dots, covering the whole string. */
  ghost predicate MatchesPattern(s: string)
  {
    exists local: string, labels: seq<string> ::
      ValidLocal(local) && |labels| >= 1 && (forall p | p in labels :: IsLabel(p))
      && s == local + "@" + JoinWith(labels, '.')
  }

  // ---------------------------------------------------------------------
  // The recogniser

  /** Length of the longest prefix of `s` over the local-part class. */
  function LocalRun(s: string): (n: nat)
    ensures n <= |s|
    ensures forall k :: 0 <= k < n ==> IsLocalChar(s[k])
    ensures n < |s| ==> !IsLocalChar(s[n])
    decreases |s|
  {
    if |s| > 0 && IsLocalChar(s[0]) then 1 + LocalRun(s[1..]) else 0
  }

  /** Length of the longest prefix of `d` over the label class. */
  function LabelRun(d: string): (n: nat)
    ensures n <= |d|
    ensures forall k :: 0 <= k < n ==> IsLabelChar(d[k])
    ensures n < |d| ==> !IsLabelChar(d[n])
    decreases |d|
  {
    if |d| > 0 && IsLabelChar(d[0]) then 1 + LabelRun(d[1..]) else 0
  }

  /** Matches `label(\.label)*` against the whole of `d`. A label cannot hold
      a dot, so each label is a maximal run of label characters. */
  function DomainMatches(d: string): bool
    decreases |d|
  {
    var n := LabelRun(d);
    IsLabel(d[..n]) && (n == |d| || (d[n] == '.' && DomainMatches(d[n + 1..])))
  }

  /** `regex.test(email)`. The local-part class has no "@", so the "@" of a
      match can only follow the longest local-part prefix. */
  function RegexTest(s: string): bool
  {
    var n := LocalRun(s);
    0 < n < |s| && s[n] == '@' && DomainMatches(s[n + 1..])
  }

  /** `isValidEmail(email)`: the pattern, then `email.split('@')` into the
      first two pieces, the emptiness guard and the two length ceilings. */
  function IsValidEmail(email: string): bool
  {
    if !RegexTest(email) then false
    else
      var parts := Split(email, '@');
      var local := parts[0];
      var domain := if |parts| > 1 then Some(parts[1]) else None;
      if local == "" || domain.None? || domain.value == "" then false
      else if |local| > MaxLocalLength || |domain.value| > MaxDomainLength then false
      else true
  }

  // ---------------------------------------------------------------------
  // Lemmas

  /** The longest local-part prefix of `a + t` is `a` when `a` is all
      local-part characters and `t` does not start with one. */
  lemma LocalRunStops(a: string, t: string)
    requires forall k :: 0 <= k < |a| ==> IsLocalChar(a[k])
    requires t == [] || !IsLocalChar(t[0])
    ensures LocalRun(a + t) == |a|
  {
    var s := a + t;
    assert forall k :: 0 <= k < |a| ==> s[k] == a[k];
    assert |t| > 0 ==> s[|a|] == t[0];
  }

  /** The characters and the ends of a dot-join of labels: only label
      characters and dots, a letter or digit at both ends, and a letter or
      digit on both sides of every dot. */
  lemma {:induction false} JoinedLabelsShape(labels: seq<string>)
    requires |labels| >= 1
    requires forall p | p in labels :: IsLabel(p)
    ensures var d := JoinWith(labels, '.');
      |d| >= 1 && IsAlnum(d[0]) && IsAlnum(d[|d| - 1])
      && (forall k :: 0 <= k < |d| ==> IsLabelChar(d[k]) || d[k] == '.')
      && (forall k :: 0 <= k < |d| && d[k] == '.' ==>
            0 < k < |d| - 1 && IsAlnum(d[k - 1]) && IsAlnum(d[k + 1]))
    decreases |labels|
  {
    var l := labels[0];
    assert l in labels;
    if |labels| > 1 {
      var tail := labels[1..];
      assert forall p | p in tail :: p in labels;
      JoinedLabelsShape(tail);
      var e := JoinWith(tail, '.');
      var d := l + ['.'] + e;
      assert JoinWith(labels, '.') == d;
      assert forall k :: 0 <= k < |l| ==> d[k] == l[k] && IsLabelChar(l[k]);
      assert forall k :: |l| < k < |d| ==> d[k] == e[k - |l| - 1];
      assert d[|l|] == '.';
      assert forall k :: 0 <= k < |d| && d[k] == '.' ==>
            0 < k < |d| - 1 && IsAlnum(d[k - 1]) && IsAlnum(d[k + 1]) by {
        forall k | 0 <= k < |d| && d[k] == '.'
          ensures 0 < k < |d| - 1 && IsAlnum(d[k - 1]) && IsAlnum(d[k + 1])
        {
          if k > |l| {
            assert e[k - |l| - 1] == '.';
            assert d[k - 1] == e[k - |l| - 2] && d[k + 1] == e[k - |l|];
          }
        }
      }
    }
  }

  /** An accepted domain, spelled out character by character: it is
      non-empty, holds only letters, digits, hyphens and dots, and starts and
      ends with a letter or digit; every dot has a letter or digit on both
      sides. So there is no empty label, no leading or trailing dot, and no
      label that starts or ends with a hyphen. */
  lemma DomainShape(d: string)
    requires ValidDomain(d)
    ensures |d| >= 1 && IsAlnum(d[0]) && IsAlnum(d[|d| - 1])
    ensures forall k :: 0 <= k < |d| ==> IsLabelChar(d[k]) || d[k] == '.'
    ensures forall k :: 0 <= k < |d| && d[k] == '.' ==>
              0 < k < |d| - 1 && IsAlnum(d[k - 1]) && IsAlnum(d[k + 1])
    ensures forall k :: 0 <= k < |d| && d[k] == '-' ==>
              0 < k < |d| - 1 && d[k - 1] != '.' && d[k + 1] != '.'
  {
    JoinedLabelsShape(Split(d, '.'));
  }

  /** The longest run of label characters holds no dot. */
  lemma LabelRunHasNoDot(d: string)
    ensures '.' !in d[..LabelRun(d)]
  {
    var n := LabelRun(d);
    forall k | 0 <= k < n ensures d[..n][k] != '.' { assert IsLabelChar(d[k]); }
  }

  /** A dot after a dot-free prefix ends the first piece of the split
      there. */
  lemma SplitAfterPrefix(d: string, n: nat)
    requires n < |d| && d[n] == '.' && '.' !in d[..n]
    ensures Split(d, '.') == [d[..n]] + Split(d[n + 1..], '.')
  {
    assert d == d[..n] + ['.'] + d[n + 1..];
    SplitJoinStep(d[..n], d[n + 1..], '.');
  }

  /** Any other character after the first run of label characters lands in
      the first piece of the split, which is then no label. */
  lemma FirstPieceNotLabel(d: string, n: nat)
    requires n == LabelRun(d) && n < |d| && d[n] != '.'
    ensures !IsLabel(Split(d, '.')[0])
  {
    var t := d[n..];
    LabelRunHasNoDot(d);
    assert d == d[..n] + t;
    SplitPrepend(d[..n], t, '.');
    FirstPieceStart(t, '.');
    var first := Split(d, '.')[0];
    assert first == d[..n] + Split(t, '.')[0];
    assert first[n] == d[n];
    assert !IsLabelChar(first[n]);
  }

  /** The recogniser's domain part decides `ValidDomain`. */
  lemma {:induction false} DomainMatchesCorrect(d: string)
    ensures DomainMatches(d) <==> ValidDomain(d)
    decreases |d|
  {
    var n := LabelRun(d);
    if n == |d| {
      assert d[..n] == d;
      LabelRunHasNoDot(d);
      SplitWithoutSeparator(d, '.');
    } else if d[n] == '.' {
      var rest := d[n + 1..];
      LabelRunHasNoDot(d);
      SplitAfterPrefix(d, n);
      DomainMatchesCorrect(rest);
      assert forall p | p in Split(rest, '.') :: p in Split(d, '.');
    } else {
      FirstPieceNotLabel(d, n);
      assert Split(d, '.')[0] in Split(d, '.');
    }
  }

  /** A dot-join of labels is a valid domain without "@". */
  lemma JoinedLabelsDomain(labels: seq<string>)
    requires |labels| >= 1 && forall p | p in labels :: IsLabel(p)
    ensures var d := JoinWith(labels, '.'); ValidDomain(d) && '@' !in d
  {
    var d := JoinWith(labels, '.');
    forall p | p in labels ensures '.' !in p { LabelHasNoDot(p); }
    SplitJoin(labels, '.');
    assert ValidDomain(d);
    DomainHasNoAt(d);
  }

  /** A label has no dot. */
  lemma LabelHasNoDot(p: string)
    requires IsLabel(p)
    ensures '.' !in p
  {
    forall k | 0 <= k < |p| ensures p[k] != '.' { assert IsLabelChar(p[k]); }
  }

  /** A local part, "@" and a dot-join of labels split at "@" into exactly
      the local part and the domain, and the domain is valid. */
  lemma JoinedAddressSplits(local: string, labels: seq<string>)
    requires ValidLocal(local)
    requires |labels| >= 1 && forall p | p in labels :: IsLabel(p)
    ensures var d := JoinWith(labels, '.');
      ValidDomain(d) && Split(local + "@" + d, '@') == [local, d]
  {
    var d := JoinWith(labels, '.');
    JoinedLabelsDomain(labels);
    LocalHasNoAt(local);
    assert JoinWith([local, d], '@') == local + "@" + d;
    SplitJoin([local, d], '@');
  }

  /** What the pattern accepts splits at "@" into a valid local part and a
      valid domain. */
  lemma RegexTestSplits(s: string)
    requires RegexTest(s)
    ensures var parts := Split(s, '@');
      |parts| == 2 && ValidLocal(parts[0]) && ValidDomain(parts[1])
  {
    var n := LocalRun(s);
    var local, d := s[..n], s[n + 1..];
    DomainMatchesCorrect(d);
    var labels := Split(d, '.');
    assert s == local + "@" + JoinWith(labels, '.');
    JoinedAddressSplits(local, labels);
  }

  /** A string that splits at "@" into a valid local part and a valid
      domain matches the pattern. */
  lemma SplitsRegexTest(s: string)
    requires var parts := Split(s, '@');
      |parts| == 2 && ValidLocal(parts[0]) && ValidDomain(parts[1])
    ensures RegexTest(s)
  {
    var parts := Split(s, '@');
    assert parts[1..] == [parts[1]];
    assert JoinWith(parts[1..], '@') == parts[1];
    assert s == parts[0] + (['@'] + parts[1]);
    LocalRunStops(parts[0], ['@'] + parts[1]);
    var n := LocalRun(s);
    assert s[n + 1..] == parts[1];
    DomainMatchesCorrect(parts[1]);
  }

  /** The pattern holds exactly when `split('@')` gives two pieces, a valid
      local part and a valid domain. */
  lemma RegexTestSplit(s: string)
    ensures RegexTest(s) <==>
      var parts := Split(s, '@');
      |parts| == 2 && ValidLocal(parts[0]) && ValidDomain(parts[1])
  {
    var parts := Split(s, '@');
    if RegexTest(s) { RegexTestSplits(s); }
    if |parts| == 2 && ValidLocal(parts[0]) && ValidDomain(parts[1]) { SplitsRegexTest(s); }
  }

  /** The recogniser decides the pattern as the regular expression states it. */
  lemma RegexTestCorrect(s: string)
    ensures RegexTest(s) <==> MatchesPattern(s)
  {
    RegexTestSplit(s);
    var parts := Split(s, '@');
    if RegexTest(s) {
      var labels := Split(parts[1], '.');
      assert parts[1..] == [parts[1]];
      assert JoinWith(parts[1..], '@') == parts[1];
      assert s == parts[0] + "@" + JoinWith(labels, '.');
    }
    if MatchesPattern(s) {
      var local: string, labels: seq<string> :|
        ValidLocal(local) && |labels| >= 1 && (forall p | p in labels :: IsLabel(p))
        && s == local + "@" + JoinWith(labels, '.');
      JoinedAddressSplits(local, labels);
    }
  }

  /** The local-part class has no "@". */
  lemma LocalHasNoAt(l: string)
    requires ValidLocal(l)
    ensures '@' !in l
  {
    forall k | 0 <= k < |l| ensures l[k] != '@' { assert IsLocalChar(l[k]); }
  }

  /** A valid domain has no "@". */
  lemma DomainHasNoAt(d: string)
    requires ValidDomain(d)
    ensures '@' !in d
  {
    DomainShape(d);
    forall k | 0 <= k < |d| ensures d[k] != '@' { assert IsLabelChar(d[k]) || d[k] == '.'; }
  }

  /** Neither character class holds "@": a matching string has exactly one. */
  lemma AtSignOnce(s: string)
    requires RegexTest(s)
    ensures multiset(s)['@'] == 1
  {
    RegexTestSplits(s);
    var parts := Split(s, '@');
    assert parts[1] in parts;
    assert parts[1..] == [parts[1]];
    assert JoinWith(parts[1..], '@') == parts[1];
    assert s == parts[0] + ['@'] + parts[1];
    assert multiset(s) == multiset(parts[0]) + multiset(['@']) + multiset(parts[1]);
  }

  /** After a match, `split('@')` yields exactly two non-empty pieces, so the
      guard `!local || !domain` never rejects anything. */
  lemma SplitGuardNeverFires(s: string)
    requires RegexTest(s)
    ensures var parts := Split(s, '@'); |parts| == 2 && parts[0] != "" && parts[1] != ""
  {
    RegexTestSplits(s);
    DomainShape(Split(s, '@')[1]);
  }

  /** The validator as a whole: a local part, "@" and a domain are accepted
      exactly when the local part is valid and at most 64 characters long and
      the domain is valid and at most 255 characters long. */
  lemma ValidEmailIff(local: string, domain: string)
    ensures IsValidEmail(local + "@" + domain) <==>
      ValidLocal(local) && |local| <= MaxLocalLength
      && ValidDomain(domain) && |domain| <= MaxDomainLength
  {
    var s := local + "@" + domain;
    assert JoinWith([local, domain], '@') == s;
    if '@' !in local && '@' !in domain {
      SplitJoin([local, domain], '@');
      RegexTestSplit(s);
      if ValidDomain(domain) { DomainShape(domain); }
    } else {
      if ValidLocal(local) { LocalHasNoAt(local); }
      if ValidDomain(domain) { DomainHasNoAt(domain); }
      assert multiset(s) == multiset(local) + multiset(['@']) + multiset(domain);
      assert multiset(s)['@'] >= 2;
      if RegexTest(s) { AtSignOnce(s); }
    }
  }

  /** An accepted address, spelled out: exactly one "@"; before it a local
      part of 1 to 64 characters of the local-part class; after it a domain of
      1 to 255 characters whose dot-separated pieces are all labels. */
  lemma ValidEmailShape(s: string)
    requires IsValidEmail(s)
    ensures multiset(s)['@'] == 1
    ensures var parts := Split(s, '@');
      |parts| == 2 && s == parts[0] + "@" + parts[1]
      && ValidLocal(parts[0]) && 1 <= |parts[0]| <= MaxLocalLength
      && ValidDomain(parts[1]) && 1 <= |parts[1]| <= MaxDomainLength
  {
    AtSignOnce(s);
    RegexTestSplits(s);
    var parts := Split(s, '@');
    assert parts[1..] == [parts[1]];
    assert JoinWith(parts[1..], '@') == parts[1];
  }

  /** The length ceilings are not implied by the pattern: a string that
      matches it with a local part over 64 or a domain over 255 characters is
      rejected. */
  lemma CeilingsReject(local: string, domain: string)
    requires ValidLocal(local) && ValidDomain(domain)
    requires |local| > MaxLocalLength || |domain| > MaxDomainLength
    ensures RegexTest(local + "@" + domain)
    ensures !IsValidEmail(local + "@" + domain)
  {
    var labels := Split(domain, '.');
    assert local + "@" + domain == local + "@" + JoinWith(labels, '.');
    JoinedAddressSplits(local, labels);
    SplitsRegexTest(local + "@" + domain);
    ValidEmailIff(local, domain);
  }

  /** Addresses the validator accepts. */
  lemma AcceptedExamples()
    ensures IsValidEmail("a@b.co")
    ensures IsValidEmail("a@b")
  {
    AcceptsDotted();
    AcceptsSingleLabel();
  }

  lemma AcceptsDotted()
    ensures IsValidEmail("a@b.co")
  {
    assert ValidLocal("a");
    DottedDomain();
    ValidEmailIff("a", "b.co");
    assert "a" + "@" + "b.co" == "a@b.co";
  }

  lemma DottedDomain()
    ensures ValidDomain("b.co")
  {
    SplitJoin(["b", "co"], '.');
    assert JoinWith(["b", "co"], '.') == "b.co";
  }

  lemma AcceptsSingleLabel()
    ensures IsValidEmail("a@b")
  {
    assert ValidLocal("a");
    SplitWithoutSeparator("b", '.');
    ValidEmailIff("a", "b");
    assert "a" + "@" + "b" == "a@b";
  }

  /** Strings the validator rejects: empty, no domain, no local part, two "@". */
  lemma RejectedExamples()
    ensures !IsValidEmail("")
    ensures !IsValidEmail("a@")
    ensures !IsValidEmail("@b.co")
    ensures !IsValidEmail("a@@b.co")
  {
  }

  /** No accepted domain starts with a hyphen, as in "a@-b.co". */
  lemma RejectsLeadingHyphen(local: string, rest: string)
    ensures !IsValidEmail(local + "@" + ("-" + rest))
  {
    ValidEmailIff(local, "-" + rest);
    if ValidDomain("-" + rest) { DomainShape("-" + rest); }
  }

  /** No accepted domain has an empty label, as in "a@b..co". */
  lemma RejectsEmptyLabel(local: string, left: string, right: string)
    ensures !IsValidEmail(local + "@" + (left + ".." + right))
  {
    var d := left + ".." + right;
    ValidEmailIff(local, d);
    if ValidDomain(d) {
      DomainShape(d);
      assert d[|left|] == '.' && d[|left| + 1] == '.';
    }
  }

  /** No accepted domain ends with a dot, as in "a@b.co.". */
  lemma RejectsTrailingDot(local: string, left: string)
    ensures !IsValidEmail(local + "@" + (left + "."))
  {
    var d := left + ".";
    ValidEmailIff(local, d);
    if ValidDomain(d) { DomainShape(d); }
  }
}
