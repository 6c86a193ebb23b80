/** The header template and its six placeholders. The template is rendered
    by six global replacements applied one after the other, in the order
    fileName, developerName, organization, year, creationDate, purpose, so
    a value substituted early is scanned by the later replacements and a
    value substituted late is not. */
module Template {
  import opened Strings
  import opened Replace

  /** The placeholder `{{name}}`. */
  function Token(name: string): string {
    "{{" + name + "}}"
  }

  const FileNameToken: string := Token("fileName")
  const DeveloperNameToken: string := Token("developerName")
  const OrganizationToken: string := Token("organization")
  const YearToken: string := Token("year")
  const CreationDateToken: string := Token("creationDate")
  const PurposeToken: string := Token("purpose")

  /** The values put in for the placeholders on one run. The year is the
      number `getFullYear()` returns; it is written out in decimal. */
  datatype Values = Values(
    fileName: string,
    developerName: string,
    organization: string,
    year: nat,
    creationDate: string,
    purpose: string)

  /** The character for a decimal digit. */
  function Digit(d: nat): (c: char)
    requires d < 10
    ensures '0' <= c <= '9'
  {
    ('0' as int + d) as char
  }

  /** `n.toString()` for a non-negative integer: its decimal digits, without
      leading zeros. */
  function DecimalString(n: nat): (r: string)
    ensures r != []
    ensures forall k :: 0 <= k < |r| ==> '0' <= r[k] <= '9'
    ensures r[0] == '0' ==> n == 0 && r == "0"
  {
    if n < 10 then [Digit(n)] else DecimalString(n / 10) + [Digit(n % 10)]
  }

  /** Reads decimal digits back as a number. */
  function DecimalValue(s: string): nat
    requires forall k :: 0 <= k < |s| ==> '0' <= s[k] <= '9'
  {
    if s == [] then 0 else 10 * DecimalValue(s[..|s| - 1]) + (s[|s| - 1] as int - '0' as int)
  }

  /** The decimal rendering of the year loses nothing. */
  lemma {:induction false} DecimalRoundTrip(n: nat)
    ensures DecimalValue(DecimalString(n)) == n
  {
    if n >= 10 {
      DecimalRoundTrip(n / 10);
      var r := DecimalString(n);
      assert r[..|r| - 1] == DecimalString(n / 10);
    }
  }

  /** The template with every placeholder replaced, in the source's order. */
  function Render(template: string, v: Values): string {
    var s1 := ReplaceAll(template, FileNameToken, v.fileName);
    var s2 := ReplaceAll(s1, DeveloperNameToken, v.developerName);
    var s3 := ReplaceAll(s2, OrganizationToken, v.organization);
    var s4 := ReplaceAll(s3, YearToken, DecimalString(v.year));
    var s5 := ReplaceAll(s4, CreationDateToken, v.creationDate);
    ReplaceAll(s5, PurposeToken, v.purpose)
  }

  /** Neither `{` nor `}` appears in `s`. */
  predicate BraceFree(s: string) {
    forall k :: 0 <= k < |s| ==> s[k] != '{' && s[k] != '}'
  }

  /** A brace-free name puts braces into its token only at the two ends. */
  lemma TokenBraces(name: string, k: int)
    requires BraceFree(name) && 0 <= k < |Token(name)|
    ensures Token(name)[k] == '{' <==> k < 2
    ensures Token(name)[k] == '}' <==> k >= |name| + 2
  {
    if 2 <= k < |name| + 2 {
      assert Token(name)[k] == name[k - 2];
    }
  }

  /** None of the six placeholder names holds a brace. */
  lemma PlaceholderNamesBraceFree()
    ensures BraceFree("fileName") && BraceFree("developerName") && BraceFree("organization")
    ensures BraceFree("year") && BraceFree("creationDate") && BraceFree("purpose")
  {
  }
  /** Different names give different placeholders. */
  lemma TokenInjective(a: string, b: string)
    ensures Token(a) == Token(b) ==> a == b
  {
    if Token(a) == Token(b) {
      assert a == Token(a)[2..|Token(a)| - 2];
    }
  }

  /** Occurrences of two different placeholders never overlap. */
  lemma TokensDisjoint(s: string, a: string, b: string, i: int, j: int)
    requires BraceFree(a) && BraceFree(b) && a != b
    requires OccursAt(s, Token(a), i) && OccursAt(s, Token(b), j)
    ensures j + |Token(b)| <= i || i + |Token(a)| <= j
  {
    var ta, tb := Token(a), Token(b);
    if i == j && |a| == |b| {
      TokenInjective(a, b);
      assert false;
    } else if i == j {
      var k := if |a| < |b| then |a| + 2 else |b| + 2;
      TokenBraces(a, k);
      TokenBraces(b, k);
      OccurrenceCovers(s, ta, i, i + k);
      OccurrenceCovers(s, tb, i, i + k);
      assert false;
    } else if j < i < j + |tb| {
      StartInsideToken(s, a, b, i, j);
    } else if i < j < i + |ta| {
      StartInsideToken(s, b, a, j, i);
    }
  }

  /** A placeholder cannot start inside an occurrence of another one. */
  lemma StartInsideToken(s: string, a: string, b: string, i: int, j: int)
    requires BraceFree(a) && BraceFree(b)
    requires OccursAt(s, Token(a), i) && OccursAt(s, Token(b), j)
    ensures !(j < i < j + |Token(b)|)
  {
    var ta, tb := Token(a), Token(b);
    if j < i < j + |tb| {
      TokenBraces(b, i - j);
      TokenBraces(b, 2);
      OccurrenceCovers(s, ta, i, i);
      OccurrenceCovers(s, tb, j, i);
      if i - j == 1 {
        OccurrenceCovers(s, ta, i, i + 1);
        OccurrenceCovers(s, tb, j, i + 1);
      }
      assert false;
    }
  }

  /** An occurrence of a brace-free text that is not part of a placeholder
      never overlaps an occurrence of that placeholder. */
  lemma BraceFreeApart(s: string, name: string, q: string, i: int, j: int)
    requires BraceFree(name) && BraceFree(q) && !Contains(Token(name), q)
    requires OccursAt(s, q, i) && OccursAt(s, Token(name), j)
    ensures j + |Token(name)| <= i || i + |q| <= j
  {
    var t := Token(name);
    if i <= j < i + |q| {
      OccurrenceCovers(s, t, j, j);
      OccurrenceCovers(s, q, i, j);
      assert false;
    } else if j < i < j + |t| && i + |q| <= j + |t| {
      OccursWithin(s, t, j, q, i);
      assert false;
    } else if j < i < j + |t| {
      TokenBraces(name, |t| - 1);
      OccurrenceCovers(s, t, j, j + |t| - 1);
      OccurrenceCovers(s, q, i, j + |t| - 1);
      assert false;
    }
  }

  /** A placeholder never occurs inside a different placeholder. */
  lemma TokenNotInOther(a: string, b: string)
    requires BraceFree(a) && BraceFree(b) && a != b
    ensures !Contains(Token(a), Token(b))
  {
    var ta := Token(a);
    assert OccursAt(ta, ta, 0);
    forall j ensures !OccursAt(ta, Token(b), j) {
      if OccursAt(ta, Token(b), j) {
        TokensDisjoint(ta, a, b, 0, j);
        assert false;
      }
    }
  }

  /** Text without braces holds no placeholder. */
  lemma NoPlaceholderInBraceFree(s: string, name: string)
    requires BraceFree(s)
    ensures !Contains(s, Token(name))
  {
    forall j ensures !OccursAt(s, Token(name), j) {
      if OccursAt(s, Token(name), j) {
        OccurrenceCovers(s, Token(name), j, j);
        assert false;
      }
    }
  }

  /** An occurrence of placeholder `a` survives the replacement of a
      different placeholder `b`. */
  lemma PlaceholderSurvives(s: string, a: string, b: string, rep: string)
    requires BraceFree(a) && BraceFree(b) && a != b
    requires Contains(s, Token(a))
    ensures Contains(ReplaceAll(s, Token(b), rep), Token(a))
  {
    var i :| 0 <= i <= |s| - |Token(a)| && OccursAt(s, Token(a), i);
    forall j | OccursAt(s, Token(b), j)
      ensures j + |Token(b)| <= i || i + |Token(a)| <= j
    {
      TokensDisjoint(s, a, b, i, j);
    }
    ReplaceAllKeeps(s, Token(b), rep, Token(a), i);
  }

  /** An occurrence of a brace-free text that is not part of the placeholder
      `{{name}}` survives the replacement of that placeholder. */
  lemma TextSurvives(s: string, name: string, rep: string, q: string)
    requires BraceFree(name) && BraceFree(q) && !Contains(Token(name), q)
    requires Contains(s, q)
    ensures Contains(ReplaceAll(s, Token(name), rep), q)
  {
    var i :| 0 <= i <= |s| - |q| && OccursAt(s, q, i);
    forall j | OccursAt(s, Token(name), j)
      ensures j + |Token(name)| <= i || i + |q| <= j
    {
      BraceFreeApart(s, name, q, i, j);
    }
    ReplaceAllKeeps(s, Token(name), rep, q, i);
  }

  /** A template that mentions none of the six placeholders is rendered
      unchanged. */
  lemma RenderNoPlaceholders(template: string, v: Values)
    requires !Contains(template, FileNameToken) && !Contains(template, DeveloperNameToken)
    requires !Contains(template, OrganizationToken) && !Contains(template, YearToken)
    requires !Contains(template, CreationDateToken) && !Contains(template, PurposeToken)
    ensures Render(template, v) == template
  {
    ReplaceAllNoMatch(template, FileNameToken, v.fileName);
    ReplaceAllNoMatch(template, DeveloperNameToken, v.developerName);
    ReplaceAllNoMatch(template, OrganizationToken, v.organization);
    ReplaceAllNoMatch(template, YearToken, DecimalString(v.year));
    ReplaceAllNoMatch(template, CreationDateToken, v.creationDate);
    ReplaceAllNoMatch(template, PurposeToken, v.purpose);
  }

  /** `{{purpose}}` is replaced last, so the purpose is put in verbatim,
      even when it spells another placeholder. */
  lemma RenderPurposeVerbatim(v: Values)
    ensures Render(PurposeToken, v) == v.purpose
  {
    PlaceholderNamesBraceFree();
    var t := PurposeToken;
    TokenNotInOther("purpose", "fileName");
    ReplaceAllNoMatch(t, FileNameToken, v.fileName);
    TokenNotInOther("purpose", "developerName");
    ReplaceAllNoMatch(t, DeveloperNameToken, v.developerName);
    TokenNotInOther("purpose", "organization");
    ReplaceAllNoMatch(t, OrganizationToken, v.organization);
    TokenNotInOther("purpose", "year");
    ReplaceAllNoMatch(t, YearToken, DecimalString(v.year));
    TokenNotInOther("purpose", "creationDate");
    ReplaceAllNoMatch(t, CreationDateToken, v.creationDate);
    assert t[..|t|] == t && t[|t|..] == [];
  }

  /** `{{fileName}}` is replaced first, so a file name that spells
      `{{year}}` is itself replaced by the year. */
  lemma RenderFileNameRescanned(v: Values)
    requires v.fileName == YearToken
    ensures Render(FileNameToken, v) == DecimalString(v.year)
  {
    PlaceholderNamesBraceFree();
    var t := FileNameToken;
    assert t[..|t|] == t && t[|t|..] == [];
    assert ReplaceAll(t, FileNameToken, v.fileName) == YearToken;
    TokenNotInOther("year", "developerName");
    ReplaceAllNoMatch(YearToken, DeveloperNameToken, v.developerName);
    TokenNotInOther("year", "organization");
    ReplaceAllNoMatch(YearToken, OrganizationToken, v.organization);
    var y := DecimalString(v.year);
    assert YearToken[..|YearToken|] == YearToken && YearToken[|YearToken|..] == [];
    assert ReplaceAll(YearToken, YearToken, y) == y;
    NoPlaceholderInBraceFree(y, "creationDate");
    ReplaceAllNoMatch(y, CreationDateToken, v.creationDate);
    NoPlaceholderInBraceFree(y, "purpose");
    ReplaceAllNoMatch(y, PurposeToken, v.purpose);
  }

  /** A template that mentions `{{organization}}` renders to a header that
      contains the organization, provided the organization has no braces
      and is not part of one of the placeholders replaced after it. */
  lemma RenderKeepsOrganization(template: string, v: Values)
    requires Contains(template, OrganizationToken)
    requires BraceFree(v.organization)
    requires !Contains(YearToken, v.organization)
    requires !Contains(CreationDateToken, v.organization)
    requires !Contains(PurposeToken, v.organization)
    ensures Contains(Render(template, v), v.organization)
  {
    PlaceholderNamesBraceFree();
    var s1 := ReplaceAll(template, FileNameToken, v.fileName);
    PlaceholderSurvives(template, "organization", "fileName", v.fileName);
    var s2 := ReplaceAll(s1, DeveloperNameToken, v.developerName);
    PlaceholderSurvives(s1, "organization", "developerName", v.developerName);
    var s3 := ReplaceAll(s2, OrganizationToken, v.organization);
    ReplaceAllIntroduces(s2, OrganizationToken, v.organization);
    var s4 := ReplaceAll(s3, YearToken, DecimalString(v.year));
    TextSurvives(s3, "year", DecimalString(v.year), v.organization);
    var s5 := ReplaceAll(s4, CreationDateToken, v.creationDate);
    TextSurvives(s4, "creationDate", v.creationDate, v.organization);
    TextSurvives(s5, "purpose", v.purpose, v.organization);
  }

  /** Replacement is a single pass, so the rendered header can hold a
      placeholder that no value and no step put there whole: a purpose of
      `ar` inside `{{ye...}}` forms `{{year}}` after the year was done. */
  lemma RenderCanLeavePlaceholder(v: Values)
    requires v.purpose == "ar"
    ensures Render("{{ye" + PurposeToken + "}}", v) == YearToken
  {
    var t := "{{ye" + PurposeToken + "}}";
    var t5 := ReplaceAll(ReplaceAll(ReplaceAll(ReplaceAll(ReplaceAll(t,
      FileNameToken, v.fileName), DeveloperNameToken, v.developerName),
      OrganizationToken, v.organization), YearToken, DecimalString(v.year)),
      CreationDateToken, v.creationDate);
    FirstFiveStepsKeep(t, v);
    assert t5 == t;
    PurposeFormsYear(t);
  }

  /** The first five replacements leave `{{ye{{purpose}}}}` alone. */
  lemma FirstFiveStepsKeep(t: string, v: Values)
    requires t == "{{ye" + PurposeToken + "}}"
    ensures ReplaceAll(ReplaceAll(ReplaceAll(ReplaceAll(ReplaceAll(t,
      FileNameToken, v.fileName), DeveloperNameToken, v.developerName),
      OrganizationToken, v.organization), YearToken, DecimalString(v.year)),
      CreationDateToken, v.creationDate) == t
  {
    OnlyPurposeIn(t, "fileName");
    ReplaceAllNoMatch(t, FileNameToken, v.fileName);
    OnlyPurposeIn(t, "developerName");
    ReplaceAllNoMatch(t, DeveloperNameToken, v.developerName);
    OnlyPurposeIn(t, "organization");
    ReplaceAllNoMatch(t, OrganizationToken, v.organization);
    OnlyPurposeIn(t, "year");
    ReplaceAllNoMatch(t, YearToken, DecimalString(v.year));
    OnlyPurposeIn(t, "creationDate");
    ReplaceAllNoMatch(t, CreationDateToken, v.creationDate);
  }

  /** Putting `ar` for `{{purpose}}` in `{{ye{{purpose}}}}` spells `{{year}}`. */
  lemma PurposeFormsYear(t: string)
    requires t == "{{ye" + PurposeToken + "}}"
    ensures ReplaceAll(t, PurposeToken, "ar") == YearToken
  {
    PlaceholderNamesBraceFree();
    assert OccursAt(t, PurposeToken, 4) by {
      assert t[4..4 + |PurposeToken|] == PurposeToken;
    }
    forall j | OccursAt(t, PurposeToken, j) ensures 4 <= j {
      StartInsideToken(t, "purpose", "purpose", 4, j);
    }
    ReplaceAllLeftmost(t, PurposeToken, "ar", 4);
    assert t[..4] == "{{ye" && t[4 + |PurposeToken|..] == "}}";
  }

  /** In `{{ye{{purpose}}}}` no placeholder but `{{purpose}}` occurs. */
  lemma OnlyPurposeIn(t: string, name: string)
    requires t == "{{ye" + PurposeToken + "}}"
    requires name in ["fileName", "developerName", "organization", "year", "creationDate"]
    ensures !Contains(t, Token(name))
  {
    PlaceholderNamesBraceFree();
    assert OccursAt(t, PurposeToken, 4) by {
      assert t[4..4 + |PurposeToken|] == PurposeToken;
    }
    forall j ensures !OccursAt(t, Token(name), j) {
      if OccursAt(t, Token(name), j) {
        TokensDisjoint(t, "purpose", name, 4, j);
        assert false;
      }
    }
  }
}
