/** The per-file decision of the copyright command: a file whose text does
    not mention the organization gets the rendered header appended; any
    other file gets an audit line spliced into its maintenance table when
    audit logging is on, and is left as it is otherwise. */
module Header {
  import opened Strings
  import opened Template
  import opened Audit

  datatype Option<T> = None | Some(value: T)

  /** What an empty or cancelled purpose prompt turns into. */
  const NoPurpose: string := "No purpose provided"

  /** A file is new when its text does not contain the organization. */
  predicate IsNew(fileText: string, organization: string) {
    !Contains(fileText, organization)
  }

  /** The purpose typed at the prompt; a cancelled prompt (`None`) or an
      empty answer becomes the fixed default. */
  function PromptedPurpose(answer: Option<string>): (purpose: string)
    ensures purpose != []
    ensures answer.Some? && answer.value != [] ==> purpose == answer.value
    ensures answer.None? || answer.value == [] ==> purpose == NoPurpose
  {
    if answer.Some? && answer.value != [] then answer.value else NoPurpose
  }

  /** The new text of one file. The purpose prompt is only shown for a new
      file or when audit logging is off; otherwise the purpose is empty. */
  function Apply(fileText: string, fileName: string, developerName: string,
                 organization: string, template: string, enableAudit: bool,
                 purposeAnswer: Option<string>, today: string, year: nat): string
  {
    var isNew := IsNew(fileText, organization);
    var purpose := if isNew || !enableAudit then PromptedPurpose(purposeAnswer) else "";
    var copyrightText := Render(template, Values(fileName, developerName, organization, year, today, purpose));
    if isNew then
      fileText + "\n" + copyrightText
    else if enableAudit then
      Splice(fileText, AuditLine(AuditEntry(today, developerName, purpose)))
    else
      fileText
  }

  /** `r` is `text` with one piece inserted somewhere: nothing of `text` is
      rewritten or removed. */
  ghost predicate InsertsInto(text: string, r: string) {
    exists p | 0 <= p <= |text| ::
      |text| <= |r| && r[..p] == text[..p] && r[|r| - (|text| - p)..] == text[p..]
  }

  /** With an empty organization every text contains it, so no file is new. */
  lemma EmptyOrganizationNeverNew(fileText: string)
    ensures !IsNew(fileText, "")
  {
    assert OccursAt(fileText, "", 0);
  }

  /** A new file keeps its text and gets a newline and the rendered header
      appended, with the prompted purpose. */
  lemma ApplyNewFile(fileText: string, fileName: string, developerName: string,
                     organization: string, template: string, enableAudit: bool,
                     purposeAnswer: Option<string>, today: string, year: nat)
    requires IsNew(fileText, organization)
    ensures var r := Apply(fileText, fileName, developerName, organization, template,
                           enableAudit, purposeAnswer, today, year);
      var purpose := PromptedPurpose(purposeAnswer);
      && r == fileText + "\n" + Render(template, Values(fileName, developerName, organization, year, today, purpose))
      && r[..|fileText|] == fileText
  {
  }

  /** An existing file with audit logging on gets an audit line for today
      and the developer with an empty purpose; the purpose answer plays no
      part, because the prompt is never shown. */
  lemma ApplyAuditsExistingFile(fileText: string, fileName: string, developerName: string,
                                organization: string, template: string,
                                purposeAnswer: Option<string>, otherAnswer: Option<string>,
                                today: string, year: nat)
    requires !IsNew(fileText, organization)
    ensures var r := Apply(fileText, fileName, developerName, organization, template,
                           true, purposeAnswer, today, year);
      && r == Splice(fileText, AuditLine(AuditEntry(today, developerName, "")))
      && r == Apply(fileText, fileName, developerName, organization, template,
                    true, otherAnswer, today, year)
  {
  }

  /** An existing file with audit logging off is left byte for byte. */
  lemma ApplySkipsExistingFile(fileText: string, fileName: string, developerName: string,
                               organization: string, template: string,
                               purposeAnswer: Option<string>, today: string, year: nat)
    requires !IsNew(fileText, organization)
    ensures Apply(fileText, fileName, developerName, organization, template,
                  false, purposeAnswer, today, year) == fileText
  {
  }

  /** Whatever the outcome, the old text survives: the new text is the old
      one with one piece inserted. */
  lemma ApplyOnlyInserts(fileText: string, fileName: string, developerName: string,
                         organization: string, template: string, enableAudit: bool,
                         purposeAnswer: Option<string>, today: string, year: nat)
    ensures InsertsInto(fileText, Apply(fileText, fileName, developerName, organization, template,
                                        enableAudit, purposeAnswer, today, year))
  {
    var r := Apply(fileText, fileName, developerName, organization, template,
                   enableAudit, purposeAnswer, today, year);
    var n := |fileText|;
    if IsNew(fileText, organization) {
      assert r[..n] == fileText[..n] && r[|r| - (n - n)..] == fileText[n..];
    } else if enableAudit {
      var line := AuditLine(AuditEntry(today, developerName, ""));
      SpliceIsInsertion(fileText, line);
      var p, ins := InsertPos(fileText), Inserted(fileText, line);
      assert r[|r| - (n - p)..] == r[p + |ins|..];
      assert r[..p] == fileText[..p] && r[|r| - (n - p)..] == fileText[p..];
    } else {
      assert r[..n] == fileText[..n] && r[|r| - (n - n)..] == fileText[n..];
    }
  }

  /** A new file is recognised as headered on the next run exactly when
      the appended header mentions the organization (for an organization
      without line breaks). */
  lemma NewFileHeaderedIff(fileText: string, fileName: string, developerName: string,
                           organization: string, template: string, enableAudit: bool,
                           purposeAnswer: Option<string>, today: string, year: nat)
    requires IsNew(fileText, organization)
    requires forall k :: 0 <= k < |organization| ==> organization[k] != '\n'
    ensures var r := Apply(fileText, fileName, developerName, organization, template,
                           enableAudit, purposeAnswer, today, year);
      var header := Render(template, Values(fileName, developerName, organization, year, today,
                                            PromptedPurpose(purposeAnswer)));
      IsNew(r, organization) <==> !Contains(header, organization)
  {
    var header := Render(template, Values(fileName, developerName, organization, year, today,
                                          PromptedPurpose(purposeAnswer)));
    var r := fileText + "\n" + header;
    if Contains(header, organization) {
      var j :| 0 <= j <= |header| - |organization| && OccursAt(header, organization, j);
      OccursInConcat(fileText + "\n", header, organization, j);
    }
    if Contains(r, organization) {
      var j :| 0 <= j <= |r| - |organization| && OccursAt(r, organization, j);
      NewlineSeparates(fileText, header, organization, j);
    }
  }

  /** With a template that mentions `{{organization}}` and a brace-free
      organization that is not part of a later placeholder, a file given a
      header is no longer new on the next run. */
  lemma NewFileHeadered(fileText: string, fileName: string, developerName: string,
                        organization: string, template: string, enableAudit: bool,
                        purposeAnswer: Option<string>, today: string, year: nat)
    requires IsNew(fileText, organization)
    requires Contains(template, OrganizationToken)
    requires BraceFree(organization)
    requires !Contains(YearToken, organization)
    requires !Contains(CreationDateToken, organization)
    requires !Contains(PurposeToken, organization)
    ensures !IsNew(Apply(fileText, fileName, developerName, organization, template,
                         enableAudit, purposeAnswer, today, year), organization)
  {
    var header := Render(template, Values(fileName, developerName, organization, year, today,
                                          PromptedPurpose(purposeAnswer)));
    RenderKeepsOrganization(template, Values(fileName, developerName, organization, year, today,
                                             PromptedPurpose(purposeAnswer)));
    var j :| 0 <= j <= |header| - |organization| && OccursAt(header, organization, j);
    OccursInConcat(fileText + "\n", header, organization, j);
  }

  /** An existing file stays existing after an audit splice when the
      organization holds no `|` and does not start with `-`: an occurrence
      straddling the insertion point would either start inside the last
      delimiter, with a `-` or `|`, or hold its `|`. */
  lemma {:induction false} ExistingFileStaysExisting(fileText: string, fileName: string, developerName: string,
                                                     organization: string, template: string, enableAudit: bool,
                                                     purposeAnswer: Option<string>, today: string, year: nat)
    requires !IsNew(fileText, organization)
    requires forall k :: 0 <= k < |organization| ==> organization[k] != '|'
    requires |organization| > 0 ==> organization[0] != '-'
    ensures !IsNew(Apply(fileText, fileName, developerName, organization, template,
                         enableAudit, purposeAnswer, today, year), organization)
  {
    if enableAudit {
      var line := AuditLine(AuditEntry(today, developerName, ""));
      var r := Splice(fileText, line);
      SpliceIsInsertion(fileText, line);
      var p, ins := InsertPos(fileText), Inserted(fileText, line);
      var i :| 0 <= i <= |fileText| - |organization| && OccursAt(fileText, organization, i);
      assert fileText == fileText[..p] + fileText[p..];
      if i + |organization| <= p {
        OccursInPrefix(fileText[..p], fileText[p..], organization, i);
        OccursInConcat(fileText[..p], ins + fileText[p..], organization, i);
        assert r == fileText[..p] + (ins + fileText[p..]);
      } else if p <= i {
        OccursInSuffix(fileText[..p], fileText[p..], organization, i);
        OccursInConcat(fileText[..p] + ins, fileText[p..], organization, i - p);
      } else {
        SpliceAfterLastDelimiter(fileText, line);
        NoOccurrenceAcrossInsertPos(fileText, organization, i);
        assert false;
      }
    }
  }

  /** An organization holding no `|` and not starting with `-` never
      straddles the end of the last delimiter: it would either start inside
      the delimiter, with a `-` or `|`, or hold the delimiter's first `|`. */
  lemma NoOccurrenceAcrossInsertPos(fileText: string, organization: string, i: int)
    requires forall k :: 0 <= k < |organization| ==> organization[k] != '|'
    requires |organization| > 0 ==> organization[0] != '-'
    requires OccursAt(fileText, organization, i)
    requires InsertPos(fileText) >= |Delimiter|
    requires OccursAt(fileText, Delimiter, InsertPos(fileText) - |Delimiter|)
    ensures i + |organization| <= InsertPos(fileText) || InsertPos(fileText) <= i
  {
    var p := InsertPos(fileText);
    var q := p - |Delimiter|;
    DelimiterShape();
    if i < p < i + |organization| {
      if q <= i {
        OccurrenceCovers(fileText, Delimiter, q, i);
        OccurrenceCovers(fileText, organization, i, i);
        assert false;
      } else {
        OccurrenceCovers(fileText, Delimiter, q, q + 13);
        OccurrenceCovers(fileText, organization, i, q + 13);
        assert false;
      }
    }
  }

  /** Two audited runs over an existing file, possibly by different
      developers, put their entries in run order, the second right after
      the first one's closing delimiter. */
  lemma AuditedTwice(fileText: string, fileName: string, dev1: string, dev2: string,
                     organization: string, template: string,
                     answer1: Option<string>, today1: string,
                     answer2: Option<string>, today2: string, year: nat)
    requires !IsNew(fileText, organization)
    requires forall k :: 0 <= k < |organization| ==> organization[k] != '|'
    requires |organization| > 0 ==> organization[0] != '-'
    ensures var once := Apply(fileText, fileName, dev1, organization, template,
                              true, answer1, today1, year);
      var twice := Apply(once, fileName, dev2, organization, template,
                         true, answer2, today2, year);
      var p := InsertPos(fileText);
      var head := if Contains(fileText, Delimiter) then "\n" else "\n" + Delimiter + "\n";
      twice == fileText[..p] + head + EntryText(AuditEntry(today1, dev1, "")) + "\n"
               + Delimiter + "\n" + AuditLine(AuditEntry(today2, dev2, "")) + "\n" + fileText[p..]
  {
    ExistingFileStaysExisting(fileText, fileName, dev1, organization, template,
                              true, answer1, today1, year);
    SpliceTwice(fileText, AuditEntry(today1, dev1, ""), AuditEntry(today2, dev2, ""));
  }
}
