# Copyright manager: header and audit-log engine

This project models the per-file logic of the "Add/Update copyright" command
of the copyright-manager VS Code extension. The command runs on the staged
files whose names end in `.ts`, `.tsx`, `.jsx`, `.js` or `.css`. For each
file it looks for the configured organization in the file's text:

- A file that does not mention the organization is *new*. It gets a header
  appended, rendered from the template by replacing `{{fileName}}`,
  `{{developerName}}`, `{{organization}}`, `{{year}}`, `{{creationDate}}` and
  `{{purpose}}`, in that order.
- A file that mentions the organization gets an audit line when audit
  logging is on. The line is an entry `date  |  developer  |  purpose` and
  then the fixed delimiter line. It is spliced in right after the last
  delimiter in the file. When the file has no delimiter, a fresh delimiter
  and the line are appended at the end.
- Any other file is left as it is.

All of this is string manipulation, so the model is pure:

| module | what it models |
|---|---|
| `Strings` | `includes`, `lastIndexOf` and suffix tests |
| `Replace` | global literal replacement (`replace(/…/g, …)`) as a left-to-right scan |
| `Template` | the six placeholders, the year's decimal form and `Render` |
| `Audit` | the delimiter, the audit line and the splice |
| `Header` | the new/existing classification, the purpose default and the three outcomes (`Apply`) |
| `Staged` | the extension filter over the staged paths |

The proofs cover the following:

- **Replacement.** It replaces exactly the occurrences its scan finds. The
  text is a list of pattern-free pieces joined by the pattern, and the result
  is the same pieces joined by the replacement. The leftmost occurrence is
  always one of those replaced.
- **Placeholder order.** Because the six replacements run in a fixed order,
  a value substituted early is scanned again and a value substituted last is
  not. A single pass can also leave a placeholder in the result.
- **Splicing.** A splice only inserts text and never rewrites any. It goes
  right after the last delimiter. Two successive splices keep their entries
  in run order.
- **Classification.** A new file is treated as headered on the next run
  exactly when its header mentions the organization, for an organization
  without a line break. An existing file stays
  existing after an audit splice when the organization holds no `|` and
  does not start with `-`.

Some behaviour one might expect of such a tool does not hold for this code;
the model follows the code:

- **Placeholders.** Long text such as the purpose is not wrapped to a line
  width. There is no placeholder for a whole audit table (`{{auditLog}}`) or
  for a copyright notice (`{{copyrightText}}`). The organization's
  placeholder is `{{organization}}`, not `{{organizationName}}`.
- **Fallback.** One might expect a file with a single delimiter to be
  treated as a broken table. The splice falls back to a fresh table only
  when the file holds no delimiter. A single delimiter is spliced after like
  any other count.
- **Substitution is not exhaustive.** One might expect a rendered template
  to hold no placeholder, but a purpose of `ar` in the template
  `{{ye{{purpose}}}}` renders to `{{year}}` (`Template.RenderCanLeavePlaceholder`).
- **New files are not always re-recognised.** One might expect a file given
  a header never to be classified as new again. The code only guarantees
  this when the rendered header contains the organization
  (`Header.NewFileHeaderedIff`). That holds when three things are true
  (`Header.NewFileHeadered`):
  - the template mentions `{{organization}}`;
  - the organization holds no `{` or `}`;
  - the organization is not part of `{{year}}`, `{{creationDate}}` or
    `{{purpose}}`, the placeholders replaced after it.

  Without the brace condition the organization `x{{ye` with the template
  `{{organization}}ar}}` and year 7 renders to `x7`.
- **Purpose.** On an existing file with audit logging on, the purpose prompt
  is not shown, so the audit line's purpose column is empty.

## Model

| member | source | states |
|---|---|---|
| Replace.ReplaceAll | src/extension.ts:119-125 | one global literal replacement: a left-to-right scan that replaces each match and resumes after it; its contract is given by `Replace.ReplaceAllNoMatch`, `Replace.ReplaceAllLeftmost` and `Replace.ReplaceAllEveryOccurrence` |
| Template.Render | src/extension.ts:119-125 | the six replacements in the source's order; its properties are the `Template.Render…` lemmas below |
| Header.IsNew | src/extension.ts:103 | a file is new exactly when its text does not contain the organization; see `Header.EmptyOrganizationNeverNew`, `Header.NewFileHeaderedIff` and `Header.ExistingFileStaysExisting` |
| Audit.EntryText | src/extension.ts:134 | the entry `date  \|  developer  \|  purpose`; see `Audit.AuditLine` |
| Audit.Delimiter | src/extension.ts:136-137 | the delimiter literal; see `Audit.DelimiterShape` |
| Audit.Splice | src/extension.ts:139-148 | the splice after the last delimiter, or the fallback; see `Audit.SpliceIsInsertion`, `Audit.SpliceAfterLastDelimiter` and `Audit.SpliceFallback` |
| Header.Apply | src/extension.ts:97-153 | the three outcomes for one file; see `Header.ApplyNewFile`, `Header.ApplyAuditsExistingFile`, `Header.ApplySkipsExistingFile` and `Header.ApplyOnlyInserts` |
| Staged.AcceptedPath | src/extension.ts:40 | the path ends with a dot and one of the five extensions; see `Staged.AcceptedIffLastDotExtension` |
| Strings.LastIndexOf | src/extension.ts:139 | -1 exactly when the delimiter does not occur; otherwise an index where it occurs, with no occurrence after it |
| Replace.ReplaceAllEveryOccurrence | src/extension.ts:119-125 | every occurrence the scan finds is replaced: the text is its pieces joined by the placeholder, the result is the same pieces joined by the value, and no piece holds the placeholder |
| Replace.ReplaceAllLeftmost | src/extension.ts:119-125 | the first occurrence is replaced, the text before it is kept, and the scan resumes right after it |
| Replace.ReplaceAllNoMatch | src/extension.ts:119-125 | a text without the placeholder comes back unchanged |
| Replace.ReplaceAllSplit | src/extension.ts:119-125 | where no occurrence straddles a position, replacing in the whole is replacing in the two halves |
| Replace.ReplaceAllKeeps | src/extension.ts:119-125 | an occurrence of another text that no occurrence of the placeholder overlaps survives the replacement |
| Replace.ReplaceAllIntroduces | src/extension.ts:119-125 | when the placeholder occurs, the value appears in the result |
| Replace.ReplaceAllSelf | src/extension.ts:119-125 | replacing a placeholder by itself changes nothing |
| Replace.PiecesJoin | src/extension.ts:119-125 | the replacement equals the pieces between scanned occurrences joined by the value |
| Replace.PiecesFree | src/extension.ts:119-125 | no piece between scanned occurrences holds the placeholder |
| Template.DecimalString | src/extension.ts:123 | `year.toString()` is a non-empty string of decimal digits without a leading zero |
| Template.DecimalRoundTrip | src/extension.ts:123 | reading the year's digits back gives the year |
| Template.RenderNoPlaceholders | src/extension.ts:119-125 | a template with none of the six placeholders renders to itself |
| Template.RenderPurposeVerbatim | src/extension.ts:125 | `{{purpose}}` is replaced last, so the purpose is put in verbatim |
| Template.RenderFileNameRescanned | src/extension.ts:120-123 | `{{fileName}}` is replaced first, so a file name spelling `{{year}}` becomes the year |
| Template.RenderKeepsOrganization | src/extension.ts:119-125 | a template mentioning `{{organization}}` renders to text containing a brace-free organization that is not part of a later placeholder |
| Template.RenderCanLeavePlaceholder | src/extension.ts:119-125 | one pass can leave a placeholder: purpose `ar` in `{{ye{{purpose}}}}` renders to `{{year}}` |
| Template.TokensDisjoint | src/extension.ts:119-125 | occurrences of two different placeholders never overlap |
| Audit.AuditLine | src/extension.ts:134 | the audit line is the entry, a newline, the delimiter and a newline |
| Audit.DelimiterShape | src/extension.ts:136-137 | the delimiter is 77 characters long and made only of `-` and `|`, with a `|` at index 13; it holds no newline and ends in `-` |
| Audit.SpliceIsInsertion | src/extension.ts:139-149 | the result is the text with one piece inserted at the insertion point; cutting that piece out gives the text back |
| Audit.SpliceAfterLastDelimiter | src/extension.ts:139-148 | with a delimiter present, a delimiter ends right before the insertion point and none occurs after it |
| Audit.SpliceFallback | src/extension.ts:140-141 | without a delimiter the text is kept as a prefix and a newline, the delimiter, a newline and the line follow |
| Audit.SpliceFallbackTwice | src/extension.ts:140-141 | the fallback holds the delimiter at least twice: right after the old text, and as the table's last line after the entry |
| Audit.SpliceFallbackDelimiters | src/extension.ts:140-141 | the fallback holds the delimiter exactly twice, on both sides of the entry, when the entry itself holds no delimiter |
| Audit.SpliceEndsTable | src/extension.ts:134-148 | after a splice the last delimiter in the file is the one closing the new entry |
| Audit.SpliceTwice | src/extension.ts:134-148 | two splices put the second entry right after the first entry's closing delimiter, in call order |
| Header.PromptedPurpose | src/extension.ts:106-116 | the prompted purpose is the answer when it is non-empty, and `No purpose provided` when it is empty or cancelled |
| Header.EmptyOrganizationNeverNew | src/extension.ts:103 | with an empty organization no file is new |
| Header.ApplyNewFile | src/extension.ts:129-131 | a new file becomes its text, a newline and the rendered header; the text is a prefix |
| Header.ApplyAuditsExistingFile | src/extension.ts:106-149 | an existing file with audit on gets an audit line with an empty purpose, whatever the purpose answer |
| Header.ApplySkipsExistingFile | src/extension.ts:150-153 | an existing file with audit off is returned unchanged |
| Header.ApplyOnlyInserts | src/extension.ts:127-153 | in every outcome the new text is the old one with one piece inserted |
| Header.NewFileHeaderedIff | src/extension.ts:103-131 | a file given a header is not new on the next run exactly when the header contains the organization |
| Header.NewFileHeadered | src/extension.ts:103-131 | a file given a header is not new on the next run when the template mentions `{{organization}}` and the organization holds no brace and is not part of `{{year}}`, `{{creationDate}}` or `{{purpose}}` |
| Header.ExistingFileStaysExisting | src/extension.ts:103-149 | an existing file is still existing after the command, for an organization that holds no `\|` and does not start with `-` |
| Header.NoOccurrenceAcrossInsertPos | src/extension.ts:139-148 | such an organization never straddles the insertion point right after the last delimiter |
| Header.AuditedTwice | src/extension.ts:132-149 | two audited runs on an existing file, by the same or different developers, leave both entries in run order, one delimiter between them and one closing the table (for an organization that holds no `\|` and does not start with `-`) |
| Staged.StagedSources | src/extension.ts:39-41 | the kept paths are exactly the staged paths with an accepted extension, and there are no more of them than staged paths |
| Staged.StagedSourcesCounts | src/extension.ts:39-41 | each accepted path is kept as often as it is staged, any other path never |
| Staged.StagedSourcesAppend | src/extension.ts:39-41 | filtering a concatenation is the concatenation of the filtered parts, so the kept paths stay in their staged order |
| Staged.StagedSourcesSingle | src/extension.ts:39-41 | a single path is kept exactly when its extension is accepted |
| Staged.AcceptedIffLastDotExtension | src/extension.ts:39-41 | a path is accepted exactly when it has a dot and the text after its last dot is `ts`, `tsx`, `jsx`, `js` or `css` |

## Left out

- Configuration reads, the empty-developer check, the Yes/No quick pick and the messages (src/extension.ts:10-31, 43-56, 62, 77-83) are editor UI. The trimmed developer name and organization are parameters of `Apply`.
- The purpose input box (src/extension.ts:109-112) is user input. Its answer is the `purposeAnswer` parameter, with `None` for a cancelled box.
- `simple-git` status and add (src/extension.ts:34-45, 75) are calls into a library. The staged list is the parameter of `StagedSources`.
- Reading and writing the file, `fs.existsSync`, `path.join` and `path.basename` (src/extension.ts:59-61, 97-98, 155) are I/O. The file text and the base name are parameters of `Apply`.
- `new Date()` (src/extension.ts:99-100) is the clock. `today` is a parameter string and `year` a parameter number. The model does not capture that `toISOString` gives the UTC date while `getFullYear` gives the local year.
- The asynchronous loop over the staged files, with its per-file error handling (src/extension.ts:52-81), is orchestration over I/O.
- `$` patterns in replacement values are not modelled. The values are taken literally, as they are for values without `$`.
- The regular-expression engine is not modelled. The placeholder patterns match literally, and the extension filter is a suffix test.
- Header.ExistingFileStaysExisting: stated only for organizations that hold no `|` and do not start with `-`. Such an organization cannot straddle the end of the last delimiter. Some other organizations can: those that begin with a non-empty suffix of the delimiter and continue past it, or that hold the whole delimiter with text after it. For example, `-x` in a text where a delimiter is followed by `x` is split by the splice, and the file then counts as new on the next run.
- Header.NewFileHeaderedIff: stated only for organizations without a line break. An organization that straddles the newline between the old text and the header is not covered.
- Audit.SpliceFallbackDelimiters: "exactly twice" is stated only for an entry that does not itself contain the delimiter; "at least twice" holds for every entry (`Audit.SpliceFallbackTwice`).
- Header.AuditedTwice: stated only for organizations that hold no `|` and do not start with `-`, because it relies on `Header.ExistingFileStaysExisting` to keep the file existing after the first run.
