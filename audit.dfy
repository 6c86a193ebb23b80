/** The maintenance log: an audit line is an entry followed by the fixed
    delimiter line, and it is spliced in right after the last delimiter in
    the file, or appended under a fresh delimiter when there is none. */
module Audit {
  import opened Strings

  /** `n` dashes. */
  function Dashes(n: nat): (r: string)
    ensures |r| == n && forall k :: 0 <= k < n ==> r[k] == '-'
  {
    seq(n, _ => '-')
  }

  /** The delimiter line that closes the maintenance-history table: 13
      dashes, a bar, 10 dashes, a bar and 52 dashes. */
  const Delimiter: string := Dashes(13) + "|" + Dashes(10) + "|" + Dashes(52)

  /** One maintenance record: the date, the developer and the purpose. */
  datatype AuditEntry = AuditEntry(date: string, developer: string, purpose: string)

  /** The record as one line of the table, columns separated by `  |  `. */
  function EntryText(e: AuditEntry): string {
    e.date + "  |  " + e.developer + "  |  " + e.purpose
  }

  /** The entry, then the delimiter that closes the table again. */
  function AuditLine(e: AuditEntry): (r: string)
    ensures |r| == |EntryText(e)| + |Delimiter| + 2
    ensures r[..|EntryText(e)|] == EntryText(e)
    ensures EndsWith(r, "\n" + Delimiter + "\n")
  {
    var r := EntryText(e) + "\n" + Delimiter + "\n";
    assert r[|r| - |Delimiter| - 2..] == "\n" + Delimiter + "\n";
    r
  }

  /** Where the insertion goes: right after the last delimiter, or at the
      end of the text when there is no delimiter. */
  function InsertPos(text: string): (p: nat)
    ensures p <= |text|
  {
    var k := LastIndexOf(text, Delimiter);
    if k == -1 then |text| else k + |Delimiter|
  }

  /** What is inserted: a newline and the line, preceded by a fresh
      delimiter when there is none in the text. */
  function Inserted(text: string, line: string): string {
    if LastIndexOf(text, Delimiter) == -1 then "\n" + Delimiter + "\n" + line else "\n" + line
  }

  /** The text with `line` spliced in after the last delimiter, or appended
      under a fresh delimiter when the text holds none. */
  function Splice(text: string, line: string): string {
    var k := LastIndexOf(text, Delimiter);
    if k == -1 then
      text + "\n" + Delimiter + "\n" + line
    else
      var insertPos := k + |Delimiter|;
      text[..insertPos] + "\n" + line + text[insertPos..]
  }

  /** Splicing only inserts: nothing of the text is rewritten or removed,
      and cutting the inserted part out gives the text back. */
  lemma SpliceIsInsertion(text: string, line: string)
    ensures var r, p, ins := Splice(text, line), InsertPos(text), Inserted(text, line);
      && r == text[..p] + ins + text[p..]
      && r[..p] == text[..p]
      && r[p + |ins|..] == text[p..]
      && r[..p] + r[p + |ins|..] == text
      && |r| == |text| + |ins|
  {
    var r, p, ins := Splice(text, line), InsertPos(text), Inserted(text, line);
    if LastIndexOf(text, Delimiter) == -1 {
      assert text[..p] == text && text[p..] == [];
      assert r == text[..p] + ins + text[p..];
    } else {
      assert r == text[..p] + ins + text[p..];
    }
    assert r[..p] == text[..p];
    assert r[p + |ins|..] == text[p..];
    assert text[..p] + text[p..] == text;
  }

  /** With a delimiter present the line goes right after the last one: the
      text after the insertion point holds no delimiter. */
  lemma {:induction false} SpliceAfterLastDelimiter(text: string, line: string)
    requires Contains(text, Delimiter)
    ensures var p := InsertPos(text);
      && p >= |Delimiter|
      && OccursAt(text, Delimiter, p - |Delimiter|)
      && !Contains(text[p..], Delimiter)
      && Splice(text, line) == text[..p] + "\n" + line + text[p..]
  {
    var k := LastIndexOf(text, Delimiter);
    var p := k + |Delimiter|;
    forall j ensures !OccursAt(text[p..], Delimiter, j) {
      if OccursAt(text[p..], Delimiter, j) {
        assert text[p..][j..j + |Delimiter|] == text[p + j..p + j + |Delimiter|];
        assert OccursAt(text, Delimiter, p + j);
        assert false;
      }
    }
  }

  /** The delimiter is made of `-` and `|` only, with a `|` after the first
      13 dashes; it holds no newline and ends in `-`. */
  lemma DelimiterShape()
    ensures |Delimiter| == 77
    ensures forall k :: 0 <= k < |Delimiter| ==> Delimiter[k] == '-' || Delimiter[k] == '|'
    ensures forall k :: 0 <= k < |Delimiter| ==> Delimiter[k] != '\n'
    ensures Delimiter[13] == '|'
    ensures Delimiter[|Delimiter| - 1] == '-'
  {
  }

  /** Without a delimiter the text is kept as a prefix and a fresh table
      is appended after it. */
  lemma SpliceFallback(text: string, line: string)
    requires !Contains(text, Delimiter)
    ensures var r := Splice(text, line);
      && r == text + "\n" + Delimiter + "\n" + line
      && r[..|text|] == text
  {
  }

  /** The fallback table holds the delimiter at least twice: once opening
      it and once closing it as the last line. */
  lemma SpliceFallbackTwice(text: string, e: AuditEntry)
    requires !Contains(text, Delimiter)
    ensures var r := Splice(text, AuditLine(e));
      var first, second := |text| + 1, |text| + 1 + |Delimiter| + 1 + |EntryText(e)| + 1;
      && OccursAt(r, Delimiter, first)
      && OccursAt(r, Delimiter, second)
      && second == |r| - |Delimiter| - 1
  {
    var d, en := Delimiter, EntryText(e);
    var r := Splice(text, AuditLine(e));
    assert r == text + "\n" + d + "\n" + en + "\n" + d + "\n";
    var first, second := |text| + 1, |text| + 1 + |d| + 1 + |en| + 1;
    assert r[first..first + |d|] == d;
    assert r[second..second + |d|] == d;
  }

  /** The fallback table has exactly two delimiters, one on each side of
      the entry, when neither the text nor the entry holds one. */
  lemma SpliceFallbackDelimiters(text: string, e: AuditEntry)
    requires !Contains(text, Delimiter)
    requires !Contains(EntryText(e), Delimiter)
    ensures var r := Splice(text, AuditLine(e));
      var first, second := |text| + 1, |text| + 1 + |Delimiter| + 1 + |EntryText(e)| + 1;
      && OccursAt(r, Delimiter, first)
      && OccursAt(r, Delimiter, second)
      && forall j :: OccursAt(r, Delimiter, j) ==> j == first || j == second
  {
    var d, en := Delimiter, EntryText(e);
    var table := d + "\n" + (en + "\n" + (d + "\n"));
    var r := Splice(text, AuditLine(e));
    SpliceFallbackTwice(text, e);
    assert r == text + "\n" + table;
    DelimiterShape();
    var first, second := |text| + 1, |text| + 1 + |d| + 1 + |en| + 1;
    forall j | OccursAt(r, d, j) ensures j == first || j == second {
      NewlineSeparates(text, table, d, j);
      TableDelimiters(en, j - |text| - 1);
    }
  }

  /** In `d + "\n" + entry + "\n" + d + "\n"` the delimiter `d` occurs at the
      start and right after the entry, and nowhere else. */
  lemma TableDelimiters(en: string, j: int)
    requires !Contains(en, Delimiter)
    requires OccursAt(Delimiter + "\n" + (en + "\n" + (Delimiter + "\n")), Delimiter, j)
    ensures j == 0 || j == |Delimiter| + 1 + |en| + 1
  {
    var d := Delimiter;
    DelimiterShape();
    NewlineSeparates(d, en + "\n" + (d + "\n"), d, j);
    var j2 := j - |d| - 1;
    if OccursAt(en + "\n" + (d + "\n"), d, j2) {
      NewlineSeparates(en, d + "\n", d, j2);
      var j3 := j2 - |en| - 1;
      if OccursAt(d + "\n", d, j3) {
        assert d + "\n" == d + "\n" + [];
        NewlineSeparates(d, [], d, j3);
      }
    }
  }

  /** After a splice the last delimiter in the file is the one that closes
      the entry just written. */
  lemma SpliceEndsTable(text: string, e: AuditEntry)
    ensures var head := if Contains(text, Delimiter) then "\n" else "\n" + Delimiter + "\n";
      var r, p := Splice(text, AuditLine(e)), InsertPos(text);
      var x := text[..p] + head + EntryText(e) + "\n" + Delimiter;
      && r == x + "\n" + text[p..]
      && LastIndexOf(r, Delimiter) == |x| - |Delimiter|
  {
    var d, p := Delimiter, InsertPos(text);
    var head := if Contains(text, d) then "\n" else "\n" + d + "\n";
    var x := text[..p] + head + EntryText(e) + "\n" + d;
    SpliceShape(text, e);
    if Contains(text, d) {
      SpliceAfterLastDelimiter(text, AuditLine(e));
    }
    DelimiterShape();
    assert x[|x| - |d|..] == d;
    LastBeforeNewline(x, text[p..], d);
  }

  /** The splice as the text before the insertion point, the new entry with
      its closing delimiter, a newline and the rest of the text. */
  lemma SpliceShape(text: string, e: AuditEntry)
    ensures var head := if Contains(text, Delimiter) then "\n" else "\n" + Delimiter + "\n";
      var p := InsertPos(text);
      Splice(text, AuditLine(e)) == text[..p] + head + EntryText(e) + "\n" + Delimiter + "\n" + text[p..]
  {
    var d, p, line := Delimiter, InsertPos(text), AuditLine(e);
    var head := if Contains(text, d) then "\n" else "\n" + d + "\n";
    SpliceIsInsertion(text, line);
    assert Inserted(text, line) == head + line;
    assert line == EntryText(e) + "\n" + d + "\n";
    Reassociate(text[..p], head, EntryText(e) + "\n" + d + "\n", text[p..]);
  }

  /** Concatenation regrouped. */
  lemma Reassociate(a: string, b: string, c: string, z: string)
    ensures a + (b + c) + z == a + b + c + z
  {
  }

  /** Two successive splices keep the entries in call order: the second
      entry lands right after the first entry's closing delimiter, so one
      delimiter separates them and one closes the table. */
  lemma SpliceTwice(text: string, e1: AuditEntry, e2: AuditEntry)
    ensures var p := InsertPos(text);
      var head := if Contains(text, Delimiter) then "\n" else "\n" + Delimiter + "\n";
      Splice(Splice(text, AuditLine(e1)), AuditLine(e2))
        == text[..p] + head + EntryText(e1) + "\n" + Delimiter + "\n" + AuditLine(e2) + "\n" + text[p..]
  {
    var d, p := Delimiter, InsertPos(text);
    var head := if Contains(text, d) then "\n" else "\n" + d + "\n";
    var r1 := Splice(text, AuditLine(e1));
    SpliceEndsTable(text, e1);
    var x := text[..p] + head + EntryText(e1) + "\n" + d;
    SpliceAfter(r1, AuditLine(e2), x, text[p..]);
  }

  /** Splicing into `x + "\n" + y` whose last delimiter ends `x` puts the
      line between `x` and the newline. */
  lemma {:induction false} SpliceAfter(r: string, line: string, x: string, y: string)
    requires r == x + "\n" + y
    requires |x| >= |Delimiter| && LastIndexOf(r, Delimiter) == |x| - |Delimiter|
    ensures Splice(r, line) == x + "\n" + line + "\n" + y
  {
    SpliceAtLast(r, line);
    CutAtNewline(x, y);
  }

  /** With a delimiter present the line goes right after the last one. */
  lemma SpliceAtLast(r: string, line: string)
    requires LastIndexOf(r, Delimiter) != -1
    ensures var p := LastIndexOf(r, Delimiter) + |Delimiter|;
      p <= |r| && Splice(r, line) == r[..p] + "\n" + line + r[p..]
  {
  }

  /** Cutting `x + "\n" + y` after `x` gives back `x` and `"\n" + y`. */
  lemma CutAtNewline(x: string, y: string)
    ensures (x + "\n" + y)[..|x|] == x
    ensures (x + "\n" + y)[|x|..] == "\n" + y
  {
  }
}
