/** The backup file format of the article store: one line per row, the ten columns
    joined by commas, and the parse `restoreArticles` applies to each line. The file
    itself is a sequence of lines here. */
module Backup {
  import opened Wrappers
  import opened Text
  import opened Articles
  import Users

  function LineFields(r: Row): (fs: seq<string>)
    ensures |fs| == 10
  {
    [IntToString(r.id), r.title, r.authors, r.abstractText, r.keywords, r.body,
     r.references, r.level, r.identifier, r.systemInfo]
  }

  /** The line `backupArticles` writes for a row (without the line break). */
  function BackupLine(r: Row): string
  {
    JoinFields(LineFields(r))
  }

  function BackupLines(rows: seq<Row>): (lines: seq<string>)
    ensures |lines| == |rows|
  {
    seq(|rows|, i requires 0 <= i < |rows| => BackupLine(rows[i]))
  }

  lemma BackupLinesSnoc(rows: seq<Row>, r: Row)
    ensures BackupLines(rows + [r]) == BackupLines(rows) + [BackupLine(r)]
  {
  }

  /** The row a line's fields make: `data[9]` and `Integer.parseInt(data[0])` throw
      (None) when there are fewer than ten fields or the id is no 32-bit decimal; a
      blank group is replaced by "general". Fields beyond the tenth are ignored. */
  function RowOfFields(data: seq<string>): (r: Option<Row>)
    ensures r.Some? ==> |data| >= 10 && ParseInt(data[0]) == Some(r.value.id)
    ensures r.Some? ==> r.value.systemInfo != []
  {
    if |data| < 10 then None
    else
      match ParseInt(data[0])
      case None => None
      case Some(id) =>
        var group := if IsBlank(data[9]) then Users.GeneralGroup else data[9];
        Some(Row(id, data[1], data[2], data[3], data[4], data[5], data[6], data[7], data[8], group))
  }

  /** `restoreArticles` as written: the line is split with `split(",")`, which drops
      trailing empty fields. */
  function ParseLine(line: string): (r: Option<Row>)
    ensures r.Some? ==> |SplitOnComma(line)| >= 10 && ParseInt(SplitOnComma(line)[0]) == Some(r.value.id)
    ensures r.Some? ==> r.value.systemInfo != []
  {
    RowOfFields(SplitOnComma(line))
  }

  /** As evidently intended: every field kept, as `split(",", -1)` would. */
  function ParseLineCorrected(line: string): (r: Option<Row>)
    ensures r.Some? ==> |Fields(line)| >= 10 && ParseInt(Fields(line)[0]) == Some(r.value.id)
    ensures r.Some? ==> r.value.systemInfo != []
  {
    RowOfFields(Fields(line))
  }

  function ParseWith(line: string, keepEmptyFields: bool): Option<Row>
  {
    if keepEmptyFields then ParseLineCorrected(line) else ParseLine(line)
  }

  /** The rows a restore leaves in the (cleared) table, and whether it read every
      line. It stops at the first line that throws: a malformed line, or an id that
      is already stored (a primary-key violation). Rows inserted before stay. */
  datatype Restoration = Restoration(rows: seq<Row>, complete: bool)

  function Restore(lines: seq<string>, keepEmptyFields: bool): (r: Restoration)
    ensures |r.rows| <= |lines|
    ensures r.complete ==> |r.rows| == |lines|
  {
    if lines == [] then Restoration([], true)
    else RestoreStep(Restore(lines[..|lines| - 1], keepEmptyFields), ParseWith(lines[|lines| - 1], keepEmptyFields))
  }

  /** One line of the restore: nothing more after a stop; a line that does not
      parse, or whose id is stored already, stops it; any other row is inserted. */
  function RestoreStep(before: Restoration, parsed: Option<Row>): Restoration
  {
    if !before.complete then before
    else
      match parsed
      case None => Restoration(before.rows, false)
      case Some(r) =>
        if HasId(before.rows, r.id) then Restoration(before.rows, false)
        else Restoration(before.rows + [r], true)
  }

  /** Restoring one more line is one more step. */
  lemma RestorePrefix(lines: seq<string>, i: nat, keepEmptyFields: bool)
    requires i < |lines|
    ensures Restore(lines[..i + 1], keepEmptyFields)
         == RestoreStep(Restore(lines[..i], keepEmptyFields), ParseWith(lines[i], keepEmptyFields))
  {
    assert lines[..i + 1][..i] == lines[..i];
  }

  /** A line whose row has a new id is inserted, and the restore goes on. */
  lemma RestoreInserts(lines: seq<string>, i: nat, keepEmptyFields: bool, rows: seq<Row>, r: Row)
    requires i < |lines| && Restore(lines[..i], keepEmptyFields) == Restoration(rows, true)
    requires ParseWith(lines[i], keepEmptyFields) == Some(r) && !HasId(rows, r.id)
    ensures Restore(lines[..i + 1], keepEmptyFields) == Restoration(rows + [r], true)
  {
    RestorePrefix(lines, i, keepEmptyFields);
  }

  /** A line that does not parse, or whose id is stored already, ends the restore:
      the rows inserted before it are all that is restored. */
  lemma RestoreHalts(lines: seq<string>, i: nat, keepEmptyFields: bool, rows: seq<Row>)
    requires i < |lines| && Restore(lines[..i], keepEmptyFields) == Restoration(rows, true)
    requires ParseWith(lines[i], keepEmptyFields).None?
          || HasId(rows, ParseWith(lines[i], keepEmptyFields).value.id)
    ensures Restore(lines, keepEmptyFields) == Restoration(rows, false)
  {
    RestorePrefix(lines, i, keepEmptyFields);
    RestoreStopsEarly(lines, i + 1, keepEmptyFields);
  }

  /** What restoring a row's line gives back: the row, with a blank group read as "general". */
  function Normalized(r: Row): (n: Row)
    ensures n.id == r.id
  {
    r.(systemInfo := if IsBlank(r.systemInfo) then Users.GeneralGroup else r.systemInfo)
  }

  function NormalizedRows(rows: seq<Row>): (ns: seq<Row>)
    ensures |ns| == |rows|
  {
    seq(|rows|, i requires 0 <= i < |rows| => Normalized(rows[i]))
  }

  lemma NormalizedRowsSnoc(rows: seq<Row>, r: Row)
    ensures NormalizedRows(rows + [r]) == NormalizedRows(rows) + [Normalized(r)]
  {
  }

  /** A row whose line the parse can take apart: no comma inside a field and a
      32-bit id. */
  predicate Restorable(r: Row)
  {
    IsInt32(r.id) && forall i :: 1 <= i < 10 ==> CommaFree(LineFields(r)[i])
  }

  lemma LineFieldsCommaFree(r: Row)
    requires Restorable(r)
    ensures forall i :: 0 <= i < 10 ==> CommaFree(LineFields(r)[i])
  {
    IntToStringCommaFree(r.id);
  }

  /** The corrected parse reads back every restorable row. */
  lemma ParseCorrectedOfBackupLine(r: Row)
    requires Restorable(r)
    ensures ParseLineCorrected(BackupLine(r)) == Some(Normalized(r))
  {
    LineFieldsCommaFree(r);
    FieldsOfJoin(LineFields(r));
    ParseIntOfIntToString(r.id);
  }

  /** As written, the parse reads back every restorable row whose group is not empty. */
  lemma ParseOfBackupLine(r: Row)
    requires Restorable(r) && r.systemInfo != []
    ensures ParseLine(BackupLine(r)) == Some(Normalized(r))
  {
    LineFieldsCommaFree(r);
    SplitOfJoin(LineFields(r));
    ParseIntOfIntToString(r.id);
  }

  /** As written, the line of a row with an empty group ends in a comma, `split(",")`
      drops the empty field, and `data[9]` throws. */
  lemma ParseOfEmptyGroupFails(r: Row)
    requires Restorable(r) && r.systemInfo == []
    ensures ParseLine(BackupLine(r)) == None
  {
    var fs := LineFields(r);
    LineFieldsCommaFree(r);
    FieldsOfJoin(fs);
    JoinHasComma(fs);
    DropTrailingEmptyShrinks(fs);
  }

  lemma ParseWithOfBackupLine(r: Row, keepEmptyFields: bool)
    requires Restorable(r) && (keepEmptyFields || r.systemInfo != [])
    ensures ParseWith(BackupLine(r), keepEmptyFields) == Some(Normalized(r))
  {
    if keepEmptyFields {
      ParseCorrectedOfBackupLine(r);
    } else {
      ParseOfBackupLine(r);
    }
  }

  lemma NormalizedIds(rows: seq<Row>, id: int)
    ensures HasId(NormalizedRows(rows), id) <==> HasId(rows, id)
  {
    var ns := NormalizedRows(rows);
    if HasId(ns, id) {
      var r :| r in ns && r.id == id;
      var i :| 0 <= i < |ns| && ns[i] == r;
      assert rows[i] in rows;
    }
    if HasId(rows, id) {
      var r :| r in rows && r.id == id;
      var i :| 0 <= i < |rows| && rows[i] == r;
      assert ns[i] in ns;
    }
  }

  /** Restoring a backup gives back the table it was taken from (blank groups read as
      "general"), provided the ids are distinct and no field holds a comma, and, as
      written, no group is empty. */
  lemma {:induction false} RestoreOfBackup(rows: seq<Row>, keepEmptyFields: bool)
    requires UniqueIds(rows)
    requires forall r :: r in rows ==> Restorable(r) && (keepEmptyFields || r.systemInfo != [])
    ensures Restore(BackupLines(rows), keepEmptyFields) == Restoration(NormalizedRows(rows), true)
  {
    if rows != [] {
      var n := |rows| - 1;
      var before := rows[..n];
      var last := rows[n];
      assert rows == before + [last];
      UniqueIdsSnoc(before, last);
      RestoreOfBackup(before, keepEmptyFields);
      var lines := BackupLines(rows);
      BackupLinesSnoc(before, last);
      assert lines[..n] == BackupLines(before);
      assert lines[n] == BackupLine(last);
      assert last in rows;
      ParseWithOfBackupLine(last, keepEmptyFields);
      NormalizedIds(before, last.id);
      var ns := NormalizedRows(before);
      assert Restore(lines[..n], keepEmptyFields) == Restoration(ns, true);
      assert Restore(lines, keepEmptyFields) == Restoration(ns + [Normalized(last)], true);
      NormalizedRowsSnoc(before, last);
    }
  }

  /** As written, a backup whose first row has an empty group restores nothing. */
  lemma RestoreOfEmptyGroupFails(rows: seq<Row>)
    requires rows != [] && Restorable(rows[0]) && rows[0].systemInfo == []
    ensures Restore(BackupLines(rows), false).rows == []
  {
    var lines := BackupLines(rows);
    assert lines[..1] == [BackupLine(rows[0])];
    assert lines[..1][..0] == [];
    ParseOfEmptyGroupFails(rows[0]);
    assert Restore(lines[..1], false) == Restoration([], false);
    RestoreStopsEarly(lines, 1, false);
  }

  /** Once a restore stops, later lines change nothing. */
  lemma {:induction false} RestoreStopsEarly(lines: seq<string>, k: nat, keepEmptyFields: bool)
    requires k <= |lines|
    requires !Restore(lines[..k], keepEmptyFields).complete
    ensures Restore(lines, keepEmptyFields) == Restore(lines[..k], keepEmptyFields)
    decreases |lines|
  {
    if k < |lines| {
      var n := |lines| - 1;
      assert lines[..n][..k] == lines[..k];
      RestoreStopsEarly(lines[..n], k, keepEmptyFields);
    } else {
      assert lines[..k] == lines;
    }
  }

  /** Every restored row comes from a line and carries a distinct id. */
  lemma {:induction false} RestoreKeepsIdsUnique(lines: seq<string>, keepEmptyFields: bool)
    ensures UniqueIds(Restore(lines, keepEmptyFields).rows)
    ensures |Restore(lines, keepEmptyFields).rows| <= |lines|
  {
    if lines != [] {
      var before := Restore(lines[..|lines| - 1], keepEmptyFields);
      RestoreKeepsIdsUnique(lines[..|lines| - 1], keepEmptyFields);
      var parsed := ParseWith(lines[|lines| - 1], keepEmptyFields);
      if before.complete && parsed.Some? {
        UniqueIdsSnoc(before.rows, parsed.value);
      }
    }
  }

  /** Restoring the backup of one group gives back exactly that group's rows. */
  lemma RestoreOfGroupBackup(rows: seq<Row>, group: string)
    requires UniqueIds(rows)
    requires forall r :: r in rows ==> Restorable(r)
    requires group != []
    ensures Restore(BackupLines(Select(rows, GroupIs(group))), false)
         == Restoration(NormalizedRows(Select(rows, GroupIs(group))), true)
  {
    SelectKeepsIdsUnique(rows, GroupIs(group));
    SelectMembers(rows, GroupIs(group));
    RestoreOfBackup(Select(rows, GroupIs(group)), false);
  }
}
