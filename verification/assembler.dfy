/**
 The result assembler (main): scans the left tree, then the right tree when one
 is given, compares the two, and collects the named tables in a fixed order.
 A root that is not a directory raises before anything is saved, so such a run
 produces no tables at all. Writing the tables (CSV files, a workbook) is not
 modelled; what is kept of it is which tables produce an artifact and the
 workbook's file name.
 */
module Assembler {
  import opened Records
  import opened Scanner
  import opened Comparator

  /** The rows of one table: a hash list or a duplicates list. */
  datatype Rows = FileRows(files: seq<FileRecord>) | DuplicateRows(duplicates: seq<DuplicateRecord>)

  /** One (name, hashlist) pair of list_of_hashlist; `rows` is None where the list is None. */
  datatype Table = Table(name: string, rows: Option<Rows>)

  function Names(tables: seq<Table>): (names: seq<string>)
    ensures |names| == |tables|
    ensures forall k :: 0 <= k < |tables| ==> names[k] == tables[k].name
  {
    seq(|tables|, k requires 0 <= k < |tables| => tables[k].name)
  }

  function DuplicateRowsOf(d: Option<seq<DuplicateRecord>>): Option<Rows>
  {
    if d.Some? then Some(DuplicateRows(d.value)) else None
  }

  /**
   main(left_directory, right_directory), up to the call to save: the tables
   it would save, or the error that abandons the run.
   */
  method Run(cfg: Config, disk: Disk, left: string, right: Option<string>) returns (r: Result<seq<Table>>)
    ensures r.Err? <==> left !in disk.trees || (right.Some? && right.value !in disk.trees)
    ensures r.Err? ==> r.error == NotADirectory(if left !in disk.trees then left else right.value)
    ensures r.Ok? ==>
      Names(r.value) == ["left", "left_duplicates"] + if right.Some? then ["right", "right_duplicates", "left_only", "right_only"] else []
    ensures r.Ok? ==> r.value[0].rows == Some(FileRows(ScanOf(cfg, disk, left)))
    ensures r.Ok? ==> r.value[1].rows == if cfg.duplicates then Some(DuplicateRows(DuplicatesOf(ScanOf(cfg, disk, left)))) else None
    ensures r.Ok? && right.Some? ==>
      var lefts, rights := ScanOf(cfg, disk, left), ScanOf(cfg, disk, right.value);
      && r.value[2].rows == Some(FileRows(rights))
      && r.value[3].rows == (if cfg.duplicates then Some(DuplicateRows(DuplicatesOf(rights))) else None)
      && r.value[4].rows == Some(FileRows(OnlyIn(lefts, rights)))
      && r.value[5].rows == Some(FileRows(OnlyIn(rights, lefts)))
  {
    var tables: seq<Table> := [];
    var leftScan := HandleDirectory(cfg, disk, left);
    if leftScan.Err? {
      return Err(leftScan.error);
    }
    var lefts := leftScan.value;
    tables := tables + [Table("left", Some(FileRows(lefts.hashes)))];
    tables := tables + [Table("left_duplicates", DuplicateRowsOf(lefts.duplicates))];
    assert tables == [Table("left", Some(FileRows(lefts.hashes))), Table("left_duplicates", DuplicateRowsOf(lefts.duplicates))];
    if right.Some? {
      var rightScan := HandleDirectory(cfg, disk, right.value);
      if rightScan.Err? {
        return Err(rightScan.error);
      }
      var rights := rightScan.value;
      tables := tables + [Table("right", Some(FileRows(rights.hashes)))];
      tables := tables + [Table("right_duplicates", DuplicateRowsOf(rights.duplicates))];
      var leftOnly := CmpHashlist(lefts.hashes, rights.hashes);
      tables := tables + [Table("left_only", Some(FileRows(leftOnly)))];
      var rightOnly := CmpHashlist(rights.hashes, lefts.hashes);
      tables := tables + [Table("right_only", Some(FileRows(rightOnly)))];
      assert tables == [Table("left", Some(FileRows(lefts.hashes))),
                        Table("left_duplicates", DuplicateRowsOf(lefts.duplicates)),
                        Table("right", Some(FileRows(rights.hashes))),
                        Table("right_duplicates", DuplicateRowsOf(rights.duplicates)),
                        Table("left_only", Some(FileRows(leftOnly))),
                        Table("right_only", Some(FileRows(rightOnly)))];
    }
    r := Ok(tables);
  }

  /**
   The tables save turns into artifacts, in order: save_as_csv and
   save_as_excel skip every table whose list is None.
   */
  function Exported(tables: seq<Table>): seq<Table>
  {
    if tables == [] then []
    else
      var last := tables[|tables| - 1];
      Exported(tables[..|tables| - 1]) + if last.rows.Some? then [last] else []
  }

  /** A table produces an artifact exactly when it is in the list and its rows exist. */
  lemma {:induction false} ExportedMember(tables: seq<Table>, t: Table)
    ensures t in Exported(tables) <==> t in tables && t.rows.Some?
    decreases |tables|
  {
    if tables != [] {
      var init := tables[..|tables| - 1];
      ExportedMember(init, t);
      assert tables == init + [tables[|tables| - 1]];
    }
  }

  /**
   The tables of a one-tree run, as Run returns them: without -d no duplicates
   table is written; with it, an empty one still is.
   */
  lemma ExportedDuplicates(cfg: Config, tables: seq<Table>)
    requires Names(tables) == ["left", "left_duplicates"]
    requires tables[0].rows.Some? && tables[1].rows.Some? == cfg.duplicates
    ensures Names(Exported(tables)) == if cfg.duplicates then ["left", "left_duplicates"] else ["left"]
  {
    assert tables[..1] == [tables[0]];
    assert [tables[0]][..0] == [];
    assert Exported([tables[0]]) == [tables[0]];
  }

  predicate EndsWith(s: string, suffix: string)
  {
    |suffix| <= |s| && s[|s| - |suffix|..] == suffix
  }

  /** The workbook file name: '.xlsx' is appended unless the given name already ends with it. */
  function WorkbookName(filename: string): (w: string)
    ensures EndsWith(w, ".xlsx")
    ensures |filename| <= |w| <= |filename| + 5 && w[..|filename|] == filename
    ensures w == filename <==> EndsWith(filename, ".xlsx")
    ensures !EndsWith(filename, ".xlsx") ==> |w| == |filename| + 5
  {
    if EndsWith(filename, ".xlsx") then filename else filename + ".xlsx"
  }

  /** Naming a workbook twice changes nothing. */
  lemma WorkbookNameIdempotent(filename: string)
    ensures WorkbookName(WorkbookName(filename)) == WorkbookName(filename)
  {
  }
}
