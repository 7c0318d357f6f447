/**
 * The subset builder: from the newest monthly CSV files, keep the
 * allow-listed columns and the rows that look like antibacterial
 * prescriptions, and append them to one output CSV whose header is written
 * once. Reading CSV text into rows and writing rows back as CSV text are
 * pandas' business and are not part of this model: a file arrives as its
 * header and its batches of rows, and the output is a sequence of lines.
 */
module AntibioticSubset {

  import opened Options
  import opened Text
  import opened Seqs
  import Sorting

  /** cols_to_keep, in output order. */
  const AllowList: seq<string> := [
    "YEAR_MONTH",
    "REGIONAL_OFFICE_NAME", "REGIONAL_OFFICE_CODE",
    "ICB_NAME", "ICB_CODE",
    "PCO_NAME", "PCO_CODE",
    "PRACTICE_NAME", "PRACTICE_CODE",
    "POSTCODE",
    "BNF_CHEMICAL_SUBSTANCE",
    "BNF_PRESENTATION_NAME",
    "BNF_CHAPTER_PLUS_CODE",
    "QUANTITY", "ITEMS", "NIC", "ACTUAL_COST",
    "SNOMED_CODE"]

  /** The drug-name fragments that mark an antibacterial. */
  const Keywords: seq<string> := [
    "cillin", "cycline", "mycin", "floxacin",
    "cef", "ceph", "penem",
    "azith", "clarith",
    "trimethoprim", "metronidazole"]

  const ChapterColumn := "BNF_CHAPTER_PLUS_CODE"
  const PresentationColumn := "BNF_PRESENTATION_NAME"
  const SubstanceColumn := "BNF_CHEMICAL_SUBSTANCE"

  /** The infections chapter of the BNF. */
  const InfectionsChapter := "05"

  /** main reads at most this many files. */
  const MaxFiles := 3

  /**
   * One row of a batch read with dtype=str, by cleaned column name; an
   * empty cell is None (pandas' NaN).
   */
  type Row = map<string, Option<string>>

  /** A column name stripped of surrounding whitespace and upper-cased. */
  function CleanColumn(c: string): (r: string)
    ensures |r| <= |c|
    ensures r == [] || (!IsSpace(r[0]) && !IsSpace(r[|r| - 1]))
    ensures forall i :: 0 <= i < |r| ==> !IsLowerAscii(r[i])
    ensures r == Upper(Strip(c))
  {
    var t := Strip(c);
    UpperKeepsTrimmed(t);
    Upper(t)
  }

  /** A clean name is its own clean form. */
  lemma CleanColumnIdempotent(c: string)
    ensures CleanColumn(CleanColumn(c)) == CleanColumn(c)
  {
    var r := CleanColumn(c);
    StripKeepsTrimmed(r);
    UpperIdempotent(r);
  }

  /** clean_cols */
  function CleanCols(cols: seq<string>): (r: seq<string>)
    ensures |r| == |cols|
    ensures forall i :: 0 <= i < |cols| ==> r[i] == CleanColumn(cols[i])
  {
    Map(CleanColumn, cols)
  }

  /** Cleaning a cleaned header changes nothing. */
  lemma CleanColsIdempotent(cols: seq<string>)
    ensures CleanCols(CleanCols(cols)) == CleanCols(cols)
  {
    forall i | 0 <= i < |cols|
      ensures CleanCols(CleanCols(cols))[i] == CleanCols(cols)[i]
    {
      CleanColumnIdempotent(cols[i]);
    }
  }

  /** keep: the allow-listed names present in the cleaned header, in allow-list order. */
  function Keep(header: seq<string>): (keep: seq<string>)
    ensures forall c :: c in keep <==> c in AllowList && c in CleanCols(header)
    ensures SubsequenceOf(keep, AllowList)
  {
    var cols := CleanCols(header);
    Filter((c: string) => c in cols, AllowList)
  }

  /** chunk[keep]: the row narrowed to the kept columns. */
  function Project(keep: seq<string>, row: Row): (r: Row)
    ensures forall k :: k in r <==> k in keep && k in row
    ensures forall k :: k in r ==> r[k] == row[k]
  {
    map k | k in row && k in keep :: row[k]
  }

  /** str(row.get(k, "")): "" for a missing column, "nan" for an empty cell. */
  function Get(row: Row, k: string): (s: string)
    ensures k !in row ==> s == ""
    ensures k in row && row[k].None? ==> s == "nan"
    ensures k in row && row[k].Some? ==> s == row[k].value
  {
    if k !in row then "" else if row[k].None? then "nan" else row[k].value
  }

  /** The lower-cased presentation name and substance, joined by a space. */
  function DrugText(row: Row): string
  {
    Lower(Get(row, PresentationColumn) + " " + Get(row, SubstanceColumn))
  }

  /** any(w in text for w in words) */
  function AnyOccurs(text: string, words: seq<string>): (b: bool)
    ensures b <==> exists i :: 0 <= i < |words| && Contains(text, words[i])
  {
    if words == [] then false
    else if Contains(text, words[0]) then true
    else
      var b := AnyOccurs(text, words[1..]);
      assert forall i :: 0 <= i < |words| - 1 ==> words[1..][i] == words[i + 1];
      b
  }

  /** is_antibiotic_row */
  function IsAntibioticRow(row: Row): (b: bool)
    ensures !StartsWith(Get(row, ChapterColumn), InfectionsChapter) ==> !b
    ensures StartsWith(Get(row, ChapterColumn), InfectionsChapter) ==>
              (b <==> exists i :: 0 <= i < |Keywords| && Contains(DrugText(row), Keywords[i]))
  {
    if !StartsWith(Get(row, ChapterColumn), InfectionsChapter) then false
    else AnyOccurs(DrugText(row), Keywords)
  }

  /** A row without a chapter code, or with an empty one, is never kept. */
  lemma NoChapterNoRow(row: Row)
    requires ChapterColumn !in row || row[ChapterColumn].None?
    ensures !IsAntibioticRow(row)
  {
    var g := Get(row, ChapterColumn);
    assert g == "" || g == "nan";
    assert g != [] ==> g[..2][0] == 'n';
  }

  /** The keyword test ignores letter case in either drug-name field. */
  lemma CaseInsensitive(row: Row, other: Row)
    requires Get(row, ChapterColumn) == Get(other, ChapterColumn)
    requires Lower(Get(row, PresentationColumn)) == Lower(Get(other, PresentationColumn))
    requires Lower(Get(row, SubstanceColumn)) == Lower(Get(other, SubstanceColumn))
    ensures IsAntibioticRow(row) == IsAntibioticRow(other)
  {
    var p, s := Get(row, PresentationColumn), Get(row, SubstanceColumn);
    var p', s' := Get(other, PresentationColumn), Get(other, SubstanceColumn);
    LowerAppend(p + " ", s);
    LowerAppend(p, " ");
    LowerAppend(p' + " ", s');
    LowerAppend(p', " ");
    assert DrugText(row) == DrugText(other);
  }

  /** "cillin" occurs in the lower-cased text of an amoxicillin capsule row. */
  lemma CillinInAmoxicillin()
    ensures Contains(Lower("Amoxicillin 250mg capsules" + " " + ""), "cillin")
  {
    var before, word, after := "Amoxi", "cillin", " 250mg capsules ";
    assert "Amoxicillin 250mg capsules" + " " + "" == before + word + after;
    LowerAppend(before + word, after);
    LowerAppend(before, word);
    LowerKeepsLower(word);
    OccursSpliced(Lower(before), word, Lower(after));
    assert Lower(before + word + after) == Lower(before) + word + Lower(after);
  }

  /** A penicillin in the infections chapter is kept. */
  lemma AmoxicillinKept()
    ensures IsAntibioticRow(map[ChapterColumn := Some("05010101"),
                                PresentationColumn := Some("Amoxicillin 250mg capsules")])
  {
    var row := map[ChapterColumn := Some("05010101"),
                   PresentationColumn := Some("Amoxicillin 250mg capsules")];
    assert ChapterColumn[4] != PresentationColumn[4] && ChapterColumn[6] != SubstanceColumn[6];
    assert PresentationColumn[4] != SubstanceColumn[4];
    assert Get(row, ChapterColumn) == "05010101";
    assert Get(row, PresentationColumn) == "Amoxicillin 250mg capsules" && Get(row, SubstanceColumn) == "";
    CillinInAmoxicillin();
    assert Contains(DrugText(row), Keywords[0]);
  }

  /** The same drug outside the infections chapter is not. */
  lemma AmoxicillinOutsideChapterDropped()
    ensures !IsAntibioticRow(map[ChapterColumn := Some("0301"),
                                 SubstanceColumn := Some("Amoxicillin")])
  {
    var row := map[ChapterColumn := Some("0301"), SubstanceColumn := Some("Amoxicillin")];
    assert ChapterColumn[6] != SubstanceColumn[6];
    assert Get(row, ChapterColumn) == "0301";
    assert Get(row, ChapterColumn)[..2][1] != InfectionsChapter[1];
  }

  /** A surviving row with the columns its file kept. */
  datatype Kept = Kept(columns: seq<string>, row: Row)

  /** One line of the output CSV. */
  datatype Line = Header(names: seq<string>) | Record(cells: seq<string>)

  /** to_csv writes an empty cell as "". */
  function Cell(row: Row, k: string): (s: string)
    ensures k in row && row[k].Some? ==> s == row[k].value
    ensures !(k in row && row[k].Some?) ==> s == ""
  {
    if k in row && row[k].Some? then row[k].value else ""
  }

  /** The record written for a surviving row: its cells in kept-column order. */
  function Render(k: Kept): (l: Line)
    ensures l.Record? && |l.cells| == |k.columns|
    ensures forall i :: 0 <= i < |k.columns| ==> l.cells[i] == Cell(k.row, k.columns[i])
  {
    Record(seq(|k.columns|, i requires 0 <= i < |k.columns| => Cell(k.row, k.columns[i])))
  }

  /** A batch narrowed to the kept columns, before the row filter. */
  function Projected(keep: seq<string>, batch: seq<Row>): (r: seq<Kept>)
    ensures |r| == |batch|
    ensures forall i :: 0 <= i < |batch| ==> r[i] == Kept(keep, Project(keep, batch[i]))
  {
    Map((row: Row) => Kept(keep, Project(keep, row)), batch)
  }

  predicate Antibiotic(k: Kept)
  {
    IsAntibioticRow(k.row)
  }

  /** A CSV file: its modification time, header and batches of rows. */
  datatype CsvFile = CsvFile(mtime: int, header: seq<string>, batches: seq<seq<Row>>)

  /** Every row of the first k batches, narrowed to the kept columns. */
  function BatchRows(keep: seq<string>, batches: seq<seq<Row>>, k: nat): seq<Kept>
    requires k <= |batches|
  {
    if k == 0 then []
    else BatchRows(keep, batches, k - 1) + Projected(keep, batches[k - 1])
  }

  /** Every row of a file, narrowed to the columns the file keeps. */
  function FileRows(f: CsvFile): seq<Kept>
  {
    BatchRows(Keep(f.header), f.batches, |f.batches|)
  }

  /** Every narrowed row of the files, in file order and row order. */
  function AllRows(files: seq<CsvFile>): seq<Kept>
  {
    if files == [] then []
    else AllRows(files[..|files| - 1]) + FileRows(files[|files| - 1])
  }

  /** The rows the run appends, in order. */
  function Survivors(files: seq<CsvFile>): seq<Kept>
  {
    Filter(Antibiotic, AllRows(files))
  }

  /** The output for a sequence of surviving rows: a header, then one record each. */
  function Lines(s: seq<Kept>): seq<Line>
  {
    if s == [] then [] else [Header(s[0].columns)] + Map(Render, s)
  }

  /**
   * The header is written exactly once, first, and only when some row
   * survives; every other line is the record of one surviving row, in order.
   */
  lemma HeaderOnce(s: seq<Kept>)
    ensures |Lines(s)| == if s == [] then 0 else |s| + 1
    ensures s != [] ==> Lines(s)[0] == Header(s[0].columns)
    ensures forall i :: 0 < i < |Lines(s)| ==> Lines(s)[i] == Render(s[i - 1])
    ensures forall i :: 0 <= i < |Lines(s)| ==> (Lines(s)[i].Header? <==> i == 0)
  {
  }

  function MTime(f: CsvFile): int
  {
    f.mtime
  }

  /** sorted(glob, key=mtime, reverse=True)[:3] */
  function NewestFiles(files: seq<CsvFile>): seq<CsvFile>
  {
    Take(Sorting.SortDesc(MTime, files), MaxFiles)
  }

  /** The whole output file of a run over the files in the folder. */
  function Output(files: seq<CsvFile>): seq<Line>
  {
    Lines(Survivors(NewestFiles(files)))
  }

  /** The appended rows keep the order of files and of rows within each file. */
  lemma SurvivorsInOrder(files: seq<CsvFile>)
    ensures SubsequenceOf(Survivors(files), AllRows(files))
    ensures forall k :: k in AllRows(files) && Antibiotic(k) ==> k in Survivors(files)
  {
  }

  /** Every appended row is an antibiotic row, with the columns its file kept. */
  lemma {:induction false} SurvivorsAreAntibiotic(files: seq<CsvFile>)
    ensures forall k :: k in Survivors(files) ==> IsAntibioticRow(k.row)
    ensures forall k :: k in Survivors(files) ==> exists f :: f in files && k.columns == Keep(f.header)
    ensures forall i :: 0 <= i < |files| ==>
              forall k :: k in Filter(Antibiotic, FileRows(files[i])) ==> k.columns == Keep(files[i].header)
  {
    AllRowsColumns(files);
    forall i | 0 <= i < |files|
      ensures forall k :: k in Filter(Antibiotic, FileRows(files[i])) ==> k.columns == Keep(files[i].header)
    {
      BatchRowsColumns(Keep(files[i].header), files[i].batches, |files[i].batches|);
    }
  }

  lemma {:induction false} BatchRowsColumns(keep: seq<string>, batches: seq<seq<Row>>, k: nat)
    requires k <= |batches|
    ensures forall r :: r in BatchRows(keep, batches, k) ==> r.columns == keep
  {
    if k > 0 {
      BatchRowsColumns(keep, batches, k - 1);
    }
  }

  lemma {:induction false} AllRowsColumns(files: seq<CsvFile>)
    ensures forall k :: k in AllRows(files) ==> exists f :: f in files && k.columns == Keep(f.header)
    decreases |files|
  {
    if files != [] {
      var init, last := files[..|files| - 1], files[|files| - 1];
      AllRowsColumns(init);
      BatchRowsColumns(Keep(last.header), last.batches, |last.batches|);
      assert forall f :: f in init ==> f in files;
    }
  }

  /** Batches narrowed to columns without the chapter code contribute no row. */
  lemma {:induction false} NoChapterColumnNoRows(keep: seq<string>, batches: seq<seq<Row>>, k: nat)
    requires k <= |batches|
    requires ChapterColumn !in keep
    ensures Filter(Antibiotic, BatchRows(keep, batches, k)) == []
  {
    if k > 0 {
      NoChapterColumnNoRows(keep, batches, k - 1);
      var batch := Projected(keep, batches[k - 1]);
      forall r | r in batch
        ensures !Antibiotic(r)
      {
        NoChapterNoRow(r.row);
      }
      FilterNone(Antibiotic, batch);
      FilterAppend(Antibiotic, BatchRows(keep, batches, k - 1), batch);
    }
  }

  /** A file whose cleaned header lacks the chapter column contributes no row. */
  lemma NoChapterFileSkipped(f: CsvFile)
    requires ChapterColumn !in CleanCols(f.header)
    ensures Filter(Antibiotic, FileRows(f)) == []
  {
    NoChapterColumnNoRows(Keep(f.header), f.batches, |f.batches|);
  }

  /**
   * The run reads at most three files, newest first, each from the folder
   * and each once, and no file left unread is newer than one that is read.
   */
  lemma NewestFilesChosen(files: seq<CsvFile>)
    ensures |NewestFiles(files)| == if |files| < MaxFiles then |files| else MaxFiles
    ensures Sorting.Descending(MTime, NewestFiles(files))
    ensures forall f :: f in NewestFiles(files) ==> f in files
    ensures multiset(NewestFiles(files)) <= multiset(files)
    ensures forall f, g :: f in NewestFiles(files) && g in multiset(files) - multiset(NewestFiles(files)) ==> MTime(g) <= MTime(f)
  {
    var sorted := Sorting.SortDesc(MTime, files);
    Sorting.SortDescLength(MTime, files);
    NewestOfSorted(files, sorted);
  }

  /** The first three of a newest-first permutation of the folder are its newest three. */
  lemma NewestOfSorted(files: seq<CsvFile>, sorted: seq<CsvFile>)
    requires Sorting.Descending(MTime, sorted) && multiset(sorted) == multiset(files)
    requires |sorted| == |files|
    ensures |Take(sorted, MaxFiles)| == if |files| < MaxFiles then |files| else MaxFiles
    ensures Sorting.Descending(MTime, Take(sorted, MaxFiles))
    ensures forall f :: f in Take(sorted, MaxFiles) ==> f in files
    ensures multiset(Take(sorted, MaxFiles)) <= multiset(files)
    ensures forall f, g :: f in Take(sorted, MaxFiles) && g in multiset(files) - multiset(Take(sorted, MaxFiles)) ==> MTime(g) <= MTime(f)
  {
    var r := Take(sorted, MaxFiles);
    Sorting.DescendingPrefix(MTime, sorted, |r|);
    Sorting.DescendingTop(MTime, sorted, |r|);
    forall f | f in r
      ensures f in files
    {
      assert f in multiset(r);
    }
  }

  // Step lemmas for the writer loop.

  lemma BatchRowsStep(keep: seq<string>, batches: seq<seq<Row>>, j: nat)
    requires j < |batches|
    ensures BatchRows(keep, batches, j + 1) == BatchRows(keep, batches, j) + Projected(keep, batches[j])
  {
  }

  lemma AllRowsStep(files: seq<CsvFile>, i: nat)
    requires i < |files|
    ensures AllRows(files[..i + 1]) == AllRows(files[..i]) + FileRows(files[i])
  {
    assert files[..i + 1][..i] == files[..i];
  }

  /** Appending a batch's survivors to the output so far. */
  lemma LinesAppend(s: seq<Kept>, b: seq<Kept>)
    ensures Lines(s + b) ==
            Lines(s) + (if b == [] then [] else (if s == [] then [Header(b[0].columns)] else []) + Map(Render, b))
  {
    if s != [] && b != [] {
      assert Map(Render, s + b) == Map(Render, s) + Map(Render, b);
    } else if b != [] {
      assert s + b == b;
    } else {
      assert s + b == s;
    }
  }

  /** The survivors of one batch all carry the batch's kept columns. */
  lemma SurvivorColumns(keep: seq<string>, batch: seq<Row>)
    ensures forall k :: k in Filter(Antibiotic, Projected(keep, batch)) ==> k.columns == keep
  {
  }

  /**
   * One batch of main's inner loop: narrow it to the kept columns, keep
   * the antibiotic rows, and when any remain append them, with the header
   * the first time only.
   */
  method AppendBatch(keep: seq<string>, batch: seq<Row>, out: seq<Line>, wroteHeader: bool,
                     ghost done: seq<Kept>)
    returns (out': seq<Line>, wroteHeader': bool)
    requires out == Lines(done) && (wroteHeader <==> done != [])
    ensures var now := done + Filter(Antibiotic, Projected(keep, batch));
            out' == Lines(now) && (wroteHeader' <==> now != [])
  {
    var chunk := Projected(keep, batch);
    var kept := Filter(Antibiotic, chunk);
    if kept == [] {
      assert done + kept == done;
      return out, wroteHeader;
    }
    SurvivorColumns(keep, batch);
    assert kept[0] in kept;
    LinesAppend(done, kept);
    var header := if wroteHeader then [] else [Header(keep)];
    out' := out + (header + Map(Render, kept));
    wroteHeader' := true;
  }

  /** What the output holds after earlier output `done` and the first j batches. */
  ghost function BatchesDone(done: seq<Kept>, keep: seq<string>, batches: seq<seq<Row>>, j: nat): seq<Kept>
    requires j <= |batches|
  {
    done + Filter(Antibiotic, BatchRows(keep, batches, j))
  }

  /** One more batch adds that batch's survivors. */
  lemma BatchSurvivorsStep(done: seq<Kept>, keep: seq<string>, batches: seq<seq<Row>>, j: nat)
    requires j < |batches|
    ensures BatchesDone(done, keep, batches, j + 1) ==
            BatchesDone(done, keep, batches, j) + Filter(Antibiotic, Projected(keep, batches[j]))
  {
    BatchRowsStep(keep, batches, j);
    FilterAppend(Antibiotic, BatchRows(keep, batches, j), Projected(keep, batches[j]));
    AppendAssoc(done, Filter(Antibiotic, BatchRows(keep, batches, j)),
                Filter(Antibiotic, Projected(keep, batches[j])));
  }

  /** main's inner loop over the batches of one file, narrowed to `keep`. */
  method AppendFile(keep: seq<string>, batches: seq<seq<Row>>, out: seq<Line>, wroteHeader: bool,
                    ghost done: seq<Kept>)
    returns (out': seq<Line>, wroteHeader': bool)
    requires out == Lines(done) && (wroteHeader <==> done != [])
    ensures var now := done + Filter(Antibiotic, BatchRows(keep, batches, |batches|));
            out' == Lines(now) && (wroteHeader' <==> now != [])
  {
    out', wroteHeader' := out, wroteHeader;
    ghost var acc := done;
    assert BatchesDone(done, keep, batches, 0) == acc;
    for j := 0 to |batches|
      invariant acc == BatchesDone(done, keep, batches, j)
      invariant out' == Lines(acc) && (wroteHeader' <==> acc != [])
    {
      BatchSurvivorsStep(done, keep, batches, j);
      out', wroteHeader' := AppendBatch(keep, batches[j], out', wroteHeader', acc);
      acc := BatchesDone(done, keep, batches, j + 1);
    }
  }

  /** main's outer loop over files already in reading order. */
  method WriteSubset(csvFiles: seq<CsvFile>) returns (out: seq<Line>)
    ensures out == Lines(Survivors(csvFiles))
  {
    out := [];
    var wroteHeader := false;
    assert csvFiles[..0] == [];
    for i := 0 to |csvFiles|
      invariant var now := Filter(Antibiotic, AllRows(csvFiles[..i]));
                out == Lines(now) && (wroteHeader <==> now != [])
    {
      AllRowsStep(csvFiles, i);
      FilterAppend(Antibiotic, AllRows(csvFiles[..i]), FileRows(csvFiles[i]));
      var fp := csvFiles[i];
      var keep := Keep(fp.header);
      out, wroteHeader := AppendFile(keep, fp.batches, out, wroteHeader, Filter(Antibiotic, AllRows(csvFiles[..i])));
    }
    assert csvFiles[..|csvFiles|] == csvFiles;
  }

  /**
   * main: choose the newest files and run the writer loop over them. The
   * output file is opened for appending, so what was already in it stays
   * in front of what this run writes.
   */
  method BuildSubset(files: seq<CsvFile>, existing: seq<Line>) returns (out: seq<Line>)
    ensures out == existing + Output(files)
  {
    var csvFiles := NewestFiles(files);
    var appended := WriteSubset(csvFiles);
    out := existing + appended;
  }

  /**
   * The header is once per run, not once per output file: a second run
   * over the same files appends the header and the same records again.
   */
  lemma RerunAppendsAgain(files: seq<CsvFile>, existing: seq<Line>)
    requires Survivors(NewestFiles(files)) != []
    ensures var once := existing + Output(files);
            var twice := once + Output(files);
            |twice| == |existing| + 2 * |Output(files)|
            && twice[|existing|].Header? && twice[|once|].Header?
            && twice[|once|..] == twice[|existing|..|once|]
  {
    var once := existing + Output(files);
    var twice := once + Output(files);
    assert twice[|existing|..|once|] == Output(files);
    assert twice[|once|..] == Output(files);
  }
}
