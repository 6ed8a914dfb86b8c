/**
 * The drug-mention extractor: a scan of a publication table against a drug
 * vocabulary that emits one mention per (row, vocabulary entry) whose
 * upper-case drug name is a literal substring of the upper-cased title.
 *
 * The table is a pandas DataFrame in the source: here a class holding its
 * column names and its rows, each row a map from column name to a cell that
 * may be null (`None`). The extractor fills the null cells of the title,
 * journal and id columns with "" in place before it scans.
 */
module MentionFinder {
  import opened Wrappers
  import opened Text

  /** One table row: column name to cell, `None` standing for a null cell. */
  type Row = map<string, Option<string>>

  /** A vocabulary entry: the drug name as listed, and its upper-case form. */
  type VocabularyEntry = (string, string)

  /** A mention event, one record of the mention graph. */
  datatype Mention = Mention(
    drug: string,
    journal: string,
    date: string,
    sourceType: string,
    publicationId: string,
    publicationTitle: string)

  /** The columns of one row as the scan reads them (after the null fill). */
  datatype Publication = Publication(title: string, journal: string, id: string, date: Option<string>)

  /** The title column is `scientific_title` for clinical trials and `title` otherwise. */
  function TitleColumn(sourceType: string): string
  {
    if sourceType == "clinical_trial" then "scientific_title" else "title"
  }

  predicate HasRequiredColumns(columns: set<string>, sourceType: string)
  {
    TitleColumn(sourceType) in columns && "journal" in columns && "id" in columns && "date" in columns
  }

  /** A cell read as text after `fillna("")`: a null cell reads as the empty string. */
  function CellText(cell: Option<string>): string
  {
    match cell
    case Some(s) => s
    case None => ""
  }

  // ----- the in-place null fill ----------------------------------------------

  /** `df[column] = df[column].fillna("")` applied to the row values. */
  function FilledColumn(rows: seq<Row>, column: string): (r: seq<Row>)
    requires forall i :: 0 <= i < |rows| ==> column in rows[i]
    ensures |r| == |rows|
    ensures forall i :: 0 <= i < |r| ==> r[i].Keys == rows[i].Keys
    ensures forall i :: 0 <= i < |r| ==> r[i][column].Some?
    ensures forall i :: 0 <= i < |r| && rows[i][column].Some? ==> r[i][column] == rows[i][column]
    ensures forall i :: 0 <= i < |r| && rows[i][column].None? ==> r[i][column] == Some("")
    ensures forall i, c :: 0 <= i < |r| && c in rows[i] && c != column ==> r[i][c] == rows[i][c]
  {
    seq(|rows|, i requires 0 <= i < |rows| => rows[i][column := Some(CellText(rows[i][column]))])
  }

  /** The three fills of the extractor: title column, `journal`, `id`. */
  function NullsFilled(rows: seq<Row>, titleColumn: string): (r: seq<Row>)
    requires forall i :: 0 <= i < |rows| ==> titleColumn in rows[i] && "journal" in rows[i] && "id" in rows[i]
    ensures |r| == |rows|
    ensures forall i :: 0 <= i < |r| ==> r[i].Keys == rows[i].Keys
    ensures forall i :: 0 <= i < |r| ==>
      r[i][titleColumn].Some? && r[i]["journal"].Some? && r[i]["id"].Some?
    ensures forall i, c :: 0 <= i < |r| && c in rows[i] && rows[i][c].Some? ==> r[i][c] == rows[i][c]
    ensures forall i, c :: 0 <= i < |r| && (c == titleColumn || c == "journal" || c == "id") && rows[i][c].None? ==>
      r[i][c] == Some("")
    ensures forall i, c :: 0 <= i < |r| && c in rows[i] && c != titleColumn && c != "journal" && c != "id" ==>
      r[i][c] == rows[i][c]
  {
    FilledColumn(FilledColumn(FilledColumn(rows, titleColumn), "journal"), "id")
  }

  class PublicationTable {
    var columns: set<string>
    var rows: seq<Row>

    /** Every row has exactly the table's columns. */
    ghost predicate Valid()
      reads this
    {
      forall i :: 0 <= i < |rows| ==> rows[i].Keys == columns
    }

    constructor (columns: set<string>, rows: seq<Row>)
      requires forall i :: 0 <= i < |rows| ==> rows[i].Keys == columns
      ensures Valid() && this.columns == columns && this.rows == rows
    {
      this.columns := columns;
      this.rows := rows;
    }

    /** Replaces the nulls of one existing column by "", in place. */
    method FillNa(column: string)
      requires Valid() && column in columns
      modifies this
      ensures Valid() && columns == old(columns)
      ensures rows == FilledColumn(old(rows), column)
    {
      rows := FilledColumn(rows, column);
    }
  }

  // ----- the specification of the scan ---------------------------------------

  function ReadRow(row: Row, titleColumn: string): Publication
    requires titleColumn in row && "journal" in row && "id" in row && "date" in row
  {
    Publication(CellText(row[titleColumn]), CellText(row["journal"]), CellText(row["id"]), row["date"])
  }

  function Publications(rows: seq<Row>, titleColumn: string): (ps: seq<Publication>)
    requires forall i :: 0 <= i < |rows| ==>
      titleColumn in rows[i] && "journal" in rows[i] && "id" in rows[i] && "date" in rows[i]
    ensures |ps| == |rows|
  {
    seq(|rows|, i requires 0 <= i < |rows| => ReadRow(rows[i], titleColumn))
  }

  /** A row with an empty title or a null date yields no mention. */
  predicate Skipped(p: Publication)
  {
    Upper(p.title) == "" || p.date.None?
  }

  function MentionOf(p: Publication, drug: string, sourceType: string): Mention
    requires p.date.Some?
  {
    Mention(drug, p.journal, p.date.value, sourceType, p.id, p.title)
  }

  /** The entry matches: its upper-case name occurs in the upper-cased title. */
  predicate Matches(p: Publication, entry: VocabularyEntry)
  {
    Contains(Upper(p.title), entry.1)
  }

  /** The mentions one row yields, in vocabulary order. */
  function PublicationMentions(p: Publication, vocabulary: seq<VocabularyEntry>, sourceType: string): seq<Mention>
    decreases |vocabulary|
  {
    if vocabulary == [] || Skipped(p) then []
    else
      var last := vocabulary[|vocabulary| - 1];
      PublicationMentions(p, vocabulary[..|vocabulary| - 1], sourceType) +
        (if Matches(p, last) then [MentionOf(p, last.0, sourceType)] else [])
  }

  /** The mentions of a sequence of rows, in row order. */
  function TableMentions(ps: seq<Publication>, vocabulary: seq<VocabularyEntry>, sourceType: string): seq<Mention>
    decreases |ps|
  {
    if ps == [] then []
    else TableMentions(ps[..|ps| - 1], vocabulary, sourceType) + PublicationMentions(ps[|ps| - 1], vocabulary, sourceType)
  }

  /** What `find_drug_mentions` returns for a table with these columns and rows. */
  function ExtractedMentions(columns: set<string>, rows: seq<Row>, vocabulary: seq<VocabularyEntry>, sourceType: string): seq<Mention>
    requires forall i :: 0 <= i < |rows| ==> rows[i].Keys == columns
  {
    if HasRequiredColumns(columns, sourceType) then
      TableMentions(Publications(rows, TitleColumn(sourceType)), vocabulary, sourceType)
    else
      []
  }

  /** The indices of the vocabulary entries that produce a mention for `p`, in vocabulary order. */
  function MatchingEntries(p: Publication, vocabulary: seq<VocabularyEntry>): (r: seq<int>)
    ensures forall k :: 0 <= k < |r| ==> 0 <= r[k] < |vocabulary|
    ensures forall k, l :: 0 <= k < l < |r| ==> r[k] < r[l]
    ensures forall j :: j in r <==> 0 <= j < |vocabulary| && !Skipped(p) && Matches(p, vocabulary[j])
    decreases |vocabulary|
  {
    if vocabulary == [] || Skipped(p) then []
    else
      var n := |vocabulary| - 1;
      MatchingEntries(p, vocabulary[..n]) + (if Matches(p, vocabulary[n]) then [n] else [])
  }

  /**
   * A row yields exactly one mention per matching vocabulary entry, in
   * vocabulary order, carrying the entry's listed name and the row's fields;
   * a skipped row yields none, whatever the vocabulary.
   */
  lemma {:induction false} PublicationMentionsExact(p: Publication, vocabulary: seq<VocabularyEntry>, sourceType: string)
    ensures Skipped(p) ==> PublicationMentions(p, vocabulary, sourceType) == []
    ensures |PublicationMentions(p, vocabulary, sourceType)| == |MatchingEntries(p, vocabulary)|
    ensures forall k :: 0 <= k < |PublicationMentions(p, vocabulary, sourceType)| ==>
      && 0 <= MatchingEntries(p, vocabulary)[k] < |vocabulary|
      && p.date.Some?
      && PublicationMentions(p, vocabulary, sourceType)[k] ==
         MentionOf(p, vocabulary[MatchingEntries(p, vocabulary)[k]].0, sourceType)
    decreases |vocabulary|
  {
    if vocabulary != [] && !Skipped(p) {
      var n := |vocabulary| - 1;
      PublicationMentionsExact(p, vocabulary[..n], sourceType);
      var ms, idx := PublicationMentions(p, vocabulary, sourceType), MatchingEntries(p, vocabulary);
      var ms', idx' := PublicationMentions(p, vocabulary[..n], sourceType), MatchingEntries(p, vocabulary[..n]);
      assert ms[..|ms'|] == ms' && idx[..|idx'|] == idx';
      forall k | 0 <= k < |ms|
        ensures 0 <= idx[k] < |vocabulary| && ms[k] == MentionOf(p, vocabulary[idx[k]].0, sourceType)
      {
        if k < |ms'| {
          assert ms[k] == ms'[k] && idx[k] == idx'[k];
        }
      }
    }
  }

  /** There is no word boundary: an entry with an empty upper-case name matches every row that is not skipped. */
  lemma EmptyNameMatchesEveryTitle(p: Publication, original: string)
    ensures Matches(p, (original, ""))
  {
    assert OccursAt(Upper(p.title), "", 0);
  }

  /** Row `p` and vocabulary entry `entry` produce mention `m`. */
  predicate EmittedBy(p: Publication, entry: VocabularyEntry, sourceType: string, m: Mention)
  {
    !Skipped(p) && Matches(p, entry) && m == MentionOf(p, entry.0, sourceType)
  }

  lemma PublicationMembership(p: Publication, vocabulary: seq<VocabularyEntry>, sourceType: string, m: Mention)
    ensures m in PublicationMentions(p, vocabulary, sourceType) <==>
      exists j :: 0 <= j < |vocabulary| && EmittedBy(p, vocabulary[j], sourceType, m)
  {
    PublicationMentionsExact(p, vocabulary, sourceType);
    var ms, idx := PublicationMentions(p, vocabulary, sourceType), MatchingEntries(p, vocabulary);
    if j :| 0 <= j < |vocabulary| && EmittedBy(p, vocabulary[j], sourceType, m) {
      assert j in idx;
      var k :| 0 <= k < |idx| && idx[k] == j;
      assert ms[k] == m;
    }
    if m in ms {
      var k :| 0 <= k < |ms| && ms[k] == m;
      assert idx[k] in idx;
      assert EmittedBy(p, vocabulary[idx[k]], sourceType, m);
    }
  }

  /** Mentions come out in row order: the scan distributes over concatenated tables. */
  lemma {:induction false} TableMentionsAppend(a: seq<Publication>, b: seq<Publication>,
                                               vocabulary: seq<VocabularyEntry>, sourceType: string)
    ensures TableMentions(a + b, vocabulary, sourceType) ==
      TableMentions(a, vocabulary, sourceType) + TableMentions(b, vocabulary, sourceType)
    decreases |b|
  {
    if b != [] {
      var n := |b| - 1;
      TableMentionsAppend(a, b[..n], vocabulary, sourceType);
      assert (a + b)[..|a + b| - 1] == a + b[..n];
    } else {
      assert a + b == a;
    }
  }

  /**
   * The exact membership rule: a mention is emitted iff some non-skipped row
   * and some vocabulary entry whose upper-case name is a substring of the
   * upper-cased title produce it, with the row's journal, date, id and
   * original-case title, the entry's listed name and the source tag.
   */
  lemma {:induction false} TableMentionsMembership(ps: seq<Publication>, vocabulary: seq<VocabularyEntry>,
                                                   sourceType: string, m: Mention)
    ensures m in TableMentions(ps, vocabulary, sourceType) <==>
      exists i, j :: 0 <= i < |ps| && 0 <= j < |vocabulary| && EmittedBy(ps[i], vocabulary[j], sourceType, m)
    decreases |ps|
  {
    if ps != [] {
      var n := |ps| - 1;
      var front := ps[..n];
      TableMentionsMembership(front, vocabulary, sourceType, m);
      PublicationMembership(ps[n], vocabulary, sourceType, m);
      assert TableMentions(ps, vocabulary, sourceType) ==
        TableMentions(front, vocabulary, sourceType) + PublicationMentions(ps[n], vocabulary, sourceType);
      if i, j :| 0 <= i < |ps| && 0 <= j < |vocabulary| && EmittedBy(ps[i], vocabulary[j], sourceType, m) {
        if i < n {
          assert EmittedBy(front[i], vocabulary[j], sourceType, m);
        }
      }
      if i, j :| 0 <= i < n && 0 <= j < |vocabulary| && EmittedBy(front[i], vocabulary[j], sourceType, m) {
        assert EmittedBy(ps[i], vocabulary[j], sourceType, m);
      }
      if j :| 0 <= j < |vocabulary| && EmittedBy(ps[n], vocabulary[j], sourceType, m) {
        assert EmittedBy(ps[n], vocabulary[j], sourceType, m);
      }
    }
  }

  // ----- the vocabulary ------------------------------------------------------

  predicate Lists(vocabulary: seq<VocabularyEntry>, name: string)
  {
    exists k :: 0 <= k < |vocabulary| && vocabulary[k].0 == name
  }

  lemma ListsAppend(vocabulary: seq<VocabularyEntry>, entry: VocabularyEntry)
    ensures forall n :: Lists(vocabulary + [entry], n) <==> Lists(vocabulary, n) || entry.0 == n
  {
    var w := vocabulary + [entry];
    forall n ensures Lists(w, n) <==> Lists(vocabulary, n) || entry.0 == n {
      if Lists(w, n) {
        var k :| 0 <= k < |w| && w[k].0 == n;
        if k < |vocabulary| {
          assert vocabulary[k].0 == n;
        }
      }
      if Lists(vocabulary, n) {
        var k :| 0 <= k < |vocabulary| && vocabulary[k].0 == n;
        assert w[k].0 == n;
      }
      if entry.0 == n {
        assert w[|vocabulary|].0 == n;
      }
    }
  }

  /**
   * The vocabulary the pipeline passes in: `(n, n.upper())` for each distinct
   * non-null drug name `n`, in order of first appearance.
   */
  function Vocabulary(names: seq<Option<string>>): (v: seq<VocabularyEntry>)
    ensures forall k :: 0 <= k < |v| ==> v[k].1 == Upper(v[k].0)
    ensures forall k, l :: 0 <= k < l < |v| ==> v[k].0 != v[l].0
    ensures forall n :: Some(n) in names <==> Lists(v, n)
    decreases |names|
  {
    if names == [] then []
    else
      var v := Vocabulary(names[..|names| - 1]);
      var last := names[|names| - 1];
      assert names == names[..|names| - 1] + [last];
      if last.Some? && !Lists(v, last.value) then
        ListsAppend(v, (last.value, Upper(last.value)));
        v + [(last.value, Upper(last.value))]
      else
        v
  }

  /** Name `x` appears in `names` before any appearance of name `y`. */
  ghost predicate ListedBefore(names: seq<Option<string>>, x: string, y: string)
  {
    exists a :: 0 <= a < |names| && names[a] == Some(x) && forall b :: 0 <= b <= a ==> names[b] != Some(y)
  }

  /**
   * The vocabulary keeps the order of first appearance (the order of
   * `unique()`), which is the order of the mentions within a row.
   */
  lemma {:induction false} VocabularyFirstAppearance(names: seq<Option<string>>, k: nat, l: nat)
    requires k < l < |Vocabulary(names)|
    ensures ListedBefore(names, Vocabulary(names)[k].0, Vocabulary(names)[l].0)
    decreases |names|
  {
    var n := |names| - 1;
    var front, v := names[..n], Vocabulary(names);
    var w := Vocabulary(front);
    var x, y := v[k].0, v[l].0;
    assert names == front + [names[n]];
    if l < |w| {
      assert v[k] == w[k] && v[l] == w[l];
      VocabularyFirstAppearance(front, k, l);
      var a :| 0 <= a < |front| && front[a] == Some(x) && forall b :: 0 <= b <= a ==> front[b] != Some(y);
      assert names[a] == Some(x);
      forall b | 0 <= b <= a ensures names[b] != Some(y) {
        assert front[b] != Some(y);
      }
    } else {
      assert v == w + [(names[n].value, Upper(names[n].value))];
      assert v[k] == w[k] && y == names[n].value && !Lists(w, y);
      assert Lists(w, x);
      assert Some(x) in front && Some(y) !in front;
      var a :| 0 <= a < |front| && front[a] == Some(x);
      assert names[a] == Some(x);
      forall b | 0 <= b <= a ensures names[b] != Some(y) {
        assert front[b] in front;
      }
    }
  }

  /** With distinct vocabulary names, no row mentions the same drug twice. */
  lemma DistinctDrugsPerPublication(p: Publication, vocabulary: seq<VocabularyEntry>, sourceType: string)
    requires forall k, l :: 0 <= k < l < |vocabulary| ==> vocabulary[k].0 != vocabulary[l].0
    ensures forall a, b :: 0 <= a < b < |PublicationMentions(p, vocabulary, sourceType)| ==>
      PublicationMentions(p, vocabulary, sourceType)[a].drug != PublicationMentions(p, vocabulary, sourceType)[b].drug
  {
    PublicationMentionsExact(p, vocabulary, sourceType);
  }

  // ----- the extractor -------------------------------------------------------

  /** `find_drug_mentions`. */
  method FindDrugMentions(table: PublicationTable, vocabulary: seq<VocabularyEntry>, sourceType: string)
    returns (mentions: seq<Mention>)
    requires table.Valid()
    modifies table
    ensures table.Valid() && table.columns == old(table.columns)
    ensures mentions == ExtractedMentions(old(table.columns), old(table.rows), vocabulary, sourceType)
    ensures !HasRequiredColumns(old(table.columns), sourceType) ==> mentions == [] && table.rows == old(table.rows)
    ensures HasRequiredColumns(old(table.columns), sourceType) ==>
      table.rows == NullsFilled(old(table.rows), TitleColumn(sourceType))
  {
    var titleColumn := TitleColumn(sourceType);
    var required := [titleColumn, "journal", "id", "date"];
    for k := 0 to |required|
      invariant forall l :: 0 <= l < k ==> required[l] in table.columns
    {
      if required[k] !in table.columns {
        return [];
      }
    }
    assert required[0] in table.columns && required[1] in table.columns;
    assert required[2] in table.columns && required[3] in table.columns;
    ghost var original := table.rows;
    table.FillNa(titleColumn);
    table.FillNa("journal");
    table.FillNa("id");
    FilledReadsAlike(original, titleColumn);
    mentions := ScanRows(table.rows, titleColumn, vocabulary, sourceType);
  }

  /**
   * The nested scan of `find_drug_mentions` over rows whose null cells are
   * already filled: rows in order, and within a row the vocabulary in order.
   */
  method ScanRows(rows: seq<Row>, titleColumn: string, vocabulary: seq<VocabularyEntry>, sourceType: string)
    returns (mentions: seq<Mention>)
    requires forall i :: 0 <= i < |rows| ==>
      titleColumn in rows[i] && "journal" in rows[i] && "id" in rows[i] && "date" in rows[i]
    ensures mentions == TableMentions(Publications(rows, titleColumn), vocabulary, sourceType)
  {
    mentions := [];
    for i := 0 to |rows|
      invariant mentions == TableMentions(Publications(rows[..i], titleColumn), vocabulary, sourceType)
    {
      var row := rows[i];
      var title := Upper(CellText(row[titleColumn]));
      var journal := CellText(row["journal"]);
      var date := row["date"];
      var publicationId := CellText(row["id"]);
      var originalTitle := CellText(row[titleColumn]);
      ghost var p := ReadRow(row, titleColumn);
      ghost var done := mentions;
      PublicationsStep(rows, titleColumn, i, vocabulary, sourceType);
      if title != "" && date.Some? {
        for j := 0 to |vocabulary|
          invariant mentions == done + PublicationMentions(p, vocabulary[..j], sourceType)
        {
          var (drugOriginal, drugUpper) := vocabulary[j];
          assert vocabulary[..j + 1][..j] == vocabulary[..j];
          if Contains(title, drugUpper) {
            mentions := mentions + [Mention(drugOriginal, journal, date.value, sourceType, publicationId, originalTitle)];
          }
        }
        assert vocabulary[..|vocabulary|] == vocabulary;
      }
    }
    assert rows[..|rows|] == rows;
  }

  lemma FilledReadsAlike(rows: seq<Row>, titleColumn: string)
    requires titleColumn != "date"
    requires forall i :: 0 <= i < |rows| ==>
      titleColumn in rows[i] && "journal" in rows[i] && "id" in rows[i] && "date" in rows[i]
    ensures Publications(NullsFilled(rows, titleColumn), titleColumn) == Publications(rows, titleColumn)
  {
    var filled := NullsFilled(rows, titleColumn);
    forall i | 0 <= i < |rows|
      ensures ReadRow(filled[i], titleColumn) == ReadRow(rows[i], titleColumn)
    {
      assert filled[i]["date"] == rows[i]["date"];
      assert CellText(filled[i][titleColumn]) == CellText(rows[i][titleColumn]);
      assert CellText(filled[i]["journal"]) == CellText(rows[i]["journal"]);
      assert CellText(filled[i]["id"]) == CellText(rows[i]["id"]);
    }
  }

  lemma PublicationsStep(rows: seq<Row>, titleColumn: string, i: nat,
                         vocabulary: seq<VocabularyEntry>, sourceType: string)
    requires i < |rows|
    requires forall k :: 0 <= k < |rows| ==>
      titleColumn in rows[k] && "journal" in rows[k] && "id" in rows[k] && "date" in rows[k]
    ensures TableMentions(Publications(rows[..i + 1], titleColumn), vocabulary, sourceType) ==
      TableMentions(Publications(rows[..i], titleColumn), vocabulary, sourceType) +
      PublicationMentions(ReadRow(rows[i], titleColumn), vocabulary, sourceType)
  {
    var ps := Publications(rows[..i + 1], titleColumn);
    assert ps[..i] == Publications(rows[..i], titleColumn);
    assert ps[i] == ReadRow(rows[i], titleColumn);
  }
}
