/** The good-practice record (`GoodPractice` in scrape_ce.py) and its tabular row. */
module Practice {
  import opened Wrappers

  /** The placeholder stored in any field that could not be extracted. */
  const Sentinel: string := "N/A"

  /** One scraped listing. Every field holds extracted text or the sentinel. */
  datatype GoodPractice = GoodPractice(
    title: string,
    description: string,
    link: string,
    organisation: string,
    typeOfOrganisation: string,
    country: string,
    language: string,
    keyArea: string,
    sector: string,
    scope: string)

  /** The ten dataset columns. */
  datatype Column =
    | Title | Description | Link | Organisation | TypeOfOrganisation
    | Country | Language | KeyArea | Sector | Scope

  /** The columns in the order the dataset stores them. */
  const Columns: seq<Column> :=
    [Title, Description, Link, Organisation, TypeOfOrganisation,
     Country, Language, KeyArea, Sector, Scope]

  /** The header row of the persisted dataset. */
  const HeaderRow: seq<string> :=
    ["Title", "Description", "Link", "Organisation", "Type of Organisation",
     "Country", "Language", "Key Area", "Sector", "Scope"]

  /** The field of `r` that fills column `c`. */
  function Field(r: GoodPractice, c: Column): string {
    match c
    case Title => r.title
    case Description => r.description
    case Link => r.link
    case Organisation => r.organisation
    case TypeOfOrganisation => r.typeOfOrganisation
    case Country => r.country
    case Language => r.language
    case KeyArea => r.keyArea
    case Sector => r.sector
    case Scope => r.scope
  }

  /** A dataset row: (column title, cell) pairs in column order, as the row dict iterates. */
  type Row = seq<(string, string)>

  /** `GoodPractice.to_row`: the record under the dataset's column titles. */
  function ToRow(r: GoodPractice): (row: Row)
    ensures |row| == |HeaderRow| == |Columns|
    ensures forall i :: 0 <= i < |row| ==> row[i].0 == HeaderRow[i]
    ensures forall i :: 0 <= i < |row| ==> row[i].1 == Field(r, Columns[i])
    ensures forall i, j :: 0 <= i < j < |row| ==> row[i].0 != row[j].0
  {
    [("Title", r.title),
     ("Description", r.description),
     ("Link", r.link),
     ("Organisation", r.organisation),
     ("Type of Organisation", r.typeOfOrganisation),
     ("Country", r.country),
     ("Language", r.language),
     ("Key Area", r.keyArea),
     ("Sector", r.sector),
     ("Scope", r.scope)]
  }

  /** Reads a record back from a row; None unless the row has exactly the dataset's columns. */
  function FromRow(row: Row): Option<GoodPractice> {
    if |row| == |HeaderRow| && forall i :: 0 <= i < |row| ==> row[i].0 == HeaderRow[i] then
      Some(GoodPractice(row[0].1, row[1].1, row[2].1, row[3].1, row[4].1,
                        row[5].1, row[6].1, row[7].1, row[8].1, row[9].1))
    else None
  }

  /** A row written by `ToRow` reads back as the record it came from, and a row
      that reads back as some record is exactly that record's row. */
  lemma RowRoundTrip(r: GoodPractice, row: Row)
    ensures FromRow(ToRow(r)) == Some(r)
    ensures FromRow(row) == Some(r) ==> ToRow(r) == row
  {
    if FromRow(row) == Some(r) {
      var back := ToRow(r);
      assert |back| == |row|;
      forall i | 0 <= i < |row| ensures back[i] == row[i] {
        assert back[i].0 == row[i].0;
      }
    }
  }
}
