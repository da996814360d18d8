/**
  The reference record of `src/reference.rs` and the reader of the header line
  of a CSV export, which maps the recognised column names to their positions.
 */
module References {
  import opened Results
  import opened Text

  /** The ten fields of a reference, in declaration order. */
  datatype Field = Author | Title | Year | Journal | Volume | Number | Pages | Month | Note | Key

  /** The ten strings of a reference, as a value. */
  datatype Record = Record(
    author: string, title: string, year: string, journal: string, volume: string,
    number: string, pages: string, month: string, note: string, key: string)
  {
    /** The string held under field `f`. */
    function Get(f: Field): string {
      match f
      case Author => author
      case Title => title
      case Year => year
      case Journal => journal
      case Volume => volume
      case Number => number
      case Pages => pages
      case Month => month
      case Note => note
      case Key => key
    }

    /** This record with field `f` holding `v`: that field changes and the nine others do not. */
    function Set(f: Field, v: string): (r: Record)
      ensures r.Get(f) == v
      ensures forall g :: g != f ==> r.Get(g) == Get(g)
    {
      match f
      case Author => this.(author := v)
      case Title => this.(title := v)
      case Year => this.(year := v)
      case Journal => this.(journal := v)
      case Volume => this.(volume := v)
      case Number => this.(number := v)
      case Pages => this.(pages := v)
      case Month => this.(month := v)
      case Note => this.(note := v)
      case Key => this.(key := v)
    }
  }

  /** Every field empty. */
  const Empty := Record("", "", "", "", "", "", "", "", "", "")

  /** Two records that agree on every field are the same record. */
  lemma RecordExtensionality(a: Record, b: Record)
    requires forall f :: a.Get(f) == b.Get(f)
    ensures a == b
  {
    assert a.Get(Author) == b.Get(Author) && a.Get(Title) == b.Get(Title);
    assert a.Get(Year) == b.Get(Year) && a.Get(Journal) == b.Get(Journal);
    assert a.Get(Volume) == b.Get(Volume) && a.Get(Number) == b.Get(Number);
    assert a.Get(Pages) == b.Get(Pages) && a.Get(Month) == b.Get(Month);
    assert a.Get(Note) == b.Get(Note) && a.Get(Key) == b.Get(Key);
  }

  /** Writing a field twice keeps the last value. */
  lemma SetLastWriteWins(r: Record, f: Field, v: string, w: string)
    ensures r.Set(f, v).Set(f, w) == r.Set(f, w)
  {
    RecordExtensionality(r.Set(f, v).Set(f, w), r.Set(f, w));
  }

  /** Writing the same value to the same field twice is writing it once. */
  lemma SetIdempotent(r: Record, f: Field, v: string)
    ensures r.Set(f, v).Set(f, v) == r.Set(f, v)
  {
    SetLastWriteWins(r, f, v, v);
  }

  /** Writing back the value a field already holds changes nothing. */
  lemma SetGet(r: Record, f: Field)
    ensures r.Set(f, r.Get(f)) == r
  {
    RecordExtensionality(r.Set(f, r.Get(f)), r);
  }

  /** Writes to two different fields can be made in either order. */
  lemma SetCommutes(r: Record, f: Field, v: string, g: Field, w: string)
    requires f != g
    ensures r.Set(f, v).Set(g, w) == r.Set(g, w).Set(f, v)
  {
    RecordExtensionality(r.Set(f, v).Set(g, w), r.Set(g, w).Set(f, v));
  }

  /** `Reference`: the ten string fields, updated in place by `set_field`. */
  class Reference {
    var author: string
    var title: string
    var year: string
    var journal: string
    var volume: string
    var number: string
    var pages: string
    var month: string
    var note: string
    var key: string

    /** The fields as a record value. */
    function View(): Record
      reads this
    {
      Record(author, title, year, journal, volume, number, pages, month, note, key)
    }

    /** `new_empty`: every field `""`. */
    constructor NewEmpty()
      ensures View() == Empty
      ensures forall f :: View().Get(f) == ""
    {
      author, title, year, journal, volume := "", "", "", "", "";
      number, pages, month, note, key := "", "", "", "", "";
    }

    /** `set_field`: field `f` now holds `v`, the nine others are unchanged; the reference itself is returned. */
    method SetField(f: Field, v: string) returns (r: Reference)
      modifies this
      ensures r == this
      ensures View() == old(View()).Set(f, v)
    {
      r := this;
      match f
      case Author => author := v;
      case Title => title := v;
      case Year => year := v;
      case Journal => journal := v;
      case Volume => volume := v;
      case Number => number := v;
      case Pages => pages := v;
      case Month => month := v;
      case Note => note := v;
      case Key => key := v;
    }

    /** The `Display` text: the author, then the year in parentheses after a space. */
    function Display(): (s: string)
      reads this
      ensures |s| == |author| + |year| + 3
      ensures s[..|author|] == author && s[|author|..|author| + 2] == " ("
      ensures s[|author| + 2..|s| - 1] == year && s[|s| - 1] == ')'
    {
      var s := author + " (" + year + ")";
      assert s[..|author|] == author;
      assert s[|author| + 2..|s| - 1] == year;
      s
    }
  }

  /** The column name `get_field_indices` recognises for each field: a non-empty lower-case ASCII word. */
  function HeaderName(f: Field): (name: string)
    ensures name != [] && forall k :: 0 <= k < |name| ==> 'a' <= name[k] <= 'z'
  {
    match f
    case Author => "author"
    case Title => "title"
    case Year => "year"
    case Journal => "journal"
    case Volume => "volume"
    case Number => "number"
    case Pages => "pages"
    case Month => "month"
    case Note => "note"
    case Key => "key"
  }

  /** The field a header cell names: exact, case-sensitive and untrimmed; `None` for any other cell. */
  function HeaderField(cell: string): (r: Option<Field>)
    ensures r.Some? ==> HeaderName(r.value) == cell
    ensures r.None? ==> forall f :: HeaderName(f) != cell
  {
    if cell == "author" then Some(Author)
    else if cell == "title" then Some(Title)
    else if cell == "year" then Some(Year)
    else if cell == "journal" then Some(Journal)
    else if cell == "volume" then Some(Volume)
    else if cell == "number" then Some(Number)
    else if cell == "pages" then Some(Pages)
    else if cell == "month" then Some(Month)
    else if cell == "note" then Some(Note)
    else if cell == "key" then Some(Key)
    else None
  }

  /** Each field has its own column name, and reading it back gives the field. */
  lemma HeaderNameRoundTrip(f: Field)
    ensures HeaderField(HeaderName(f)) == Some(f)
  {
    var r := HeaderField(HeaderName(f));
    assert r.Some?;
    match f
    case Author =>
    case Title =>
    case Year =>
    case Journal =>
    case Volume =>
    case Number =>
    case Pages =>
    case Month =>
    case Note =>
    case Key =>
  }

  /** `CsvError`. */
  datatype CsvError = ReadError(msg: string) | ParseError(msg: string)

  const NoLinesMessage := "Could not parse headers from CSV file: file contains no lines."

  /** The map the header loop has built after the given cells: each insert overwrites. */
  function HeaderIndices(cells: seq<string>): (m: map<Field, nat>)
    ensures forall f :: f in m ==> m[f] < |cells| && cells[m[f]] == HeaderName(f)
  {
    if cells == [] then map[]
    else
      var p := cells[..|cells| - 1];
      var m := HeaderIndices(p);
      assert forall f :: f in m ==> cells[m[f]] == p[m[f]];
      match HeaderField(cells[|cells| - 1])
      case None => m
      case Some(f) => m[f := |cells| - 1]
  }

  /** Some cell of `cells` is exactly `name`. */
  predicate Occurs(cells: seq<string>, name: string) {
    exists i :: 0 <= i < |cells| && cells[i] == name
  }

  /** Position `i` is the last cell of `cells` that is exactly `name`. */
  predicate LastAt(cells: seq<string>, name: string, i: int) {
    0 <= i < |cells| && cells[i] == name
    && forall j :: i < j < |cells| ==> cells[j] != name
  }

  /**
    A field is in the map exactly when some cell names it, and then it maps
    to the last cell naming it; so an unrecognised cell contributes nothing.
   */
  lemma {:induction false} HeaderIndicesAt(cells: seq<string>, f: Field)
    ensures f in HeaderIndices(cells) <==> Occurs(cells, HeaderName(f))
    ensures f in HeaderIndices(cells) ==> LastAt(cells, HeaderName(f), HeaderIndices(cells)[f])
  {
    if cells != [] {
      var p := cells[..|cells| - 1];
      if cells[|cells| - 1] == HeaderName(f) {
        HeaderIndicesNamed(cells, f);
      } else {
        HeaderIndicesAt(p, f);
        HeaderIndicesOther(cells, f);
        OccursOther(cells, HeaderName(f));
      }
    }
  }

  /** A last cell naming `f` puts `f` at the last position. */
  lemma HeaderIndicesNamed(cells: seq<string>, f: Field)
    requires cells != [] && cells[|cells| - 1] == HeaderName(f)
    ensures f in HeaderIndices(cells) && HeaderIndices(cells)[f] == |cells| - 1
    ensures Occurs(cells, HeaderName(f)) && LastAt(cells, HeaderName(f), |cells| - 1)
  {
    HeaderNameRoundTrip(f);
  }

  /** A last cell other than `name` changes neither whether nor where `name` occurs last. */
  lemma OccursOther(cells: seq<string>, name: string)
    requires cells != [] && cells[|cells| - 1] != name
    ensures var p := cells[..|cells| - 1];
            (Occurs(cells, name) <==> Occurs(p, name))
            && forall i :: LastAt(p, name, i) ==> LastAt(cells, name, i)
  {
    var p := cells[..|cells| - 1];
    if Occurs(p, name) {
      var i :| 0 <= i < |p| && p[i] == name;
      assert cells[i] == p[i];
    }
    if Occurs(cells, name) {
      var i :| 0 <= i < |cells| && cells[i] == name;
      assert p[i] == cells[i];
    }
  }

  /** A last cell that does not name `f` leaves the entry of `f` as it was. */
  lemma HeaderIndicesOther(cells: seq<string>, f: Field)
    requires cells != [] && cells[|cells| - 1] != HeaderName(f)
    ensures var m, p := HeaderIndices(cells), HeaderIndices(cells[..|cells| - 1]);
            (f in m <==> f in p) && (f in m ==> m[f] == p[f])
  {
    var r := HeaderField(cells[|cells| - 1]);
    if r.Some? {
      assert HeaderName(r.value) != HeaderName(f);
      assert r.value != f;
    }
  }

  /** Every field of the map sits at the last cell naming it. */
  lemma HeaderIndicesLast(cells: seq<string>)
    ensures forall f :: f in HeaderIndices(cells) <==> Occurs(cells, HeaderName(f))
    ensures forall f :: f in HeaderIndices(cells) ==> LastAt(cells, HeaderName(f), HeaderIndices(cells)[f])
  {
    forall f
      ensures f in HeaderIndices(cells) <==> Occurs(cells, HeaderName(f))
      ensures f in HeaderIndices(cells) ==> LastAt(cells, HeaderName(f), HeaderIndices(cells)[f])
    {
      HeaderIndicesAt(cells, f);
    }
  }

  /** The index a field maps to is below the number of cells. */
  lemma HeaderIndicesBounded(cells: seq<string>)
    ensures forall f :: f in HeaderIndices(cells) ==> HeaderIndices(cells)[f] < |cells|
  {
    HeaderIndicesLast(cells);
  }

  /** A repeated name keeps its last position, and matching is case-sensitive and untrimmed. */
  lemma HeaderExample()
    ensures HeaderIndices(["key", "Author", " year", "key"]) == map[Key := 3]
  {
    var cells := ["key", "Author", " year", "key"];
    assert cells[..3][..2][..1] == ["key"];
    assert cells[..3][..2] == ["key", "Author"];
    assert cells[..3] == ["key", "Author", " year"];
    assert HeaderField("key") == Some(Key);
    assert HeaderField("Author") == None;
    assert HeaderField(" year") == None;
    assert HeaderIndices(["key"]) == map[Key := 0];
    assert HeaderIndices(["key", "Author"]) == map[Key := 0];
    assert HeaderIndices(["key", "Author", " year"]) == map[Key := 0];
  }

  /** The result `get_field_indices` gives for `csv`: an error exactly when it has no lines. */
  function FieldIndices(csv: string): (r: Result<map<Field, nat>, CsvError>)
    ensures r.Err? <==> csv == []
  {
    var lines := Lines(csv);
    if |lines| == 0 then Err(ParseError(NoLinesMessage))
    else Ok(HeaderIndices(Split(lines[0], ',')))
  }

  /** One more cell of the header line: the map of the longer prefix is that of the shorter one, updated by that cell. */
  lemma HeaderIndicesPrefix(cells: seq<string>, i: nat)
    requires i < |cells|
    ensures HeaderIndices(cells[..i + 1]) ==
              match HeaderField(cells[i])
              case None => HeaderIndices(cells[..i])
              case Some(f) => HeaderIndices(cells[..i])[f := i]
  {
    assert cells[..i + 1][..i] == cells[..i];
  }

  /** `get_field_indices`: loops over the cells of the first line, recording the position of each recognised name. */
  method GetFieldIndices(csv: string) returns (r: Result<map<Field, nat>, CsvError>)
    ensures r == FieldIndices(csv)
  {
    var lines := Lines(csv);
    if |lines| == 0 {
      return Err(ParseError(NoLinesMessage));
    }
    var headers := Split(lines[0], ',');
    var fieldIndices: map<Field, nat> := map[];
    for idx := 0 to |headers|
      invariant fieldIndices == HeaderIndices(headers[..idx])
    {
      HeaderIndicesPrefix(headers, idx);
      var field := HeaderField(headers[idx]);
      if field.Some? {
        fieldIndices := fieldIndices[field.value := idx];
      }
    }
    assert headers[..|headers|] == headers;
    return Ok(fieldIndices);
  }

  /** Only the first line is read: whatever follows it, the result is that of the header line. */
  lemma FieldIndicesFirstLine(header: string, rest: string)
    requires '\n' !in header
    ensures FieldIndices(header + "\n" + rest) == Ok(HeaderIndices(Split(DropCarriageReturn(header), ',')))
  {
    FirstLine(header, rest);
  }

  /** Empty input is the one error, with its fixed message. */
  lemma FieldIndicesEmpty()
    ensures FieldIndices("") == Err(ParseError(NoLinesMessage))
  {
  }
}
