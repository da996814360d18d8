/**
  The browsing state of `src/app.rs`: a table selection that wraps around,
  the scroll position that follows it, the palette index that cycles through
  four palettes, the lookup behind yanking an entry, and the column widths
  computed when the table is built. The list holds items of any type `T`;
  what the table shows of an item is given by a function to `ColumnTexts`.
 */
module Application {
  import opened Results
  import opened Text

  /** `PALETTES.len()`. */
  const PaletteCount: nat := 4

  /** `ITEM_HEIGHT`: every row is one line high. */
  const ItemHeight: nat := 1

  /** One more than the largest `u16`. */
  const U16Limit: nat := 0x1_0000

  // ---------------------------------------------------------------------------
  // Selection

  /**
    The row `select_next` selects: the one after the selection, back to the
    first row after the last one (or after any row past the end); the first
    row when nothing is selected. With a selection, the list must not be
    empty, since the code computes `len - 1`.
   */
  function NextIndex(sel: Option<nat>, len: nat): (i: nat)
    requires sel.Some? ==> len > 0
    ensures sel.None? ==> i == 0
    ensures sel.Some? && sel.value < len ==> i == (sel.value + 1) % len
    ensures sel.Some? && sel.value >= len ==> i == 0
    ensures len > 0 ==> i < len
  {
    match sel
    case None => 0
    case Some(v) =>
      assert v < len ==> (v + 1) % len == (if v >= len - 1 then 0 else v + 1) by {
        if v + 1 < len {
          ModOfDecomposition(v + 1, len, 0, v + 1);
        } else if v + 1 == len {
          ModOfDecomposition(v + 1, len, 1, 0);
        }
      }
      if v >= len - 1 then 0 else v + 1
  }

  /**
    The row `select_previous` selects: the one before the selection, the last
    row before the first one; the first row when nothing is selected. Only a
    selection of row 0 needs a non-empty list. A selection past the end moves
    back by one, as the code does.
   */
  function PreviousIndex(sel: Option<nat>, len: nat): (i: nat)
    requires sel == Some(0) ==> len > 0
    ensures sel.None? ==> i == 0
    ensures sel.Some? && sel.value < len ==> i == (sel.value + len - 1) % len
    ensures sel.Some? && sel.value >= len ==> i == sel.value - 1
    ensures len > 0 && (sel.Some? ==> sel.value < len) ==> i < len
  {
    match sel
    case None => 0
    case Some(v) =>
      assert v < len ==> (v + len - 1) % len == (if v == 0 then len - 1 else v - 1) by {
        if v == 0 {
          ModOfDecomposition(len - 1, len, 0, len - 1);
        } else if v < len {
          ModOfDecomposition(v + len - 1, len, 1, v - 1);
        }
      }
      if v == 0 then len - 1 else v - 1
  }

  /** Moving down then up, or up then down, from a row of the list returns to it. */
  lemma SelectionRoundTrip(i: nat, len: nat)
    requires i < len
    ensures PreviousIndex(Some(NextIndex(Some(i), len)), len) == i
    ensures NextIndex(Some(PreviousIndex(Some(i), len)), len) == i
  {
  }

  /** The row reached by moving down `k` times from row `i`. */
  function NextTimes(i: nat, k: nat, len: nat): (j: nat)
    requires i < len
    ensures j < len
  {
    if k == 0 then i else NextIndex(Some(NextTimes(i, k - 1, len)), len)
  }

  /** `a % n` is determined by any decomposition `a == q * n + r` with `0 <= r < n`. */
  lemma ModOfDecomposition(a: int, n: int, q: int, r: int)
    requires n > 0 && 0 <= r < n && a == q * n + r
    ensures a % n == r
  {
    var d := q - a / n;
    assert d * n == a % n - r;
  }

  /** Stepping one past `a % n` and reducing again is reducing `a + 1`. */
  lemma ModSucc(a: nat, n: nat)
    requires n > 0
    ensures (a % n + 1) % n == (a + 1) % n
  {
    var q, r := a / n, a % n;
    if r + 1 < n {
      ModOfDecomposition(a + 1, n, q, r + 1);
      ModOfDecomposition(r + 1, n, 0, r + 1);
    } else {
      ModOfDecomposition(a + 1, n, q + 1, 0);
      ModOfDecomposition(r + 1, n, 1, 0);
    }
  }

  /** Moving down `k` times advances by `k` rows modulo the length of the list. */
  lemma {:induction false} NextTimesAdvances(i: nat, k: nat, len: nat)
    requires i < len
    ensures NextTimes(i, k, len) == (i + k) % len
  {
    if k == 0 {
      ModOfDecomposition(i, len, 0, i);
    } else {
      NextTimesAdvances(i, k - 1, len);
      ModSucc(i + k - 1, len);
    }
  }

  /** Moving down once per row of the list comes back to the starting row. */
  lemma NextTimesCycles(i: nat, len: nat)
    requires i < len
    ensures NextTimes(i, len, len) == i
  {
    NextTimesAdvances(i, len, len);
    ModOfDecomposition(i + len, len, 1, i);
  }

  // ---------------------------------------------------------------------------
  // Palettes

  /** The palette `next_color` moves to: the following one, back to the first after the last. */
  function NextColorIndex(c: nat): (r: nat)
    ensures r < PaletteCount
    ensures c + 1 < PaletteCount ==> r == c + 1
    ensures c + 1 == PaletteCount ==> r == 0
  {
    (c + 1) % PaletteCount
  }

  /** The palette `previous_color` moves to: the one before, the last before the first. */
  function PreviousColorIndex(c: nat): (r: nat)
    ensures r < PaletteCount
    ensures 0 < c <= PaletteCount ==> r == c - 1
    ensures c == 0 ==> r == PaletteCount - 1
  {
    (c + PaletteCount - 1) % PaletteCount
  }

  /** Each palette step undoes the other, and four steps forward come back. */
  lemma ColorRoundTrip(c: nat)
    requires c < PaletteCount
    ensures PreviousColorIndex(NextColorIndex(c)) == c
    ensures NextColorIndex(PreviousColorIndex(c)) == c
    ensures NextColorIndex(NextColorIndex(NextColorIndex(NextColorIndex(c)))) == c
  {
  }

  // ---------------------------------------------------------------------------
  // Column widths

  /** What the table shows of one item: its key, and its author, year and title when it has them. */
  datatype ColumnTexts = ColumnTexts(key: string, author: Option<string>, year: Option<string>, title: Option<string>)

  /** The four columns of the table. */
  datatype Column = KeyColumn | AuthorColumn | YearColumn | TitleColumn

  /** `longest_item_lens`: one width per column, in the order key, author, year, title. */
  datatype ItemLens = ItemLens(key: nat, author: nat, year: nat, title: nat) {
    function Get(c: Column): nat {
      match c
      case KeyColumn => key
      case AuthorColumn => author
      case YearColumn => year
      case TitleColumn => title
    }
  }

  /** `m` is the largest width among `cells`, or 0 when there are none (`max().unwrap_or(0)`). */
  predicate IsColumnWidth(cells: seq<string>, width: string -> nat, m: nat) {
    (forall k :: 0 <= k < |cells| ==> width(cells[k]) <= m)
    && (cells == [] ==> m == 0)
    && (cells != [] ==> exists k :: 0 <= k < |cells| && width(cells[k]) == m)
  }

  /** The largest width among `cells`. */
  function MaxWidth(cells: seq<string>, width: string -> nat): (m: nat)
    ensures IsColumnWidth(cells, width, m)
  {
    if cells == [] then 0
    else
      var rest := MaxWidth(cells[..|cells| - 1], width);
      var last := width(cells[|cells| - 1]);
      assert forall k :: 0 <= k < |cells| - 1 ==> cells[..|cells| - 1][k] == cells[k];
      if last >= rest then last else rest
  }

  /** There is only one such width. */
  lemma ColumnWidthUnique(cells: seq<string>, width: string -> nat, m: nat, n: nat)
    requires IsColumnWidth(cells, width, m) && IsColumnWidth(cells, width, n)
    ensures m == n
  {
    if cells != [] {
      var k :| 0 <= k < |cells| && width(cells[k]) == m;
      var l :| 0 <= l < |cells| && width(cells[l]) == n;
      assert width(cells[l]) <= m && width(cells[k]) <= n;
    }
  }

  /** The lines of every text that is present, in order (`flat_map` over `lines()`). */
  function FlatLines(texts: seq<Option<string>>): (ls: seq<string>)
    ensures texts == [] ==> ls == []
    ensures forall k :: 0 <= k < |ls| ==> '\n' !in ls[k]
  {
    if texts == [] then []
    else
      var last := match texts[|texts| - 1] case Some(s) => Lines(s) case None => [];
      FlatLines(texts[..|texts| - 1]) + last
  }

  /** A string is one of the flattened lines exactly when it is a line of one of the present texts. */
  lemma {:induction false} FlatLinesMember(texts: seq<Option<string>>, line: string)
    ensures line in FlatLines(texts) <==> InSomeText(texts, line)
  {
    if texts != [] {
      var p := texts[..|texts| - 1];
      FlatLinesMember(p, line);
      InSomeTextSnoc(texts, line);
    }
  }

  /** `line` is a line of one of the present texts. */
  predicate InSomeText(texts: seq<Option<string>>, line: string) {
    exists k :: 0 <= k < |texts| && texts[k].Some? && line in Lines(texts[k].value)
  }

  /** A line is in some present text exactly when it is in one before the last, or in the last. */
  lemma InSomeTextSnoc(texts: seq<Option<string>>, line: string)
    requires texts != []
    ensures var p, t := texts[..|texts| - 1], texts[|texts| - 1];
            InSomeText(texts, line) <==> InSomeText(p, line) || (t.Some? && line in Lines(t.value))
  {
    var p := texts[..|texts| - 1];
    if InSomeText(p, line) {
      var k :| 0 <= k < |p| && p[k].Some? && line in Lines(p[k].value);
      assert texts[k] == p[k];
    }
    if InSomeText(texts, line) {
      var k :| 0 <= k < |texts| && texts[k].Some? && line in Lines(texts[k].value);
      if k < |p| {
        assert p[k] == texts[k];
      }
    }
  }

  /** The cells of a column: one key per item, or every line of every present author, year or title. */
  function Cells<T>(items: seq<T>, columns: T -> ColumnTexts, c: Column): (cells: seq<string>)
    ensures c == KeyColumn ==> |cells| == |items| && forall k :: 0 <= k < |items| ==> cells[k] == columns(items[k]).key
    ensures c != KeyColumn ==> forall k :: 0 <= k < |cells| ==> '\n' !in cells[k]
  {
    match c
    case KeyColumn => seq(|items|, k requires 0 <= k < |items| => columns(items[k]).key)
    case AuthorColumn => FlatLines(seq(|items|, k requires 0 <= k < |items| => columns(items[k]).author))
    case YearColumn => FlatLines(seq(|items|, k requires 0 <= k < |items| => columns(items[k]).year))
    case TitleColumn => FlatLines(seq(|items|, k requires 0 <= k < |items| => columns(items[k]).title))
  }

  /** `n as u16`: the low sixteen bits. */
  function ToU16(n: nat): (r: nat)
    ensures r < U16Limit
    ensures n < U16Limit ==> r == n
    ensures exists q: nat :: n == q * U16Limit + r
  {
    var r := n % U16Limit;
    assert n == (n / U16Limit) * U16Limit + r;
    r
  }

  /**
    `constraint_len_calculator`: for each column, the largest display width
    of its cells (0 for none), cut to sixteen bits. The display width
    (`UnicodeWidthStr::width`) is the parameter `width`.
   */
  function ConstraintLens<T>(items: seq<T>, columns: T -> ColumnTexts, width: string -> nat): (r: ItemLens)
    ensures forall c, m :: IsColumnWidth(Cells(items, columns, c), width, m) ==> r.Get(c) == ToU16(m)
  {
    var r := ItemLens(
      ToU16(MaxWidth(Cells(items, columns, KeyColumn), width)),
      ToU16(MaxWidth(Cells(items, columns, AuthorColumn), width)),
      ToU16(MaxWidth(Cells(items, columns, YearColumn), width)),
      ToU16(MaxWidth(Cells(items, columns, TitleColumn), width)));
    assert forall c, m :: IsColumnWidth(Cells(items, columns, c), width, m) ==> r.Get(c) == ToU16(m) by {
      forall c, m | IsColumnWidth(Cells(items, columns, c), width, m)
        ensures r.Get(c) == ToU16(m)
      {
        ColumnWidthUnique(Cells(items, columns, c), width, m, MaxWidth(Cells(items, columns, c), width));
      }
    }
    r
  }

  // ---------------------------------------------------------------------------
  // The application state

  datatype StatusBarInput = StatusBarInput(input: string, cursorPosition: nat)

  /** The status bar either shows a message or edits an input. */
  datatype StatusBar = Message(text: string) | Input(field: StatusBarInput)

  /** The keys the event loop reacts to; every other key is `Other`. */
  datatype KeyCode = Char(c: char) | Esc | Up | Down | Left | Right | Other

  /** `App` over items of type `T`. `TableState` is its selection and `ScrollbarState` its position and content length. */
  class App<T> {
    var selected: Option<nat>
    var scrollPosition: nat
    var scrollContentLength: nat
    var items: seq<T>
    var longestItemLens: ItemLens
    var colorIndex: nat
    var statusBar: StatusBar

    /** A non-empty list, a selection on one of its rows, and one of the palettes. */
    predicate Valid()
      reads this
    {
      |items| > 0 && (selected.Some? ==> selected.value < |items|) && colorIndex < PaletteCount
    }

    /** `App::new`: the first row selected, the first palette, an empty message. */
    constructor(references: seq<T>, columns: T -> ColumnTexts, width: string -> nat)
      requires |references| > 0
      ensures items == references && selected == Some(0) && scrollPosition == 0
      ensures scrollContentLength == (|references| - 1) * ItemHeight
      ensures longestItemLens == ConstraintLens(references, columns, width)
      ensures colorIndex == 0 && statusBar == Message("")
      ensures Valid()
    {
      selected := Some(0);
      longestItemLens := ConstraintLens(references, columns, width);
      scrollPosition := 0;
      scrollContentLength := (|references| - 1) * ItemHeight;
      colorIndex := 0;
      items := references;
      statusBar := Message("");
    }

    /** `select_next`: the next row, wrapping to the first; the scroll position follows. */
    method SelectNext()
      requires selected.Some? ==> |items| > 0
      modifies this`selected, this`scrollPosition
      ensures selected == Some(NextIndex(old(selected), |items|))
      ensures scrollPosition == selected.value * ItemHeight
      ensures old(Valid()) ==> Valid()
    {
      var i;
      match selected {
        case Some(v) =>
          if v >= |items| - 1 {
            i := 0;
          } else {
            i := v + 1;
          }
        case None =>
          i := 0;
      }
      selected := Some(i);
      scrollPosition := i * ItemHeight;
    }

    /** `select_previous`: the previous row, wrapping to the last; the scroll position follows. */
    method SelectPrevious()
      requires selected == Some(0) ==> |items| > 0
      modifies this`selected, this`scrollPosition
      ensures selected == Some(PreviousIndex(old(selected), |items|))
      ensures scrollPosition == selected.value * ItemHeight
      ensures old(Valid()) ==> Valid()
    {
      var i;
      match selected {
        case Some(v) =>
          if v == 0 {
            i := |items| - 1;
          } else {
            i := v - 1;
          }
        case None =>
          i := 0;
      }
      selected := Some(i);
      scrollPosition := i * ItemHeight;
    }

    /** `next_color`. */
    method NextColor()
      modifies this`colorIndex
      ensures colorIndex == NextColorIndex(old(colorIndex))
    {
      colorIndex := (colorIndex + 1) % PaletteCount;
    }

    /** `previous_color`. */
    method PreviousColor()
      modifies this`colorIndex
      ensures colorIndex == PreviousColorIndex(old(colorIndex))
    {
      var count := PaletteCount;
      colorIndex := (colorIndex + count - 1) % count;
    }

    /**
      `yank`: the selected item, when there is a selection on a row of the
      list and copying its text to the clipboard succeeds. Without such a
      selection the clipboard is not touched (`attempted` is false);
      `clipboardOk` is the outcome of the clipboard call.
     */
    method Yank(clipboardOk: bool) returns (copied: Option<T>, attempted: bool)
      ensures attempted <==> selected.Some? && selected.value < |items|
      ensures copied.Some? <==> attempted && clipboardOk
      ensures copied.Some? ==> copied.value == items[selected.value]
    {
      if selected.None? {
        return None, false;
      }
      var index := selected.value;
      if index >= |items| {
        return None, false;
      }
      var reference := items[index];
      if clipboardOk {
        return Some(reference), true;
      }
      return None, true;
    }

    /** One key press of the event loop: quit, move the selection or change the palette. */
    method HandleKey(key: KeyCode) returns (quit: bool)
      requires Valid()
      modifies this`selected, this`scrollPosition, this`colorIndex
      ensures quit <==> key == Char('q') || key == Esc
      ensures key == Char('j') || key == Down ==>
                selected == Some(NextIndex(old(selected), |items|)) && colorIndex == old(colorIndex)
                && scrollPosition == selected.value * ItemHeight
      ensures key == Char('k') || key == Up ==>
                selected == Some(PreviousIndex(old(selected), |items|)) && colorIndex == old(colorIndex)
                && scrollPosition == selected.value * ItemHeight
      ensures key == Char('l') || key == Right ==>
                colorIndex == NextColorIndex(old(colorIndex)) && selected == old(selected)
                && scrollPosition == old(scrollPosition)
      ensures key == Char('h') || key == Left ==>
                colorIndex == PreviousColorIndex(old(colorIndex)) && selected == old(selected)
                && scrollPosition == old(scrollPosition)
      ensures !(key in {Char('j'), Down, Char('k'), Up, Char('l'), Right, Char('h'), Left}) ==>
                unchanged(this)
      ensures Valid()
    {
      quit := false;
      match key
      case Char('q') => quit := true;
      case Esc => quit := true;
      case Char('j') => SelectNext();
      case Down => SelectNext();
      case Char('k') => SelectPrevious();
      case Up => SelectPrevious();
      case Char('l') => NextColor();
      case Right => NextColor();
      case Char('h') => PreviousColor();
      case Left => PreviousColor();
      case _ =>
    }
  }
}
