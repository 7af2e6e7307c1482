/** The page layout `app/routers/conversion.py` computes for ReportLab when it
    turns a text file or a CSV table into a PDF: which page each `drawString`
    call lands on and where. Coordinates are points from the bottom-left
    corner of a letter page; drawing itself is left to the library. */
module Layout {

  /** One `drawString` call: the page it lands on (counted from 0, one more
      per `showPage`), the position and the text. */
  datatype Draw = Draw(page: nat, x: int, y: int, text: string)

  // ---------------------------------------------------------------- text

  /** What the text layout hands to the canvas: the draw calls in order and
      how many times it called `showPage`. */
  datatype Canvas = Canvas(draws: seq<Draw>, breaks: nat)

  /** The loop of `convert_text_to_pdf_lib` from a given page and height:
      draw the line at x = 50, move down 14 points, and start a new page at
      the top (750) once the height drops below 50. */
  function TextFrom(lines: seq<string>, page: nat, y: int): Canvas
    decreases |lines|
  {
    if |lines| == 0 then Canvas([], page)
    else
      var d := Draw(page, 50, y, lines[0]);
      var rest := if y - 14 < 50 then TextFrom(lines[1..], page + 1, 750)
                  else TextFrom(lines[1..], page, y - 14);
      Canvas([d] + rest.draws, rest.breaks)
  }

  /** The whole text: the lines of `text.split('\n')` from the top of page 0. */
  function TextLayout(lines: seq<string>): Canvas
  {
    TextFrom(lines, 0, 750)
  }

  /** Moving 51 slots on is one page more at the same slot. */
  lemma NextPage(a: nat)
    ensures (a + 51) / 51 == a / 51 + 1 && (a + 51) % 51 == a % 51
  {
  }

  /** Line i of `lines` drawn from slot k of `page`, as the closed form says. */
  predicate SlotsFrom(c: Canvas, lines: seq<string>, page: nat, k: nat)
  {
    && |c.draws| == |lines|
    && c.breaks == page + (k + |lines|) / 51
    && forall i :: 0 <= i < |lines| ==>
         c.draws[i] == Draw(page + (k + i) / 51, 50, 750 - 14 * ((k + i) % 51), lines[i])
  }

  /** From slot `k` of a page (height 750 - 14k), line i lands on slot
      (k + i) mod 51 of the page (k + i) div 51 further on: the slots 750,
      736, ..., 50 are the 51 heights the loop draws at before it breaks. */
  lemma {:induction false} TextFromSlots(lines: seq<string>, page: nat, k: nat)
    requires k < 51
    ensures SlotsFrom(TextFrom(lines, page, 750 - 14 * k), lines, page, k)
    decreases |lines|
  {
    if |lines| > 0 {
      if k == 50 {
        TextFromSlots(lines[1..], page + 1, 0);
        LastSlotStep(lines, page);
      } else {
        TextFromSlots(lines[1..], page, k + 1);
        SlotStep(lines, page, k);
      }
    }
  }

  /** Drawing on the last slot breaks the page: the rest starts at slot 0 of
      the next one. */
  lemma LastSlotStep(lines: seq<string>, page: nat)
    requires |lines| > 0
    requires SlotsFrom(TextFrom(lines[1..], page + 1, 750), lines[1..], page + 1, 0)
    ensures SlotsFrom(TextFrom(lines, page, 750 - 14 * 50), lines, page, 50)
  {
    var c := TextFrom(lines, page, 50);
    var rest := TextFrom(lines[1..], page + 1, 750);
    var n := |lines|;
    assert c.draws == [Draw(page, 50, 50, lines[0])] + rest.draws;
    NextPage(n - 1);
    forall i | 1 <= i < n
      ensures c.draws[i] == Draw(page + (50 + i) / 51, 50, 750 - 14 * ((50 + i) % 51), lines[i])
    {
      NextPage(i - 1);
      assert c.draws[i] == rest.draws[i - 1];
    }
  }

  /** Drawing on any other slot moves one slot down on the same page. */
  lemma SlotStep(lines: seq<string>, page: nat, k: nat)
    requires |lines| > 0 && k < 50
    requires SlotsFrom(TextFrom(lines[1..], page, 750 - 14 * (k + 1)), lines[1..], page, k + 1)
    ensures SlotsFrom(TextFrom(lines, page, 750 - 14 * k), lines, page, k)
  {
    var c := TextFrom(lines, page, 750 - 14 * k);
    var rest := TextFrom(lines[1..], page, 750 - 14 * (k + 1));
    assert c.draws == [Draw(page, 50, 750 - 14 * k, lines[0])] + rest.draws;
    forall i | 1 <= i < |lines|
      ensures c.draws[i] == Draw(page + (k + i) / 51, 50, 750 - 14 * ((k + i) % 51), lines[i])
    {
      assert c.draws[i] == rest.draws[i - 1];
    }
  }

  /** Line i of a text file is drawn at x = 50 on page i div 51, at height
      750 - 14 (i mod 51), which never leaves [50, 750]; the loop breaks the
      page once per 51 lines, so a multiple of 51 lines ends on a new page. */
  lemma TextLayoutSpec(lines: seq<string>)
    ensures var c := TextLayout(lines);
            && |c.draws| == |lines|
            && c.breaks == |lines| / 51
            && forall i :: 0 <= i < |lines| ==>
                 && c.draws[i] == Draw(i / 51, 50, 750 - 14 * (i % 51), lines[i])
                 && 50 <= c.draws[i].y <= 750
  {
    TextFromSlots(lines, 0, 0);
  }

  // ---------------------------------------------------------------- CSV

  /** A table as `pandas.read_csv` gives it, every value already `str()`-ed. */
  datatype Table = Table(columns: seq<string>, rows: seq<seq<string>>)

  /** Where a table row is drawn. */
  datatype Spot = Spot(page: nat, y: int)

  /** One row's cells: cell c at x = 50 + 100c, all at the same height. */
  function RowDraws(s: Spot, cells: seq<string>): (ds: seq<Draw>)
  {
    if |cells| == 0 then []
    else RowDraws(s, cells[..|cells| - 1]) + [Draw(s.page, 50 + 100 * (|cells| - 1), s.y, cells[|cells| - 1])]
  }

  /** The row loop of `convert_csv_to_pdf_lib` for `n` rows from a given page
      and height: the page-break check (below 50: new page, back to 750)
      comes before the row, then the height drops by 12. */
  function RowSpots(n: nat, page: nat, y: int): (spots: seq<Spot>)
    ensures |spots| == n
  {
    if n == 0 then []
    else
      var s := if y < 50 then Spot(page + 1, 750) else Spot(page, y);
      [s] + RowSpots(n - 1, s.page, s.y - 12)
  }

  /** The table as drawn: the header once, at the top of page 0, then one
      group of draws per row, and the number of `showPage` calls. */
  datatype TableCanvas = TableCanvas(header: seq<Draw>, rows: seq<seq<Draw>>, breaks: nat)

  function AllRowDraws(spots: seq<Spot>, rows: seq<seq<string>>): (ds: seq<seq<Draw>>)
    requires |spots| == |rows|
    ensures |ds| == |rows|
    ensures forall r :: 0 <= r < |rows| ==> ds[r] == RowDraws(spots[r], rows[r])
  {
    if |rows| == 0 then [] else [RowDraws(spots[0], rows[0])] + AllRowDraws(spots[1..], rows[1..])
  }

  /** The header at height 750, then the rows from 24 points lower. */
  function CsvLayout(t: Table): TableCanvas
  {
    var spots := RowSpots(|t.rows|, 0, 750 - 12 * 2);
    TableCanvas(RowDraws(Spot(0, 750), t.columns), AllRowDraws(spots, t.rows),
                if |spots| == 0 then 0 else spots[|spots| - 1].page)
  }

  /** How many rows still fit on the current page from height y. */
  function Fit(y: int): nat
  {
    if y < 50 then 0 else (y - 50) / 12 + 1
  }

  lemma FitStep(y: int)
    requires y >= 50
    ensures Fit(y) >= 1 && Fit(y - 12) == Fit(y) - 1
  {
    if y - 12 >= 50 {
      assert (y - 50) == (y - 62) + 12;
    }
  }

  lemma NextTablePage(a: nat)
    ensures (a + 59) / 59 == a / 59 + 1 && (a + 59) % 59 == a % 59
  {
  }

  /** The height and page of row r: the Fit(y) rows that still fit on the
      current page go down in steps of 12; after them every page, from 750
      down to 54, holds 59 rows. */
  function SpotOf(page: nat, y: int, r: nat): Spot
  {
    var f := Fit(y);
    if r < f then Spot(page, y - 12 * r)
    else Spot(page + 1 + (r - f) / 59, 750 - 12 * ((r - f) % 59))
  }

  lemma {:induction false} RowSpotsClosed(n: nat, page: nat, y: int)
    ensures forall r :: 0 <= r < n ==> RowSpots(n, page, y)[r] == SpotOf(page, y, r)
    decreases n
  {
    if n > 0 {
      var spots := RowSpots(n, page, y);
      if y < 50 {
        RowSpotsClosed(n - 1, page + 1, 738);
        assert Fit(738) == 58;
        forall r | 1 <= r < n
          ensures spots[r] == SpotOf(page, y, r)
        {
          assert spots[r] == RowSpots(n - 1, page + 1, 738)[r - 1];
          if r >= 59 {
            NextTablePage(r - 59);
          }
        }
      } else {
        RowSpotsClosed(n - 1, page, y - 12);
        FitStep(y);
        forall r | 1 <= r < n
          ensures spots[r] == SpotOf(page, y, r)
        {
          assert spots[r] == RowSpots(n - 1, page, y - 12)[r - 1];
        }
      }
    }
  }

  /** Header cell c is drawn once, at (50 + 100c, 750) on page 0. The first
      row is at height 726 and row r, for r < 57, at 726 - 12r on page 0;
      row 57 + j goes to page 1 + j div 59 at 750 - 12 (j mod 59). Every row
      is drawn between 50 and 750, its cell c at x = 50 + 100c, and the page
      count grows only before a row, so no empty page is started at the end. */
  lemma CsvLayoutSpec(t: Table)
    ensures var c := CsvLayout(t);
            && |c.header| == |t.columns|
            && (forall i :: 0 <= i < |t.columns| ==> c.header[i] == Draw(0, 50 + 100 * i, 750, t.columns[i]))
            && |c.rows| == |t.rows|
            && (forall r :: 0 <= r < |t.rows| ==>
                  var s := if r < 57 then Spot(0, 726 - 12 * r) else Spot(1 + (r - 57) / 59, 750 - 12 * ((r - 57) % 59));
                  && 50 <= s.y <= 750
                  && |c.rows[r]| == |t.rows[r]|
                  && forall i :: 0 <= i < |t.rows[r]| ==> c.rows[r][i] == Draw(s.page, 50 + 100 * i, s.y, t.rows[r][i]))
            && c.breaks == (if |t.rows| == 0 then 0 else SpotOf(0, 726, |t.rows| - 1).page)
  {
    var spots := RowSpots(|t.rows|, 0, 726);
    RowSpotsClosed(|t.rows|, 0, 726);
    assert Fit(726) == 57;
    RowDrawsSpec(Spot(0, 750), t.columns);
    forall r | 0 <= r < |t.rows|
      ensures |CsvLayout(t).rows[r]| == |t.rows[r]|
      ensures forall i :: 0 <= i < |t.rows[r]| ==> CsvLayout(t).rows[r][i] == Draw(spots[r].page, 50 + 100 * i, spots[r].y, t.rows[r][i])
    {
      RowDrawsSpec(spots[r], t.rows[r]);
    }
  }

  /** Cell i of a row is drawn at x = 50 + 100i at the row's height. */
  lemma {:induction false} RowDrawsSpec(s: Spot, cells: seq<string>)
    ensures |RowDraws(s, cells)| == |cells|
    ensures forall i :: 0 <= i < |cells| ==> RowDraws(s, cells)[i] == Draw(s.page, 50 + 100 * i, s.y, cells[i])
    decreases |cells|
  {
    if |cells| > 0 {
      RowDrawsSpec(s, cells[..|cells| - 1]);
    }
  }
}
