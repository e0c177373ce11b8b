/** The passage ledger: the `EncodePassage` class of main.py and the worksheet `passages.xlsx`
    it appends to and reads back. The file is modelled in memory; a missing file is `None`. */
module Passages {
  import opened Wrappers

  /** A worksheet cell; openpyxl reports an empty cell as None. */
  type Cell = Option<string>
  type Row = seq<Cell>
  /** The active worksheet of passages.xlsx, or None while the file does not exist. */
  type Workbook = Option<seq<Row>>

  const Gate := "Gate1"
  const HeaderText: seq<string> := ["Heure", "ID Carte", "Portail"]
  const Header: Row := [Some("Heure"), Some("ID Carte"), Some("Portail")]
  /** The single row returned for display when the file does not exist. */
  const FileMissing := "⚠ Aucun fichier de passages trouvé."

  // ---------------- time of day, as get_time formats it ----------------

  datatype Clock = Clock(hour: nat, minute: nat, second: nat)
  type TimeOfDay = c: Clock | c.hour < 24 && c.minute < 60 && c.second < 60 witness Clock(0, 0, 0)

  function Digit(d: nat): char
    requires d < 10
  {
    (48 + d) as char
  }

  function TwoDigits(n: nat): string
    requires n < 100
  {
    [Digit(n / 10), Digit(n % 10)]
  }

  predicate IsDigit(c: char) { '0' <= c <= '9' }

  /** strftime("%H:%M:%S"): every field zero-padded to two digits. */
  function FormatTime(t: TimeOfDay): (s: string)
    ensures |s| == 8 && s[2] == ':' && s[5] == ':'
    ensures forall i | 0 <= i < 8 && i != 2 && i != 5 :: IsDigit(s[i])
  {
    TwoDigits(t.hour) + ":" + TwoDigits(t.minute) + ":" + TwoDigits(t.second)
  }

  function DigitValue(c: char): nat
    requires IsDigit(c)
  {
    c as int - '0' as int
  }

  /** Reads back a "HH:MM:SS" text; the inverse of FormatTime. */
  function ParseTime(s: string): Option<TimeOfDay>
  {
    if |s| == 8 && s[2] == ':' && s[5] == ':' && IsDigit(s[0]) && IsDigit(s[1])
       && IsDigit(s[3]) && IsDigit(s[4]) && IsDigit(s[6]) && IsDigit(s[7]) then
      var c := Clock(10 * DigitValue(s[0]) + DigitValue(s[1]),
                     10 * DigitValue(s[3]) + DigitValue(s[4]),
                     10 * DigitValue(s[6]) + DigitValue(s[7]));
      if c.hour < 24 && c.minute < 60 && c.second < 60 then Some(c) else None
    else
      None
  }

  lemma TwoDigitsValue(n: nat)
    requires n < 100
    ensures IsDigit(TwoDigits(n)[0]) && IsDigit(TwoDigits(n)[1])
    ensures 10 * DigitValue(TwoDigits(n)[0]) + DigitValue(TwoDigits(n)[1]) == n
  {
  }

  /** The timestamp written into the ledger can be read back as the same time of day. */
  lemma FormatTimeRoundTrip(t: TimeOfDay)
    ensures ParseTime(FormatTime(t)) == Some(t)
  {
    TwoDigitsValue(t.hour);
    TwoDigitsValue(t.minute);
    TwoDigitsValue(t.second);
    var s := FormatTime(t);
    assert s[0..2] == TwoDigits(t.hour) && s[3..5] == TwoDigits(t.minute) && s[6..8] == TwoDigits(t.second);
  }

  // ---------------- the ledger as a value ----------------

  /** One passage: the wall-clock reading taken when it is logged and the card identity. */
  datatype Passage = Passage(time: TimeOfDay, cardId: string)

  /** The row add_passage writes for a passage. */
  function PassageRow(p: Passage): Row
  {
    [Some(FormatTime(p.time)), Some(p.cardId), Some(Gate)]
  }

  /** The rows of the worksheet add_passage appends to: an existing file as it is,
      a missing one as a new workbook that already holds the header row. */
  function Opened(book: Workbook): seq<Row>
  {
    if book.None? then [Header] else book.value
  }

  /** The workbook after appending one passage, as add_passage saves it. */
  function Append(book: Workbook, p: Passage): (b: Workbook)
    ensures b.Some? && |b.value| == |Opened(book)| + 1
    ensures b.value[..|Opened(book)|] == Opened(book)
    ensures b.value[|Opened(book)|] == PassageRow(p)
    ensures book.None? ==> b.value == [Header, PassageRow(p)]
  {
    Some(Opened(book) + [PassageRow(p)])
  }

  /** The workbook after appending passages in order. */
  function AppendAll(book: Workbook, ps: seq<Passage>): (b: Workbook)
    ensures ps == [] ==> b == book
    ensures ps != [] ==> b.Some? && |b.value| == |Opened(book)| + |ps|
  {
    if ps == [] then book else Append(AppendAll(book, ps[..|ps| - 1]), ps[|ps| - 1])
  }

  lemma AppendAllSnoc(book: Workbook, ps: seq<Passage>, p: Passage)
    ensures AppendAll(book, ps + [p]) == Append(AppendAll(book, ps), p)
  {
    assert (ps + [p])[..|ps|] == ps;
  }

  function PassageRows(ps: seq<Passage>): (rows: seq<Row>)
  {
    seq(|ps|, i requires 0 <= i < |ps| => PassageRow(ps[i]))
  }

  lemma PassageRowsSnoc(ps: seq<Passage>)
    requires ps != []
    ensures PassageRows(ps) == PassageRows(ps[..|ps| - 1]) + [PassageRow(ps[|ps| - 1])]
  {
  }

  /** The ledger is append-only: after any passages the earlier rows are untouched and the new rows
      follow them, one per passage, in insertion order. */
  lemma {:induction false} AppendAllRows(book: Workbook, ps: seq<Passage>)
    ensures AppendAll(book, ps) == if ps == [] then book else Some(Opened(book) + PassageRows(ps))
  {
    if ps != [] {
      var init := ps[..|ps| - 1];
      AppendAllRows(book, init);
      PassageRowsSnoc(ps);
      if init == [] {
        assert AppendAll(book, init) == book;
        assert PassageRows(ps) == [PassageRow(ps[0])];
        assert AppendAll(book, ps) == Append(book, ps[0]);
      } else {
        assert Opened(AppendAll(book, init)) == Opened(book) + PassageRows(init);
        assert AppendAll(book, ps) == Some(Opened(book) + PassageRows(init) + [PassageRow(ps[|ps| - 1])]);
        assert Opened(book) + PassageRows(init) + [PassageRow(ps[|ps| - 1])] == Opened(book) + PassageRows(ps);
      }
    }
  }

  lemma {:induction false} AppendAllConcat(book: Workbook, ps: seq<Passage>, qs: seq<Passage>)
    ensures AppendAll(book, ps + qs) == AppendAll(AppendAll(book, ps), qs)
    decreases |qs|
  {
    if qs == [] {
      assert ps + qs == ps;
    } else {
      var init := qs[..|qs| - 1];
      assert (ps + qs)[..|ps + qs| - 1] == ps + init;
      AppendAllConcat(book, ps, init);
    }
  }

  // ---------------- what get_history returns ----------------

  /** A cell as text: an empty cell renders as the empty string. */
  function RenderCell(c: Cell): string
  {
    if c.None? then "" else c.value
  }

  /** The number of columns openpyxl reports for the sheet: the widest row. */
  function Width(rows: seq<Row>): (w: nat)
    ensures forall i | 0 <= i < |rows| :: |rows[i]| <= w
  {
    if rows == [] then 0
    else
      var w := Width(rows[..|rows| - 1]);
      var last := |rows[|rows| - 1]|;
      if last > w then last else w
  }

  /** One row as iter_rows(values_only=True) yields it and get_history renders it: padded with
      empty cells up to the width of the sheet. */
  function RenderRow(row: Row, width: nat): (r: seq<string>)
    ensures |r| == width
  {
    seq(width, j requires 0 <= j < width => if j < |row| then RenderCell(row[j]) else "")
  }

  /** All rows, header included, rendered as text and all of the sheet's width; the sentinel row
      when the file is missing. */
  function History(book: Workbook): (h: seq<seq<string>>)
    ensures book.None? ==> h == [[FileMissing]]
    ensures book.Some? ==> |h| == |book.value|
    ensures book.Some? ==> forall i | 0 <= i < |h| :: |h[i]| == Width(book.value)
  {
    match book
    case None => [[FileMissing]]
    case Some(rows) => var w := Width(rows); seq(|rows|, i requires 0 <= i < |rows| => RenderRow(rows[i], w))
  }

  /** The sheet is exactly as wide as its widest row. */
  lemma {:induction false} WidthAttained(rows: seq<Row>)
    requires rows != []
    ensures exists i | 0 <= i < |rows| :: |rows[i]| == Width(rows)
  {
    var init := rows[..|rows| - 1];
    if init != [] && |rows[|rows| - 1]| <= Width(init) {
      WidthAttained(init);
      var i :| 0 <= i < |init| && |init[i]| == Width(init);
      assert rows[i] == init[i];
    } else {
      assert |rows[|rows| - 1]| == Width(rows);
    }
  }

  /** `rows` is the sheet `ws` as iter_rows(values_only=True) yields it, rendered as text: one row
      per row of the sheet, every row exactly as wide as the widest one, holding each cell's text
      (an empty cell as "") and then "" for the padding. */
  ghost predicate Padded(ws: seq<Row>, rows: seq<seq<string>>)
  {
    && |rows| == |ws|
    && forall i | 0 <= i < |rows| ::
      && (forall k | 0 <= k < |ws| :: |ws[k]| <= |rows[i]|)
      && (exists k | 0 <= k < |ws| :: |ws[k]| == |rows[i]|)
      && forall j | 0 <= j < |rows[i]| ::
           rows[i][j] == (if j < |ws[i]| && ws[i][j].Some? then ws[i][j].value else "")
  }

  /** History renders an existing sheet padded to its widest row. */
  lemma HistoryCells(ws: seq<Row>)
    ensures Padded(ws, History(Some(ws)))
  {
    if ws != [] {
      WidthAttained(ws);
    }
  }

  /** A ragged sheet: its first row, one cell long, reads back padded to the second row's two. */
  lemma RaggedSheet()
    ensures History(Some([[Some("a")], [Some("b"), Some("c")]])) == [["a", ""], ["b", "c"]]
  {
    var ws: seq<Row> := [[Some("a")], [Some("b"), Some("c")]];
    assert ws[..1] == [[Some("a")]];
    assert Width(ws) == 2;
    var h := History(Some(ws));
    assert h[0] == ["a", ""];
    assert h[1] == ["b", "c"];
  }

  /** Rows that all have the same width need no padding. */
  lemma {:induction false} WidthUniform(rows: seq<Row>, n: nat)
    requires rows != []
    requires forall i | 0 <= i < |rows| :: |rows[i]| == n
    ensures Width(rows) == n
  {
    WidthAttained(rows);
  }

  /** A ledger written only by add_passage is three columns wide. */
  lemma LedgerWidth(ps: seq<Passage>)
    ensures Width([Header] + PassageRows(ps)) == 3
  {
    var rows := [Header] + PassageRows(ps);
    forall i | 0 <= i < |rows| ensures |rows[i]| == 3 {
      if i > 0 { assert rows[i] == PassageRow(ps[i - 1]); }
    }
    WidthUniform(rows, 3);
  }

  /** A ledger written only by add_passage reads back as the header followed by one row per
      passage, in order. */
  lemma LedgerHistory(ps: seq<Passage>)
    ensures var h := History(Some([Header] + PassageRows(ps)));
      && |h| == |ps| + 1
      && h[0] == HeaderText
      && forall i | 0 <= i < |ps| :: h[i + 1] == [FormatTime(ps[i].time), ps[i].cardId, Gate]
  {
    var rows := [Header] + PassageRows(ps);
    LedgerWidth(ps);
    var h := History(Some(rows));
    assert h[0] == RenderRow(Header, 3);
    RenderHeader();
    forall i | 0 <= i < |ps| ensures h[i + 1] == [FormatTime(ps[i].time), ps[i].cardId, Gate] {
      assert rows[i + 1] == PassageRow(ps[i]);
      RenderPassageRow(ps[i]);
    }
  }

  /** Round trip: starting from a missing file, the history after n >= 1 passages is the header
      followed by one row per passage, with the card identities in insertion order. */
  lemma HistoryAfterPassages(ps: seq<Passage>)
    requires ps != []
    ensures var h := History(AppendAll(None, ps));
      && |h| == |ps| + 1
      && h[0] == HeaderText
      && forall i | 0 <= i < |ps| :: h[i + 1] == [FormatTime(ps[i].time), ps[i].cardId, Gate]
  {
    AppendAllRows(None, ps);
    assert AppendAll(None, ps) == Some([Header] + PassageRows(ps));
    LedgerHistory(ps);
  }

  /** The first passage logged when there is no file yet: the new file holds the header and that
      passage's row, and reads back as both rendered as text. */
  lemma FirstPassage(p: Passage)
    ensures AppendAll(None, [p]) == Some([Header, PassageRow(p)])
    ensures History(AppendAll(None, [p])) == [HeaderText, [FormatTime(p.time), p.cardId, Gate]]
  {
    assert [p][..0] == [];
    assert [Header] + [PassageRow(p)] == [Header, PassageRow(p)];
    HistoryAfterPassages([p]);
    var h := History(AppendAll(None, [p]));
    assert h == [h[0], h[1]];
  }

  lemma RenderHeader()
    ensures RenderRow(Header, 3) == HeaderText
  {
  }

  lemma RenderPassageRow(p: Passage)
    ensures RenderRow(PassageRow(p), 3) == [FormatTime(p.time), p.cardId, Gate]
  {
  }

  // ---------------- EncodePassage ----------------

  class EncodePassage {
    /** passages.xlsx as it currently is on disk. */
    var book: Workbook

    constructor (existing: Workbook)
      ensures book == existing
    {
      book := existing;
    }

    /** add_passage: open the file, or create it with the header row when it does not exist,
        append one row `[time, card id, "Gate1"]` and save. The wall-clock reading is a parameter. */
    method AddPassage(now: TimeOfDay, cardId: string)
      modifies this
      ensures book.Some?
      ensures old(book).None? ==> book.value == [Header, [Some(FormatTime(now)), Some(cardId), Some(Gate)]]
      ensures old(book).Some? ==> book.value == old(book).value + [[Some(FormatTime(now)), Some(cardId), Some(Gate)]]
      ensures book == Append(old(book), Passage(now, cardId))
    {
      var ws: seq<Row>;
      match book {
        case Some(rows) =>
          ws := rows;
        case None =>
          ws := [Header];
      }
      ws := ws + [[Some(FormatTime(now)), Some(cardId), Some(Gate)]];
      book := Some(ws);
    }

    /** get_history: every row of the file, header included, each cell as text with empty cells
        as "" and every row padded with "" to the widest one; a missing file is not an error and
        gives the single sentinel row. */
    method GetHistory() returns (rows: seq<seq<string>>)
      ensures book.None? ==> rows == [[FileMissing]]
      ensures book.Some? ==> |rows| == |book.value|
      ensures book.Some? ==> Padded(book.value, rows)
      ensures rows == History(book)
    {
      match book {
        case None =>
          rows := [[FileMissing]];
        case Some(ws) =>
          // the sheet's max_column
          var width := 0;
          var i := 0;
          while i < |ws|
            invariant 0 <= i <= |ws|
            invariant width == Width(ws[..i])
          {
            assert ws[..i + 1][..i] == ws[..i];
            if |ws[i]| > width {
              width := |ws[i]|;
            }
            i := i + 1;
          }
          assert ws[..i] == ws;
          rows := [];
          i := 0;
          while i < |ws|
            invariant 0 <= i <= |ws|
            invariant |rows| == i
            invariant forall k | 0 <= k < i :: rows[k] == RenderRow(ws[k], width)
          {
            rows := rows + [RenderRow(ws[i], width)];
            i := i + 1;
          }
          assert rows == History(book);
          HistoryCells(ws);
      }
    }
  }
}
