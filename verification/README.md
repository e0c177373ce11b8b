# Card-presence monitor: a Dafny model

This project models the core of a small badge-reader dashboard (`main.py`). A card reader is
polled over and over. The reader's answers become a feed of status messages and card numbers.
Every card that is inserted is logged once, with the time of day and the gate label, in an
append-only spreadsheet of passages (`passages.xlsx`). The dashboard shows the current card, the
current status and the whole passage history.

The model has three modules, one per class of the source:

- `Passages` (`passages.dfy`) is the ledger, `EncodePassage`. The spreadsheet is an in-memory
  `Option<seq<Row>>`, where `None` means the file does not exist yet. `add_passage` and
  `get_history` are methods of a class whose `book` field is the file. Pure functions
  (`Append`, `AppendAll`, `History`) specify them. The time of day is formatted as
  `strftime("%H:%M:%S")` does, and a parser proves the format can be read back. As with
  `iter_rows(values_only=True)`, the history is rectangular: a row shorter than the widest one is
  padded with empty cells, rendered as `""`.
- `Presence` (`presence.dfy`) is the card reader, `Card`. Each call of `read_card` consumes one
  *probe*:
  - `Present(id)`: the card with number `id` is read;
  - `Absent`: `RuntimeError`, meaning no card or the reader is not ready;
  - `Fault`: any other exception.

  The two async generators `wait_for_card` and `wait_for_remove_card` are methods. Each runs over
  a finite sequence of probes and returns the events it yields, the number of probes it used and
  how it ended: `Finished`, `Raised`, or `OutOfProbes` when the finite input ran out while it
  was still polling. Each method is proved equal to a recursive specification function
  (`WaitForCardSpec`, `WaitForRemoveCardSpec`). Shape lemmas then state what those functions
  emit without recursion.
- `Dashboard` (`dashboard.dfy`) is `CardDashboard.monitor_cards`.
  - `Cycle` and `Trace` give the event stream of its endless loop: one turn per card.
  - `OnEvent`/`OnEvents` give how the dashboard handles each event: `status` and `card_id`
    are replaced, a passage is appended, and the history is re-read.
  - `Detections` is an independent account, read off the probes alone, of which cards get
    logged: one per presence interval.
  - The class `CardDashboard` has the fields `status`, `card_id` and `history_lines` and the
    reader (with its ledger). Its method `MonitorCards` runs the loop until the probes run out or
    an exception escapes. It is proved to leave the dashboard as `OnEvents` of `Trace` says.
    `RunOutcome` then reads that end state off the probes.

The model follows the code as written; in particular:

- In the removal phase, any exception from the reader counts as "card removed" (the bare
  `except: break`), not as "still present".
- In the waiting phase, only `RuntimeError` means "no card". Any other exception escapes
  `read_card`, `wait_for_card` and `monitor_cards`, and ends the monitor (`Raised`). It is not
  absorbed.
- `get_history` returns the header row too. With no file it returns the one sentinel row, not an
  empty history.
- A failed ledger write is not caught, and no error status is shown.

## Model

| member | source | states |
|---|---|---|
| Passages.FormatTimeRoundTrip | main.py:28-30 | the `HH:MM:SS` timestamp written for a passage parses back to the same time of day |
| Passages.FormatTime | main.py:30 | the timestamp is eight characters: two-digit hour, minute and second separated by colons |
| Passages.EncodePassage.AddPassage | main.py:16-26 | with no file: the new file is the header `Heure, ID Carte, Portail` then the row `[time, card id, "Gate1"]`; with a file: exactly that one row is added at the end and every earlier row is kept |
| Passages.EncodePassage.GetHistory | main.py:48-60 | every row, header included, in file order, padded with `""` to the width of the widest row, each empty cell as `""` and every other cell as its text; with no file, the single sentinel row and no failure |
| Passages.Append | main.py:18-25 | with no file, the new sheet is the header followed by the passage's row; otherwise every earlier row is kept and exactly one row, the passage's, is added after them |
| Passages.AppendAll | main.py:16-26 | no passages leave the file as it was; after at least one the file exists and has gained exactly one row per passage |
| Passages.History | main.py:52-60 | with no file, the single sentinel row; otherwise one rendered row per row of the sheet, all of the same width, that of the sheet |
| Passages.HistoryCells | main.py:56-57 | each rendered row is as wide as the widest row of the sheet, so shorter rows are padded, and holds each cell's text, with `""` for an empty cell and for the padding |
| Passages.RaggedSheet | main.py:56-57 | a sheet whose first row has one cell and second row two reads back as `["a", ""]`, `["b", "c"]` |
| Passages.WidthAttained | main.py:56 | the width rows are padded to is that of an actual row of the sheet, not more |
| Passages.LedgerWidth | main.py:21-25 | a ledger written only by `add_passage` is three columns wide, so reading it back pads nothing |
| Passages.LedgerHistory | main.py:55-58 | a ledger written only by `add_passage` reads back as the header followed by one row per passage, in order |
| Passages.AppendAllRows | main.py:16-26 | the ledger is append-only: after any passages the earlier rows are unchanged and one row per passage follows, in insertion order |
| Passages.AppendAllConcat | main.py:16-26 | appending two batches of passages one after the other is the same as appending them all in order |
| Passages.HistoryAfterPassages | main.py:55-58 | round trip: from no file, the history after n >= 1 passages is the header and n rows carrying the appended times and card ids in insertion order, with the gate label |
| Passages.FirstPassage | main.py:21-25 | the first passage creates the file with the header and its own row, and reads back as those two rows |
| Presence.Card.constructor | main.py:64-66 | a new reader holds no card informations and opens the ledger as it is |
| Presence.Card.ReadCard | main.py:68-74 | True exactly when a card is read, and then the card's number is stored; False exactly on `RuntimeError`, leaving it unchanged; any other exception escapes |
| Presence.Card.WaitForCard | main.py:76-86 | the events, probes used and ending are those of `WaitForCardSpec`; the stored card is the last one read among the probes used |
| Presence.WaitForCardSpec | main.py:76-86 | it uses only the probes it is given: all of them when they ran out, at least one otherwise; a finished wait stopped on a probe that read a card |
| Presence.WaitForCardShape | main.py:77-86 | after k failing probes: the prompt once if k > 0, then either the probes ran out, or the next probe raised and the generator stopped, or it read a card and yielded exactly "Lecture en cours...", that card's number and "Veuillez retirer votre carte...", then stopped |
| Presence.InsertPromptAtMostOnce | main.py:77-82 | "Veuillez insérer une carte..." is emitted at most once, exactly when the first probe finds no card, and then before anything else |
| Presence.Card.WaitForRemoveCard | main.py:89-98 | the events, probes used and ending are those of `WaitForRemoveCardSpec`; the stored card is the last one read |
| Presence.WaitForRemoveCardSpec | main.py:89-98 | the removal phase never lets an exception out; it uses only the probes given, all of them when they ran out, at least one when it finishes |
| Presence.WaitForRemoveCardShape | main.py:90-97 | it polls while a card is read, stops at the first probe that is absent or raises, and then says "Carte retirée" exactly once |
| Presence.LastRead | main.py:68-74 | the card number the reader holds after a series of probes; its meaning is stated by the two lemmas below |
| Presence.LastReadLastCard | main.py:70-72 | the reader holds the number read by the last probe that read a card |
| Presence.LastReadNoCard | main.py:73-74 | probes that read no card leave the held card number unchanged |
| Presence.LastReadConcat | main.py:71 | the card stored after two runs of probes is the one stored by the second run, started from what the first left |
| Dashboard.Cycle | main.py:111-124 | one turn of the loop uses only the probes given, and at least one when it completes |
| Dashboard.CycleRunsOut | main.py:111-124 | a turn that ends for want of probes has used all of them |
| Dashboard.Trace | main.py:110-125 | the loop never finishes on its own: it stops only on an escaped exception or at the end of the probe input, and in that case every probe has been used |
| Dashboard.OnEvent | main.py:113-119 | a status event replaces `status` and nothing else; a card_id event replaces `card_id`, leaves `status`, appends exactly that card's passage stamped with the run's next clock reading, sets `history_lines` to what the ledger then reads back, and counts one more passage |
| Dashboard.OnEvents | main.py:113-124 | handling a run of events in order counts exactly one passage per card_id event |
| Dashboard.OnCardIdBook | main.py:116-118 | one card_id event adds the next passage of the run at the end of the ledger |
| Dashboard.OnEventsFields | main.py:113-124 | after any events, `status` is the text of the last status event and `card_id` the last card number yielded (each unchanged if there is none); one passage is counted per card_id event |
| Dashboard.OnEventsBook | main.py:116-118 | after any events, the ledger has gained one passage per card_id event, in order, each stamped with the clock reading for its place in the run |
| Dashboard.OnEventsHistory | main.py:116-119 | `history_lines` is what the ledger reads back after the last append, and is unchanged if nothing was appended |
| Dashboard.OnStatusEvents | main.py:114-115 | events without a card number change nothing but `status` |
| Dashboard.RemovalOnlyStatus | main.py:122-124 | the removal phase never changes `card_id`, the ledger or `history_lines` |
| Dashboard.WaitDetections | main.py:113-119 | the waiting phase logs at most one card, the one it read, and that is the card the probes show arriving |
| Dashboard.RemoveDetections | main.py:122-124 | the removal phase logs no card; once it ends, a new card can be logged again |
| Dashboard.CycleDetections | main.py:111-124 | one turn of the loop logs the card it read, if any, and nothing else |
| Dashboard.TraceDetections | main.py:110-125 | one passage per presence interval: the cards monitor_cards logs are exactly the cards the probes show arriving, in order |
| Dashboard.CycleMilestones | main.py:111-124 | a turn detects at most one card and only afterwards sees it removed |
| Dashboard.DetectionsAlternateWithRemovals | main.py:110-125 | a card is never logged twice without its removal seen in between: detections and removals alternate, starting with a detection |
| Dashboard.RunOutcome | main.py:110-125 | handling a whole run's events leaves the last status, the last card number, one passage per presence interval appended in order, and the history re-read after the last one |
| Dashboard.OneCardScenario | main.py:110-125 | two empty probes, a card read twice, then no card: from no file, one passage for that card, its number and "Carte retirée" shown, and a history of the header and that row |
| Dashboard.RemovalStep | main.py:121-124 | after the removal phase the dashboard and the stored card are those of the whole turn |
| Dashboard.CardDashboard.constructor | main.py:101-108 | "Aucune carte détectée", "En attente..." and an empty history, over a fresh reader holding no card |
| Dashboard.CardDashboard.LogCard | main.py:117-119 | the card_id branch: `card_id` is the card read, the ledger gains exactly that passage, and `history_lines` is the new ledger read back |
| Dashboard.CardDashboard.WaitPhase | main.py:113-119 | the first `async for`: the fields and the ledger are as handling the waiting phase's events in order leaves them |
| Dashboard.CardDashboard.RemovePhase | main.py:122-124 | the second `async for`: only `status` changes, to the last status yielded |
| Dashboard.CardDashboard.RunCycle | main.py:111-125 | one turn of `while True`: its events are those of `Cycle`, and the removal phase is entered only after a card was read |
| Dashboard.CardDashboard.MonitorCards | main.py:110-125 | the run ends as `Trace` says; the dashboard and the ledger are as handling all of its events in order leaves them; the stored card is the last one read |

## Left out

- The Textual user interface (`compose`, `on_mount`, the `watch_*` callbacks, the reactive-attribute
  machinery, panel formatting): presentation only.
- `show_passages`: console rendering with Rich; it changes no state.
- The `pythonbeid` reader driver is foreign hardware code. It is replaced by the probe sequence.
  `Card.raw` keeps only the card number, `str(raw["num_carte"])`, not the other informations
  `read_informations` returns.
- openpyxl file I/O: the workbook is an in-memory row sequence. Cells are strings or empty, so
  `str()` of other cell types is not modelled.
- The sheet's size is that of the stored row sequence. openpyxl derives `max_row` and `max_column`
  from the cells it stores, so a trailing run of empty cells or rows is not distinguished from
  cells that were never written.
- `asyncio.sleep` and task creation: only the order of events and state changes is kept.
- The generators are modelled as returning their whole event list, which the dashboard then
  handles in order. Neither generator reads the dashboard's state, so the effects and their order
  are the same as with the interleaving.
- Dashboard.CardDashboard.MonitorCards: the endless `while True` is bounded by the finite probe
  input. A run that would go on polling ends with `OutOfProbes` instead.
- Passages.EncodePassage.AddPassage: the wall clock is a parameter. In the dashboard it is a
  function from the passage's position in the run to a time of day. Which instant is read is not
  modelled.
- Ledger write or read failures (a locked or corrupt file) are not modelled. The source does not
  handle them, and they would end `monitor_cards`.
- Cancellation of the monitor task from outside is not modelled.
