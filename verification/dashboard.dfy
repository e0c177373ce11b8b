/** The dashboard: `CardDashboard.monitor_cards` in main.py, which runs the presence cycle,
    copies the yielded events into its `status`, `card_id` and `history_lines` fields and logs
    each detected card in the passage ledger. */
module Dashboard {
  import opened Wrappers
  import opened Passages
  import opened Presence

  /** The initial values of the dashboard's reactive fields. */
  const NoCardYet := "Aucune carte détectée"
  const Idle := "En attente..."

  /** One turn of monitor_cards' `while True`: a waiting phase and, once a card is read, the
      removal phase. It finishes only if the card was seen to go. */
  function Cycle(probes: seq<Probe>): (c: Phase)
    ensures c.consumed <= |probes|
    ensures c.ending == Finished ==> 1 <= c.consumed
  {
    var w := WaitForCardSpec(probes, true);
    if w.ending != Finished then w
    else Then(w.events, w.consumed, WaitForRemoveCardSpec(probes[w.consumed..]))
  }

  /** A turn that ends for want of probes has used every one of them. */
  lemma CycleRunsOut(probes: seq<Probe>)
    ensures Cycle(probes).ending == OutOfProbes ==> Cycle(probes).consumed == |probes|
  {
  }

  /** The events of monitor_cards' endless loop over the given probes: cycle after cycle. The
      loop never ends on its own: only an exception or the end of the probe input stops it. */
  function Trace(probes: seq<Probe>): (t: Phase)
    ensures t.consumed <= |probes|
    ensures t.ending != Finished
    ensures t.ending == OutOfProbes ==> t.consumed == |probes|
    decreases |probes|
  {
    var c := Cycle(probes);
    if c.ending != Finished then c
    else Then(c.events, c.consumed, Trace(probes[c.consumed..]))
  }

  /** Reading `used` more of the probes still to come. */
  lemma ReadOn(read: seq<Probe>, rest: seq<Probe>, used: nat, raw: Option<string>)
    requires used <= |rest|
    ensures (read + rest[..used]) + rest[used..] == read + rest
    ensures LastRead(read + rest[..used], raw) == LastRead(rest[..used], LastRead(read, raw))
  {
    assert rest[..used] + rest[used..] == rest;
    LastReadConcat(read, rest[..used], raw);
  }

  lemma ThenThen(a: seq<Event>, n: nat, b: seq<Event>, m: nat, t: Phase)
    ensures Then(a, n, Then(b, m, t)) == Then(a + b, n + m, t)
  {
    assert a + (b + t.events) == (a + b) + t.events;
  }

  /** A cycle over the probes still to come that ends the run. */
  lemma TraceStops(total: Phase, seen: seq<Event>, done: nat, rest: seq<Probe>, c: Phase)
    requires total == Then(seen, done, Trace(rest))
    requires c == Cycle(rest) && c.ending != Finished
    ensures total == Phase(seen + c.events, done + c.consumed, c.ending)
  {
  }

  /** A cycle over the probes still to come that sees a card come and go: the next one begins. */
  lemma TraceGoesOn(total: Phase, seen: seq<Event>, done: nat, rest: seq<Probe>, c: Phase)
    requires total == Then(seen, done, Trace(rest))
    requires c == Cycle(rest) && c.ending == Finished
    ensures total == Then(seen + c.events, done + c.consumed, Trace(rest[c.consumed..]))
  {
    ThenThen(seen, done, c.events, c.consumed, Trace(rest[c.consumed..]));
  }

  // ---------------- what the dashboard makes of the events ----------------

  /** The text of the last status event, or `s` when there is none. */
  function LastStatus(events: seq<Event>, s: string): string
  {
    if events == [] then s
    else if events[|events| - 1].Status? then events[|events| - 1].text
    else LastStatus(events[..|events| - 1], s)
  }

  /** The identity of the last card_id event, or `c` when there is none. */
  function LastCardId(events: seq<Event>, c: string): string
  {
    if events == [] then c
    else if events[|events| - 1].CardId? then events[|events| - 1].id
    else LastCardId(events[..|events| - 1], c)
  }

  /** The identities of the card_id events, in order. */
  function CardIds(events: seq<Event>): seq<string>
  {
    if events == [] then []
    else if events[|events| - 1].CardId? then CardIds(events[..|events| - 1]) + [events[|events| - 1].id]
    else CardIds(events[..|events| - 1])
  }

  lemma {:induction false} CardIdsConcat(a: seq<Event>, b: seq<Event>)
    ensures CardIds(a + b) == CardIds(a) + CardIds(b)
    decreases |b|
  {
    if b == [] {
      assert a + b == a;
    } else {
      assert (a + b)[..|a + b| - 1] == a + b[..|b| - 1];
      CardIdsConcat(a, b[..|b| - 1]);
    }
  }

  lemma CardIdsSingleton(e: Event)
    ensures CardIds([e]) == if e.CardId? then [e.id] else []
  {
    assert [e][..0] == [];
  }

  lemma CardIdsDetection(id: string)
    ensures CardIds(DetectionEvents(id)) == [id]
  {
    var d := DetectionEvents(id);
    assert d == [d[0]] + [d[1]] + [d[2]];
    CardIdsSingleton(d[0]);
    CardIdsSingleton(d[1]);
    CardIdsSingleton(d[2]);
    CardIdsConcat([d[0]], [d[1]]);
    CardIdsConcat([d[0]] + [d[1]], [d[2]]);
  }

  /** The passages logged for card identities, the i-th stamped with the clock's reading
      when the (k + i)-th passage of the run is appended. */
  function Entries(ids: seq<string>, now: nat -> TimeOfDay, k: nat): (ps: seq<Passage>)
    ensures |ps| == |ids|
  {
    if ids == [] then []
    else Entries(ids[..|ids| - 1], now, k) + [Passage(now(k + |ids| - 1), ids[|ids| - 1])]
  }

  lemma EntriesSnoc(ids: seq<string>, id: string, now: nat -> TimeOfDay, k: nat, n: nat)
    requires n == k + |ids|
    ensures Entries(ids + [id], now, k) == Entries(ids, now, k) + [Passage(now(n), id)]
  {
    assert (ids + [id])[..|ids|] == ids;
  }

  /** What the dashboard holds: its three reactive fields, the ledger file, and the number of
      passages logged so far in the run (which decides the clock reading of the next one). */
  datatype Snapshot = Snapshot(status: string, cardId: string, book: Workbook,
                               history: seq<seq<string>>, logged: nat)

  /** One event as monitor_cards handles it: a status event replaces `status`; a card_id event
      replaces `card_id`, appends the passage to the ledger, then re-reads the whole history. */
  function OnEvent(v: Snapshot, e: Event, now: nat -> TimeOfDay): (r: Snapshot)
    ensures e.Status? ==> r == v.(status := e.text)
    ensures e.CardId? ==> r.status == v.status && r.cardId == e.id && r.logged == v.logged + 1
    ensures e.CardId? ==> r.book == Append(v.book, Passage(now(v.logged), e.id)) && r.history == History(r.book)
  {
    match e
    case Status(text) => v.(status := text)
    case CardId(id) =>
      var book := Append(v.book, Passage(now(v.logged), id));
      v.(cardId := id, book := book, history := History(book), logged := v.logged + 1)
  }

  /** The events handled one after the other. */
  function OnEvents(v: Snapshot, events: seq<Event>, now: nat -> TimeOfDay): (r: Snapshot)
    ensures r.logged == v.logged + |CardIds(events)|
  {
    if events == [] then v
    else OnEvent(OnEvents(v, events[..|events| - 1], now), events[|events| - 1], now)
  }

  lemma {:induction false} OnEventsConcat(v: Snapshot, a: seq<Event>, b: seq<Event>, now: nat -> TimeOfDay)
    ensures OnEvents(v, a + b, now) == OnEvents(OnEvents(v, a, now), b, now)
    decreases |b|
  {
    if b == [] {
      assert a + b == a;
    } else {
      assert (a + b)[..|a + b| - 1] == a + b[..|b| - 1];
      OnEventsConcat(v, a, b[..|b| - 1], now);
    }
  }

  /** After any events, `status` is the text of the last status event (unchanged if there is
      none) and `card_id` the identity of the last card_id event (unchanged if there is none). */
  lemma {:induction false} OnEventsFields(v: Snapshot, events: seq<Event>, now: nat -> TimeOfDay)
    ensures OnEvents(v, events, now).status == LastStatus(events, v.status)
    ensures OnEvents(v, events, now).cardId == LastCardId(events, v.cardId)
    ensures OnEvents(v, events, now).logged == v.logged + |CardIds(events)|
  {
    if events != [] {
      OnEventsFields(v, events[..|events| - 1], now);
    }
  }

  /** One card_id event appends the next passage of the run to the ledger: `r` is the snapshot
      after it, whose ledger gained the passage stamped with the clock reading for that place. */
  lemma OnCardIdBook(w: Snapshot, id: string, now: nat -> TimeOfDay, book: Workbook, ids: seq<string>, k: nat, r: Snapshot)
    requires w.book == AppendAll(book, Entries(ids, now, k)) && w.logged == k + |ids|
    requires r.book == Append(w.book, Passage(now(w.logged), id))
    ensures r.book == AppendAll(book, Entries(ids + [id], now, k))
  {
    var p := Passage(now(w.logged), id);
    EntriesSnoc(ids, id, now, k, w.logged);
    AppendAllSnoc(book, Entries(ids, now, k), p);
  }

  /** After any events, the ledger holds one more passage per card_id event, in order, each
      stamped with the clock reading for its place in the run, and nothing else changed in it. */
  lemma {:induction false} OnEventsBook(v: Snapshot, events: seq<Event>, now: nat -> TimeOfDay)
    ensures OnEvents(v, events, now).book == AppendAll(v.book, Entries(CardIds(events), now, v.logged))
  {
    if events != [] {
      var init := events[..|events| - 1];
      OnEventsBook(v, init, now);
      var e := events[|events| - 1];
      if e.CardId? {
        OnCardIdBook(OnEvents(v, init, now), e.id, now, v.book, CardIds(init), v.logged, OnEvents(v, events, now));
      }
    }
  }

  /** After any events, `history_lines` is what the ledger reads back after the last append,
      and unchanged if nothing was appended. */
  lemma {:induction false} OnEventsHistory(v: Snapshot, events: seq<Event>, now: nat -> TimeOfDay)
    ensures OnEvents(v, events, now).history
            == if CardIds(events) == [] then v.history else History(OnEvents(v, events, now).book)
  {
    if events != [] {
      var init := events[..|events| - 1];
      OnEventsHistory(v, init, now);
      if !events[|events| - 1].CardId? {
        assert CardIds(events) == CardIds(init);
      }
    }
  }

  /** Events without any card_id only ever change `status`. */
  lemma {:induction false} OnStatusEvents(v: Snapshot, events: seq<Event>, now: nat -> TimeOfDay)
    requires CardIds(events) == []
    ensures OnEvents(v, events, now) == v.(status := LastStatus(events, v.status))
  {
    if events != [] {
      OnStatusEvents(v, events[..|events| - 1], now);
    }
  }

  /** The events of a removal phase only ever change `status`. */
  lemma RemovalOnlyStatus(v: Snapshot, probes: seq<Probe>, r: Phase, now: nat -> TimeOfDay)
    requires r == WaitForRemoveCardSpec(probes)
    ensures OnEvents(v, r.events, now) == v.(status := LastStatus(r.events, v.status))
  {
    RemoveDetections(probes, r);
    OnStatusEvents(v, r.events, now);
  }

  // ---------------- which cards are logged ----------------

  /** An independent account of which cards get logged, read off the probes alone: a card is
      logged at the first probe of each presence interval, where an interval ends at any probe
      that does not read a card; while no card is present, an unexpected reader exception
      stops the monitor. `armed` is false while the last card read is still being removed. */
  function Detections(probes: seq<Probe>, armed: bool): seq<string>
  {
    if probes == [] then []
    else match probes[0]
      case Present(id) => (if armed then [id] else []) + Detections(probes[1..], false)
      case Absent => Detections(probes[1..], true)
      case Fault => if armed then [] else Detections(probes[1..], true)
  }

  lemma {:induction false} DetectionsSkipAbsent(probes: seq<Probe>, k: nat)
    requires k <= |probes|
    requires forall j | 0 <= j < k :: probes[j] == Absent
    ensures Detections(probes, true) == Detections(probes[k..], true)
  {
    if k > 0 {
      DetectionsSkipAbsent(probes[1..], k - 1);
      assert probes[1..][k - 1..] == probes[k..];
    }
  }

  lemma {:induction false} DetectionsSkipPresent(probes: seq<Probe>, k: nat)
    requires k <= |probes|
    requires forall j | 0 <= j < k :: probes[j].Present?
    ensures Detections(probes, false) == Detections(probes[k..], false)
  {
    if k > 0 {
      DetectionsSkipPresent(probes[1..], k - 1);
      assert probes[1..][k - 1..] == probes[k..];
    }
  }

  /** A waiting phase yields at most the one identity it read, and that identity is the
      detection the probes account for. */
  lemma WaitDetections(probes: seq<Probe>, w: Phase)
    requires w == WaitForCardSpec(probes, true)
    ensures w.ending == Finished ==>
      && CardIds(w.events) == [probes[w.consumed - 1].id]
      && Detections(probes, true) == [probes[w.consumed - 1].id] + Detections(probes[w.consumed..], false)
    ensures w.ending != Finished ==> CardIds(w.events) == [] && Detections(probes, true) == []
  {
    WaitForCardShape(probes, true);
    var k := LeadingAbsent(probes);
    DetectionsSkipAbsent(probes, k);
    var prompt: seq<Event> := if k > 0 then [Status(InsertCard)] else [];
    CardIdsSingleton(Status(InsertCard));
    assert CardIds(prompt) == [];
    if k < |probes| && probes[k].Present? {
      var id := probes[k].id;
      CardIdsDetection(id);
      CardIdsConcat(prompt, DetectionEvents(id));
      assert probes[k..][1..] == probes[k + 1..];
    } else {
      assert w.events == prompt + [];
    }
  }

  /** A removal phase yields no identity; once it ends the probes are back to waiting. */
  lemma RemoveDetections(probes: seq<Probe>, r: Phase)
    requires r == WaitForRemoveCardSpec(probes)
    ensures CardIds(r.events) == []
    ensures r.ending == Finished ==> Detections(probes, false) == Detections(probes[r.consumed..], true)
    ensures r.ending != Finished ==> Detections(probes, false) == []
  {
    WaitForRemoveCardShape(probes);
    var m := LeadingPresent(probes);
    DetectionsSkipPresent(probes, m);
    CardIdsSingleton(Status(CardRemoved));
    if m < |probes| {
      assert probes[m..][1..] == probes[m + 1..];
    }
  }

  /** A card read, then seen to go or not: the identities of the two phases together against
      what the probes account for. */
  lemma DetectionThenRemoval(w: Phase, r: Phase, c: Phase, id: string,
                             dp: seq<string>, dq: seq<string>, dnext: seq<string>)
    requires CardIds(w.events) == [id] && dp == [id] + dq
    requires CardIds(r.events) == []
    requires r.ending == Finished ==> dq == dnext
    requires r.ending != Finished ==> dq == []
    requires c == Then(w.events, w.consumed, r)
    ensures c.ending == Finished ==> dp == CardIds(c.events) + dnext
    ensures c.ending != Finished ==> dp == CardIds(c.events)
  {
    CardIdsConcat(w.events, r.events);
    assert CardIds(c.events) == [id] + [];
  }

  /** A cycle that read a card, given by its two phases. */
  lemma CompleteCycleDetections(probes: seq<Probe>, w: Phase, r: Phase, c: Phase)
    requires w == WaitForCardSpec(probes, true) && w.ending == Finished
    requires r == WaitForRemoveCardSpec(probes[w.consumed..])
    requires c == Then(w.events, w.consumed, r)
    ensures c.ending == Finished ==>
      Detections(probes, true) == CardIds(c.events) + Detections(probes[c.consumed..], true)
    ensures c.ending != Finished ==> Detections(probes, true) == CardIds(c.events)
  {
    WaitDetections(probes, w);
    var q := probes[w.consumed..];
    RemoveDetections(q, r);
    assert q[r.consumed..] == probes[c.consumed..];
    DetectionThenRemoval(w, r, c, probes[w.consumed - 1].id,
                         Detections(probes, true), Detections(q, false), Detections(probes[c.consumed..], true));
  }

  /** A cycle yields the one identity it read, if any, which is the detection the probes
      account for; after a complete cycle the probes are back to waiting for a card. */
  lemma CycleDetections(probes: seq<Probe>)
    ensures var c := Cycle(probes);
      c.ending == Finished ==>
        Detections(probes, true) == CardIds(c.events) + Detections(probes[c.consumed..], true)
    ensures var c := Cycle(probes);
      c.ending != Finished ==> Detections(probes, true) == CardIds(c.events)
  {
    var w := WaitForCardSpec(probes, true);
    if w.ending == Finished {
      CompleteCycleDetections(probes, w, WaitForRemoveCardSpec(probes[w.consumed..]), Cycle(probes));
    } else {
      WaitDetections(probes, w);
    }
  }

  /** One passage per presence interval: the card identities monitor_cards yields, and so logs,
      are exactly the detections read off the probes. */
  lemma {:induction false} TraceDetections(probes: seq<Probe>)
    ensures CardIds(Trace(probes).events) == Detections(probes, true)
    decreases |probes|
  {
    CycleDetections(probes);
    var c := Cycle(probes);
    if c.ending == Finished {
      var rest := probes[c.consumed..];
      TraceDetections(rest);
      CardIdsConcat(c.events, Trace(rest).events);
    }
  }

  // ---------------- the order of detections and removals ----------------

  /** The events that matter for logging: a card detected, a card removed. */
  datatype Milestone = Detected(id: string) | Removed

  function Milestones(events: seq<Event>): seq<Milestone>
  {
    if events == [] then []
    else
      (match events[0]
       case CardId(id) => [Detected(id)]
       case Status(text) => if text == CardRemoved then [Removed] else [])
      + Milestones(events[1..])
  }

  lemma {:induction false} MilestonesConcat(a: seq<Event>, b: seq<Event>)
    ensures Milestones(a + b) == Milestones(a) + Milestones(b)
  {
    if a != [] {
      assert (a + b)[1..] == a[1..] + b;
      MilestonesConcat(a[1..], b);
    } else {
      assert a + b == b;
    }
  }

  lemma MilestonesSingleton(e: Event)
    ensures Milestones([e]) == match e
      case CardId(id) => [Detected(id)]
      case Status(text) => if text == CardRemoved then [Removed] else []
  {
    assert [e][1..] == [];
  }

  lemma MilestonesDetection(id: string)
    ensures Milestones(DetectionEvents(id)) == [Detected(id)]
  {
    var d := DetectionEvents(id);
    assert d == [d[0]] + [d[1]] + [d[2]];
    MilestonesSingleton(d[0]);
    MilestonesSingleton(d[1]);
    MilestonesSingleton(d[2]);
    MilestonesConcat([d[0]], [d[1]]);
    MilestonesConcat([d[0]] + [d[1]], [d[2]]);
  }

  lemma WaitMilestones(probes: seq<Probe>, w: Phase)
    requires w == WaitForCardSpec(probes, true)
    ensures w.ending == Finished ==> Milestones(w.events) == [Detected(probes[w.consumed - 1].id)]
    ensures w.ending != Finished ==> Milestones(w.events) == []
  {
    WaitForCardShape(probes, true);
    var k := LeadingAbsent(probes);
    var prompt: seq<Event> := if k > 0 then [Status(InsertCard)] else [];
    MilestonesSingleton(Status(InsertCard));
    assert Milestones(prompt) == [];
    if k < |probes| && probes[k].Present? {
      MilestonesDetection(probes[k].id);
      MilestonesConcat(prompt, DetectionEvents(probes[k].id));
    } else {
      assert w.events == prompt + [];
    }
  }

  lemma RemoveMilestones(probes: seq<Probe>, r: Phase)
    requires r == WaitForRemoveCardSpec(probes)
    ensures r.ending == Finished ==> Milestones(r.events) == [Removed]
    ensures r.ending != Finished ==> Milestones(r.events) == []
  {
    WaitForRemoveCardShape(probes);
    MilestonesSingleton(Status(CardRemoved));
  }

  /** A cycle that read a card, given by its two phases. */
  lemma CompleteCycleMilestones(probes: seq<Probe>, w: Phase, r: Phase, c: Phase)
    requires w == WaitForCardSpec(probes, true) && w.ending == Finished
    requires r == WaitForRemoveCardSpec(probes[w.consumed..])
    requires c == Then(w.events, w.consumed, r)
    ensures c.ending == Finished ==> Milestones(c.events) == [Detected(probes[w.consumed - 1].id), Removed]
    ensures c.ending != Finished ==> Milestones(c.events) == [Detected(probes[w.consumed - 1].id)]
  {
    WaitMilestones(probes, w);
    RemoveMilestones(probes[w.consumed..], r);
    MilestonesConcat(w.events, r.events);
  }

  /** A cycle detects at most one card and then sees it removed, in that order. */
  lemma CycleMilestones(probes: seq<Probe>)
    ensures var w := WaitForCardSpec(probes, true); var c := Cycle(probes);
      w.ending != Finished ==> Milestones(c.events) == []
    ensures var w := WaitForCardSpec(probes, true); var c := Cycle(probes);
      w.ending == Finished && c.ending == Finished ==>
        Milestones(c.events) == [Detected(probes[w.consumed - 1].id), Removed]
    ensures var w := WaitForCardSpec(probes, true); var c := Cycle(probes);
      w.ending == Finished && c.ending != Finished ==>
        Milestones(c.events) == [Detected(probes[w.consumed - 1].id)]
  {
    var w := WaitForCardSpec(probes, true);
    if w.ending == Finished {
      CompleteCycleMilestones(probes, w, WaitForRemoveCardSpec(probes[w.consumed..]), Cycle(probes));
    } else {
      WaitMilestones(probes, w);
    }
  }

  /** Detections and removals alternate, starting with a detection:
      detected, removed, detected, removed, ... */
  predicate Alternating(ms: seq<Milestone>)
  {
    ms == [] || (ms[0].Detected? && (|ms| == 1 || (ms[1] == Removed && Alternating(ms[2..]))))
  }

  /** A card is never logged twice without its removal being observed in between: in the
      events of any run, card detections and removals alternate, beginning with a detection. */
  lemma {:induction false} DetectionsAlternateWithRemovals(probes: seq<Probe>)
    ensures Alternating(Milestones(Trace(probes).events))
    decreases |probes|
  {
    CycleMilestones(probes);
    var c := Cycle(probes);
    if c.ending == Finished {
      var rest := probes[c.consumed..];
      DetectionsAlternateWithRemovals(rest);
      MilestonesConcat(c.events, Trace(rest).events);
      var ms := Milestones(Trace(probes).events);
      var tail := Milestones(Trace(rest).events);
      var id := probes[WaitForCardSpec(probes, true).consumed - 1].id;
      assert ms == [Detected(id), Removed] + tail;
      assert ms[2..] == tail;
    }
  }

  // ---------------- the whole run ----------------

  /** What a run of monitor_cards over the given probes leaves in the dashboard, read off the
      probes: the last status and card identity it yielded, one passage per presence interval
      appended to the ledger, and the history re-read after the last of them. */
  function Outcome(v: Snapshot, probes: seq<Probe>, now: nat -> TimeOfDay): Snapshot
  {
    var events := Trace(probes).events;
    var ids := Detections(probes, true);
    var book := AppendAll(v.book, Entries(ids, now, v.logged));
    Snapshot(LastStatus(events, v.status), LastCardId(events, v.cardId), book,
             if ids == [] then v.history else History(book), v.logged + |ids|)
  }

  /** Handling a run's events one by one, as monitor_cards does, leaves the dashboard in the
      state read off the probes. */
  lemma RunOutcome(v: Snapshot, probes: seq<Probe>, now: nat -> TimeOfDay)
    ensures OnEvents(v, Trace(probes).events, now) == Outcome(v, probes, now)
  {
    OnEventsFields(v, Trace(probes).events, now);
    OnEventsBook(v, Trace(probes).events, now);
    OnEventsHistory(v, Trace(probes).events, now);
    TraceDetections(probes);
  }

  /** A cycle that read a card is its waiting phase followed by its removal phase. */
  lemma CompleteCycle(probes: seq<Probe>, w: Phase, r: Phase)
    requires w == WaitForCardSpec(probes, true) && w.ending == Finished
    requires r == WaitForRemoveCardSpec(probes[w.consumed..])
    ensures w.consumed + r.consumed <= |probes|
    ensures Then(w.events, w.consumed, r) == Cycle(probes)
  {
  }

  /** The removal phase, in terms of what the waiting phase left: the dashboard and the reader
      after it are those of the whole cycle. */
  lemma RemovalStep(v: Snapshot, probes: seq<Probe>, events: seq<Event>, used: nat, r: Phase, now: nat -> TimeOfDay,
                    mid: Snapshot, after: Snapshot, raw: Option<string>, rawMid: Option<string>, rawAfter: Option<string>)
    requires used + r.consumed <= |probes|
    requires r == WaitForRemoveCardSpec(probes[used..])
    requires mid == OnEvents(v, events, now)
    requires after == mid.(status := LastStatus(r.events, mid.status))
    requires rawMid == LastRead(probes[..used], raw)
    requires rawAfter == LastRead(probes[used..][..r.consumed], rawMid)
    ensures after == OnEvents(v, events + r.events, now)
    ensures rawAfter == LastRead(probes[..used + r.consumed], raw)
  {
    RemovalOnlyStatus(mid, probes[used..], r, now);
    OnEventsConcat(v, events, r.events, now);
    LastReadSplit(probes, used, used + r.consumed, raw, rawMid, rawAfter);
  }

  // ---------------- CardDashboard ----------------

  class CardDashboard {
    var cardId: string
    var status: string
    var historyLines: seq<seq<string>>
    const cardReader: Card

    /** A dashboard over a reader whose ledger file is `existing` (None: no file yet). */
    constructor (existing: Workbook)
      ensures cardId == NoCardYet && status == Idle && historyLines == []
      ensures fresh(cardReader) && fresh(cardReader.encode)
      ensures cardReader.raw == None && cardReader.encode.book == existing
    {
      cardId := NoCardYet;
      status := Idle;
      historyLines := [];
      cardReader := new Card(existing);
    }

    /** The dashboard's fields and the ledger, with `logged` passages logged so far in the run. */
    ghost function Current(logged: nat): Snapshot
      reads this, cardReader.encode
    {
      Snapshot(status, cardId, cardReader.encode.book, historyLines, logged)
    }

    /** A card_id event: show the card, log its passage at time `now`, and re-read the history. */
    method LogCard(id: string, now: TimeOfDay)
      modifies this`cardId, this`historyLines, cardReader.encode
      ensures cardId == id
      ensures cardReader.encode.book == Append(old(cardReader.encode.book), Passage(now, id))
      ensures historyLines == History(cardReader.encode.book)
    {
      cardId := id;
      cardReader.encode.AddPassage(now, id);
      historyLines := cardReader.encode.GetHistory();
    }

    /** monitor_cards' first `async for`: run wait_for_card over the probes and handle each event
        it yields; `logged` passages were logged earlier in the run, and `logged'` after it. */
    method WaitPhase(probes: seq<Probe>, now: nat -> TimeOfDay, logged: nat)
      returns (events: seq<Event>, used: nat, ending: Ending, logged': nat)
      modifies this, cardReader, cardReader.encode
      ensures used <= |probes|
      ensures Phase(events, used, ending) == WaitForCardSpec(probes, true)
      ensures cardReader.raw == LastRead(probes[..used], old(cardReader.raw))
      ensures var v := OnEvents(old(Current(logged)), events, now); Current(v.logged) == v && logged' == v.logged
    {
      events, used, ending := cardReader.WaitForCard(probes);
      ghost var before := Current(logged);
      assert before == old(Current(logged));
      var i: nat := 0;
      logged' := logged;
      while i < |events|
        modifies this, cardReader.encode
        invariant 0 <= i <= |events|
        invariant Current(logged') == OnEvents(before, events[..i], now)
      {
        assert events[..i + 1][..i] == events[..i];
        ghost var v := Current(logged');
        match events[i] {
          case Status(text) =>
            status := text;
          case CardId(id) =>
            LogCard(id, now(logged'));
            logged' := logged' + 1;
        }
        assert Current(logged') == OnEvent(v, events[i], now);
        i := i + 1;
      }
      assert events[..i] == events;
    }

    /** monitor_cards' second `async for`: run wait_for_remove_card over the probes; only status
        events are looked at, so removal never changes `card_id`, the ledger or `history_lines`. */
    method RemovePhase(probes: seq<Probe>) returns (events: seq<Event>, used: nat, ending: Ending)
      modifies this`status, cardReader
      ensures used <= |probes|
      ensures Phase(events, used, ending) == WaitForRemoveCardSpec(probes)
      ensures cardReader.raw == LastRead(probes[..used], old(cardReader.raw))
      ensures status == LastStatus(events, old(status))
    {
      events, used, ending := cardReader.WaitForRemoveCard(probes);
      var i := 0;
      while i < |events|
        modifies this`status
        invariant 0 <= i <= |events|
        invariant status == LastStatus(events[..i], old(status))
      {
        assert events[..i + 1][..i] == events[..i];
        if events[i].Status? {
          status := events[i].text;
        }
        i := i + 1;
      }
      assert events[..i] == events;
    }

    /** One turn of monitor_cards' `while True`: the two `async for` loops in turn; the second
        is entered only once a card has been read. */
    method RunCycle(probes: seq<Probe>, now: nat -> TimeOfDay, logged: nat)
      returns (events: seq<Event>, used: nat, ending: Ending, logged': nat)
      modifies this, cardReader, cardReader.encode
      ensures used <= |probes|
      ensures Phase(events, used, ending) == Cycle(probes)
      ensures cardReader.raw == LastRead(probes[..used], old(cardReader.raw))
      ensures var v := OnEvents(old(Current(logged)), events, now); Current(v.logged) == v && logged' == v.logged
    {
      // the waiting phase's loop over the events it yields
      events, used, ending, logged' := WaitPhase(probes, now, logged);
      if ending != Finished {
        return;
      }
      ghost var mid := Current(logged');
      ghost var rawMid := cardReader.raw;
      // the removal phase's loop over the events it yields
      var removal, used', ending' := RemovePhase(probes[used..]);
      assert Current(logged') == mid.(status := LastStatus(removal, mid.status));
      CompleteCycle(probes, Phase(events, used, ending), Phase(removal, used', ending'));
      RemovalStep(old(Current(logged)), probes, events, used, Phase(removal, used', ending'), now,
                  mid, Current(logged'), old(cardReader.raw), rawMid, cardReader.raw);
      events, used, ending := events + removal, used + used', ending';
    }

    /** monitor_cards, run until the probe input runs out or an exception escapes it (it never
        stops on its own). The fields and the ledger end as handling the run's events in order
        leaves them, which RunOutcome reads off the probes: the last status, the last card
        identity, one passage per presence interval appended in order, and the history re-read
        after the last append. */
    method MonitorCards(probes: seq<Probe>, now: nat -> TimeOfDay) returns (ending: Ending)
      modifies this, cardReader, cardReader.encode
      ensures ending == Trace(probes).ending
      ensures var v := OnEvents(old(Current(0)), Trace(probes).events, now); Current(v.logged) == v
      ensures cardReader.raw == LastRead(probes[..Trace(probes).consumed], old(cardReader.raw))
    {
      ghost var start := Current(0);
      ghost var total := Trace(probes);
      ghost var seen: seq<Event> := [];
      ghost var read: seq<Probe> := [];
      var rest := probes;
      var n: nat := 0;
      while true
        invariant read + rest == probes
        invariant total == Then(seen, |read|, Trace(rest))
        invariant Current(n) == OnEvents(start, seen, now)
        invariant cardReader.raw == LastRead(read, old(cardReader.raw))
        decreases |rest|
      {
        var events, used, end, n' := RunCycle(rest, now, n);
        ReadOn(read, rest, used, old(cardReader.raw));
        OnEventsConcat(start, seen, events, now);
        if end != Finished {
          TraceStops(total, seen, |read|, rest, Phase(events, used, end));
          seen, read, n := seen + events, read + rest[..used], n';
          ending := end;
          break;
        }
        TraceGoesOn(total, seen, |read|, rest, Phase(events, used, end));
        seen, read, rest, n := seen + events, read + rest[..used], rest[used..], n';
      }
      assert Trace(probes).consumed == |read|;
      assert probes[..|read|] == read;
      assert probes[..Trace(probes).consumed] == read;
    }
  }

  // ---------------- a run on concrete probes ----------------

  /** Two empty probes, a card read twice, then no card. */
  const OneCard: seq<Probe> := [Absent, Absent, Present("ID42"), Present("ID42"), Absent]

  lemma OneCardWait()
    ensures WaitForCardSpec(OneCard, true) == Phase([Status(InsertCard)] + DetectionEvents("ID42"), 3, Finished)
  {
    var p := OneCard;
    assert p[1..][1..] == p[2..];
    assert p[2..][0] == Present("ID42");
    assert WaitForCardSpec(p[2..], false) == Phase(DetectionEvents("ID42"), 1, Finished);
    assert WaitForCardSpec(p[1..], false) == Phase([] + DetectionEvents("ID42"), 2, Finished);
    assert [] + DetectionEvents("ID42") == DetectionEvents("ID42");
  }

  lemma OneCardRemove()
    ensures WaitForRemoveCardSpec(OneCard[3..]) == Phase([Status(CardRemoved)], 2, Finished)
  {
    var q := OneCard[3..];
    assert q[0] == Present("ID42");
    assert q[1..] == [Absent];
    assert WaitForRemoveCardSpec(q[1..]) == Phase([Status(CardRemoved)], 1, Finished);
  }

  lemma OneCardTrace()
    ensures Trace(OneCard) == Phase([Status(InsertCard)] + DetectionEvents("ID42") + [Status(CardRemoved)], 5, OutOfProbes)
  {
    OneCardWait();
    OneCardRemove();
    var w := WaitForCardSpec(OneCard, true);
    CompleteCycle(OneCard, w, WaitForRemoveCardSpec(OneCard[3..]));
    assert OneCard[5..] == [];
    assert Trace(OneCard[5..]) == Phase([], 0, OutOfProbes);
    assert (w.events + [Status(CardRemoved)]) + [] == w.events + [Status(CardRemoved)];
  }

  lemma OneCardFields()
    ensures LastStatus(Trace(OneCard).events, Idle) == CardRemoved
    ensures LastCardId(Trace(OneCard).events, NoCardYet) == "ID42"
    ensures CardIds(Trace(OneCard).events) == ["ID42"]
  {
    OneCardTrace();
    var e := [Status(InsertCard), Status(ReadingCard), CardId("ID42"), Status(RemoveCard), Status(CardRemoved)];
    assert Trace(OneCard).events == e;
    assert e[..4] == [Status(InsertCard), Status(ReadingCard), CardId("ID42"), Status(RemoveCard)];
    assert e[..4][..3] == [Status(InsertCard), Status(ReadingCard), CardId("ID42")];
    assert LastCardId(e[..4], NoCardYet) == "ID42";
    var d := DetectionEvents("ID42");
    assert e == ([Status(InsertCard)] + d) + [Status(CardRemoved)];
    CardIdsConcat([Status(InsertCard)] + d, [Status(CardRemoved)]);
    CardIdsConcat([Status(InsertCard)], d);
    CardIdsSingleton(Status(InsertCard));
    CardIdsSingleton(Status(CardRemoved));
    CardIdsDetection("ID42");
  }

  /** A card inserted after two empty probes, still read once more, then taken out, on a
      dashboard that starts with no ledger file: one passage for that card, the card's number
      and "Carte retirée" on display, and a history of the header and that one row. */
  lemma OneCardScenario(now: nat -> TimeOfDay)
    ensures var o := Outcome(Snapshot(Idle, NoCardYet, None, [], 0), OneCard, now);
      && Trace(OneCard).ending == OutOfProbes
      && o.cardId == "ID42" && o.status == CardRemoved && o.logged == 1
      && o.book == Some([Header, [Some(FormatTime(now(0))), Some("ID42"), Some(Gate)]])
      && o.history == [HeaderText, [FormatTime(now(0)), "ID42", Gate]]
  {
    OneCardTrace();
    OneCardFields();
    TraceDetections(OneCard);
    assert Detections(OneCard, true) == ["ID42"];
    assert Entries(["ID42"], now, 0) == [Passage(now(0), "ID42")];
    FirstPassage(Passage(now(0), "ID42"));
  }
}
