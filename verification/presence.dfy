/** The card-presence cycle: the `Card` class of main.py. Each hardware probe is one call of
    `read_card`; the reader's answers are given to the model as a finite sequence. */
module Presence {
  import opened Wrappers
  import opened Passages

  /** What one call of the card reader does: a card is read and yields its number, it raises
      RuntimeError (no card, reader not ready), or it raises any other exception. */
  datatype Probe = Present(id: string) | Absent | Fault

  /** What read_card makes of a probe: True, False, or the exception escaping it. */
  datatype ReadResult = CardRead | NoCard | ReaderError

  /** The ("status", text) and ("card_id", id) pairs the two generators yield. */
  datatype Event = Status(text: string) | CardId(id: string)

  /** How a phase ends: it finished normally, an exception escaped it, or the model's finite
      probe input ran out while the phase was still polling. */
  datatype Ending = Finished | Raised | OutOfProbes

  /** The events a phase emitted, how many probes it used and how it ended. */
  datatype Phase = Phase(events: seq<Event>, consumed: nat, ending: Ending)

  /** A phase followed by what comes after it. */
  function Then(events: seq<Event>, used: nat, rest: Phase): Phase
  {
    Phase(events + rest.events, used + rest.consumed, rest.ending)
  }

  const InsertCard := "Veuillez insérer une carte..."
  const ReadingCard := "Lecture en cours..."
  const RemoveCard := "Veuillez retirer votre carte..."
  const CardRemoved := "Carte retirée"

  /** The three events that follow a successful read, in the order they are yielded. */
  function DetectionEvents(id: string): seq<Event>
  {
    [Status(ReadingCard), CardId(id), Status(RemoveCard)]
  }

  /** wait_for_card over the probes from now on; `first` is the generator's local flag. */
  function WaitForCardSpec(probes: seq<Probe>, first: bool): (w: Phase)
    ensures w.consumed <= |probes|
    ensures w.ending == OutOfProbes ==> w.consumed == |probes|
    ensures w.ending != OutOfProbes ==> 1 <= w.consumed
    ensures w.ending == Finished ==> probes[w.consumed - 1].Present?
  {
    if probes == [] then Phase([], 0, OutOfProbes)
    else match probes[0]
      case Present(id) => Phase(DetectionEvents(id), 1, Finished)
      case Fault => Phase([], 1, Raised)
      case Absent =>
        var rest := WaitForCardSpec(probes[1..], false);
        Phase((if first then [Status(InsertCard)] else []) + rest.events, rest.consumed + 1, rest.ending)
  }

  /** wait_for_remove_card over the probes from now on. */
  function WaitForRemoveCardSpec(probes: seq<Probe>): (r: Phase)
    ensures r.consumed <= |probes|
    ensures r.ending != Raised
    ensures r.ending == OutOfProbes ==> r.consumed == |probes|
    ensures r.ending == Finished ==> 1 <= r.consumed
  {
    if probes == [] then Phase([], 0, OutOfProbes)
    else if probes[0].Present? then
      var rest := WaitForRemoveCardSpec(probes[1..]);
      Phase(rest.events, rest.consumed + 1, rest.ending)
    else
      Phase([Status(CardRemoved)], 1, Finished)
  }

  /** wait_for_card after one more probe that found no card: the prompt is said if it was not yet. */
  lemma WaitForCardSkip(total: Phase, events: seq<Event>, used: nat, probes: seq<Probe>, first: bool)
    requires used < |probes| && probes[used] == Absent
    requires total == Then(events, used, WaitForCardSpec(probes[used..], first))
    ensures first ==> total == Then(events + [Status(InsertCard)], used + 1, WaitForCardSpec(probes[used + 1..], false))
    ensures !first ==> total == Then(events, used + 1, WaitForCardSpec(probes[used + 1..], false))
  {
    assert probes[used..][1..] == probes[used + 1..];
    var rest := WaitForCardSpec(probes[used + 1..], false);
    if first {
      assert events + ([Status(InsertCard)] + rest.events) == (events + [Status(InsertCard)]) + rest.events;
    } else {
      assert [] + rest.events == rest.events;
    }
  }

  /** The number of probes before the first one that is not Absent. */
  function LeadingAbsent(probes: seq<Probe>): (k: nat)
    ensures k <= |probes|
    ensures forall j | 0 <= j < k :: probes[j] == Absent
    ensures k < |probes| ==> probes[k] != Absent
  {
    if probes == [] || probes[0] != Absent then 0 else 1 + LeadingAbsent(probes[1..])
  }

  /** The number of probes before the first one that does not read a card. */
  function LeadingPresent(probes: seq<Probe>): (k: nat)
    ensures k <= |probes|
    ensures forall j | 0 <= j < k :: probes[j].Present?
    ensures k < |probes| ==> !probes[k].Present?
  {
    if probes == [] || !probes[0].Present? then 0 else 1 + LeadingPresent(probes[1..])
  }

  /** wait_for_card, stated without recursion: after k failing probes it has said
      "Veuillez insérer une carte..." once if k > 0 (and the generator had not yet said it),
      then either the probes ran out, or the k-th probe raised and the generator stopped with
      that exception, or it read a card and yielded exactly the three detection events, with
      the identity from that read, and stopped. */
  lemma {:induction false} WaitForCardShape(probes: seq<Probe>, first: bool)
    ensures var k := LeadingAbsent(probes); var w := WaitForCardSpec(probes, first);
      && w.events == (if first && k > 0 then [Status(InsertCard)] else [])
                     + (if k < |probes| && probes[k].Present? then DetectionEvents(probes[k].id) else [])
      && w.consumed == (if k < |probes| then k + 1 else k)
      && w.ending == (if k == |probes| then OutOfProbes else if probes[k].Present? then Finished else Raised)
  {
    if probes != [] && probes[0] == Absent {
      WaitForCardShape(probes[1..], false);
      var k := LeadingAbsent(probes[1..]);
      assert LeadingAbsent(probes) == k + 1;
      assert k < |probes[1..]| ==> probes[1..][k] == probes[k + 1];
    }
  }

  /** The prompt to insert a card is emitted at most once, however many probes fail,
      and only when the very first probe fails; when it is emitted it comes first. */
  lemma InsertPromptAtMostOnce(probes: seq<Probe>)
    ensures var w := WaitForCardSpec(probes, true);
      && multiset(w.events)[Status(InsertCard)] <= 1
      && (Status(InsertCard) in w.events <==> probes != [] && probes[0] == Absent)
      && (Status(InsertCard) in w.events ==> w.events[0] == Status(InsertCard))
  {
    WaitForCardShape(probes, true);
    var k := LeadingAbsent(probes);
    assert k > 0 <==> probes != [] && probes[0] == Absent;
    if k < |probes| && probes[k].Present? {
      var d := DetectionEvents(probes[k].id);
      assert Status(InsertCard) !in d;
      assert multiset(d)[Status(InsertCard)] == 0;
    }
  }

  /** wait_for_remove_card, stated without recursion: it keeps polling while a card is read and
      stops at the first probe that does not read one, whether it raised RuntimeError or any
      other exception; it then says "Carte retirée" exactly once. It never lets an exception out. */
  lemma {:induction false} WaitForRemoveCardShape(probes: seq<Probe>)
    ensures var k := LeadingPresent(probes); var r := WaitForRemoveCardSpec(probes);
      && r.events == (if k < |probes| then [Status(CardRemoved)] else [])
      && r.consumed == (if k < |probes| then k + 1 else k)
      && r.ending == (if k < |probes| then Finished else OutOfProbes)
  {
    if probes != [] && probes[0].Present? {
      WaitForRemoveCardShape(probes[1..]);
      assert LeadingPresent(probes) == LeadingPresent(probes[1..]) + 1;
    }
  }

  /** The card number held by the reader after a series of probes: the last one read, if any. */
  function LastRead(probes: seq<Probe>, raw: Option<string>): Option<string>
  {
    if probes == [] then raw
    else if probes[|probes| - 1].Present? then Some(probes[|probes| - 1].id)
    else LastRead(probes[..|probes| - 1], raw)
  }

  /** The stored card is that of the last probe that read one. */
  lemma {:induction false} LastReadLastCard(probes: seq<Probe>, raw: Option<string>, i: nat)
    requires i < |probes| && probes[i].Present?
    requires forall j | i < j < |probes| :: !probes[j].Present?
    ensures LastRead(probes, raw) == Some(probes[i].id)
    decreases |probes|
  {
    if i < |probes| - 1 {
      var init := probes[..|probes| - 1];
      assert init[i] == probes[i];
      forall j | i < j < |init| ensures !init[j].Present? {
        assert init[j] == probes[j];
      }
      LastReadLastCard(init, raw, i);
    }
  }

  /** Probes that read no card leave the stored card as it was. */
  lemma {:induction false} LastReadNoCard(probes: seq<Probe>, raw: Option<string>)
    requires forall j | 0 <= j < |probes| :: !probes[j].Present?
    ensures LastRead(probes, raw) == raw
    decreases |probes|
  {
    if probes != [] {
      var init := probes[..|probes| - 1];
      forall j | 0 <= j < |init| ensures !init[j].Present? {
        assert init[j] == probes[j];
      }
      LastReadNoCard(init, raw);
    }
  }

  lemma {:induction false} LastReadConcat(a: seq<Probe>, b: seq<Probe>, raw: Option<string>)
    ensures LastRead(a + b, raw) == LastRead(b, LastRead(a, raw))
    decreases |b|
  {
    if b == [] {
      assert a + b == a;
    } else {
      assert (a + b)[..|a + b| - 1] == a + b[..|b| - 1];
      LastReadConcat(a, b[..|b| - 1], raw);
    }
  }

  /** Reading probes i..j-1 after probes 0..i-1. */
  lemma LastReadSplit(probes: seq<Probe>, i: nat, j: nat, raw: Option<string>, mid: Option<string>, after: Option<string>)
    requires i <= j <= |probes|
    requires mid == LastRead(probes[..i], raw)
    requires after == LastRead(probes[i..][..j - i], mid)
    ensures after == LastRead(probes[..j], raw)
  {
    LastReadConcat(probes[..i], probes[i..][..j - i], raw);
    assert probes[..i] + probes[i..][..j - i] == probes[..j];
  }

  class Card {
    /** The informations of the last card read (only the card number is modelled). */
    var raw: Option<string>
    const encode: EncodePassage

    constructor (existing: Workbook)
      ensures raw == None && fresh(encode) && encode.book == existing
    {
      raw := None;
      encode := new EncodePassage(existing);
    }

    /** read_card: a successful read stores the card's informations and returns True; RuntimeError
        gives False and leaves them as they were; any other exception escapes. */
    method ReadCard(p: Probe) returns (r: ReadResult)
      modifies this
      ensures r == CardRead <==> p.Present?
      ensures r == NoCard <==> p == Absent
      ensures r == ReaderError <==> p == Fault
      ensures raw == if p.Present? then Some(p.id) else old(raw)
    {
      match p {
        case Present(id) =>
          raw := Some(id);
          r := CardRead;
        case Absent =>
          r := NoCard;
        case Fault =>
          r := ReaderError;
      }
    }

    /** wait_for_card: poll until a card is read, prompting for one on the first failure only,
        then yield the reading status, the card number and the request to remove the card. */
    method WaitForCard(probes: seq<Probe>) returns (events: seq<Event>, used: nat, ending: Ending)
      modifies this
      ensures Phase(events, used, ending) == WaitForCardSpec(probes, true)
      ensures raw == LastRead(probes[..used], old(raw))
    {
      ghost var total := WaitForCardSpec(probes, true);
      var first := true;
      events, used, ending := [], 0, OutOfProbes;
      while used < |probes|
        invariant used <= |probes|
        invariant total == Then(events, used, WaitForCardSpec(probes[used..], first))
        invariant raw == LastRead(probes[..used], old(raw))
      {
        var r := ReadCard(probes[used]);
        assert probes[..used + 1][..used] == probes[..used];
        if r == ReaderError {
          used, ending := used + 1, Raised;
          return;
        }
        if r == CardRead {
          events, used, ending := events + DetectionEvents(raw.value), used + 1, Finished;
          return;
        }
        WaitForCardSkip(total, events, used, probes, first);
        if first {
          events := events + [Status(InsertCard)];
          first := false;
        }
        used := used + 1;
      }
      assert events + [] == events;
    }

    /** wait_for_remove_card: poll while a card is still read; the first probe that does not read
        one, whether read_card returned False or raised, ends the loop; then say the card is gone. */
    method WaitForRemoveCard(probes: seq<Probe>) returns (events: seq<Event>, used: nat, ending: Ending)
      modifies this
      ensures Phase(events, used, ending) == WaitForRemoveCardSpec(probes)
      ensures raw == LastRead(probes[..used], old(raw))
    {
      events, used, ending := [], 0, OutOfProbes;
      var removed := false;
      while used < |probes|
        invariant used <= |probes|
        invariant WaitForRemoveCardSpec(probes)
                  == var rest := WaitForRemoveCardSpec(probes[used..]);
                     Phase(rest.events, used + rest.consumed, rest.ending)
        invariant raw == LastRead(probes[..used], old(raw))
      {
        var r := ReadCard(probes[used]);
        assert probes[..used + 1][..used] == probes[..used];
        used := used + 1;
        if r != CardRead {
          removed := true;
          break;
        }
        assert probes[used - 1..][1..] == probes[used..];
      }
      if removed {
        events := events + [Status(CardRemoved)];
        ending := Finished;
      }
    }
  }
}
