/** Card-change detection through shared memory: the server numbers the insertions it publishes
    (reader.c:598-620), each client remembers the number it saw last (client.c:138-158). */
module CardSeq {
  import opened Bytes

  const SLOTS := 8
  const WRAP: nat := 0x1_0000_0000

  // ---- one step -----------------------------------------------------------------------------

  /** The server's counter, the shared words, and what each client remembers of them. */
  datatype World = World(next: nat, words: seq<nat>, seen: seq<seq<nat>>) {
    predicate Valid() {
      && next < WRAP && |words| == SLOTS
      && (forall c :: 0 <= c < |seen| ==> |seen[c]| == SLOTS)
    }
  }

  /** The server hears the state of a slot from its driver, or a client asks for it. */
  datatype Event = Update(slot: nat, present: bool, changed: bool) | Query(client: nat, slot: nat)

  predicate Fits(e: Event, clients: nat) {
    e.slot < SLOTS && (e.Query? ==> e.client < clients)
  }

  /** Whether an update publishes a new insertion. */
  predicate Inserts(e: Event, word: nat) {
    e.Update? && e.present && (word == 0 || e.changed)
  }

  /** ifd_slot_status_update, and what ct_card_status remembers. */
  function Step(w: World, e: Event): (r: World)
    requires w.Valid() && Fits(e, |w.seen|)
    ensures r.Valid() && |r.seen| == |w.seen|
  {
    match e
    case Update(slot, present, changed) =>
      if !present then w.(words := w.words[slot := 0])
      else if Inserts(e, w.words[slot]) then World((w.next + 1) % WRAP, w.words[slot := w.next], w.seen)
      else w
    case Query(client, slot) => w.(seen := w.seen[client := w.seen[client][slot := w.words[slot]]])
  }

  datatype Status = Status(present: bool, changed: bool)

  /** What ct_card_status reports. */
  function Reported(word: nat, remembered: nat): Status {
    Status(word != 0, word != 0 && word != remembered)
  }

  // ---- runs ---------------------------------------------------------------------------------------

  function Zeros(n: nat): (s: seq<nat>)
    ensures |s| == n && forall i :: 0 <= i < n ==> s[i] == 0
  {
    if n == 0 then [] else [0] + Zeros(n - 1)
  }

  function Fresh(clients: nat): (s: seq<seq<nat>>)
    ensures |s| == clients && forall i :: 0 <= i < clients ==> s[i] == Zeros(SLOTS)
  {
    if clients == 0 then [] else [Zeros(SLOTS)] + Fresh(clients - 1)
  }

  predicate AllFit(events: seq<Event>, clients: nat) {
    forall i :: 0 <= i < |events| ==> Fits(events[i], clients)
  }

  /** The world after some events, from cleared memory and the counter at 1. */
  function Run(events: seq<Event>, clients: nat): (w: World)
    requires AllFit(events, clients)
    ensures w.Valid() && |w.seen| == clients
  {
    if events == [] then World(1, Zeros(SLOTS), Fresh(clients))
    else Step(Run(events[..|events| - 1], clients), events[|events| - 1])
  }

  // ---- what happened, without any numbers -----------------------------------------------------------

  /** The event that published the card now in the slot, if there is one. */
  function Published(events: seq<Event>, slot: nat): (r: Option<nat>)
    ensures r.Some? ==> r.value < |events| && events[r.value].Update? && events[r.value].slot == slot
  {
    if events == [] then None
    else
      var e := events[|events| - 1];
      var before := Published(events[..|events| - 1], slot);
      if e.Query? || e.slot != slot then before
      else if !e.present then None
      else if before.None? || e.changed then Some(|events| - 1)
      else before
  }

  predicate IsInsertion(events: seq<Event>, k: nat)
    requires k < |events|
  {
    events[k].Update? && Published(events[..k + 1], events[k].slot) == Some(k)
  }

  /** The number of insertions among some events. */
  function Insertions(events: seq<Event>): (n: nat) {
    if events == [] then 0
    else Insertions(events[..|events| - 1]) + if IsInsertion(events, |events| - 1) then 1 else 0
  }

  /** The event of a client's last query about a slot. */
  function Asked(events: seq<Event>, client: nat, slot: nat): (r: Option<nat>)
    ensures r.Some? ==> r.value < |events| && events[r.value] == Query(client, slot)
  {
    if events == [] then None
    else if events[|events| - 1] == Query(client, slot) then Some(|events| - 1)
    else Asked(events[..|events| - 1], client, slot)
  }

  lemma {:induction false} InsertionsGrow(events: seq<Event>, k: nat)
    requires k <= |events|
    ensures Insertions(events[..k]) <= Insertions(events)
    ensures k < |events| && IsInsertion(events, k) ==> Insertions(events[..k]) < Insertions(events)
    decreases |events|
  {
    if k < |events| {
      var init := events[..|events| - 1];
      assert init[..k] == events[..k];
      InsertionsGrow(init, k);
      if k < |init| {
        assert init[..k + 1] == events[..k + 1];
      } else {
        assert events[..k] == init && events[..k + 1] == events;
      }
    } else {
      assert events[..k] == events;
    }
  }

  /** The card in a slot is one that an insertion published. */
  lemma {:induction false} PublishedIsInsertion(events: seq<Event>, slot: nat)
    ensures Published(events, slot).Some? ==> IsInsertion(events, Published(events, slot).value)
    decreases |events|
  {
    var p := Published(events, slot);
    if p.Some? {
      if p.value == |events| - 1 {
        assert events[..p.value + 1] == events;
      } else {
        var init := events[..|events| - 1];
        PublishedIsInsertion(init, slot);
        assert init[..p.value + 1] == events[..p.value + 1];
      }
    }
  }

  /** Between its publication and now the card was there all the time. */
  lemma {:induction false} PublishedSince(events: seq<Event>, slot: nat, q: nat)
    requires Published(events, slot).Some? && Published(events, slot).value < q <= |events|
    ensures Published(events[..q], slot) == Published(events, slot)
    decreases |events|
  {
    if q == |events| {
      assert events[..q] == events;
    } else {
      var init := events[..|events| - 1];
      PublishedSince(init, slot, q);
      assert init[..q] == events[..q];
    }
  }

  // ---- numbers -------------------------------------------------------------------------------------

  /** The number that a publication gets: one more than the insertions before it. */
  function Number(events: seq<Event>, p: Option<nat>): nat
    requires p.Some? ==> p.value < |events|
  {
    if p.None? then 0 else 1 + Insertions(events[..p.value])
  }

  ghost predicate Numbered(events: seq<Event>, clients: nat)
    requires AllFit(events, clients)
  {
    var w := Run(events, clients);
    && w.next == (1 + Insertions(events)) % WRAP
    && forall s :: 0 <= s < SLOTS ==> w.words[s] == Number(events, Published(events, s))
  }

  /** The server inserts exactly when the history calls for it. */
  lemma InsertsWhenDue(events: seq<Event>, clients: nat)
    requires events != [] && AllFit(events, clients) && Numbered(events[..|events| - 1], clients)
    ensures var n := |events| - 1; var w := Run(events[..n], clients);
            IsInsertion(events, n) <==> events[n].Update? && Inserts(events[n], w.words[events[n].slot])
  {
    hide Insertions, Run;
    var n := |events| - 1;
    assert events[..n + 1] == events;
    var before := Published(events[..n], events[n].slot);
    assert Run(events[..n], clients).words[events[n].slot] == Number(events[..n], before);
  }

  lemma StepCounts(events: seq<Event>, clients: nat)
    requires events != [] && AllFit(events, clients) && Insertions(events) < WRAP
    requires Numbered(events[..|events| - 1], clients)
    ensures Run(events, clients).next == (1 + Insertions(events)) % WRAP
  {
    hide IsInsertion, Published, Run, Insertions;
    RunStep(events, clients);
    LastInsertion(events);
    InsertionsGrow(events, |events| - 1);
    InsertsWhenDue(events, clients);
  }

  lemma StepNumbers(events: seq<Event>, clients: nat, s: nat)
    requires events != [] && AllFit(events, clients) && Insertions(events) < WRAP && s < SLOTS
    requires Numbered(events[..|events| - 1], clients)
    ensures Run(events, clients).words[s] == Number(events, Published(events, s))
  {
    hide IsInsertion, Insertions, Run, Number;
    var init, n := events[..|events| - 1], |events| - 1;
    RunStep(events, clients);
    InsertionsGrow(events, n);
    InsertsWhenDue(events, clients);
    LastInsertion(events);
    NumberStays(events, Published(init, s));
    var w := Run(init, clients);
    assert w.words[s] == Number(init, Published(init, s));
  }

  lemma RunStep(events: seq<Event>, clients: nat)
    requires events != [] && AllFit(events, clients)
    ensures Run(events, clients) == Step(Run(events[..|events| - 1], clients), events[|events| - 1])
  {
  }

  lemma LastInsertion(events: seq<Event>)
    requires events != []
    ensures var n := |events| - 1;
            && Insertions(events) == Insertions(events[..n]) + (if IsInsertion(events, n) then 1 else 0)
            && Number(events, Some(n)) == 1 + Insertions(events[..n])
            && Number(events, None) == 0
            && (IsInsertion(events, n) <==> events[n].Update? && Published(events, events[n].slot) == Some(n))
  {
    assert events[..|events| - 1 + 1] == events;
  }

  /** In runs with fewer than 2^32 insertions the counter never wraps and every word is the number of the
      card now in its slot, or 0. */
  lemma {:induction false} WordsAreNumbers(events: seq<Event>, clients: nat)
    requires AllFit(events, clients) && Insertions(events) < WRAP
    ensures Numbered(events, clients)
    decreases |events|
  {
    if events != [] {
      InsertionsGrow(events, |events| - 1);
      WordsAreNumbers(events[..|events| - 1], clients);
      hide Insertions, Published, Run;
      forall s | 0 <= s < SLOTS
        ensures Run(events, clients).words[s] == Number(events, Published(events, s))
      {
        StepNumbers(events, clients, s);
      }
      StepCounts(events, clients);
    }
  }

  /** Every client remembers the word as it was when it last asked. */
  lemma {:induction false} SeenWhenAsked(events: seq<Event>, clients: nat, c: nat, s: nat)
    requires AllFit(events, clients) && c < clients && s < SLOTS
    ensures Run(events, clients).seen[c][s]
            == if Asked(events, c, s).None? then 0
               else Run(events[..Asked(events, c, s).value], clients).words[s]
    decreases |events|
  {
    if events != [] {
      var n := |events| - 1;
      SeenWhenAsked(events[..n], clients, c, s);
      var q := Asked(events, c, s);
      if q.Some? && q.value < n {
        assert events[..n][..q.value] == events[..q.value];
      }
    }
  }

  lemma NumberStays(events: seq<Event>, p: Option<nat>)
    requires events != [] && (p.Some? ==> p.value < |events| - 1)
    ensures Number(events[..|events| - 1], p) == Number(events, p)
  {
    if p.Some? {
      assert events[..|events| - 1][..p.value] == events[..p.value];
    }
  }

  /** Distinct insertions, on whatever slots, get distinct numbers other than 0. */
  lemma NumbersDistinct(events: seq<Event>, clients: nat, j: nat, k: nat)
    requires AllFit(events, clients) && Insertions(events) < WRAP
    requires j < k < |events| && IsInsertion(events, j) && IsInsertion(events, k)
    ensures var wj := Run(events[..j + 1], clients).words[events[j].slot];
            var wk := Run(events[..k + 1], clients).words[events[k].slot];
            0 < wj < wk < WRAP
  {
    NumberOfInsertion(events, clients, j);
    NumberOfInsertion(events, clients, k);
    assert events[..k][..j] == events[..j] && events[..k][..j + 1] == events[..j + 1];
    InsertionsGrow(events[..k], j);
    InsertionsGrow(events, k);
  }

  lemma NumberOfInsertion(events: seq<Event>, clients: nat, k: nat)
    requires AllFit(events, clients) && Insertions(events) < WRAP && k < |events| && IsInsertion(events, k)
    ensures Run(events[..k + 1], clients).words[events[k].slot] == 1 + Insertions(events[..k]) < WRAP
  {
    hide Run, Published, Insertions;
    InsertionsGrow(events, k + 1);
    InsertionsGrow(events, k);
    WordsAreNumbers(events[..k + 1], clients);
    assert events[..k + 1][..k] == events[..k];
  }

  /** What a client learns from a query after any events: PRESENT exactly when the server's last word
      on the slot was that a card is there; CHANGED exactly when that card was published after the
      client's previous query about the slot, or the client never asked before. */
  lemma QueryTells(events: seq<Event>, clients: nat, client: nat, slot: nat)
    requires AllFit(events, clients) && Insertions(events) < WRAP && client < clients && slot < SLOTS
    ensures var w := Run(events, clients);
            var status := Reported(w.words[slot], w.seen[client][slot]);
            var card, last := Published(events, slot), Asked(events, client, slot);
            && status.present == card.Some?
            && status.changed == (card.Some? && (last.None? || last.value < card.value))
  {
    hide Published, Asked, Run, Insertions, IsInsertion;
    WordsAreNumbers(events, clients);
    SeenWhenAsked(events, clients, client, slot);
    var card, last := Published(events, slot), Asked(events, client, slot);
    if card.Some? && last.Some? {
      var before := events[..last.value];
      InsertionsGrow(events, last.value);
      WordsAreNumbers(before, clients);
      if last.value < card.value {
        EarlierCard(events, slot, card.value, last.value);
      } else {
        PublishedSince(events, slot, last.value);
        assert before[..card.value] == events[..card.value];
      }
    }
  }

  /** A card that was there before another was published has a smaller number. */
  lemma EarlierCard(events: seq<Event>, slot: nat, k: nat, q: nat)
    requires q < k < |events|
    ensures Number(events[..q], Published(events[..q], slot)) < 1 + Insertions(events[..k])
  {
    var before := events[..q];
    var p := Published(before, slot);
    if p.Some? {
      PublishedIsInsertion(before, slot);
      InsertionsGrow(before, p.value);
    }
    assert events[..k][..q] == before;
    InsertionsGrow(events[..k], q);
  }

  /** The bound is sharp: the insertion after 2^32 - 1 others gets the number 0 and is reported to
      everyone as an empty slot. */
  lemma WrapHidesCard(events: seq<Event>, clients: nat, slot: nat, client: nat)
    requires AllFit(events, clients) && Insertions(events) == WRAP - 1 && client < clients && slot < SLOTS
    ensures var w := Run(events + [Update(slot, true, true)], clients);
            w.words[slot] == 0 && !Reported(w.words[slot], w.seen[client][slot]).present
  {
    hide Insertions, Published, IsInsertion;
    WordsAreNumbers(events, clients);
    var more := events + [Update(slot, true, true)];
    assert more[..|more| - 1] == events;
  }

  // ---- the code ----------------------------------------------------------------------------------------

  /** The server side; the words are the ct_card entries of the shared status file. */
  class Server {
    const words: array<nat>
    var cardSeq: nat

    ghost predicate Valid()
      reads this
    {
      words.Length == SLOTS && cardSeq < WRAP
    }

    constructor (words: array<nat>)
      requires words.Length == SLOTS
      ensures Valid() && this.words == words && cardSeq == 1
    {
      this.words, cardSeq := words, 1;
    }

    /** ifd_slot_status_update. */
    method UpdateSlot(slot: nat, present: bool, changed: bool)
      requires Valid() && slot < SLOTS
      modifies this, words
      ensures Valid()
      ensures forall seen :: World(old(cardSeq), old(words[..]), seen).Valid() ==>
                World(cardSeq, words[..], seen) == Step(World(old(cardSeq), old(words[..]), seen), Update(slot, present, changed))
    {
      var prevSeq := words[slot];
      var newSeq := prevSeq;
      if !present {
        newSeq := 0;
      } else if prevSeq == 0 || changed {
        newSeq := cardSeq;
        cardSeq := (cardSeq + 1) % WRAP;
      }
      if prevSeq != newSeq {
        words[slot] := newSeq;
      }
      assert words[..] == old(words[..])[slot := newSeq];
    }
  }

  /** The client's handle. */
  class Handle {
    const words: array<nat>
    const slots: nat
    const card: array<nat>

    ghost predicate Valid() {
      words.Length == SLOTS == card.Length && words != card && slots <= SLOTS
    }

    constructor (words: array<nat>, slots: nat)
      requires words.Length == SLOTS && slots <= SLOTS
      ensures Valid() && this.words == words && this.slots == slots && fresh(card) && card[..] == Zeros(SLOTS)
    {
      this.words, this.slots := words, slots;
      card := new nat[SLOTS](_ => 0);
      new;
      assert card[..] == Zeros(SLOTS);
    }

    /** ct_card_status. The source refuses only slot numbers above ct_slots, so that ct_slots itself is
        let through; with all eight slots in use there is no word for it. */
    method CardStatus(slot: nat) returns (status: Option<Status>)
      requires Valid() && (slot < SLOTS || slot > slots)
      modifies card
      ensures slot > slots ==> status == None && card[..] == old(card[..])
      ensures slot <= slots ==>
                && status == Some(Reported(words[slot], old(card[slot])))
                && card[..] == old(card[..])[slot := words[slot]]
    {
      if slot > slots {
        return None;
      }
      var word := words[slot];
      var present, changed := false, false;
      if word != 0 {
        present := true;
        if word != card[slot] {
          changed := true;
        }
      }
      card[slot] := word;
      status := Some(Status(present, changed));
    }
  }
}
