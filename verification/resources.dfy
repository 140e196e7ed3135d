/** The classroom inventory page of `ResourceManagement.tsx`: allocating an
    amount of an item to a location, and the handlers that keep the amount
    at least 1. The allocation date (`new Date().toLocaleString()`) is a
    parameter. */
module ResourceManagement {
  import opened Wrappers
  import opened Text

  /** An item's counts; `inUse` is the source's `allocated`. */
  datatype Stats = Stats(total: int, available: int, inUse: int)

  datatype Allocation = Allocation(item: string, amount: int, location: string, date: string)

  /** The component state; an empty `selected` or `location` is the falsy
      "nothing chosen" (`null` or the placeholder option). */
  datatype PageState = PageState(inventory: map<string, Stats>, selected: string, amount: int,
                                 location: string, history: seq<Allocation>)

  const InitialInventory: map<string, Stats> := map[
    "chalk" := Stats(100, 85, 15),
    "duster" := Stats(50, 42, 8),
    "smartBoard" := Stats(10, 7, 3),
    "marker" := Stats(200, 165, 35),
    "projector" := Stats(15, 12, 3)
  ]

  const Initial := PageState(InitialInventory, "", 1, "", [])

  /** Every item's available and allocated counts add up to its total,
      and neither is negative. */
  predicate Balanced(inv: map<string, Stats>) {
    forall k :: k in inv ==> inv[k].available + inv[k].inUse == inv[k].total
                             && inv[k].available >= 0 && inv[k].inUse >= 0
  }

  /** What the page keeps true between events. */
  predicate Good(st: PageState) {
    Balanced(st.inventory) && st.amount >= 1
  }

  lemma InitialGood()
    ensures Good(Initial)
  {
  }

  /** `handleAllocate()`: nothing happens without an item and a location, or
      when fewer than `amount` are available; otherwise exactly `amount` of
      the chosen item moves from available to allocated, every other item
      and every total stay as they were, one record goes in front of the
      history and the form is reset. `None` is the TypeError of an item the
      inventory does not hold. A good page stays good. */
  function Allocate(st: PageState, now: string): (r: Option<PageState>)
    ensures (st.selected == "" || st.location == "") ==> r == Some(st)
    ensures st.selected != "" && st.location != "" ==> (r.None? <==> st.selected !in st.inventory)
    ensures r.Some? && st.selected in st.inventory && st.inventory[st.selected].available < st.amount ==> r == Some(st)
    ensures st.selected != "" && st.location != "" && st.selected in st.inventory &&
            st.inventory[st.selected].available >= st.amount ==>
              r.Some? && r.value != st && |r.value.history| == |st.history| + 1
    ensures r.Some? && Good(st) ==> Good(r.value)
    ensures r.Some? ==> r.value.inventory.Keys == st.inventory.Keys
    ensures r.Some? ==> forall k :: k in st.inventory ==> r.value.inventory[k].total == st.inventory[k].total
    ensures r.Some? ==> forall k :: k in st.inventory && k != st.selected ==> r.value.inventory[k] == st.inventory[k]
    ensures r.Some? && r.value != st ==>
              && st.selected in st.inventory
              && r.value.inventory[st.selected].available == st.inventory[st.selected].available - st.amount
              && r.value.inventory[st.selected].inUse == st.inventory[st.selected].inUse + st.amount
              && r.value.history == [Allocation(st.selected, st.amount, st.location, now)] + st.history
              && r.value.amount == 1 && r.value.selected == "" && r.value.location == ""
  {
    if st.selected == "" || st.location == "" then Some(st)
    else if st.selected !in st.inventory then None
    else
      var item := st.inventory[st.selected];
      if item.available >= st.amount then
        Some(PageState(
          st.inventory[st.selected := item.(available := item.available - st.amount,
                                            inUse := item.inUse + st.amount)],
          "", 1, "",
          [Allocation(st.selected, st.amount, st.location, now)] + st.history))
      else Some(st)
  }

  /** The total amount of `item` the history records. */
  function Allocated(history: seq<Allocation>, item: string): int {
    if |history| == 0 then 0
    else (if history[0].item == item then history[0].amount else 0) + Allocated(history[1..], item)
  }

  /** The history accounts for the allocations: after a step, the allocated
      count of each item has grown by the amounts the new records add. */
  lemma {:induction false} AllocateAccounts(st: PageState, now: string, k: string)
    requires Good(st) && Allocate(st, now).Some? && k in st.inventory
    ensures var st' := Allocate(st, now).value;
            st'.inventory[k].inUse - st.inventory[k].inUse
              == Allocated(st'.history, k) - Allocated(st.history, k)
  {
    var st' := Allocate(st, now).value;
    if st' != st {
      assert st'.history[1..] == st.history;
    }
  }

  // ---------------------------------------------------------------------
  // The amount handlers
  // ---------------------------------------------------------------------

  /** The minus button: `Math.max(1, amount - 1)`. */
  function Decrement(amount: int): (r: int)
    ensures r >= 1
    ensures amount > 1 ==> r == amount - 1
    ensures amount <= 1 ==> r == 1
  {
    if amount - 1 < 1 then 1 else amount - 1
  }

  /** The plus button. */
  function Increment(amount: int): (r: int)
    ensures r > amount
  {
    amount + 1
  }

  /** Typing into the box: `Math.max(1, parseInt(text) || 1)`; NaN and 0
      are falsy and fall back to 1. */
  function Typed(text: string): (r: int)
    ensures r >= 1
    ensures JsParseInt(text).Some? && JsParseInt(text).value >= 1 ==> r == JsParseInt(text).value
    ensures JsParseInt(text).None? ==> r == 1
    ensures JsParseInt(text).Some? && JsParseInt(text).value < 1 ==> r == 1
  {
    var n := JsParseInt(text);
    var v := if n.None? || n.value == 0 then 1 else n.value;
    if v < 1 then 1 else v
  }

  /** Typing a count shows that count. */
  lemma TypedNumeral(n: nat)
    requires n >= 1
    ensures Typed(NatToString(n)) == n
  {
    JsParseIntNumeral(n);
  }

  /** The page's events; `Send` is the Allocate button. */
  datatype Event = Select(item: string) | Pick(location: string) | Minus | Plus | Type(text: string) | Send(now: string)

  function Handle(st: PageState, e: Event): Option<PageState> {
    match e
    case Select(item) => Some(st.(selected := item))
    case Pick(loc) => Some(st.(location := loc))
    case Minus => Some(st.(amount := Decrement(st.amount)))
    case Plus => Some(st.(amount := Increment(st.amount)))
    case Type(text) => Some(st.(amount := Typed(text)))
    case Send(now) => Allocate(st, now)
  }

  /** From the initial inventory, any run of events keeps every item
      balanced and the amount at least 1. */
  function Run(st: PageState, events: seq<Event>): Option<PageState>
    decreases |events|
  {
    if |events| == 0 then Some(st)
    else match Handle(st, events[0])
      case None => None
      case Some(st') => Run(st', events[1..])
  }

  lemma {:induction false} RunKeepsGood(st: PageState, events: seq<Event>)
    requires Good(st) && Run(st, events).Some?
    ensures Good(Run(st, events).value)
    decreases |events|
  {
    if |events| > 0 {
      RunKeepsGood(Handle(st, events[0]).value, events[1..]);
    }
  }
}
