/** The common part of every bus (projectAssignment2/src/Bus.java): its type
    name, seat count, base ticket price and refund rate, the flat pricing
    rule, and the seat symbols that every seat-layout renderer uses. The
    fields are set once by a constructor and only read afterwards, so a bus
    is a value here. */
module Buses {

  /** A bus as its constructors leave it. Prices and rates are `real`: the
      source's `double` rounding is not modelled. */
  datatype Bus = Bus(busType: string, capacity: int, ticketPrice: real, refundRate: real)

  /** The four-argument constructor: every argument is stored unchanged. */
  function NewBus(busType: string, capacity: int, ticketPrice: real, refundRate: real): (b: Bus)
    ensures b.busType == busType && b.capacity == capacity
    ensures b.ticketPrice == ticketPrice && b.refundRate == refundRate
  {
    Bus(busType, capacity, ticketPrice, refundRate)
  }

  /** The three-argument constructor, used for buses without refunds: the
      same as the four-argument one with the refund rate left at 0. */
  function NewNonRefundableBus(busType: string, capacity: int, ticketPrice: real): (b: Bus)
    ensures b == NewBus(busType, capacity, ticketPrice, 0.0)
  {
    Bus(busType, capacity, ticketPrice, 0.0)
  }

  /** The price of a seat on a bus that does not override pricing. */
  function CalculateTicketPrice(b: Bus, seatNumber: int): (price: real)
    ensures price == b.ticketPrice
  {
    b.ticketPrice
  }

  /** Flat pricing: every seat number costs the same. */
  lemma FlatPrice(b: Bus, s1: int, s2: int)
    ensures CalculateTicketPrice(b, s1) == CalculateTicketPrice(b, s2) == b.ticketPrice
  {
  }

  /** Indicator of a condition: 1 when it holds, 0 otherwise. */
  function Ind(b: bool): nat
  {
    if b then 1 else 0
  }

  // ---------------------------------------------------------------------
  // Seat symbols shared by the layout renderers

  /** The symbol a layout shows for one seat: `*` when the seat's status is
      true, `X` otherwise. */
  function SeatSymbol(status: bool): char
  {
    if status then '*' else 'X'
  }

  predicate IsSeatSymbol(c: char)
  {
    c == '*' || c == 'X'
  }

  /** The symbols of the given seats, in seat order. */
  function SeatSymbols(seats: seq<bool>): (r: string)
    ensures |r| == |seats|
    ensures forall i :: 0 <= i < |seats| ==> r[i] == SeatSymbol(seats[i])
  {
    if |seats| == 0 then "" else SeatSymbols(seats[..|seats| - 1]) + [SeatSymbol(seats[|seats| - 1])]
  }

  /** The seat symbols of a text, in order, with everything else left out. */
  function SymbolsOf(s: string): string
  {
    if |s| == 0 then ""
    else SymbolsOf(s[..|s| - 1]) + (if IsSeatSymbol(s[|s| - 1]) then [s[|s| - 1]] else "")
  }

  /** Picking out symbols distributes over concatenation. */
  lemma {:induction false} SymbolsOfAppend(s: string, t: string)
    ensures SymbolsOf(s + t) == SymbolsOf(s) + SymbolsOf(t)
    decreases |t|
  {
    if |t| == 0 {
      assert s + t == s;
    } else {
      SymbolsOfAppend(s, t[..|t| - 1]);
      assert (s + t)[..|s + t| - 1] == s + t[..|t| - 1];
    }
  }

  /** A text without seat symbols has none to pick out. */
  lemma {:induction false} SymbolsOfNone(s: string)
    requires forall k :: 0 <= k < |s| ==> !IsSeatSymbol(s[k])
    ensures SymbolsOf(s) == ""
    decreases |s|
  {
    if |s| > 0 {
      SymbolsOfNone(s[..|s| - 1]);
    }
  }

  /** The seat symbols of one more seat extend the earlier ones. */
  lemma SeatSymbolsStep(seats: seq<bool>, n: nat)
    requires n < |seats|
    ensures SeatSymbols(seats[..n + 1]) == SeatSymbols(seats[..n]) + [SeatSymbol(seats[n])]
  {
    assert seats[..n + 1][..n] == seats[..n];
  }
}
