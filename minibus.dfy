/** The minibus (projectAssignment2/src/Minibus.java): a bus without refunds
    and with flat prices, whose seat layout has two seats per row. */
module Minibus {
  import opened Strings
  import opened Buses

  /** The minibus constructor: type "Minibus", refund rate left at 0. */
  function NewMinibus(capacity: int, ticketPrice: real): (b: Bus)
    ensures b == NewNonRefundableBus("Minibus", capacity, ticketPrice)
    ensures b.busType == "Minibus" && b.refundRate == 0.0
    ensures b.capacity == capacity && b.ticketPrice == ticketPrice
  {
    Bus("Minibus", capacity, ticketPrice, 0.0)
  }

  /** A minibus inherits flat pricing: all its seats cost the ticket price. */
  lemma MinibusPriceIsFlat(capacity: int, ticketPrice: real, seatNumber: int)
    ensures CalculateTicketPrice(NewMinibus(capacity, ticketPrice), seatNumber) == ticketPrice
  {
  }

  /** What the renderer writes for seat `i` (counting from 0): its symbol,
      then a space after the first seat of a row and a line break after the
      second, except after the last seat. */
  function SeatCell(seats: seq<bool>, capacity: int, i: nat): string
    requires i < |seats|
  {
    [SeatSymbol(seats[i])]
    + (if i + 1 < capacity && (i + 1) % 2 != 0 then " " else "")
    + (if (i + 1) % 2 == 0 && i + 1 < capacity then "\n" else "")
  }

  /** The cells of the first `n` seats. */
  function LayoutPrefix(seats: seq<bool>, capacity: int, n: nat): string
    requires n <= |seats|
  {
    if n == 0 then "" else LayoutPrefix(seats, capacity, n - 1) + SeatCell(seats, capacity, n - 1)
  }

  /** The layout of a minibus with `capacity` seats whose statuses start
      `seats`; no seats (or a negative count) give the empty text. */
  function Layout(seats: seq<bool>, capacity: int): string
    requires capacity <= |seats|
  {
    if capacity <= 0 then "" else LayoutPrefix(seats, capacity, capacity)
  }

  /** The renderer: one symbol per seat, a space or a line break after it. */
  method SeatsLayout(bus: Bus, seatStatus: array<bool>) returns (layout: string)
    requires seatStatus.Length >= bus.capacity
    ensures layout == Layout(seatStatus[..], bus.capacity)
  {
    var sb := "";
    var i := 0;
    while i < bus.capacity
      invariant 0 <= i <= seatStatus.Length
      invariant i == 0 || i <= bus.capacity
      invariant sb == LayoutPrefix(seatStatus[..], bus.capacity, i)
    {
      sb := sb + [SeatSymbol(seatStatus[i])];
      if i + 1 < bus.capacity && (i + 1) % 2 != 0 {
        sb := sb + " ";
      }
      if (i + 1) % 2 == 0 && i + 1 < bus.capacity {
        sb := sb + "\n";
      }
      i := i + 1;
    }
    layout := sb;
  }

  /** One seat's cell holds the seat's symbol first and no other symbol. */
  lemma CellSymbols(seats: seq<bool>, capacity: int, i: nat)
    requires i < |seats|
    ensures SeatCell(seats, capacity, i)[0] == SeatSymbol(seats[i])
    ensures SymbolsOf(SeatCell(seats, capacity, i)) == [SeatSymbol(seats[i])]
  {
    var sym := SeatSymbol(seats[i]);
    assert [sym, ' '][..1] == [sym] && [sym, '\n'][..1] == [sym];
    assert SymbolsOf([sym]) == [sym];
    var cell := SeatCell(seats, capacity, i);
    if i + 1 >= capacity {
      assert cell == [sym];
    } else if (i + 1) % 2 != 0 {
      assert cell == [sym, ' '];
    } else {
      assert cell == [sym, '\n'];
    }
  }

  /** One seat's cell: a space after an odd seat number and a line break
      after an even one, unless it is the last seat; one or two characters. */
  lemma CellSeparators(seats: seq<bool>, capacity: int, i: nat)
    requires i < |seats|
    ensures Count(SeatCell(seats, capacity, i), ' ') == Ind(i + 1 < capacity && (i + 1) % 2 != 0)
    ensures Count(SeatCell(seats, capacity, i), '\n') == Ind(i + 1 < capacity && (i + 1) % 2 == 0)
    ensures |SeatCell(seats, capacity, i)| == 1 + Ind(i + 1 < capacity)
  {
    var sym := SeatSymbol(seats[i]);
    assert sym != ' ' && sym != '\n';
    assert [sym, ' '][..1] == [sym] && [sym, '\n'][..1] == [sym];
    assert Count([sym], ' ') == 0 && Count([sym], '\n') == 0;
    var cell := SeatCell(seats, capacity, i);
    if i + 1 >= capacity {
      assert cell == [sym];
    } else if (i + 1) % 2 != 0 {
      assert cell == [sym, ' '];
    } else {
      assert cell == [sym, '\n'];
    }
  }

  /** The cell of seat `n` adds a space after an odd seat number and a line
      break after an even one, unless seat `n` is the last. */
  lemma NextSeparators(seats: seq<bool>, capacity: int, n: nat)
    requires 0 < n <= |seats|
    ensures Count(LayoutPrefix(seats, capacity, n), ' ') ==
      Count(LayoutPrefix(seats, capacity, n - 1), ' ') + Ind(n < capacity && n % 2 != 0)
    ensures Count(LayoutPrefix(seats, capacity, n), '\n') ==
      Count(LayoutPrefix(seats, capacity, n - 1), '\n') + Ind(n < capacity && n % 2 == 0)
  {
    var t := LayoutPrefix(seats, capacity, n - 1);
    var cell := SeatCell(seats, capacity, n - 1);
    CellSeparators(seats, capacity, n - 1);
    CountAppend(t, cell, ' ');
    CountAppend(t, cell, '\n');
    assert LayoutPrefix(seats, capacity, n) == t + cell;
  }

  /** The cells of the first `n` seats hold the seats' symbols in order. */
  lemma {:induction false} PrefixSymbols(seats: seq<bool>, capacity: int, n: nat)
    requires n <= |seats|
    ensures SymbolsOf(LayoutPrefix(seats, capacity, n)) == SeatSymbols(seats[..n])
  {
    if n > 0 {
      PrefixSymbols(seats, capacity, n - 1);
      NextSymbol(seats, capacity, n);
      SeatSymbolsStep(seats, n - 1);
    }
  }

  /** The cell of seat `n` adds that seat's symbol and no other. */
  lemma NextSymbol(seats: seq<bool>, capacity: int, n: nat)
    requires 0 < n <= |seats|
    ensures SymbolsOf(LayoutPrefix(seats, capacity, n)) ==
      SymbolsOf(LayoutPrefix(seats, capacity, n - 1)) + [SeatSymbol(seats[n - 1])]
  {
    var t := LayoutPrefix(seats, capacity, n - 1);
    var cell := SeatCell(seats, capacity, n - 1);
    CellSymbols(seats, capacity, n - 1);
    SymbolsOfAppend(t, cell);
    assert LayoutPrefix(seats, capacity, n) == t + cell;
  }

  /** Before the last seat every seat is followed by exactly one separator,
      a space after odd seat numbers and a line break after even ones; the
      last seat gets none. */
  lemma {:induction false} PrefixSeparators(seats: seq<bool>, capacity: int, n: nat)
    requires n <= capacity <= |seats| && 1 <= capacity
    ensures Count(LayoutPrefix(seats, capacity, n), '\n') == (if n < capacity then n / 2 else (n - 1) / 2)
    ensures Count(LayoutPrefix(seats, capacity, n), ' ') == (if n < capacity then (n + 1) / 2 else n / 2)
  {
    if n > 0 {
      PrefixSeparators(seats, capacity, n - 1);
      NextSeparators(seats, capacity, n);
    }
  }

  /** The cells of the first `n` seats: one symbol per seat and one
      separator after every seat but the last. */
  lemma {:induction false} PrefixLength(seats: seq<bool>, capacity: int, n: nat)
    requires n <= capacity <= |seats| && 1 <= capacity
    ensures |LayoutPrefix(seats, capacity, n)| == (if n < capacity then 2 * n else 2 * n - 1)
  {
    if n > 0 {
      PrefixLength(seats, capacity, n - 1);
      CellSeparators(seats, capacity, n - 1);
    }
  }

  /** The layout holds one symbol per seat, in seat order: `*` for a true
      status and `X` otherwise, nothing else. */
  lemma LayoutSymbols(seats: seq<bool>, capacity: int)
    requires 0 <= capacity <= |seats|
    ensures SymbolsOf(Layout(seats, capacity)) == SeatSymbols(seats[..capacity])
  {
    PrefixSymbols(seats, capacity, capacity);
  }

  /** Rows of two: a layout of `capacity >= 1` seats has `(capacity-1)/2`
      line breaks, `capacity/2` spaces, and `2*capacity-1` characters, so
      exactly one separator between neighbouring seats. */
  lemma LayoutShape(seats: seq<bool>, capacity: int)
    requires 1 <= capacity <= |seats|
    ensures Count(Layout(seats, capacity), '\n') == (capacity - 1) / 2
    ensures Count(Layout(seats, capacity), ' ') == capacity / 2
    ensures |Layout(seats, capacity)| == 2 * capacity - 1
  {
    PrefixSeparators(seats, capacity, capacity);
    PrefixLength(seats, capacity, capacity);
  }

  /** The layout ends with the last seat's symbol, never with a space or a
      line break; without seats it is empty. */
  lemma LayoutEnds(seats: seq<bool>, capacity: int)
    requires capacity <= |seats|
    ensures capacity <= 0 ==> Layout(seats, capacity) == ""
    ensures capacity >= 1 ==>
      (|Layout(seats, capacity)| > 0 &&
       Layout(seats, capacity)[|Layout(seats, capacity)| - 1] == SeatSymbol(seats[capacity - 1]))
  {
    if capacity >= 1 {
      var cell := SeatCell(seats, capacity, capacity - 1);
      assert cell == [SeatSymbol(seats[capacity - 1])];
    }
  }
}
