/** The premium bus (projectAssignment2/src/PremiumBus.java): a bus with a
    refund rate and a premium fee, whose first seat of every row of three is a
    premium seat costing extra, and whose layout marks that seat with ` |`. */
module PremiumBus {
  import opened Strings
  import opened Buses

  /** A premium bus: the common bus part and the premium fee percentage. */
  datatype PremiumBus = PremiumBus(bus: Bus, premiumFee: real)

  /** The premium bus constructor: type "Premium", the other arguments
      stored unchanged. */
  function NewPremiumBus(capacity: int, ticketPrice: real, premiumFee: real, refundRate: real): (p: PremiumBus)
    ensures p.bus == NewBus("Premium", capacity, ticketPrice, refundRate)
    ensures p.premiumFee == premiumFee
  {
    PremiumBus(Bus("Premium", capacity, ticketPrice, refundRate), premiumFee)
  }

  /** Java's `%` on `int`: the remainder takes the sign of the dividend. */
  function JavaRem(a: int, m: int): (r: int)
    requires m > 0
    ensures a >= 0 ==> r == a % m
    ensures a < 0 ==> -m < r <= 0
    ensures (a - r) % m == 0
  {
    if a >= 0 then
      assert a - a % m == m * (a / m);
      MultipleRemainder(a / m, m);
      a % m
    else
      NegativeRemainder(a, m);
      assert a - -((-a) % m) == a + (-a) % m;
      -((-a) % m)
  }

  /** For a negative dividend, adding the remainder of its magnitude gives
      a multiple of `m`. */
  lemma NegativeRemainder(a: int, m: int)
    requires a < 0 && m > 0
    ensures (a + (-a) % m) % m == 0
  {
    var q := (-a) / m;
    assert a + (-a) % m == m * -q;
    MultipleRemainder(-q, m);
  }

  /** A multiple of `m` leaves no remainder. */
  lemma MultipleRemainder(k: int, m: int)
    requires m > 0
    ensures (m * k) % m == 0
  {
    var x := m * k;
    var d := k - x / m;
    assert x == m * (x / m) + x % m;
    assert x % m == m * d;
  }

  /** The source's premium-seat test: seat number leaves remainder 1 by 3. */
  predicate IsPremiumSeat(seatNumber: int)
  {
    JavaRem(seatNumber, 3) == 1
  }

  /** Premium seats are exactly the non-negative seat numbers 1, 4, 7, ...;
      a negative seat number is never premium. */
  lemma PremiumSeats(seatNumber: int)
    ensures IsPremiumSeat(seatNumber) <==> seatNumber >= 0 && seatNumber % 3 == 1
  {
  }

  /** The price of a seat: the ticket price plus `premiumFee` percent of it
      for a premium seat, the plain ticket price for any other seat. */
  function CalculateTicketPrice(p: PremiumBus, seatNumber: int): (price: real)
    ensures IsPremiumSeat(seatNumber) ==>
      price == p.bus.ticketPrice * (1.0 + p.premiumFee / 100.0)
    ensures !IsPremiumSeat(seatNumber) ==>
      price == Buses.CalculateTicketPrice(p.bus, seatNumber)
  {
    if JavaRem(seatNumber, 3) == 1 then
      p.bus.ticketPrice + p.bus.ticketPrice * p.premiumFee / 100.0
    else
      p.bus.ticketPrice
  }

  /** Without a premium fee every seat costs the ticket price. */
  lemma ZeroFeeIsFlat(p: PremiumBus, seatNumber: int)
    requires p.premiumFee == 0.0
    ensures CalculateTicketPrice(p, seatNumber) == p.bus.ticketPrice
  {
  }

  /** With non-negative price and fee a premium seat never costs less than
      a plain one, and seats three apart cost the same. */
  lemma PremiumNeverCheaper(p: PremiumBus, seatNumber: int)
    requires p.bus.ticketPrice >= 0.0 && p.premiumFee >= 0.0
    ensures CalculateTicketPrice(p, seatNumber) >= p.bus.ticketPrice
    ensures seatNumber >= 0 ==>
      CalculateTicketPrice(p, seatNumber + 3) == CalculateTicketPrice(p, seatNumber)
  {
    assert p.bus.ticketPrice * p.premiumFee / 100.0 >= 0.0;
    if seatNumber >= 0 {
      assert (seatNumber + 3) % 3 == seatNumber % 3;
    }
  }

  // ---------------------------------------------------------------------
  // Layout

  /** What the renderer writes for seat `i` (counting from 0): its symbol,
      then its markers. */
  function SeatCell(seats: seq<bool>, capacity: int, i: nat): string
    requires i < |seats|
  {
    [SeatSymbol(seats[i])] + Tail(capacity, i)
  }

  /** What follows seat `i`'s symbol in its cell: ` |` after the first seat
      of a row, even the last seat; a space after every seat but the third
      of a row and the last; a line break after the third seat of a row
      unless it is the last. */
  function Tail(capacity: int, i: nat): string
  {
    (if BarAfter(i) then " |" else "")
    + (if SpaceAfter(capacity, i) then " " else "")
    + (if BreakAfter(capacity, i) then "\n" else "")
  }

  /** Seat `i` (from 0) starts a row. */
  predicate BarAfter(i: nat)
  {
    (i + 1) % 3 == 1
  }

  /** Seat `i` neither ends a row nor is the last seat. */
  predicate SpaceAfter(capacity: int, i: nat)
  {
    i + 1 < capacity && (i + 1) % 3 != 0
  }

  /** Seat `i` ends a row and is not the last seat. */
  predicate BreakAfter(capacity: int, i: nat)
  {
    (i + 1) % 3 == 0 && i + 1 < capacity
  }


  /** The cells of the first `n` seats. */
  function LayoutPrefix(seats: seq<bool>, capacity: int, n: nat): string
    requires n <= |seats|
  {
    if n == 0 then "" else LayoutPrefix(seats, capacity, n - 1) + SeatCell(seats, capacity, n - 1)
  }

  /** The layout of a premium bus with `capacity` seats whose statuses
      start `seats`; no seats (or a negative count) give the empty text. */
  function Layout(seats: seq<bool>, capacity: int): string
    requires capacity <= |seats|
  {
    if capacity <= 0 then "" else LayoutPrefix(seats, capacity, capacity)
  }

  /** The renderer: one symbol per seat with its marker and separator. */
  method SeatsLayout(p: PremiumBus, seatStatus: array<bool>) returns (layout: string)
    requires seatStatus.Length >= p.bus.capacity
    ensures layout == Layout(seatStatus[..], p.bus.capacity)
  {
    var capacity := p.bus.capacity;
    var sb := "";
    var i := 0;
    while i < capacity
      invariant 0 <= i <= seatStatus.Length
      invariant i == 0 || i <= capacity
      invariant sb == LayoutPrefix(seatStatus[..], capacity, i)
    {
      ghost var before := sb;
      sb := sb + [SeatSymbol(seatStatus[i])];
      if (i + 1) % 3 == 1 {
        sb := sb + " |";
      }
      if (i + 1) < capacity && (i + 1) % 3 != 0 {
        sb := sb + " ";
      }
      if (i + 1) % 3 == 0 && (i + 1) < capacity {
        sb := sb + "\n";
      }
      assert sb == before + SeatCell(seatStatus[..], capacity, i);
      i := i + 1;
    }
    layout := sb;
  }

  /** One seat's cell starts with the seat's symbol, its only symbol. */
  lemma CellSymbols(seats: seq<bool>, capacity: int, i: nat)
    requires i < |seats|
    ensures SeatCell(seats, capacity, i)[0] == SeatSymbol(seats[i])
    ensures SymbolsOf(SeatCell(seats, capacity, i)) == [SeatSymbol(seats[i])]
  {
    var sym := SeatSymbol(seats[i]);
    var rest := Tail(capacity, i);
    assert SeatCell(seats, capacity, i) == [sym] + rest;
    TailSymbols(capacity, i);
    SymbolsOfAppend([sym], rest);
    assert SymbolsOf([sym]) == [sym];
  }

  /** The text after a seat's symbol holds no seat symbol. */
  lemma TailSymbols(capacity: int, i: nat)
    ensures SymbolsOf(Tail(capacity, i)) == ""
  {
    var rest := Tail(capacity, i);
    if BarAfter(i) && SpaceAfter(capacity, i) {
      assert rest == " | ";
    } else if BarAfter(i) {
      assert rest == " |";
    } else if SpaceAfter(capacity, i) {
      assert rest == " ";
    } else if BreakAfter(capacity, i) {
      assert rest == "\n";
    } else {
      assert rest == "";
    }
    SymbolsOfNone(rest);
  }

  /** The counts of a character in one seat's cell, piece by piece. */
  lemma CellCount(seats: seq<bool>, capacity: int, i: nat, ch: char)
    requires i < |seats|
    ensures Count(SeatCell(seats, capacity, i), ch) ==
      Count([SeatSymbol(seats[i])], ch)
      + Count(if BarAfter(i) then " |" else "", ch)
      + Count(if SpaceAfter(capacity, i) then " " else "", ch)
      + Count(if BreakAfter(capacity, i) then "\n" else "", ch)
  {
    var sym := SeatSymbol(seats[i]);
    var b := if BarAfter(i) then " |" else "";
    var c := if SpaceAfter(capacity, i) then " " else "";
    var d := if BreakAfter(capacity, i) then "\n" else "";
    assert SeatCell(seats, capacity, i) == [sym] + b + c + d;
    CountAppend([sym] + b + c, d, ch);
    CountAppend([sym] + b, c, ch);
    CountAppend([sym], b, ch);
  }

  /** A seat's cell holds a bar exactly when the seat starts a row. */
  lemma CellBars(seats: seq<bool>, capacity: int, i: nat)
    requires i < |seats|
    ensures Count(SeatCell(seats, capacity, i), '|') == Ind(BarAfter(i))
  {
    CellCount(seats, capacity, i, '|');
    assert " |"[..1] == " ";
    assert Count([SeatSymbol(seats[i])], '|') == 0;
  }

  /** A seat's cell holds a space before its bar and a space unless the
      seat ends a row or is the last. */
  lemma CellSpaces(seats: seq<bool>, capacity: int, i: nat)
    requires i < |seats|
    ensures Count(SeatCell(seats, capacity, i), ' ') == Ind(BarAfter(i)) + Ind(SpaceAfter(capacity, i))
  {
    CellCount(seats, capacity, i, ' ');
    assert " |"[..1] == " ";
    assert Count([SeatSymbol(seats[i])], ' ') == 0;
  }

  /** A seat's cell holds a line break exactly after a row's third seat,
      unless it is the last. */
  lemma CellBreaks(seats: seq<bool>, capacity: int, i: nat)
    requires i < |seats|
    ensures Count(SeatCell(seats, capacity, i), '\n') == Ind(BreakAfter(capacity, i))
  {
    CellCount(seats, capacity, i, '\n');
    assert " |"[..1] == " ";
    assert Count([SeatSymbol(seats[i])], '\n') == 0;
  }

  /** The cells of the first `n` seats: their symbols are the seats'
      symbols, in seat order. */
  lemma {:induction false} PrefixSymbols(seats: seq<bool>, capacity: int, n: nat)
    requires n <= |seats|
    ensures SymbolsOf(LayoutPrefix(seats, capacity, n)) == SeatSymbols(seats[..n])
  {
    if n > 0 {
      PrefixSymbols(seats, capacity, n - 1);
      CellSymbols(seats, capacity, n - 1);
      SymbolsOfAppend(LayoutPrefix(seats, capacity, n - 1), SeatCell(seats, capacity, n - 1));
      SeatSymbolsStep(seats, n - 1);
    }
  }

  /** Division by three, one step at a time. */
  lemma ThirdsStep(n: nat)
    requires n > 0
    ensures (n + 2) / 3 == (n + 1) / 3 + Ind(n % 3 == 1)
    ensures n / 3 == (n - 1) / 3 + Ind(n % 3 == 0)
  {
  }

  /** The first `n` seats' cells hold one bar per row started. */
  lemma {:induction false} PrefixBars(seats: seq<bool>, capacity: int, n: nat)
    requires n <= |seats|
    ensures Count(LayoutPrefix(seats, capacity, n), '|') == (n + 2) / 3
  {
    if n > 0 {
      var t := LayoutPrefix(seats, capacity, n - 1);
      var cell := SeatCell(seats, capacity, n - 1);
      PrefixBars(seats, capacity, n - 1);
      CellBars(seats, capacity, n - 1);
      assert Count(cell, '|') == Ind(n % 3 == 1);
      CountAppend(t, cell, '|');
      assert LayoutPrefix(seats, capacity, n) == t + cell;
      ThirdsStep(n);
    }
  }

  /** The first `n` seats' cells hold one line break per row completed
      before the last seat. */
  lemma {:induction false} PrefixBreaks(seats: seq<bool>, capacity: int, n: nat)
    requires n <= capacity <= |seats| && 1 <= capacity
    ensures Count(LayoutPrefix(seats, capacity, n), '\n') == (if n < capacity then n / 3 else (n - 1) / 3)
  {
    if n > 0 {
      PrefixBreaks(seats, capacity, n - 1);
      NextBreaks(seats, capacity, n);
      BreaksStep(n, capacity);
    }
  }

  /** The cell of seat `n` adds a line break exactly when seat number `n`
      ends a row and is not the last. */
  lemma NextBreaks(seats: seq<bool>, capacity: int, n: nat)
    requires 0 < n <= |seats|
    ensures Count(LayoutPrefix(seats, capacity, n), '\n') ==
      Count(LayoutPrefix(seats, capacity, n - 1), '\n') + Ind(n % 3 == 0 && n < capacity)
  {
    var t := LayoutPrefix(seats, capacity, n - 1);
    var cell := SeatCell(seats, capacity, n - 1);
    CellBreaks(seats, capacity, n - 1);
    CountAppend(t, cell, '\n');
    assert LayoutPrefix(seats, capacity, n) == t + cell;
  }

  lemma BreaksStep(n: nat, capacity: int)
    requires 0 < n <= capacity
    ensures (if n < capacity then n / 3 else (n - 1) / 3) == (n - 1) / 3 + Ind(n % 3 == 0 && n < capacity)
  {
  }

  /** The first `n` seats' cells hold a space before every bar and one
      after every seat inside a row. */
  lemma {:induction false} PrefixSpaces(seats: seq<bool>, capacity: int, n: nat)
    requires n <= capacity <= |seats| && 1 <= capacity
    ensures Count(LayoutPrefix(seats, capacity, n), ' ') == Spaces(n, capacity)
  {
    if n > 0 {
      PrefixSpaces(seats, capacity, n - 1);
      NextSpaces(seats, capacity, n);
      SpacesStep(n, capacity);
    }
  }

  /** The cell of seat `n` adds a space before its bar when it starts a
      row, and one more unless it ends a row or is the last. */
  lemma NextSpaces(seats: seq<bool>, capacity: int, n: nat)
    requires 0 < n <= |seats|
    ensures Count(LayoutPrefix(seats, capacity, n), ' ') ==
      Count(LayoutPrefix(seats, capacity, n - 1), ' ') + Ind(n % 3 == 1) + Ind(n < capacity && n % 3 != 0)
  {
    var t := LayoutPrefix(seats, capacity, n - 1);
    var cell := SeatCell(seats, capacity, n - 1);
    CellSpaces(seats, capacity, n - 1);
    CountAppend(t, cell, ' ');
    assert LayoutPrefix(seats, capacity, n) == t + cell;
  }

  /** The spaces of the first `n` seats' cells: one per bar, and one after
      every seat that neither ends a row nor is the last. */
  function Spaces(n: nat, capacity: int): int
  {
    (n + 2) / 3 + (if n < capacity then n - n / 3 else (n - 1) - (n - 1) / 3)
  }

  lemma SpacesStep(n: nat, capacity: int)
    requires 0 < n <= capacity
    ensures Spaces(n, capacity) == Spaces(n - 1, capacity) + Ind(n % 3 == 1) + Ind(n < capacity && n % 3 != 0)
  {
    ThirdsStep(n);
  }

  /** The first `n` seats' cells: one symbol per seat, two characters per
      bar, and one separator after every seat but the last. */
  lemma {:induction false} PrefixLength(seats: seq<bool>, capacity: int, n: nat)
    requires n <= capacity <= |seats| && 1 <= capacity
    ensures |LayoutPrefix(seats, capacity, n)| == (if n < capacity then 2 * n else 2 * n - 1) + 2 * ((n + 2) / 3)
  {
    if n > 0 {
      var t := LayoutPrefix(seats, capacity, n - 1);
      var cell := SeatCell(seats, capacity, n - 1);
      PrefixLength(seats, capacity, n - 1);
      assert |cell| == 1 + 2 * Ind(n % 3 == 1) + Ind(n < capacity);
      assert LayoutPrefix(seats, capacity, n) == t + cell;
      ThirdsStep(n);
    }
  }

  /** The layout holds one symbol per seat, in seat order: `*` for a true
      status and `X` otherwise. */
  lemma LayoutSymbols(seats: seq<bool>, capacity: int)
    requires 0 <= capacity <= |seats|
    ensures SymbolsOf(Layout(seats, capacity)) == SeatSymbols(seats[..capacity])
  {
    PrefixSymbols(seats, capacity, capacity);
  }

  /** Rows of three: a layout of `capacity >= 1` seats has one bar per row,
      `(capacity+2)/3` in all, `(capacity-1)/3` line breaks, and
      `2*capacity - 1 + 2*((capacity+2)/3)` characters. */
  lemma LayoutShape(seats: seq<bool>, capacity: int)
    requires 1 <= capacity <= |seats|
    ensures Count(Layout(seats, capacity), '|') == (capacity + 2) / 3
    ensures Count(Layout(seats, capacity), '\n') == (capacity - 1) / 3
    ensures |Layout(seats, capacity)| == 2 * capacity - 1 + 2 * ((capacity + 2) / 3)
  {
    PrefixBars(seats, capacity, capacity);
    PrefixBreaks(seats, capacity, capacity);
    PrefixLength(seats, capacity, capacity);
  }

  /** The layout never ends with a space or a line break: it ends with the
      last seat's symbol, or with its bar when the last seat starts a row.
      Without seats it is empty. */
  lemma LayoutEnds(seats: seq<bool>, capacity: int)
    requires capacity <= |seats|
    ensures capacity <= 0 ==> Layout(seats, capacity) == ""
    ensures capacity >= 1 ==>
      (|Layout(seats, capacity)| > 0 &&
       Layout(seats, capacity)[|Layout(seats, capacity)| - 1] ==
         if capacity % 3 == 1 then '|' else SeatSymbol(seats[capacity - 1]))
  {
    if capacity >= 1 {
      var sym := SeatSymbol(seats[capacity - 1]);
      var cell := SeatCell(seats, capacity, capacity - 1);
      if capacity % 3 == 1 {
        assert cell == [sym] + " |";
      } else {
        assert cell == [sym];
      }
    }
  }

  /** The seat the layout marks with ` |` is exactly the seat priced as
      premium, with seats numbered from 1 as bookings number them: seat
      `i` (from 0) carries the bar iff seat number `i + 1` is premium. */
  lemma BarMarksPremiumSeat(seats: seq<bool>, capacity: int, i: nat)
    requires i < capacity <= |seats|
    ensures (exists k :: 0 <= k < |SeatCell(seats, capacity, i)| && SeatCell(seats, capacity, i)[k] == '|')
        <==> IsPremiumSeat(i + 1)
  {
    var cell := SeatCell(seats, capacity, i);
    CellBars(seats, capacity, i);
    if IsPremiumSeat(i + 1) {
      assert cell[2] == '|';
    } else {
      CountZero(cell, '|');
    }
  }
}
