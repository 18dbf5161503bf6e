/**
 Tickets number the claims of one side of a ring: 0, 1, 2, ...
 Ticket t belongs to slot t % cap and to round t / cap of that slot.
 All the nonlinear arithmetic of the project is in this module.
 */
module Tickets {

  function SlotOf(t: nat, cap: nat): nat
    requires cap > 0
  {
    t % cap
  }

  function RoundOf(t: nat, cap: nat): nat
    requires cap > 0
  {
    t / cap
  }

  /** The ticket of round `round` on slot `i`. */
  function TicketAt(round: nat, i: nat, cap: nat): nat {
    round * cap + i
  }

  lemma MulGap(a: nat, b: nat, c: nat)
    requires a < b
    ensures a * c + c <= b * c
  {
    assert b * c == (b - 1) * c + c;
    if a < b - 1 {
      MulGap(a, b - 1, c);
    }
  }

  lemma EuclidUnique(q1: nat, r1: nat, q2: nat, r2: nat, cap: nat)
    requires r1 < cap && r2 < cap
    requires q1 * cap + r1 == q2 * cap + r2
    ensures q1 == q2 && r1 == r2
  {
    if q1 < q2 {
      MulGap(q1, q2, cap);
    } else if q2 < q1 {
      MulGap(q2, q1, cap);
    }
  }

  lemma DivMod(round: nat, i: nat, cap: nat)
    requires i < cap
    ensures (round * cap + i) / cap == round
    ensures (round * cap + i) % cap == i
  {
    var t := round * cap + i;
    assert t == (t / cap) * cap + t % cap;
    EuclidUnique(t / cap, t % cap, round, i, cap);
  }

  /** A ticket and its (round, slot) pair determine each other. */
  lemma TicketRoundTrip(t: nat, round: nat, i: nat, cap: nat)
    requires i < cap
    ensures SlotOf(t, cap) < cap
    ensures t == TicketAt(RoundOf(t, cap), SlotOf(t, cap), cap)
    ensures RoundOf(TicketAt(round, i, cap), cap) == round
    ensures SlotOf(TicketAt(round, i, cap), cap) == i
  {
    DivMod(round, i, cap);
  }

  lemma SuccTicket(t: nat, cap: nat)
    requires cap > 0
    ensures SlotOf(t, cap) + 1 < cap ==> SlotOf(t + 1, cap) == SlotOf(t, cap) + 1 && RoundOf(t + 1, cap) == RoundOf(t, cap)
    ensures SlotOf(t, cap) + 1 >= cap ==> SlotOf(t + 1, cap) == 0 && RoundOf(t + 1, cap) == RoundOf(t, cap) + 1
  {
    var q, r := t / cap, t % cap;
    assert t == q * cap + r && 0 <= r < cap;
    if r + 1 < cap {
      DivMod(q, r + 1, cap);
    } else {
      assert t + 1 == (q + 1) * cap + 0;
      DivMod(q + 1, 0, cap);
    }
  }

  /** One full turn of the ring: same slot, next round. */
  lemma TurnTicket(t: nat, cap: nat)
    requires cap > 0
    ensures SlotOf(t + cap, cap) == SlotOf(t, cap) && RoundOf(t + cap, cap) == RoundOf(t, cap) + 1
  {
    var q, r := t / cap, t % cap;
    assert t == q * cap + r && 0 <= r < cap;
    assert t + cap == (q + 1) * cap + r;
    DivMod(q + 1, r, cap);
  }

  /** Earlier rounds of a slot are at least one turn behind. */
  lemma RoundGap(r1: nat, r2: nat, i: nat, cap: nat)
    requires r1 < r2
    ensures TicketAt(r1, i, cap) + cap <= TicketAt(r2, i, cap)
  {
    MulGap(r1, r2, cap);
  }

  /** Two tickets less than one turn apart have different slots. */
  lemma SlotsDistinct(t: nat, u: nat, cap: nat)
    requires t < u < t + cap
    ensures SlotOf(t, cap) != SlotOf(u, cap)
  {
    TicketRoundTrip(t, 0, 0, cap);
    TicketRoundTrip(u, 0, 0, cap);
    var q, p := RoundOf(t, cap), RoundOf(u, cap);
    if p < q {
      MulGap(p, q, cap);
    } else if q < p {
      MulGap(q, p, cap);
    }
  }

  /** Round n starts at ticket cap * n. */
  lemma RoundBound(t: nat, cap: nat, n: nat)
    requires cap > 0
    ensures t < n * cap <==> RoundOf(t, cap) < n
    ensures t == n * cap ==> RoundOf(t, cap) == n && SlotOf(t, cap) == 0
  {
    var q, r := t / cap, t % cap;
    assert t == q * cap + r && 0 <= r < cap;
    if q < n {
      MulGap(q, n, cap);
    } else if n < q {
      MulGap(n, q, cap);
    }
    if t == n * cap {
      DivMod(n, 0, cap);
    }
  }

  /** The laps of a ticket: 2r before and during its write, 2r + 1 until it is read, 2r + 2 after. */
  lemma TicketLaps(t: nat, cap: nat, lap: nat)
    requires cap > 0
    ensures lap == 2 * RoundOf(t, cap) ==> lap % 2 == 0 && TicketAt(lap / 2, SlotOf(t, cap), cap) == t
    ensures lap == 2 * RoundOf(t, cap) + 1 ==> lap % 2 == 1 && TicketAt(lap / 2, SlotOf(t, cap), cap) == t
    ensures lap == 2 * RoundOf(t, cap) + 2 ==> lap % 2 == 0 && TicketAt(lap / 2, SlotOf(t, cap), cap) == t + cap
  {
    var r := RoundOf(t, cap);
    TicketRoundTrip(t, 0, 0, cap);
    TurnTicket(t, cap);
    TicketRoundTrip(t + cap, 0, 0, cap);
    assert (2 * r) / 2 == r && (2 * r + 1) / 2 == r && (2 * r + 2) / 2 == r + 1;
  }
}
