/** The remaining-seats query (`GET /api/remaining-seats`). */
module SeatsApi {

  /** The seat total the query counts against. */
  const TotalSeats: nat := 70

  /** `Math.max(0, TOTAL_SEATS - participantCount)`. */
  function RemainingSeats(count: nat): (r: nat)
    ensures r <= TotalSeats
    ensures r == 0 <==> count >= TotalSeats
    ensures count <= TotalSeats ==> r + count == TotalSeats
  {
    if count >= TotalSeats then 0 else TotalSeats - count
  }

  /** Seats never come back as the count grows. */
  lemma RemainingSeatsAntitone(c1: nat, c2: nat)
    requires c1 <= c2
    ensures RemainingSeats(c2) <= RemainingSeats(c1)
    ensures c1 < c2 && c1 < TotalSeats ==> RemainingSeats(c2) < RemainingSeats(c1)
  {
  }
}
