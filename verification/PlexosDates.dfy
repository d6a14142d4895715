/** When a dated PLEXOS value applies (interop/plugins/shared/plexos_dates.py). */
module PlexosDates {
  import opened Common

  // Microseconds since the earliest datetime, which is therefore moment 0.
  type Moment = nat

  const EARLIEST: Moment := 0
  const ONE_DAY: nat := 86_400_000_000

  datatype DateBand = DateBand(dateFrom: Option<Moment>, dateTo: Option<Moment>) {

    /** The first moment past the band: midnight after `dateTo`. */
    function Ends(): Option<Moment> {
      match dateTo
      case None => None
      case Some(day) => Some(day + ONE_DAY)
    }

    predicate Covers(moment: Moment) {
      && (dateFrom.None? || dateFrom.value <= moment)
      && (Ends().None? || moment < Ends().value)
    }

    /** The sort key: an undated band stands before any dated one begins. */
    function OpensAt(): Moment {
      if dateFrom.None? then EARLIEST else dateFrom.value
    }

    function Edges(): set<Moment> {
      (if dateFrom.None? then {} else {dateFrom.value}) + (if Ends().None? then {} else {Ends().value})
    }
  }

  const UNDATED := DateBand(None, None)

  /** A band covers two moments alike when neither its opening nor the end of its last day, a full
      day past that day's start, separates them. */
  lemma CoversUnchangedBetweenEdges(band: DateBand, a: Moment, t: Moment)
    requires a <= t
    requires band.dateFrom.Some? ==> !(a < band.dateFrom.value <= t)
    requires band.dateTo.Some? ==> !(a < band.dateTo.value + 86_400_000_000 <= t)
    ensures band.Covers(a) == band.Covers(t)
  {
  }

  /** So a band's edges are exactly where it starts or stops covering, unless it covers nothing. */
  lemma EdgesAreWhereCoverageTurns(band: DateBand, m: Moment)
    requires m > 0 && (band.dateFrom.Some? && band.dateTo.Some? ==> band.dateFrom.value < band.dateTo.value + 86_400_000_000)
    ensures m in band.Edges() <==> band.Covers(m - 1) != band.Covers(m)
  {
  }
}
