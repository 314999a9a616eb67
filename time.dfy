/** Timestamps and durations.

    A clock reading is a natural number of ticks, a duration a natural number
    of ticks; both are unbounded, so `Instant + Duration` never overflows.
    `Stbi` wraps a reading and reverses its ordering, so that a max-heap keyed
    on `Stbi` hands out the earliest reading first. */
module Time {
  import opened Optional

  type Duration = nat

  const ZERO: Duration := 0

  /** The three outcomes of a total comparison. */
  datatype Ordering = Less | Equal | Greater {
    function Reverse(): Ordering {
      match this
      case Less => Greater
      case Equal => Equal
      case Greater => Less
    }
  }

  /** Chronological comparison of two raw clock readings (the order of the
      wrapped instant itself). */
  function CompareInstants(a: nat, b: nat): (o: Ordering)
    ensures o == Less <==> a < b
    ensures o == Equal <==> a == b
    ensures o == Greater <==> a > b
  {
    if a < b then Less else if a == b then Equal else Greater
  }

  /** A clock reading whose ordering is the reverse of chronological order. */
  datatype Stbi = Stbi(instant: nat) {

    /** The time from `earlier` up to this reading, zero when this reading is
        not strictly later. */
    function Since(earlier: Stbi): (d: Duration)
      ensures d == ZERO <==> instant <= earlier.instant
      ensures d != ZERO ==> earlier.instant + d == instant
    {
      if instant > earlier.instant then instant - earlier.instant else ZERO
    }

    /** The ordering with its arguments swapped: a later reading is smaller. */
    function Cmp(other: Stbi): (o: Ordering)
      ensures o == Less <==> instant > other.instant
      ensures o == Equal <==> instant == other.instant
      ensures o == Greater <==> instant < other.instant
    {
      CompareInstants(other.instant, instant)
    }

    /** `partial_cmp` agrees with `cmp`: the order is total. */
    function PartialCmp(other: Stbi): (o: Option<Ordering>)
      ensures o == Some(Cmp(other))
    {
      Some(CompareInstants(other.instant, instant))
    }

    /** This reading moved forward by `d`. */
    function Add(d: Duration): (r: Stbi)
      ensures r.Since(this) == d
      ensures this.Since(r) == ZERO
      ensures d != ZERO ==> r.Cmp(this) == Less
    {
      Stbi(instant + d)
    }
  }

  /** `Stbi::cmp` is a total order: antisymmetric, transitive and reflexive. */
  lemma CmpIsTotalOrder(a: Stbi, b: Stbi, c: Stbi)
    ensures a.Cmp(b) == b.Cmp(a).Reverse()
    ensures a.Cmp(b) == Equal <==> a == b
    ensures a.Cmp(b) != Greater && b.Cmp(c) != Greater ==> a.Cmp(c) != Greater
    ensures a.Cmp(b) == Less && b.Cmp(c) == Less ==> a.Cmp(c) == Less
  {
  }
}
