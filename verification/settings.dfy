/** The one setting the modelled code reads: how far (in cosine distance)
    a search hit may be from the query and still count as related. */
module Settings {

  import opened Wrappers

  /** A distance threshold: configuration only accepts values in [0, 1]. */
  type Threshold = t: real | 0.0 <= t <= 1.0

  const DefaultThreshold: Threshold := 0.3

  /** Loading a configured value: the bounds check of the settings field. */
  function CheckThreshold(t: real): (r: Option<Threshold>)
    ensures r.Some? <==> 0.0 <= t <= 1.0
    ensures r.Some? ==> r.value == t
  {
    if 0.0 <= t <= 1.0 then Some(t) else None
  }

  /** The default is a value the check accepts, and the check accepts the
      whole closed interval, ends included. */
  lemma DefaultPassesCheck()
    ensures CheckThreshold(DefaultThreshold as real) == Some(DefaultThreshold)
    ensures CheckThreshold(0.0).Some? && CheckThreshold(1.0).Some?
    ensures CheckThreshold(-0.1).None? && CheckThreshold(1.1).None?
  {
  }
}
