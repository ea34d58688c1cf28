/**
 * The risk classifier (`classify_point`): an ordered ladder of `>=` tests,
 * highest tier first, mapping one discharge value to a tier of the map
 * legend, or to no classification for a value that is not finite and positive.
 */
module RiskClassifier {
  import opened Wrappers
  import opened Discharge
  import opened Thresholds

  /** The four legend entries, named by colour and return-period proxy. */
  datatype Tier = Gray1 | Orange2 | Red5 | Purple20
  {
    /** The `risk_level` string the feature carries. */
    function Level(): string
    {
      match this
      case Gray1 => "1"
      case Orange2 => "2"
      case Red5 => "5"
      case Purple20 => "20"
    }

    /** The `risk_color` string the feature carries. */
    function Color(): string
    {
      match this
      case Gray1 => "gray"
      case Orange2 => "orange"
      case Red5 => "red"
      case Purple20 => "purple"
    }

    /** Severity, lowest first. */
    function Rank(): nat
    {
      match this
      case Gray1 => 0
      case Orange2 => 1
      case Red5 => 2
      case Purple20 => 3
    }
  }

  /** The tier a `risk_level` string stands for. */
  function TierOf(level: string): (t: Tier)
    ensures level in ["1", "2", "5", "20"] ==> t.Level() == level
  {
    if level == "20" then Purple20
    else if level == "5" then Red5
    else if level == "2" then Orange2
    else Gray1
  }

  /** The level string identifies the tier: no two tiers share one. */
  lemma LevelNames(t: Tier)
    ensures TierOf(t.Level()) == t
  {
  }

  /**
   * The ladder. Each tier is stated as the band of values that reaches it:
   * a value reaches a tier when it is at least that tier's threshold and
   * below the thresholds of every tier tested before it.
   */
  function Classify(v: Val, t: Triple): (r: Option<Tier>)
    ensures r.None? <==> !IsPositive(v)
    ensures r == Some(Purple20) <==> IsPositive(v) && v.r >= t.q20
    ensures r == Some(Red5) <==> IsPositive(v) && v.r < t.q20 && v.r >= t.q5
    ensures r == Some(Orange2) <==> IsPositive(v) && v.r < t.q20 && v.r < t.q5 && v.r >= t.q2
    ensures r == Some(Gray1) <==> IsPositive(v) && v.r < t.q20 && v.r < t.q5 && v.r < t.q2
  {
    if !v.Finite? || v.r <= 0.0 then None
    else if v.r >= t.q20 then Some(Purple20)
    else if v.r >= t.q5 then Some(Red5)
    else if v.r >= t.q2 then Some(Orange2)
    else Some(Gray1)
  }

  /**
   * With ordered thresholds the tiers are the half-open bands
   * [q20, inf), [q5, q20), [q2, q5) and (0, q2): a value equal to a
   * threshold gets the tier of that threshold, not the one below.
   */
  lemma OrderedBands(v: real, t: Triple)
    requires Ordered(t) && v > 0.0
    ensures t.q20 <= v ==> Classify(Finite(v), t) == Some(Purple20)
    ensures t.q5 <= v < t.q20 ==> Classify(Finite(v), t) == Some(Red5)
    ensures t.q2 <= v < t.q5 ==> Classify(Finite(v), t) == Some(Orange2)
    ensures v < t.q2 ==> Classify(Finite(v), t) == Some(Gray1)
  {
  }

  /** A larger discharge never gets a less severe tier, whatever the thresholds. */
  lemma ClassifyMonotone(v: real, w: real, t: Triple)
    requires 0.0 < v <= w
    ensures Classify(Finite(v), t).Some? && Classify(Finite(w), t).Some?
    ensures Classify(Finite(v), t).value.Rank() <= Classify(Finite(w), t).value.Rank()
  {
  }
}
