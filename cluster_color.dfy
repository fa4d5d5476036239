/**
 * The fill colour of a cluster circle (getClusterColor): three density
 * bands by marker count.
 */
module ClusterStyle {
  const HighFill: string := "rgba(255, 0, 0, 0.2)"
  const MediumFill: string := "rgba(255, 165, 0, 0.2)"
  const LowFill: string := "rgba(0, 255, 0, 0.2)"

  /** Red above 10 markers, orange above 5 up to 10, green otherwise; each count gets exactly one. */
  function ClusterColor(count: int): (fill: string)
    ensures fill == HighFill <==> count > 10
    ensures fill == MediumFill <==> 5 < count <= 10
    ensures fill == LowFill <==> count <= 5
  {
    if count > 10 then HighFill
    else if count > 5 then MediumFill
    else LowFill
  }

  /** The density rank of a fill: 0 green, 1 orange, 2 red. */
  function Density(fill: string): nat
  {
    if fill == HighFill then 2 else if fill == MediumFill then 1 else 0
  }

  /** A cluster with more markers is never drawn in a lower band. */
  lemma ColorMonotone(a: int, b: int)
    requires a <= b
    ensures Density(ClusterColor(a)) <= Density(ClusterColor(b))
  {
  }
}
