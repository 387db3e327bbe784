/** The rotation applied to the drawing for each tree orientation. */
module StyleHelper {
  import opened Wrappers

  datatype TreeType = Radial | ToLeft | ToRight | ToTop | ToBottom

  datatype PropsStyles = PropsStyles(transform: string)

  /** The quarter-turn rotations the style can take. */
  const Rotations: seq<string> := ["0deg", "90deg", "180deg", "270deg"]

  /** The style for an (optional) tree type: toBottom is upright, toLeft,
      toTop and toRight turn by one, two and three quarter turns, and every
      other value (radial, or no type at all) is upright too. */
  function CreatePropsStyles(treeType: Option<TreeType>): (s: PropsStyles)
    ensures s.transform in Rotations
    ensures s.transform == "90deg" <==> treeType == Some(ToLeft)
    ensures s.transform == "180deg" <==> treeType == Some(ToTop)
    ensures s.transform == "270deg" <==> treeType == Some(ToRight)
    ensures s.transform == "0deg" <==> treeType !in {Some(ToLeft), Some(ToTop), Some(ToRight)}
  {
    match treeType
    case Some(ToBottom) => PropsStyles("0deg")
    case Some(ToLeft) => PropsStyles("90deg")
    case Some(ToTop) => PropsStyles("180deg")
    case Some(ToRight) => PropsStyles("270deg")
    case _ => PropsStyles("0deg")
  }

  /** The four directed orientations get four different rotations, and
      toBottom shares its rotation with radial and with no type. */
  lemma DirectedTypesRotateDifferently(a: TreeType, b: TreeType)
    requires a != Radial && b != Radial && a != b
    ensures CreatePropsStyles(Some(a)) != CreatePropsStyles(Some(b))
    ensures CreatePropsStyles(Some(ToBottom)) == CreatePropsStyles(Some(Radial))
    ensures CreatePropsStyles(Some(ToBottom)) == CreatePropsStyles(None)
  {
  }
}
