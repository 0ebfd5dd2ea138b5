/** The kind of a graph face (GraphFaceEnumeration/FaceType.swift). */
module FaceTypes {

  /**
   * `inner`, `outer`, or `unknown` with the edge count and the total angle of
   * a face that is not (yet) classified. Dafny's structural equality is the
   * synthesized `Equatable` conformance.
   */
  datatype FaceType = Inner | Outer | Unknown(edgeCount: int, totalDegrees: real)
  {
    /** `description`: the case name, which tells the three cases apart. */
    function Description(): (r: string)
      ensures r == "inner" <==> Inner?
      ensures r == "outer" <==> Outer?
      ensures r == "unknown" <==> Unknown?
    {
      match this
      case Inner => "inner"
      case Outer => "outer"
      case Unknown(_, _) => "unknown"
    }

    /** `debugDescription`: the case name qualified by the type name. */
    function DebugDescription(): (r: string)
      ensures r == "FaceType." + Description()
    {
      match this
      case Inner => "FaceType.inner"
      case Outer => "FaceType.outer"
      case Unknown(_, _) => "FaceType.unknown"
    }
  }

  /** The descriptions tell the three cases apart, and ignore the payload of `unknown`. */
  lemma DescriptionDeterminesCase(a: FaceType, b: FaceType)
    ensures a.Description() == b.Description() <==>
      (a.Inner? && b.Inner?) || (a.Outer? && b.Outer?) || (a.Unknown? && b.Unknown?)
    ensures a.DebugDescription() == b.DebugDescription() <==> a.Description() == b.Description()
  {
    if a.Description() == b.Description() {
      if a.Inner? { assert b.Description()[0] == 'i'; }
      if a.Outer? { assert b.Description()[0] == 'o'; }
      if a.Unknown? { assert b.Description()[0] == 'u'; }
    }
    if a.DebugDescription() == b.DebugDescription() {
      assert a.DebugDescription()[9..] == a.Description();
      assert b.DebugDescription()[9..] == b.Description();
    }
  }

  /** Two `unknown` values are equal exactly when their payloads are; the cases are distinct. */
  lemma EqualityByPayload(n: int, t: real, n': int, t': real)
    ensures Unknown(n, t) == Unknown(n', t') <==> n == n' && t == t'
    ensures Inner != Outer && Inner != Unknown(n, t) && Outer != Unknown(n, t)
  {
  }
}
