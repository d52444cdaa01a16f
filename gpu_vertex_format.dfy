/// Vertex layouts built by appending parameters (GPU/Common/Render/VertexFormat.cs).
module GpuVertexFormat {

  const Uint32Modulus: int := 0x1_0000_0000

  datatype VertexFormatParameter = Position2f | UV2f

  /** One entry of a layout: its kind, its shader name and its byte offset in the vertex. */
  datatype VertexFormatParameterEntry = VertexFormatParameterEntry(
    parameter: VertexFormatParameter, parameterName: string, byteOffset: int)
  {
    /** Both kinds are two-component vectors. */
    function ComponentCount(): (n: int)
      ensures n == 2
    {
      match parameter
      case Position2f | UV2f => 2
    }

    /** Neither kind is normalised. */
    predicate IsNormalised()
      ensures !IsNormalised()
    {
      match parameter
      case Position2f | UV2f => false
    }
  }

  /** Both kinds are two 4-byte floats. */
  function ParameterSizeBytes(p: VertexFormatParameter): (n: int)
    ensures n == 4 * VertexFormatParameterEntry(p, "", 0).ComponentCount()
  {
    match p
    case Position2f | UV2f => 8
  }

  class VertexFormat {
    /** A uint property: additions wrap modulo 2^32. */
    var vertexSizeBytes: int
    var parameters: seq<VertexFormatParameterEntry>

    /** Every entry sits 8 bytes after the previous one, and the size is the next free offset. */
    ghost predicate Valid()
      reads this
    {
      && vertexSizeBytes == (8 * |parameters|) % Uint32Modulus
      && forall i :: 0 <= i < |parameters| ==> parameters[i].byteOffset == (8 * i) % Uint32Modulus
    }

    constructor ()
      ensures Valid()
      ensures parameters == [] && vertexSizeBytes == 0
    {
      vertexSizeBytes := 0;
      parameters := [];
    }

    method AddParameter(parameter: VertexFormatParameter, parameterName: string)
      requires Valid()
      modifies this
      ensures Valid()
      ensures parameters == old(parameters) + [VertexFormatParameterEntry(parameter, parameterName, old(vertexSizeBytes))]
      ensures vertexSizeBytes == (old(vertexSizeBytes) + 8) % Uint32Modulus
    {
      var entry := VertexFormatParameterEntry(parameter, parameterName, vertexSizeBytes);
      parameters := parameters + [entry];
      vertexSizeBytes := (vertexSizeBytes + ParameterSizeBytes(parameter)) % Uint32Modulus;
    }

    method Clear()
      modifies this
      ensures Valid()
      ensures parameters == [] && vertexSizeBytes == 0
    {
      parameters := [];
      vertexSizeBytes := 0;
    }
  }
}
