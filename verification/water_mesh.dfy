/** `WaterMesh.generateMesh`: the same vertex, index and colour loops as
    `WaterModel.generateMesh`, statement for statement, so it is modelled
    by the same definitions. */
module WaterMesh {
  import opened Grid
  import WaterModel

  method GenerateMesh(vertX: int, vertY: int)
    returns (verts: seq<WaterModel.Coord>, indices: seq<int>, colors: seq<WaterModel.Shade>)
    ensures verts == WaterModel.Vertices(vertX, vertY) && indices == WaterModel.Indices(vertX, vertY)
    ensures |verts| == 3 * Count(vertX) * Count(vertY) && |indices| == 6 * WaterModel.Cells(vertX) * WaterModel.Cells(vertY)
    ensures |colors| == |verts| && forall j :: 0 <= j < |colors| ==> colors[j] == WaterModel.Shade(WaterModel.WaterColor[j % 3])
  {
    verts, indices, colors := WaterModel.GenerateMesh(vertX, vertY);
  }
}
