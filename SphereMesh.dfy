/** The index buffer of the black-hole sphere (the BlackHole constructor of the 3D
    simulation). The sphere's vertices form a grid of (stacks + 1) rows of (slices + 1)
    vertices, row by row; each grid cell becomes two triangles. The vertex positions
    themselves are trigonometric and are not part of this model. */
module SphereMesh {

  /** The six indices of cell (i, j): triangles (a, b, a + 1) and (b, b + 1, a + 1), where a is
      the cell's top-left vertex and b the vertex below it. */
  function Cell(i: nat, j: nat, slices: nat): seq<int>
  {
    var a := i * (slices + 1) + j;
    var b := a + slices + 1;
    [a, b, a + 1, b, b + 1, a + 1]
  }

  /** The indices of the first count cells of row i. */
  function Row(i: nat, count: nat, slices: nat): seq<int>
  {
    if count == 0 then [] else Row(i, count - 1, slices) + Cell(i, count - 1, slices)
  }

  /** The indices of the first rows rows of the mesh. */
  function Mesh(rows: nat, slices: nat): seq<int>
  {
    if rows == 0 then [] else Mesh(rows - 1, slices) + Row(rows - 1, slices, slices)
  }

  /** The non-negative part of a C int (a loop bound below zero runs no iterations). */
  function NonNeg(n: int): nat
  {
    if n < 0 then 0 else n
  }

  /** A row of count cells holds 6 * count indices, all vertices of grid rows i and i + 1. */
  lemma {:induction false} RowShape(i: nat, count: nat, slices: nat)
    requires count <= slices
    ensures |Row(i, count, slices)| == 6 * count
    ensures forall k :: 0 <= k < |Row(i, count, slices)| ==>
      i * (slices + 1) <= Row(i, count, slices)[k] <= (i + 1) * (slices + 1) + slices
  {
    if count > 0 {
      RowShape(i, count - 1, slices);
      var j := count - 1;
      assert (i + 1) * (slices + 1) == i * (slices + 1) + slices + 1;
      var c := Cell(i, j, slices);
      assert forall k :: 0 <= k < 6 ==> i * (slices + 1) <= c[k] <= (i + 1) * (slices + 1) + slices;
    }
  }

  /** A mesh of rows rows has 6 * rows * slices indices, each naming one of the
      (rows + 1) * (slices + 1) grid vertices. */
  lemma {:induction false} MeshShape(rows: nat, slices: nat)
    ensures |Mesh(rows, slices)| == 6 * rows * slices
    ensures forall k :: 0 <= k < |Mesh(rows, slices)| ==>
      0 <= Mesh(rows, slices)[k] < (rows + 1) * (slices + 1)
  {
    if rows > 0 {
      MeshShape(rows - 1, slices);
      RowShape(rows - 1, slices, slices);
      var before := Mesh(rows - 1, slices);
      var row := Row(rows - 1, slices, slices);
      assert 6 * rows * slices == 6 * (rows - 1) * slices + 6 * slices;
      assert rows * (slices + 1) <= (rows + 1) * (slices + 1);
      assert (rows - 1 + 1) * (slices + 1) + slices < (rows + 1) * (slices + 1);
      assert 0 <= (rows - 1) * (slices + 1);
      forall k | 0 <= k < |Mesh(rows, slices)|
        ensures 0 <= Mesh(rows, slices)[k] < (rows + 1) * (slices + 1)
      {
        if k < |before| {
          assert Mesh(rows, slices)[k] == before[k];
        } else {
          assert Mesh(rows, slices)[k] == row[k - |before|];
        }
      }
    }
  }

  /** The nested loop of the sphere constructor that fills the index buffer. */
  method BuildIndices(stacks: int, slices: int) returns (inds: seq<int>)
    ensures inds == Mesh(NonNeg(stacks), NonNeg(slices))
    ensures |inds| == 6 * NonNeg(stacks) * NonNeg(slices)
    ensures forall k :: 0 <= k < |inds| ==> 0 <= inds[k] < (NonNeg(stacks) + 1) * (NonNeg(slices) + 1)
  {
    inds := [];
    var i := 0;
    while i < stacks
      invariant 0 <= i <= NonNeg(stacks)
      invariant inds == Mesh(i, NonNeg(slices))
    {
      var j := 0;
      while j < slices
        invariant 0 <= j <= NonNeg(slices)
        invariant inds == Mesh(i, NonNeg(slices)) + Row(i, j, NonNeg(slices))
      {
        var a := i * (slices + 1) + j;
        var b := a + slices + 1;
        inds := inds + [a, b, a + 1];
        inds := inds + [b, b + 1, a + 1];
        j := j + 1;
      }
      i := i + 1;
    }
    MeshShape(NonNeg(stacks), NonNeg(slices));
  }
}
