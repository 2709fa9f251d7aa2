/** Tables as the loader hands them over: rows of cells, all as wide as the header. */
module Tables {

  type Row = seq<string>

  ghost predicate Uniform(rows: seq<Row>, width: nat) {
    forall i :: 0 <= i < |rows| ==> |rows[i]| == width
  }
}
