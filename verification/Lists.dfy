/** Lists of table slots. */
module Lists {

  ghost predicate NoDuplicates(q: seq<nat>) { forall i, j :: 0 <= i < j < |q| ==> q[i] != q[j] }
}
