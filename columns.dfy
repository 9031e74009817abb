/** Picking the comment column of a table by name (app.py:129-142). */
module Columns {
  import opened Wrappers
  import opened Seqs
  import opened Chars

  /** `list.index`: the first position holding `x`, or None where the Python
      call would raise because `x` is absent. */
  function IndexOf(xs: seq<string>, x: string): (r: Option<nat>)
    ensures r.None? <==> x !in xs
    ensures r.Some? ==> r.value < |xs| && xs[r.value] == x
    ensures r.Some? ==> forall j :: 0 <= j < r.value ==> xs[j] != x
  {
    if xs == [] then None
    else if xs[0] == x then Some(0)
    else
      match IndexOf(xs[1..], x)
      case None => None
      case Some(i) => Some(i + 1)
  }

  /** Column `i` is the first whose lower-cased name is `key`. */
  predicate FirstNamed(columns: seq<string>, key: string, i: int) {
    0 <= i < |columns| && Lower(columns[i]) == key &&
    forall j :: 0 <= j < i ==> Lower(columns[j]) != key
  }

  /** `detect_comment_column`: the first column named "text" in any letter case,
      failing that the first named "comment", failing that none. */
  function DetectCommentColumn(columns: seq<string>): (r: Option<string>)
    ensures r.None? <==> forall i :: 0 <= i < |columns| ==> Lower(columns[i]) != "text" && Lower(columns[i]) != "comment"
    ensures forall i :: FirstNamed(columns, "text", i) ==> r == Some(columns[i])
    ensures (forall i :: 0 <= i < |columns| ==> Lower(columns[i]) != "text") ==>
      forall i :: FirstNamed(columns, "comment", i) ==> r == Some(columns[i])
    ensures r.Some? ==> r.value in columns
  {
    var lowered := Map(columns, Lower);
    match IndexOf(lowered, "text")
    case Some(i) => Some(columns[i])
    case None =>
      match IndexOf(lowered, "comment")
      case Some(i) => Some(columns[i])
      case None => None
  }
}
