/** `bytes.find`: the first place where one byte string occurs in another. */
module Search {
  import opened Bytes

  predicate OccursAt(hay: seq<byte>, needle: seq<byte>, i: int) {
    0 <= i && i + |needle| <= |hay| && hay[i..i + |needle|] == needle
  }

  lemma ShiftOccurrences(hay: seq<byte>, needle: seq<byte>)
    requires hay != []
    ensures forall j :: 1 <= j ==> (OccursAt(hay, needle, j) <==> OccursAt(hay[1..], needle, j - 1))
  {
  }

  function Find(hay: seq<byte>, needle: seq<byte>): (r: Option<nat>)
    ensures r.Some? ==> OccursAt(hay, needle, r.value) && forall j :: 0 <= j < r.value ==> !OccursAt(hay, needle, j)
    ensures r.None? ==> forall j :: 0 <= j ==> !OccursAt(hay, needle, j)
    decreases |hay|
  {
    if |needle| > |hay| then
      None
    else if hay[..|needle|] == needle then
      Some(0)
    else
      var rest := Find(hay[1..], needle);
      ShiftOccurrences(hay, needle);
      if rest.None? then None else Some(rest.value + 1)
  }

  /** `Find` is determined by its two properties. */
  lemma FindIs(hay: seq<byte>, needle: seq<byte>, i: nat)
    requires OccursAt(hay, needle, i) && forall j :: 0 <= j < i ==> !OccursAt(hay, needle, j)
    ensures Find(hay, needle) == Some(i)
  {
  }
}
