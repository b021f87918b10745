/** Reading lock `only` lists that mix legacy names and command objects. */
module LockHelpers {
  import opened Documents

  /** `normalizeOnlyItem`: a legacy name becomes `{name, name + ".md", null}`. */
  function NormalizeOnlyItem(item: OnlyItem): (r: OnlyItem)
    ensures r.Spec?
    ensures r.name == item.name
    ensures item.Legacy? ==> r.path == item.name + ".md" && r.alias.None?
    ensures item.Spec? ==> r == item
  {
    match item
    case Legacy(name) => Spec(name, name + ".md", Common.None)
    case Spec(_, _, _) => item
  }

  /** Normalising a normalised item changes nothing. */
  lemma NormalizeIdempotent(item: OnlyItem)
    ensures NormalizeOnlyItem(NormalizeOnlyItem(item)) == NormalizeOnlyItem(item)
  {
  }

  /** Every item of an `only` list normalised, in order. */
  function NormalizeAll(only: seq<OnlyItem>): (r: seq<OnlyItem>)
    ensures |r| == |only|
    ensures forall i :: 0 <= i < |only| ==> r[i] == NormalizeOnlyItem(only[i])
  {
    seq(|only|, i requires 0 <= i < |only| => NormalizeOnlyItem(only[i]))
  }

  /**
   * `findCommandIndex`: the first position whose legacy name or object
   * `name` equals `name`, or -1 when there is none.
   */
  function FindCommandIndex(only: seq<OnlyItem>, name: string): (i: int)
    ensures -1 <= i < |only|
    ensures i >= 0 ==> only[i].name == name
    ensures i == -1 <==> forall j :: 0 <= j < |only| ==> only[j].name != name
    ensures forall j :: 0 <= j < i ==> only[j].name != name
  {
    if |only| == 0 then -1
    else if only[0].name == name then 0
    else
      var k := FindCommandIndex(only[1..], name);
      if k == -1 then -1 else k + 1
  }

  /** Normalising first finds the same position: normalisation keeps names. */
  lemma FindCommandIndexNormalized(only: seq<OnlyItem>, name: string)
    ensures FindCommandIndex(NormalizeAll(only), name) == FindCommandIndex(only, name)
  {
    assert forall j :: 0 <= j < |only| ==> NormalizeAll(only)[j].name == only[j].name;
  }

  /** `commandExists`. */
  function CommandExists(only: seq<OnlyItem>, name: string): (b: bool)
    ensures b <==> exists j :: 0 <= j < |only| && only[j].name == name
    ensures b <==> FindCommandIndex(only, name) != -1
  {
    FindCommandIndex(only, name) != -1
  }
}
