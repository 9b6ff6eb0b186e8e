/** The hibernated-tab records held by the background script and the list operations on them. */
module TabRecords {

  /** One hibernated tab: the object pushed onto `inactiveTabs`. */
  datatype TabRecord = TabRecord(url: string, title: string, favIconUrl: string, timestamp: int)

  /** `list.splice(i, 1)`: the list without its element at position `i`. */
  function RemoveAt<T>(s: seq<T>, i: int): (r: seq<T>)
    requires 0 <= i < |s|
    ensures |r| == |s| - 1
    ensures forall j :: 0 <= j < i ==> r[j] == s[j]
    ensures forall j :: i <= j < |r| ==> r[j] == s[j + 1]
    ensures multiset(r) + multiset{s[i]} == multiset(s)
  {
    assert s == s[..i] + [s[i]] + s[i + 1..];
    s[..i] + s[i + 1..]
  }

  /** Timestamps strictly increase along the list (so they are also distinct). */
  predicate Ordered(rs: seq<TabRecord>)
  {
    forall j, k :: 0 <= j < k < |rs| ==> rs[j].timestamp < rs[k].timestamp
  }

  /** Every record was stamped strictly before `t`. */
  predicate StampedBefore(rs: seq<TabRecord>, t: int)
  {
    forall j :: 0 <= j < |rs| ==> rs[j].timestamp < t
  }

  lemma AppendKeepsOrdered(rs: seq<TabRecord>, r: TabRecord)
    requires Ordered(rs) && StampedBefore(rs, r.timestamp)
    ensures Ordered(rs + [r]) && StampedBefore(rs + [r], r.timestamp + 1)
  {
  }

  lemma RemoveAtKeepsOrdered(rs: seq<TabRecord>, i: int, t: int)
    requires Ordered(rs) && StampedBefore(rs, t) && 0 <= i < |rs|
    ensures Ordered(RemoveAt(rs, i)) && StampedBefore(RemoveAt(rs, i), t)
  {
  }
}
