/** First-occurrence substring search over bytes, with the semantics of
    Python's `bytes.find(sub, start)` for a non-negative start. */
module Search {
  import opened Bytes

  /** `pat` occurs in `data` starting at index `i`. */
  predicate OccursAt(data: seq<Byte>, pat: seq<Byte>, i: int)
  {
    0 <= i && i + |pat| <= |data| && data[i..i + |pat|] == pat
  }

  /** The least index at or after `from` where `pat` occurs, or -1 when there is none.
      A start beyond the end of `data` finds nothing, even for an empty pattern. */
  function Find(data: seq<Byte>, pat: seq<Byte>, from: nat): (r: int)
    ensures r == -1 || (from <= r && OccursAt(data, pat, r))
    ensures forall j :: from <= j && (r == -1 || j < r) ==> !OccursAt(data, pat, j)
    decreases |data| - from
  {
    if from + |pat| > |data| then -1
    else if data[from..from + |pat|] == pat then from
    else Find(data, pat, from + 1)
  }

  /** The result of Find is determined by its contract: any index that is the
      least occurrence at or after `from` is the one Find returns. */
  lemma FindIsLeast(data: seq<Byte>, pat: seq<Byte>, from: nat, i: int)
    requires from <= i && OccursAt(data, pat, i)
    requires forall j :: from <= j < i ==> !OccursAt(data, pat, j)
    ensures Find(data, pat, from) == i
  {
  }

  /** Find answers -1 exactly when no occurrence lies at or after `from`. */
  lemma FindMissing(data: seq<Byte>, pat: seq<Byte>, from: nat)
    ensures Find(data, pat, from) == -1 <==> forall j :: from <= j ==> !OccursAt(data, pat, j)
  {
  }

  /** A pattern cannot start where its first byte is missing. */
  lemma AbsentFirstByte(data: seq<Byte>, pat: seq<Byte>, lo: int, hi: int)
    requires pat != []
    requires forall i :: lo <= i < hi && 0 <= i < |data| ==> data[i] != pat[0]
    ensures forall i :: lo <= i < hi ==> !OccursAt(data, pat, i)
  {
    forall i | lo <= i < hi
      ensures !OccursAt(data, pat, i)
    {
      if 0 <= i && i + |pat| <= |data| {
        assert data[i..i + |pat|][0] == data[i] != pat[0];
      }
    }
  }
}
