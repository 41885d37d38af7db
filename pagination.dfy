/** The page the SQL-Query-All action returns: the requested start index and page size
    clamped against the configured limit. */
module Pagination {

  /** The page size used when the configured limit is not positive. */
  const DefaultLimit := 16

  datatype Page = Page(startIndex: int, count: int)

  /** The configured limit, or the default when it is zero or negative. */
  function EffectiveLimit(limit: int): (l: int)
    ensures l >= 1
    ensures limit > 0 ==> l == limit
    ensures limit <= 0 ==> l == DefaultLimit
  {
    if limit <= 0 then DefaultLimit else limit
  }

  /** The clamped page for the requested `startIndex` and `count`. */
  function Clamp(startIndex: int, count: int, limit: int): (p: Page)
    ensures p.startIndex >= 0
    ensures startIndex >= 0 ==> p.startIndex == startIndex
    ensures startIndex < 0 ==> p.startIndex == 0
    ensures 1 <= p.count <= EffectiveLimit(limit)
    ensures p.count == count <==> 1 <= count <= EffectiveLimit(limit)
    ensures p.count != count ==> p.count == EffectiveLimit(limit)
  {
    var start := if startIndex < 0 then 0 else startIndex;
    var max := EffectiveLimit(limit);
    Page(start, if count >= 1 && count <= max then count else max)
  }

  /** A clamped page is left as it is by clamping it again. */
  lemma ClampIdempotent(startIndex: int, count: int, limit: int)
    ensures var p := Clamp(startIndex, count, limit);
      Clamp(p.startIndex, p.count, limit) == p
  {
  }

  lemma ClampExamples()
    ensures Clamp(-5, 0, 0) == Page(0, 16)
    ensures Clamp(3, 100, 10) == Page(3, 10)
    ensures Clamp(3, 5, 10) == Page(3, 5)
  {
  }
}
