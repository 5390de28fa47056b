/** The arithmetic of `findAll`: which slice of the ordered table a page holds and
    how many pages there are. Generic over the element type. */
module Pagination {

  function Min(a: int, b: int): int { if a <= b then a else b }

  function Max(a: int, b: int): int { if a <= b then b else a }

  /** Rows skipped before page `page`: `(page - 1) * limit`. */
  function Offset(page: int, limit: int): (off: nat)
    requires page >= 1 && limit >= 1
    ensures off < page * limit
  {
    MulMonotone(page - 1, page, limit);
    (page - 1) * limit
  }

  lemma MulMonotone(a: int, b: int, c: int)
    requires 0 <= a <= b && c >= 0
    ensures 0 <= a * c <= b * c
  {
  }

  /** `Math.ceil(count / limit)`: the fewest pages of `limit` rows that hold `count` rows. */
  function PageCount(count: nat, limit: int): (n: nat)
    requires limit >= 1
    ensures n * limit >= count
    ensures n == 0 || (n - 1) * limit < count
    ensures n == 0 <==> count == 0
  {
    CeilingDivision(count, limit);
    (count + limit - 1) / limit
  }

  lemma CeilingDivision(count: nat, limit: int)
    requires limit >= 1
    ensures (count + limit - 1) / limit >= 0
    ensures ((count + limit - 1) / limit) * limit >= count
    ensures (count + limit - 1) / limit == 0 || ((count + limit - 1) / limit - 1) * limit < count
    ensures (count + limit - 1) / limit == 0 <==> count == 0
  {
    var q, r := (count + limit - 1) / limit, (count + limit - 1) % limit;
    assert count + limit - 1 == q * limit + r && 0 <= r < limit;
    assert q * limit == count + limit - 1 - r;
    assert (q - 1) * limit == q * limit - limit;
    if count == 0 {
      assert q * limit <= limit - 1;
      if q >= 1 { MulMonotone(1, q, limit); }
    }
  }

  /** The rows of page `page`: the slice `[offset, offset + limit)` of `s`,
      cut short at the end of `s`. */
  function PageOf<T>(s: seq<T>, page: int, limit: int): (r: seq<T>)
    requires page >= 1 && limit >= 1
    ensures |r| == Min(limit, Max(0, |s| - Offset(page, limit)))
    ensures forall i :: 0 <= i < |r| ==> r[i] == s[Offset(page, limit) + i]
  {
    var off := Offset(page, limit);
    if off >= |s| then [] else s[off .. Min(off + limit, |s|)]
  }

  /** Pages 1 to `k`, read one after another. */
  function Pages<T>(s: seq<T>, limit: int, k: nat): seq<T>
    requires limit >= 1
  {
    if k == 0 then [] else Pages(s, limit, k - 1) + PageOf(s, k, limit)
  }

  /** Reading pages 1 to `k` in turn yields the first `k * limit` rows, no row
      twice and none skipped. */
  lemma {:induction false} PagesArePrefix<T>(s: seq<T>, limit: int, k: nat)
    requires limit >= 1
    ensures Pages(s, limit, k) == s[..Min(k * limit, |s|)]
  {
    if k > 0 {
      PagesArePrefix(s, limit, k - 1);
      assert Pages(s, limit, k) == Pages(s, limit, k - 1) + PageOf(s, k, limit);
      PageExtendsPrefix(s, limit, k);
    }
  }

  /** Page `k` continues the prefix that pages 1 to `k - 1` cover. */
  lemma PageExtendsPrefix<T>(s: seq<T>, limit: int, k: int)
    requires k >= 1 && limit >= 1
    ensures s[..Min((k - 1) * limit, |s|)] + PageOf(s, k, limit) == s[..Min(k * limit, |s|)]
  {
    var off := Offset(k, limit);
    assert off == (k - 1) * limit && off + limit == k * limit;
    var after := Min(off + limit, |s|);
    if off < |s| {
      assert PageOf(s, k, limit) == s[off .. after];
      assert s[..off] + s[off .. after] == s[..after];
    } else {
      assert PageOf(s, k, limit) == [];
    }
  }

  /** The pages 1 to `PageCount` together are exactly `s`; each of them holds at
      least one row and the page after the last is empty. */
  lemma PagesCoverAll<T>(s: seq<T>, limit: int)
    requires limit >= 1
    ensures Pages(s, limit, PageCount(|s|, limit)) == s
    ensures PageOf(s, PageCount(|s|, limit) + 1, limit) == []
    ensures forall p :: 1 <= p <= PageCount(|s|, limit) ==> PageOf(s, p, limit) != []
  {
    var n := PageCount(|s|, limit);
    PagesArePrefix(s, limit, n);
    assert s[..|s|] == s;
    forall p | 1 <= p <= n
      ensures PageOf(s, p, limit) != []
    {
      MulMonotone(p - 1, n - 1, limit);
    }
  }
}
