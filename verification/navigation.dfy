/** The page-turn key handler of the reader window: LEFT shows the previous page
    and RIGHT the next one, clamped at either end of the page list. The pages are
    opaque values; the window's current centre is looked up with `indexOf`. */
module Navigation {
  import opened Lang

  datatype Key = Left | Right | Other

  /** `pages.indexOf(center)`: the first position holding `center`, or -1. */
  function IndexOfPage<P(==)>(pages: seq<P>, center: P): (i: int)
    ensures -1 <= i < |pages|
    ensures i >= 0 ==> pages[i] == center && forall j :: 0 <= j < i ==> pages[j] != center
    ensures i == -1 <==> center !in pages
  {
    match FirstWhere(pages, p => p == center)
    case Null => -1
    case NonNull(k) => k
  }

  /** The index the handler asks for: `max(0, i - 1)` for LEFT and
      `min(size - 1, i + 1)` for RIGHT, where `i` is the current index. */
  function TargetIndex(key: Key, i: int, size: nat): (t: int)
    requires key != Other
    requires -1 <= i < size
    ensures key == Left ==> 0 <= t && (size > 0 ==> t < size)
    ensures key == Right ==> t <= size - 1 && (size > 0 ==> 0 <= t)
    ensures key == Left && i > 0 ==> t == i - 1
    ensures key == Left && i <= 0 ==> t == 0
    ensures key == Right && i < size - 1 ==> t == i + 1
    ensures key == Right && size > 0 && i == size - 1 ==> t == i
    ensures key == Right && size == 0 ==> t == -1
  {
    if key == Left then (if i - 1 > 0 then i - 1 else 0)
    else (if size - 1 < i + 1 then size - 1 else i + 1)
  }

  /** The page that becomes the centre after a key press; `List.get` throws when
      the target index is outside the list, which is always the case for an empty
      list. Any other key leaves the centre alone. */
  function OnKey<P(==)>(pages: seq<P>, center: P, key: Key): (r: Outcome<P>)
    ensures key == Other ==> r == Returns(center)
    ensures key != Other ==> (r.Returns? <==> |pages| > 0)
    ensures key != Other && r.Throws? ==> r.error == IndexOutOfBounds
    ensures key != Other && r.Returns? ==> r.value in pages
    ensures key == Left && IndexOfPage(pages, center) == 0 ==> r == Returns(center)
    ensures key == Right && |pages| > 0 && IndexOfPage(pages, center) == |pages| - 1 ==> r == Returns(center)
    ensures key == Left && IndexOfPage(pages, center) > 0 ==>
              r == Returns(pages[IndexOfPage(pages, center) - 1])
    ensures key == Right && 0 <= IndexOfPage(pages, center) < |pages| - 1 ==>
              r == Returns(pages[IndexOfPage(pages, center) + 1])
    ensures key != Other && center !in pages && |pages| > 0 ==> r == Returns(pages[0])
  {
    if key == Other then Returns(center)
    else
      var t := TargetIndex(key, IndexOfPage(pages, center), |pages|);
      if 0 <= t < |pages| then Returns(pages[t]) else Throws(IndexOutOfBounds)
  }

  /** On a list of distinct pages, LEFT from any page but the first is undone by RIGHT. */
  lemma LeftThenRight<P>(pages: seq<P>, i: nat)
    requires 0 < i < |pages|
    requires forall a, b :: 0 <= a < b < |pages| ==> pages[a] != pages[b]
    ensures OnKey(pages, pages[i], Left) == Returns(pages[i - 1])
    ensures OnKey(pages, pages[i - 1], Right) == Returns(pages[i])
  {
    assert IndexOfPage(pages, pages[i]) == i;
    assert IndexOfPage(pages, pages[i - 1]) == i - 1;
  }
}
