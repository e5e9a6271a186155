/** The greedy page breaker (`splitIntoPages` in the script the reader injects into
    its measuring web view). Fragments are consumed from the front of a queue and
    added to the current page while the measured height of the page-with-fragment
    stays below the page height. The measurement is an oracle: `fits(copy)` stands
    for `getSize(copy) < height`.

    A page is recorded as the list of input positions of its fragments, so that
    "order preserving" and "duplicate free" can be stated even when two fragments
    have the same text; the page's text is the separator-free concatenation of
    those fragments. */
module Pagination {
  import opened Strings

  /** Any fragment whose text mentions "img" is treated as an image. */
  const IMAGE_MARKER := "img"

  predicate IsImage(fragment: string) {
    Contains(fragment, IMAGE_MARKER)
  }

  /** Every position in `idx` names a fragment below `n`. */
  predicate Below(idx: seq<nat>, n: nat) {
    forall k :: 0 <= k < |idx| ==> idx[k] < n
  }

  /** Every page of `groups` names fragments below `n` only. */
  predicate AllBelow(groups: seq<seq<nat>>, n: nat) {
    forall p :: 0 <= p < |groups| ==> Below(groups[p], n)
  }

  /** Strictly increasing positions: an order-preserving, duplicate-free selection. */
  predicate Increasing(idx: seq<nat>) {
    forall a, b :: 0 <= a < b < |idx| ==> idx[a] < idx[b]
  }

  /** The fragments at the given positions. */
  function Pick(frags: seq<string>, idx: seq<nat>): (r: seq<string>)
    requires Below(idx, |frags|)
    ensures |r| == |idx|
    ensures forall k :: 0 <= k < |idx| ==> r[k] == frags[idx[k]]
  {
    seq(|idx|, k requires 0 <= k < |idx| => frags[idx[k]])
  }

  /** All positions of all pages, in page order. */
  function Flatten(groups: seq<seq<nat>>): seq<nat> {
    if |groups| == 0 then [] else groups[0] + Flatten(groups[1..])
  }

  /** The text of each page: its fragments joined with no separator. */
  function PagesOf(frags: seq<string>, groups: seq<seq<nat>>): (pages: seq<string>)
    requires AllBelow(groups, |frags|)
    ensures |pages| == |groups|
    ensures forall p :: 0 <= p < |groups| ==> pages[p] == Join(Pick(frags, groups[p]), "")
  {
    seq(|groups|, p requires 0 <= p < |groups| => Join(Pick(frags, groups[p]), ""))
  }

  /** Image fragments that are not the last fragment sit alone on their page. */
  predicate ImagesIsolated(frags: seq<string>, isImage: string -> bool, groups: seq<seq<nat>>) {
    forall p, k ::
      0 <= p < |groups| && 0 <= k < |groups[p]| && groups[p][k] < |frags| - 1 && isImage(frags[groups[p][k]])
      ==> groups[p] == [groups[p][k]]
  }

  /** No position of `idx` is a non-final image fragment. */
  predicate NoInnerImage(frags: seq<string>, isImage: string -> bool, idx: seq<nat>)
    requires Below(idx, |frags|)
  {
    forall k :: 0 <= k < |idx| && idx[k] < |frags| - 1 ==> !isImage(frags[idx[k]])
  }

  /** The page list ends with a page whose last fragment is the last input fragment. */
  predicate EndsWithLast(groups: seq<seq<nat>>, n: nat) {
    |groups| > 0 && |groups[|groups| - 1]| > 0 &&
    groups[|groups| - 1][|groups[|groups| - 1]| - 1] == n - 1
  }

  /** The branch the loop body takes for fragment `next` with `pending` on the page. */
  datatype Branch =
    | LastFragment   // the queue is now empty: the fragment joins the page whatever its size
    | ImageAlone     // a fitting image on an empty page becomes a page of its own
    | ImageFlush     // a fitting image after other fragments: flush, then offer the image again
    | Keep           // a fitting fragment stays on the page
    | Overflow       // the page is flushed and the fragment is not kept

  function Decide(frags: seq<string>, fits: seq<string> -> bool, isImage: string -> bool, next: nat, pending: seq<nat>): Branch
    requires next < |frags| && Below(pending, next)
  {
    var fitsWith := fits(Pick(frags, pending) + [frags[next]]);
    if next == |frags| - 1 then LastFragment
    else if fitsWith && isImage(frags[next]) && |pending| == 0 then ImageAlone
    else if fitsWith && isImage(frags[next]) then ImageFlush
    else if fitsWith then Keep
    else Overflow
  }

  /** Reference definition of the pages still to come when fragment `next` is at
      the head of the queue and `pending` holds the fragments of the current page.
      The measure falls by two for each fragment taken off the queue and by one
      when an image is put back after flushing a non-empty page. */
  function Run(frags: seq<string>, fits: seq<string> -> bool, isImage: string -> bool, next: nat, pending: seq<nat>): seq<seq<nat>>
    requires next <= |frags| && Below(pending, next)
    decreases 2 * (|frags| - next) + (if |pending| == 0 then 0 else 1)
  {
    if next == |frags| then []
    else match Decide(frags, fits, isImage, next, pending)
      case LastFragment => [pending + [next]]
      case ImageAlone => [[next]] + Run(frags, fits, isImage, next + 1, [])
      case ImageFlush => [pending] + Run(frags, fits, isImage, next, [])
      case Keep => Run(frags, fits, isImage, next + 1, pending + [next])
      case Overflow => [pending] + Run(frags, fits, isImage, next + 1, [])
  }

  /** The pages of a whole fragment list. */
  function Paginate(frags: seq<string>, fits: seq<string> -> bool): seq<seq<nat>> {
    Run(frags, fits, IsImage, 0, [])
  }

  // ---------------------------------------------------------------------------
  // Properties of the reference definition

  lemma FlattenCons(g: seq<nat>, groups: seq<seq<nat>>)
    ensures Flatten([g] + groups) == g + Flatten(groups)
  {
    assert ([g] + groups)[1..] == groups;
  }

  /** Every position of `xs` is at least `lo`. */
  predicate AtLeast(xs: seq<nat>, lo: nat) {
    forall k :: 0 <= k < |xs| ==> lo <= xs[k]
  }

  /** Emitting the page `g` before pages made of later positions keeps the
      positions strictly increasing. */
  lemma {:induction false} PrependIncreasing(g: seq<nat>, rest: seq<seq<nat>>, bound: nat)
    requires Increasing(g) && Increasing(Flatten(rest))
    requires forall i :: 0 <= i < |g| ==> g[i] < bound
    requires AtLeast(Flatten(rest), bound)
    ensures Flatten([g] + rest) == g + Flatten(rest)
    ensures Increasing(Flatten([g] + rest))
  {
    FlattenCons(g, rest);
  }

  /** `Run` names fragments of the input only. */
  lemma {:induction false} RunBelow(frags: seq<string>, fits: seq<string> -> bool, isImage: string -> bool, next: nat, pending: seq<nat>)
    requires next <= |frags| && Below(pending, next)
    ensures AllBelow(Run(frags, fits, isImage, next, pending), |frags|)
    decreases 2 * (|frags| - next) + (if |pending| == 0 then 0 else 1)
  {
    if next < |frags| {
      match Decide(frags, fits, isImage, next, pending)
      case LastFragment =>
      case ImageAlone => RunBelow(frags, fits, isImage, next + 1, []);
      case ImageFlush => RunBelow(frags, fits, isImage, next, []);
      case Keep => RunBelow(frags, fits, isImage, next + 1, pending + [next]);
      case Overflow => RunBelow(frags, fits, isImage, next + 1, []);
    }
  }

  /** `Run` emits no position below a bound that the current page and the
      head of the queue respect. */
  lemma {:induction false} RunAtLeast(frags: seq<string>, fits: seq<string> -> bool, isImage: string -> bool, next: nat, pending: seq<nat>, lo: nat)
    requires next <= |frags| && Below(pending, next) && AtLeast(pending, lo) && lo <= next
    ensures AtLeast(Flatten(Run(frags, fits, isImage, next, pending)), lo)
    decreases 2 * (|frags| - next) + (if |pending| == 0 then 0 else 1)
  {
    if next < |frags| {
      match Decide(frags, fits, isImage, next, pending)
      case LastFragment =>
        assert Flatten(Run(frags, fits, isImage, next, pending)) == pending + [next];
      case ImageAlone =>
        RunAtLeast(frags, fits, isImage, next + 1, [], lo);
        FlattenCons([next], Run(frags, fits, isImage, next + 1, []));
      case ImageFlush =>
        RunAtLeast(frags, fits, isImage, next, [], lo);
        FlattenCons(pending, Run(frags, fits, isImage, next, []));
      case Keep =>
        RunAtLeast(frags, fits, isImage, next + 1, pending + [next], lo);
      case Overflow =>
        RunAtLeast(frags, fits, isImage, next + 1, [], lo);
        FlattenCons(pending, Run(frags, fits, isImage, next + 1, []));
    }
  }

  /** What `Run` emits is strictly increasing when the current page is. */
  lemma {:induction false} RunOrdered(frags: seq<string>, fits: seq<string> -> bool, isImage: string -> bool, next: nat, pending: seq<nat>)
    requires next <= |frags| && Below(pending, next) && Increasing(pending)
    ensures Increasing(Flatten(Run(frags, fits, isImage, next, pending)))
    decreases 2 * (|frags| - next) + (if |pending| == 0 then 0 else 1), 0
  {
    if next < |frags| {
      match Decide(frags, fits, isImage, next, pending)
      case LastFragment =>
        assert Flatten(Run(frags, fits, isImage, next, pending)) == pending + [next];
      case ImageAlone =>
        OrderedPage(frags, fits, isImage, [next], next + 1);
      case ImageFlush =>
        OrderedPage(frags, fits, isImage, pending, next);
      case Keep =>
        RunOrdered(frags, fits, isImage, next + 1, pending + [next]);
      case Overflow =>
        OrderedPage(frags, fits, isImage, pending, next + 1);
    }
  }

  /** A finished page of positions below `next`, emitted before what `Run` emits
      from `next` on an empty page, keeps the positions increasing. */
  lemma {:induction false} OrderedPage(frags: seq<string>, fits: seq<string> -> bool, isImage: string -> bool, g: seq<nat>, next: nat)
    requires next <= |frags| && Increasing(g) && Below(g, next)
    ensures Increasing(Flatten([g] + Run(frags, fits, isImage, next, [])))
    decreases 2 * (|frags| - next), 1
  {
    RunOrdered(frags, fits, isImage, next, []);
    RunAtLeast(frags, fits, isImage, next, [], next);
    PrependIncreasing(g, Run(frags, fits, isImage, next, []), next);
  }

  /** While fragments remain, the current page is never lost: it begins what
      `Run` emits. */
  lemma {:induction false} RunKeepsPending(frags: seq<string>, fits: seq<string> -> bool, isImage: string -> bool, next: nat, pending: seq<nat>)
    requires next < |frags| && Below(pending, next)
    ensures pending <= Flatten(Run(frags, fits, isImage, next, pending))
    decreases 2 * (|frags| - next) + (if |pending| == 0 then 0 else 1)
  {
    match Decide(frags, fits, isImage, next, pending)
    case LastFragment =>
      assert Flatten(Run(frags, fits, isImage, next, pending)) == pending + [next];
    case ImageAlone =>
    case ImageFlush =>
      FlattenCons(pending, Run(frags, fits, isImage, next, []));
    case Keep =>
      RunKeepsPending(frags, fits, isImage, next + 1, pending + [next]);
    case Overflow =>
      FlattenCons(pending, Run(frags, fits, isImage, next + 1, []));
  }

  /** Emitting a page in front keeps the last page last. */
  lemma EndsWithLastAfter(g: seq<nat>, rest: seq<seq<nat>>, n: nat)
    requires EndsWithLast(rest, n)
    ensures EndsWithLast([g] + rest, n)
  {
    assert ([g] + rest)[|rest|] == rest[|rest| - 1];
  }

  /** The last page emitted ends with the last input fragment. */
  lemma {:induction false} RunEndsWithLast(frags: seq<string>, fits: seq<string> -> bool, isImage: string -> bool, next: nat, pending: seq<nat>)
    requires next < |frags| && Below(pending, next)
    ensures EndsWithLast(Run(frags, fits, isImage, next, pending), |frags|)
    decreases 2 * (|frags| - next) + (if |pending| == 0 then 0 else 1)
  {
    var n := |frags|;
    match Decide(frags, fits, isImage, next, pending)
    case LastFragment =>
      assert Run(frags, fits, isImage, next, pending) == [pending + [next]];
    case ImageAlone =>
      RunEndsWithLast(frags, fits, isImage, next + 1, []);
      EndsWithLastAfter([next], Run(frags, fits, isImage, next + 1, []), n);
    case ImageFlush =>
      RunEndsWithLast(frags, fits, isImage, next, []);
      EndsWithLastAfter(pending, Run(frags, fits, isImage, next, []), n);
    case Keep =>
      RunEndsWithLast(frags, fits, isImage, next + 1, pending + [next]);
    case Overflow =>
      RunEndsWithLast(frags, fits, isImage, next + 1, []);
      EndsWithLastAfter(pending, Run(frags, fits, isImage, next + 1, []), n);
  }

  /** Images are isolated in everything `Run` emits, provided the current page
      holds no image that could still be followed by other fragments. */
  lemma {:induction false} RunIsolation(frags: seq<string>, fits: seq<string> -> bool, isImage: string -> bool, next: nat, pending: seq<nat>)
    requires next <= |frags| && Below(pending, next) && NoInnerImage(frags, isImage, pending)
    ensures ImagesIsolated(frags, isImage, Run(frags, fits, isImage, next, pending))
    decreases 2 * (|frags| - next) + (if |pending| == 0 then 0 else 1)
  {
    if next < |frags| {
      match Decide(frags, fits, isImage, next, pending)
      case LastFragment =>
      case ImageAlone => RunIsolation(frags, fits, isImage, next + 1, []);
      case ImageFlush => RunIsolation(frags, fits, isImage, next, []);
      case Keep => RunIsolation(frags, fits, isImage, next + 1, pending + [next]);
      case Overflow => RunIsolation(frags, fits, isImage, next + 1, []);
    }
  }

  /** The pages of a whole input: an order-preserving, duplicate-free selection of
      the fragments, the last fragment always on the last page, images isolated. */
  lemma PaginateProperties(frags: seq<string>, fits: seq<string> -> bool)
    ensures AllBelow(Paginate(frags, fits), |frags|)
    ensures Increasing(Flatten(Paginate(frags, fits)))
    ensures |frags| > 0 ==> EndsWithLast(Paginate(frags, fits), |frags|)
    ensures ImagesIsolated(frags, IsImage, Paginate(frags, fits))
  {
    RunBelow(frags, fits, IsImage, 0, []);
    RunOrdered(frags, fits, IsImage, 0, []);
    if |frags| > 0 {
      RunEndsWithLast(frags, fits, IsImage, 0, []);
    }
    RunIsolation(frags, fits, IsImage, 0, []);
  }

  // ---------------------------------------------------------------------------
  // The loop as written

  /** Adding a page's positions adds that page's text. */
  lemma PagesOfSnoc(frags: seq<string>, groups: seq<seq<nat>>, g: seq<nat>)
    requires AllBelow(groups, |frags|) && Below(g, |frags|)
    ensures AllBelow(groups + [g], |frags|)
    ensures PagesOf(frags, groups + [g]) == PagesOf(frags, groups) + [Join(Pick(frags, g), "")]
  {
    assert forall p :: 0 <= p < |groups| ==> (groups + [g])[p] == groups[p];
  }

  /** One unfolding of `Run` for each branch of the loop body, stated over the
      quantities the loop has at hand. */
  lemma StepLast(frags: seq<string>, fits: seq<string> -> bool, isImage: string -> bool, next: nat, pending: seq<nat>)
    requires next + 1 == |frags| && Below(pending, next)
    ensures Run(frags, fits, isImage, next, pending) == [pending + [next]]
  {
  }

  lemma StepImageAlone(frags: seq<string>, fits: seq<string> -> bool, isImage: string -> bool, next: nat)
    requires next + 1 < |frags| && fits([frags[next]]) && isImage(frags[next])
    ensures Run(frags, fits, isImage, next, []) == [[next]] + Run(frags, fits, isImage, next + 1, [])
  {
    assert Pick(frags, []) + [frags[next]] == [frags[next]];
  }

  lemma StepImageFlush(frags: seq<string>, fits: seq<string> -> bool, isImage: string -> bool, next: nat, pending: seq<nat>)
    requires next + 1 < |frags| && Below(pending, next) && |pending| > 0
    requires fits(Pick(frags, pending) + [frags[next]]) && isImage(frags[next])
    ensures Run(frags, fits, isImage, next, pending) == [pending] + Run(frags, fits, isImage, next, [])
  {
  }

  lemma StepKeep(frags: seq<string>, fits: seq<string> -> bool, isImage: string -> bool, next: nat, pending: seq<nat>)
    requires next + 1 < |frags| && Below(pending, next)
    requires fits(Pick(frags, pending) + [frags[next]]) && !isImage(frags[next])
    ensures Run(frags, fits, isImage, next, pending) == Run(frags, fits, isImage, next + 1, pending + [next])
  {
  }

  lemma StepOverflow(frags: seq<string>, fits: seq<string> -> bool, isImage: string -> bool, next: nat, pending: seq<nat>)
    requires next + 1 < |frags| && Below(pending, next)
    requires !fits(Pick(frags, pending) + [frags[next]])
    ensures Run(frags, fits, isImage, next, pending) == [pending] + Run(frags, fits, isImage, next + 1, [])
  {
  }

  /** Picking one more position appends that fragment. */
  lemma PickSnoc(frags: seq<string>, idx: seq<nat>, i: nat)
    requires Below(idx, |frags|) && i < |frags|
    ensures Below(idx + [i], |frags|)
    ensures Pick(frags, idx + [i]) == Pick(frags, idx) + [frags[i]]
  {
  }

  /** Moving the first page still to come onto the pages already made. */
  lemma MovePage(done: seq<seq<nat>>, todo: seq<seq<nat>>)
    requires |todo| > 0
    ensures (done + [todo[0]]) + todo[1..] == done + todo
  {
    assert todo == [todo[0]] + todo[1..];
  }

  /** The loop of `splitIntoPages`, with the image test as a parameter: returns
      the pages as text together with the positions of the fragments each page
      holds, which are exactly the pages of the reference definition. */
  method SplitIntoPagesBy(frags: seq<string>, fits: seq<string> -> bool, isImage: string -> bool)
    returns (pages: seq<string>, groups: seq<seq<nat>>)
    ensures groups == Run(frags, fits, isImage, 0, [])
    ensures AllBelow(groups, |frags|) && pages == PagesOf(frags, groups)
  {
    RunBelow(frags, fits, isImage, 0, []);
    pages, groups := [], [];
    var queue := frags;
    var current: seq<string> := [];
    var currentIdx: seq<nat> := [];
    var next: nat := 0;
    ghost var todo := Run(frags, fits, isImage, 0, []);
    while |queue| != 0
      invariant next <= |frags| && queue == frags[next..]
      invariant Below(currentIdx, next) && current == Pick(frags, currentIdx)
      invariant todo == Run(frags, fits, isImage, next, currentIdx)
      invariant groups + todo == Run(frags, fits, isImage, 0, [])
      invariant AllBelow(groups, |frags|) && pages == PagesOf(frags, groups)
      decreases 2 * |queue| + (if |current| == 0 then 0 else 1)
    {
      var element := queue[0];
      var copy := current + [element];
      var fitsWith := fits(copy);
      queue := queue[1..];
      if |queue| == 0 {
        StepLast(frags, fits, isImage, next, currentIdx);
        PickSnoc(frags, currentIdx, next);
        current, currentIdx := copy, currentIdx + [next];
        PagesOfSnoc(frags, groups, currentIdx);
        pages, groups := pages + [Join(current, "")], groups + [currentIdx];
        assert todo == [currentIdx];
        return;
      } else if fitsWith {
        if isImage(element) {
          if |current| == 0 {
            assert copy == [frags[next]];
            StepImageAlone(frags, fits, isImage, next);
            MovePage(groups, todo);
            todo := todo[1..];
            assert Pick(frags, [next]) == [element];
            PagesOfSnoc(frags, groups, [next]);
            pages, groups := pages + [Join([element], "")], groups + [[next]];
            next := next + 1;
          } else {
            StepImageFlush(frags, fits, isImage, next, currentIdx);
            MovePage(groups, todo);
            todo := todo[1..];
            PagesOfSnoc(frags, groups, currentIdx);
            pages, groups := pages + [Join(current, "")], groups + [currentIdx];
            queue := [element] + queue;
          }
          current, currentIdx := [], [];
        } else {
          StepKeep(frags, fits, isImage, next, currentIdx);
          PickSnoc(frags, currentIdx, next);
          current, currentIdx := copy, currentIdx + [next];
          next := next + 1;
        }
      } else {
        StepOverflow(frags, fits, isImage, next, currentIdx);
        MovePage(groups, todo);
        todo := todo[1..];
        PagesOfSnoc(frags, groups, currentIdx);
        pages, groups := pages + [Join(current, "")], groups + [currentIdx];
        current, currentIdx := [], [];
        next := next + 1;
      }
    }
  }

  /** `splitIntoPages`, whose image test is "the fragment mentions img". */
  method SplitIntoPages(frags: seq<string>, fits: seq<string> -> bool)
    returns (pages: seq<string>, groups: seq<seq<nat>>)
    ensures groups == Paginate(frags, fits)
    ensures AllBelow(groups, |frags|) && pages == PagesOf(frags, groups)
    ensures Increasing(Flatten(groups))
    ensures ImagesIsolated(frags, IsImage, groups)
    ensures |frags| == 0 ==> pages == []
    ensures |frags| > 0 ==> EndsWithLast(groups, |frags|)
  {
    PaginateProperties(frags, fits);
    pages, groups := SplitIntoPagesBy(frags, fits, IsImage);
  }

  /** A single fragment makes a single page holding exactly that fragment. */
  lemma PaginateSingle(frags: seq<string>, fits: seq<string> -> bool)
    requires |frags| == 1
    ensures Paginate(frags, fits) == [[0]]
    ensures PagesOf(frags, Paginate(frags, fits)) == [frags[0]]
  {
    StepLast(frags, fits, IsImage, 0, []);
    var z: seq<nat> := [0];
    assert [] + z == z;
    assert Pick(frags, [0]) == [frags[0]];
  }

  // ---------------------------------------------------------------------------
  // An overflowing fragment is lost

  /** An oracle under which a page holds at most one fragment. */
  function OneFragmentPerPage(candidate: seq<string>): bool {
    |candidate| <= 1
  }

  /** With three plain fragments and room for one per page, the middle fragment
      overflows the first page and appears on no page at all. */
  lemma OverflowDropsFragment()
    ensures Paginate(["a", "b", "c"], OneFragmentPerPage) == [[0], [2]]
    ensures 1 !in Flatten(Paginate(["a", "b", "c"], OneFragmentPerPage))
  {
    var frags := ["a", "b", "c"];
    assert !IsImage("a") by { assert IndexOf("a", IMAGE_MARKER, 0) == -1; }
    assert Pick(frags, []) + [frags[0]] == ["a"];
    assert Pick(frags, [0]) + [frags[1]] == ["a", "b"];
    StepKeep(frags, OneFragmentPerPage, IsImage, 0, []);
    StepOverflow(frags, OneFragmentPerPage, IsImage, 1, [0]);
    StepLast(frags, OneFragmentPerPage, IsImage, 2, []);
    var first: seq<nat>, last: seq<nat> := [0], [2];
    assert [] + first == first && [] + last == last;
    assert [first] + [last] == [first, last];
    assert Flatten([[0], [2]]) == [0, 2];
  }

  /** An oracle under which nothing fits. */
  function NothingFits(candidate: seq<string>): bool {
    false
  }

  /** An oracle under which everything fits. */
  function EverythingFits(candidate: seq<string>): bool {
    true
  }

  /** A fragment that overflows an empty page flushes that empty page: the
      output holds a page with no text. */
  lemma EmptyPagePossible()
    ensures Paginate(["wide", "c"], NothingFits) == [[], [1]]
    ensures PagesOf(["wide", "c"], Paginate(["wide", "c"], NothingFits)) == ["", "c"]
  {
    var frags := ["wide", "c"];
    StepOverflow(frags, NothingFits, IsImage, 0, []);
    StepLast(frags, NothingFits, IsImage, 1, []);
    var last: seq<nat> := [1];
    assert [] + last == last;
    assert Pick(frags, []) == [] && Pick(frags, [1]) == ["c"];
  }

  /** The image rule does not apply to the last fragment: an image arriving
      last joins the page before it. */
  lemma LastImageNotIsolated()
    ensures IsImage("img")
    ensures Paginate(["a", "img"], EverythingFits) == [[0, 1]]
  {
    var frags := ["a", "img"];
    IndexOfIs("img", IMAGE_MARKER, 0, 0);
    assert !IsImage("a") by { assert IndexOf("a", IMAGE_MARKER, 0) == -1; }
    StepKeep(frags, EverythingFits, IsImage, 0, []);
    StepLast(frags, EverythingFits, IsImage, 1, [0]);
    var first: seq<nat> := [0];
    assert [] + first == first && first + [1] == [0, 1];
  }

  // ---------------------------------------------------------------------------
  // The page breaker with an overflowing fragment carried over

  /** As `Run`, except on overflow: a non-empty page is flushed and the fragment
      offered again on an empty page, and a fragment that overflows an empty page
      is given a page of its own, as the last fragment already is. */
  function RunCarrying(frags: seq<string>, fits: seq<string> -> bool, isImage: string -> bool, next: nat, pending: seq<nat>): seq<seq<nat>>
    requires next <= |frags| && Below(pending, next)
    decreases 2 * (|frags| - next) + (if |pending| == 0 then 0 else 1)
  {
    if next == |frags| then []
    else match Decide(frags, fits, isImage, next, pending)
      case LastFragment => [pending + [next]]
      case ImageAlone => [[next]] + RunCarrying(frags, fits, isImage, next + 1, [])
      case ImageFlush => [pending] + RunCarrying(frags, fits, isImage, next, [])
      case Keep => RunCarrying(frags, fits, isImage, next + 1, pending + [next])
      case Overflow =>
        if |pending| == 0 then [[next]] + RunCarrying(frags, fits, isImage, next + 1, [])
        else [pending] + RunCarrying(frags, fits, isImage, next, [])
  }

  function PaginateCarrying(frags: seq<string>, fits: seq<string> -> bool): seq<seq<nat>> {
    RunCarrying(frags, fits, IsImage, 0, [])
  }

  /** The positions `lo, lo + 1, ..., hi - 1`. */
  function Range(lo: nat, hi: nat): (r: seq<nat>)
    requires lo <= hi
    ensures |r| == hi - lo
    ensures forall k :: 0 <= k < |r| ==> r[k] == lo + k
    decreases hi - lo
  {
    if lo == hi then [] else [lo] + Range(lo + 1, hi)
  }

  /** Carrying the overflowing fragment conserves the current page and every
      fragment not yet consumed, exactly once and in order. */
  lemma {:induction false} RunCarryingConserves(frags: seq<string>, fits: seq<string> -> bool, isImage: string -> bool, next: nat, pending: seq<nat>)
    requires next < |frags| && Below(pending, next)
    ensures Flatten(RunCarrying(frags, fits, isImage, next, pending)) == pending + Range(next, |frags|)
    decreases 2 * (|frags| - next) + (if |pending| == 0 then 0 else 1), 1
  {
    match Decide(frags, fits, isImage, next, pending)
    case LastFragment =>
      assert Flatten(RunCarrying(frags, fits, isImage, next, pending)) == pending + [next];
    case Keep =>
      ConservesKeep(frags, fits, isImage, next, pending);
    case ImageAlone =>
      ConservesAlone(frags, fits, isImage, next);
    case ImageFlush =>
      ConservesFlush(frags, fits, isImage, next, pending);
    case Overflow =>
      if |pending| == 0 {
        ConservesAlone(frags, fits, isImage, next);
      } else {
        ConservesFlush(frags, fits, isImage, next, pending);
      }
  }

  /** The fitting, non-final fragment joins the current page. */
  lemma {:induction false} ConservesKeep(frags: seq<string>, fits: seq<string> -> bool, isImage: string -> bool, next: nat, pending: seq<nat>)
    requires next < |frags| && Below(pending, next) && Decide(frags, fits, isImage, next, pending) == Keep
    ensures Flatten(RunCarrying(frags, fits, isImage, next, pending)) == pending + Range(next, |frags|)
    decreases 2 * (|frags| - next) + (if |pending| == 0 then 0 else 1), 0
  {
    RunCarryingConserves(frags, fits, isImage, next + 1, pending + [next]);
    assert (pending + [next]) + Range(next + 1, |frags|) == pending + Range(next, |frags|);
  }

  /** The fragment gets a page of its own on an empty current page. */
  lemma {:induction false} ConservesAlone(frags: seq<string>, fits: seq<string> -> bool, isImage: string -> bool, next: nat)
    requires next < |frags|
    requires Decide(frags, fits, isImage, next, []) == ImageAlone || Decide(frags, fits, isImage, next, []) == Overflow
    ensures Flatten(RunCarrying(frags, fits, isImage, next, [])) == Range(next, |frags|)
    decreases 2 * (|frags| - next), 0
  {
    RunCarryingConserves(frags, fits, isImage, next + 1, []);
    PageBefore([next], RunCarrying(frags, fits, isImage, next + 1, []), Range(next + 1, |frags|));
  }

  /** A non-empty current page is flushed and the fragment offered again. */
  lemma {:induction false} ConservesFlush(frags: seq<string>, fits: seq<string> -> bool, isImage: string -> bool, next: nat, pending: seq<nat>)
    requires next < |frags| && Below(pending, next) && |pending| > 0
    requires Decide(frags, fits, isImage, next, pending) == ImageFlush || Decide(frags, fits, isImage, next, pending) == Overflow
    ensures Flatten(RunCarrying(frags, fits, isImage, next, pending)) == pending + Range(next, |frags|)
    decreases 2 * (|frags| - next) + 1, 0
  {
    RunCarryingConserves(frags, fits, isImage, next, []);
    PageBefore(pending, RunCarrying(frags, fits, isImage, next, []), Range(next, |frags|));
  }

  /** A page emitted before pages holding `positions` adds its own positions
      in front. */
  lemma PageBefore(g: seq<nat>, rest: seq<seq<nat>>, positions: seq<nat>)
    requires Flatten(rest) == [] + positions
    ensures Flatten([g] + rest) == g + positions
  {
    FlattenCons(g, rest);
    assert [] + positions == positions;
  }

  /** No page of the list is empty. */
  predicate NonEmptyPages(groups: seq<seq<nat>>) {
    forall p :: 0 <= p < |groups| ==> groups[p] != []
  }

  /** Carrying never emits an empty page. */
  lemma {:induction false} RunCarryingNonEmpty(frags: seq<string>, fits: seq<string> -> bool, isImage: string -> bool, next: nat, pending: seq<nat>)
    requires next < |frags| && Below(pending, next)
    ensures NonEmptyPages(RunCarrying(frags, fits, isImage, next, pending))
    decreases 2 * (|frags| - next) + (if |pending| == 0 then 0 else 1)
  {
    match Decide(frags, fits, isImage, next, pending)
    case LastFragment =>
    case ImageAlone => RunCarryingNonEmpty(frags, fits, isImage, next + 1, []);
    case ImageFlush => RunCarryingNonEmpty(frags, fits, isImage, next, []);
    case Keep => RunCarryingNonEmpty(frags, fits, isImage, next + 1, pending + [next]);
    case Overflow =>
      if |pending| == 0 {
        RunCarryingNonEmpty(frags, fits, isImage, next + 1, []);
      } else {
        RunCarryingNonEmpty(frags, fits, isImage, next, []);
      }
  }

  /** Carrying still isolates images. */
  lemma {:induction false} RunCarryingIsolation(frags: seq<string>, fits: seq<string> -> bool, isImage: string -> bool, next: nat, pending: seq<nat>)
    requires next < |frags| && Below(pending, next) && NoInnerImage(frags, isImage, pending)
    ensures ImagesIsolated(frags, isImage, RunCarrying(frags, fits, isImage, next, pending))
    decreases 2 * (|frags| - next) + (if |pending| == 0 then 0 else 1)
  {
    match Decide(frags, fits, isImage, next, pending)
    case LastFragment =>
    case ImageAlone => RunCarryingIsolation(frags, fits, isImage, next + 1, []);
    case ImageFlush => RunCarryingIsolation(frags, fits, isImage, next, []);
    case Keep => RunCarryingIsolation(frags, fits, isImage, next + 1, pending + [next]);
    case Overflow =>
      if |pending| == 0 {
        RunCarryingIsolation(frags, fits, isImage, next + 1, []);
      } else {
        RunCarryingIsolation(frags, fits, isImage, next, []);
      }
  }

  /** Every input fragment lands on exactly one page, in input order; no page is
      empty; images stay isolated. */
  lemma PaginateCarryingConserves(frags: seq<string>, fits: seq<string> -> bool)
    ensures Flatten(PaginateCarrying(frags, fits)) == Range(0, |frags|)
    ensures NonEmptyPages(PaginateCarrying(frags, fits))
    ensures ImagesIsolated(frags, IsImage, PaginateCarrying(frags, fits))
  {
    if |frags| > 0 {
      RunCarryingConserves(frags, fits, IsImage, 0, []);
      RunCarryingNonEmpty(frags, fits, IsImage, 0, []);
      RunCarryingIsolation(frags, fits, IsImage, 0, []);
    }
  }
}
