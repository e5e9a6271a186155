/** How fragments and pages cross the boundary between the Java side and the
    script running in the measuring web view: the body fragments travel as one
    string joined with "%and%", which the script splits back; the pages come back
    as one string joined with "%page%", which Java splits with `String.split`. */
module Transport {
  import opened Strings
  import opened Pagination

  const FRAGMENT_SEPARATOR := "%and%"
  const PAGE_SEPARATOR := "%page%"

  /** The value handed to the script as `allData`. */
  function Encode(body: seq<string>): string {
    Join(body, FRAGMENT_SEPARATOR)
  }

  /** `loadData`: the script's `allData.split("%and%")`. */
  function LoadData(allData: string): (frags: seq<string>)
    ensures |frags| > 0
    ensures !Contains(allData, FRAGMENT_SEPARATOR) ==> frags == [allData]
  {
    Split(allData, FRAGMENT_SEPARATOR)
  }

  /** `calculatePages`: the body goes out joined, is split and paginated by the
      script, comes back joined with "%page%" and is split by Java. */
  function CalculatePages(body: seq<string>, fits: seq<string> -> bool): seq<string> {
    var frags := LoadData(Encode(body));
    PaginateProperties(frags, fits);
    JavaSplit(Join(PagesOf(frags, Paginate(frags, fits)), PAGE_SEPARATOR), PAGE_SEPARATOR)
  }

  // ---------------------------------------------------------------------------
  // Fragments that survive the trip

  /** The script recovers the body exactly when no fragment can run into the
      separator that follows it. */
  lemma FragmentsRoundTrip(body: seq<string>)
    requires |body| > 0
    requires forall i :: 0 <= i < |body| ==> SeparatorFree(body[i], FRAGMENT_SEPARATOR)
    ensures LoadData(Encode(body)) == body
  {
    SplitJoin(body, FRAGMENT_SEPARATOR);
  }

  /** In particular, fragments without '%' always come back unchanged. */
  lemma PercentFreeFragmentsRoundTrip(body: seq<string>)
    requires |body| > 0
    requires forall i :: 0 <= i < |body| ==> '%' !in body[i]
    ensures LoadData(Encode(body)) == body
  {
    forall i | 0 <= i < |body|
      ensures SeparatorFree(body[i], FRAGMENT_SEPARATOR)
    {
      LeadFreeSeparatorFree(body[i], FRAGMENT_SEPARATOR);
    }
    FragmentsRoundTrip(body);
  }

  /** Not containing "%and%" is not enough: a fragment ending in "%and" merges
      with the separator after it, and the script sees different fragments. */
  lemma FragmentsMerge()
    ensures !Contains("x%and", FRAGMENT_SEPARATOR) && !Contains("y", FRAGMENT_SEPARATOR)
    ensures LoadData(Encode(["x%and", "y"])) == ["x", "and%y"]
  {
    MergedEncoding();
    MergedSeparatorAt();
    MergedTailFree();
    var s := "x%and%and%y";
    assert s[..1] == "x" && s[6..] == "and%y";
    assert Split(s, FRAGMENT_SEPARATOR) == ["x"] + Split("and%y", FRAGMENT_SEPARATOR);
    assert "x%and"[1..] != FRAGMENT_SEPARATOR;
  }

  /** The two fragments travel as "x%and%and%y". */
  lemma MergedEncoding()
    ensures Encode(["x%and", "y"]) == "x%and%and%y"
  {
  }

  /** The script finds the separator right after the "x". */
  lemma MergedSeparatorAt()
    ensures IndexOf("x%and%and%y", FRAGMENT_SEPARATOR, 0) == 1
  {
    var s := "x%and%and%y";
    assert s[0] == 'x' && s[1..6] == FRAGMENT_SEPARATOR;
    IndexOfIs(s, FRAGMENT_SEPARATOR, 0, 1);
  }

  /** The rest holds no further separator. */
  lemma MergedTailFree()
    ensures IndexOf("and%y", FRAGMENT_SEPARATOR, 0) == -1
  {
    assert "and%y" != FRAGMENT_SEPARATOR;
  }

  // ---------------------------------------------------------------------------
  // Pages that survive the trip

  /** Concatenating '%'-free strings gives a '%'-free string. */
  lemma {:induction false} JoinPercentFree(xs: seq<string>)
    requires forall i :: 0 <= i < |xs| ==> '%' !in xs[i]
    ensures '%' !in Join(xs, "")
  {
    if |xs| > 1 {
      JoinPercentFree(xs[1..]);
      assert Join(xs, "") == xs[0] + Join(xs[1..], "");
    }
  }

  /** A list whose last element is non-empty joins to a non-empty string. */
  lemma {:induction false} JoinNonEmpty(xs: seq<string>, sep: string)
    requires |xs| > 0 && xs[|xs| - 1] != ""
    ensures Join(xs, sep) != ""
  {
    if |xs| > 1 {
      JoinNonEmpty(xs[1..], sep);
    }
  }

  /** The pages of '%'-free fragments are '%'-free. */
  lemma PagesPercentFree(frags: seq<string>, groups: seq<seq<nat>>)
    requires AllBelow(groups, |frags|)
    requires forall i :: 0 <= i < |frags| ==> '%' !in frags[i]
    ensures forall p :: 0 <= p < |groups| ==> '%' !in PagesOf(frags, groups)[p]
  {
    forall p | 0 <= p < |groups|
      ensures '%' !in PagesOf(frags, groups)[p]
    {
      JoinPercentFree(Pick(frags, groups[p]));
    }
  }

  /** When the body's fragments are non-empty and free of '%', the Java side
      receives exactly the pages the page breaker made: neither transport step
      merges, splits or drops anything. */
  lemma CalculatePagesFaithful(body: seq<string>, fits: seq<string> -> bool)
    requires |body| > 0
    requires forall i :: 0 <= i < |body| ==> body[i] != "" && '%' !in body[i]
    ensures AllBelow(Paginate(body, fits), |body|)
    ensures CalculatePages(body, fits) == PagesOf(body, Paginate(body, fits))
  {
    PercentFreeFragmentsRoundTrip(body);
    PaginateProperties(body, fits);
    var groups := Paginate(body, fits);
    var pages := PagesOf(body, groups);
    PagesPercentFree(body, groups);
    forall p | 0 <= p < |pages|
      ensures SeparatorFree(pages[p], PAGE_SEPARATOR)
    {
      LeadFreeSeparatorFree(pages[p], PAGE_SEPARATOR);
    }
    var last := groups[|groups| - 1];
    var picked := Pick(body, last);
    assert picked[|picked| - 1] == body[|body| - 1];
    JoinNonEmpty(picked, "");
    JavaSplitJoin(pages, PAGE_SEPARATOR);
  }

  /** An empty body still yields one page, an empty one: the script receives
      the empty string, which splits into one empty fragment. */
  lemma EmptyBodyGivesOneEmptyPage(fits: seq<string> -> bool)
    ensures CalculatePages([], fits) == [""]
  {
    assert IndexOf("", FRAGMENT_SEPARATOR, 0) == -1;
    assert LoadData(Encode([])) == [""];
    PaginateSingle([""], fits);
    assert IndexOf("", PAGE_SEPARATOR, 0) == -1;
  }
}
