/** The string scanning of `Epub`: the marker-delimited `find`, the location of
    the package document named by the container file, the book's data directory
    and the resolution of the cover image. */
module Epub {
  import opened Lang
  import opened Strings
  import opened Archive

  const ROOTFILE_START := "<rootfile full-path=\""
  const QUOTE := "\""

  // ---------------------------------------------------------------------------
  // find(from, start, end)

  /** `find(from, start, end)`: the text after the first `start` up to the first
      `end` at or after it; null when either marker is missing anywhere in
      `from`, and an out-of-bounds `substring` when no `end` follows `start`. */
  function Find(from: string, start: string, end: string): (r: Outcome<Nullable<string>>)
    ensures r == Returns(Null) <==> !Contains(from, start) || !Contains(from, end)
    ensures r.Throws? ==> r.error == StringIndexOutOfBounds
  {
    if !Contains(from, start) || !Contains(from, end) then Returns(Null)
    else
      var si := IndexOf(from, start, 0) + |start|;
      match Substring(from, si, IndexOf(from, end, si))
      case Throws(e) => Throws(e)
      case Returns(m) => Returns(NonNull(m))
  }

  /** `m` sits right after the first `start`, which begins at `s0`, and right
      before the first `end` that follows that `start`. */
  predicate Located(from: string, start: string, end: string, s0: int, m: string) {
    && MatchAt(from, start, s0)
    && (forall j :: 0 <= j < s0 ==> !MatchAt(from, start, j))
    && s0 + |start| + |m| <= |from| && from[s0 + |start|..s0 + |start| + |m|] == m
    && MatchAt(from, end, s0 + |start| + |m|)
    && (forall i :: s0 + |start| <= i < s0 + |start| + |m| ==> !MatchAt(from, end, i))
  }

  /** Where the text `find` returns sits: right after the first `start`, and
      right before the first `end` that follows it. */
  lemma FindLocates(from: string, start: string, end: string, m: string)
    requires Find(from, start, end) == Returns(NonNull(m))
    ensures exists s0 :: Located(from, start, end, s0, m)
  {
    var s0 := IndexOf(from, start, 0);
    var ei := IndexOf(from, end, s0 + |start|);
    FindTakesSubstring(from, start, end, m);
    SubstringLocates(from, start, end, m, s0, ei);
    assert Located(from, start, end, s0, m);
  }

  /** Where the text taken by `find`'s `substring` call sits. */
  lemma SubstringLocates(from: string, start: string, end: string, m: string, s0: int, ei: int)
    requires Contains(from, start)
    requires s0 == IndexOf(from, start, 0) && ei == IndexOf(from, end, s0 + |start|)
    requires Substring(from, s0 + |start|, ei) == Returns(m)
    ensures MatchAt(from, start, s0) && forall j :: 0 <= j < s0 ==> !MatchAt(from, start, j)
    ensures s0 + |start| + |m| <= |from| && from[s0 + |start|..s0 + |start| + |m|] == m
    ensures MatchAt(from, end, s0 + |start| + |m|)
    ensures forall i :: s0 + |start| <= i < s0 + |start| + |m| ==> !MatchAt(from, end, i)
  {
    IndexOfFound(from, start, 0);
    SubstringSlice(from, s0 + |start|, ei, m);
    IndexOfFound(from, end, s0 + |start|);
  }

  /** A `find` that returns text found both markers and took that text with
      `substring`. */
  lemma FindTakesSubstring(from: string, start: string, end: string, m: string)
    requires Find(from, start, end) == Returns(NonNull(m))
    ensures Contains(from, start) && Contains(from, end)
    ensures var si := IndexOf(from, start, 0) + |start|;
            Substring(from, si, IndexOf(from, end, si)) == Returns(m)
  {
  }

  /** `find` fails exactly when both markers occur but no `end` follows the
      first `start`. */
  lemma FindThrows(from: string, start: string, end: string)
    requires Contains(from, start) && Contains(from, end)
    ensures Find(from, start, end).Throws? <==>
              forall i :: IndexOf(from, start, 0) + |start| <= i ==> !MatchAt(from, end, i)
  {
  }

  /** What `find` returns never contains the end marker. */
  lemma FindResultHasNoEnd(from: string, start: string, end: string, m: string)
    requires |end| > 0
    requires Find(from, start, end) == Returns(NonNull(m))
    ensures !Contains(m, end)
  {
    FindLocates(from, start, end, m);
    var s0 :| Located(from, start, end, s0, m);
    NoMatchInSlice(from, end, s0 + |start|, s0 + |start| + |m|, m);
  }

  /** `find` returns the text between the end of the first `start` and the
      first `end` after it, once both positions are known. */
  lemma FindAt(from: string, start: string, end: string, si: int, m: string)
    requires IndexOf(from, start, 0) >= 0 && si == IndexOf(from, start, 0) + |start|
    requires IndexOf(from, end, si) == si + |m| && si + |m| <= |from| && from[si..si + |m|] == m
    ensures Find(from, start, end) == Returns(NonNull(m))
  {
    ContainsFrom(from, end, si);
    SubstringIs(from, si, m);
    FindOf(from, start, end, si, si + |m|, m);
  }

  /** The converse of `FindLocates`: text located right after the first `start`
      and right before the first `end` that follows it is what `find` returns. */
  lemma FindIs(from: string, start: string, end: string, s0: int, m: string)
    requires Located(from, start, end, s0, m)
    ensures Find(from, start, end) == Returns(NonNull(m))
  {
    IndexOfIs(from, start, 0, s0);
    IndexOfIs(from, end, s0 + |start|, s0 + |start| + |m|);
    FindAt(from, start, end, s0 + |start|, m);
  }

  /** `find` returns what its `substring` call returns. */
  lemma FindOf(from: string, start: string, end: string, si: int, ei: int, m: string)
    requires Contains(from, start) && Contains(from, end)
    requires si == IndexOf(from, start, 0) + |start| && ei == IndexOf(from, end, si)
    requires Substring(from, si, ei) == Returns(m)
    ensures Find(from, start, end) == Returns(NonNull(m))
  {
  }

  /** The first `start` in `pre + start + rest` is the one after `pre`, when
      `pre` holds none. */
  lemma StartPosition(pre: string, start: string, rest: string)
    requires SeparatorFree(pre, start)
    ensures IndexOf(pre + start + rest, start, 0) == |pre|
  {
    IndexOfAfterFree(pre, start, rest);
  }

  /** Searching `head + mid + end + post` from the end of `head` finds the `end`
      after `mid`, when `mid` holds none. */
  lemma EndPosition(head: string, mid: string, end: string, post: string)
    requires SeparatorFree(mid, end)
    ensures IndexOf(head + (mid + end + post), end, |head|) == |head| + |mid|
  {
    IndexOfAfterFree(mid, end, post);
    IndexOfShift(head, mid + end + post, end, |head|);
  }

  /** Where the markers sit in `pre + start + mid + end + post` when `pre` holds
      no `start` and `mid` no `end`. */
  lemma MarkerPositions(pre: string, start: string, mid: string, end: string, post: string)
    requires SeparatorFree(pre, start) && SeparatorFree(mid, end)
    ensures var from := pre + start + mid + end + post;
            var si := |pre| + |start|;
            && IndexOf(from, start, 0) == |pre|
            && si + |mid| <= |from| && IndexOf(from, end, si) == si + |mid|
            && from[si..si + |mid|] == mid
  {
    StartMarker(pre, start, mid, end, post);
    EndMarker(pre, start, mid, end, post);
    MiddleText(pre, start, mid, end, post);
  }

  /** The first `start` is the one after `pre`. */
  lemma StartMarker(pre: string, start: string, mid: string, end: string, post: string)
    requires SeparatorFree(pre, start)
    ensures IndexOf(pre + start + mid + end + post, start, 0) == |pre|
  {
    var tail := mid + end + post;
    assert pre + start + mid + end + post == pre + start + tail;
    StartPosition(pre, start, tail);
  }

  /** The first `end` after the first `start` is the one after `mid`. */
  lemma EndMarker(pre: string, start: string, mid: string, end: string, post: string)
    requires SeparatorFree(mid, end)
    ensures IndexOf(pre + start + mid + end + post, end, |pre| + |start|) == |pre| + |start| + |mid|
  {
    var head := pre + start;
    assert pre + start + mid + end + post == head + (mid + end + post);
    EndPosition(head, mid, end, post);
  }

  /** The text between the markers is `mid`. */
  lemma MiddleText(pre: string, start: string, mid: string, end: string, post: string)
    ensures |pre| + |start| + |mid| <= |pre + start + mid + end + post|
    ensures (pre + start + mid + end + post)[|pre| + |start|..|pre| + |start| + |mid|] == mid
  {
    var head := pre + start;
    assert pre + start + mid + end + post == head + mid + (end + post);
    SliceMiddle(head, mid, end + post);
  }

  /** `find` extracts the text between the markers it was written for: with no
      earlier `start` in front and no `end` inside, the middle comes back. */
  lemma FindExtracts(pre: string, start: string, mid: string, end: string, post: string)
    requires SeparatorFree(pre, start) && SeparatorFree(mid, end)
    ensures Find(pre + start + mid + end + post, start, end) == Returns(NonNull(mid))
  {
    StartMarker(pre, start, mid, end, post);
    EndMarker(pre, start, mid, end, post);
    MiddleText(pre, start, mid, end, post);
    FindAt(pre + start + mid + end + post, start, end, |pre| + |start|, mid);
  }

  // ---------------------------------------------------------------------------
  // findContentOPFPath

  /** The path of the package document as `findContentOPFPath` computes it from
      the container file's text: the search for the closing quote starts one
      character after the value begins, and a missing `rootfile` marker is not
      noticed (its -1 position plus the marker length is taken as the start). */
  function RootfilePath(root: string, container: Nullable<string>): (r: Outcome<Nullable<string>>)
    ensures container.Null? ==> r == Returns(Null)
    ensures r.Throws? ==> r.error == StringIndexOutOfBounds
  {
    match container
    case Null => Returns(Null)
    case NonNull(c) =>
      var start := IndexOf(c, ROOTFILE_START, 0) + |ROOTFILE_START|;
      match Substring(c, start, IndexOf(c, QUOTE, start + 1))
      case Throws(e) => Throws(e)
      case Returns(path) => Returns(NonNull(PathsGet(root, path)))
  }

  /** `findContentOPFPath`: read the container file, then locate the package
      document under the book's root. */
  function FindContentOpfPath(root: string, archive: seq<Entry>): (r: Outcome<Nullable<string>>)
    ensures ReadContainerXml(archive).Null? ==> r == Returns(Null)
  {
    RootfilePath(root, ReadContainerXml(archive))
  }

  /** `findContentOPFPath` as evidently intended: the value of the first
      `rootfile` read with `find` itself, so that a container naming no package
      document gives null and an empty value is read as empty. */
  function RootfilePathCorrected(root: string, container: Nullable<string>): (r: Outcome<Nullable<string>>)
    ensures container.Null? ==> r == Returns(Null)
    ensures container.NonNull? && !Contains(container.value, ROOTFILE_START) ==> r == Returns(Null)
    ensures r.Throws? ==> r.error == StringIndexOutOfBounds
  {
    match container
    case Null => Returns(Null)
    case NonNull(c) =>
      match Find(c, ROOTFILE_START, QUOTE)
      case Throws(e) => Throws(e)
      case Returns(Null) => Returns(Null)
      case Returns(NonNull(path)) => Returns(NonNull(PathsGet(root, path)))
  }

  /** No quote occurs in a string free of quote characters. */
  lemma NoQuoteInside(c: string, lo: int, hi: int)
    requires 0 <= lo <= hi <= |c|
    requires forall i :: lo <= i < hi ==> c[i] != '"'
    ensures forall i :: lo <= i < hi ==> !MatchAt(c, QUOTE, i)
  {
    forall i | lo <= i < hi
      ensures !MatchAt(c, QUOTE, i)
    {
      assert c[i..i + 1][0] == c[i];
    }
  }

  /** As written, the value is read once the marker and the quote after the
      value's first character are located. */
  lemma RootfilePathIs(root: string, c: string, start: int, end: int, p: string)
    requires start == IndexOf(c, ROOTFILE_START, 0) + |ROOTFILE_START|
    requires IndexOf(c, QUOTE, start + 1) == end
    requires Substring(c, start, end) == Returns(p)
    ensures RootfilePath(root, NonNull(c)) == Returns(NonNull(PathsGet(root, p)))
  {
  }

  /** As written, a non-empty value whose closing quote is the first one after
      the marker is read as it stands. */
  lemma RootfilePathAt(root: string, c: string, at: int, p: string)
    requires IndexOf(c, ROOTFILE_START, 0) == at
    requires p != "" && IndexOf(c, QUOTE, at + |ROOTFILE_START|) == at + |ROOTFILE_START| + |p|
    requires at + |ROOTFILE_START| + |p| <= |c| && c[at + |ROOTFILE_START|..at + |ROOTFILE_START| + |p|] == p
    ensures RootfilePath(root, NonNull(c)) == Returns(NonNull(PathsGet(root, p)))
  {
    var start := at + |ROOTFILE_START|;
    IndexOfLater(c, QUOTE, start, start + 1);
    SubstringIs(c, start, p);
    RootfilePathIs(root, c, start, start + |p|, p);
  }

  /** A container whose first `rootfile` names a non-empty, quote-free path P
      leads to the root joined with P (`content.opf` at the top of the archive is
      one such container). */
  lemma RootfilePathFound(root: string, pre: string, p: string, post: string)
    requires SeparatorFree(pre, ROOTFILE_START)
    requires p != "" && '"' !in p
    ensures RootfilePath(root, NonNull(pre + ROOTFILE_START + p + QUOTE + post)) == Returns(NonNull(PathsGet(root, p)))
  {
    LeadFreeSeparatorFree(p, QUOTE);
    MarkerPositions(pre, ROOTFILE_START, p, QUOTE, post);
    RootfilePathAt(root, pre + ROOTFILE_START + p + QUOTE + post, |pre|, p);
  }

  /** The corrected version reads the same path from such a container, and an
      empty one as well. */
  lemma RootfilePathCorrectedFound(root: string, pre: string, p: string, post: string)
    requires SeparatorFree(pre, ROOTFILE_START) && '"' !in p
    ensures RootfilePathCorrected(root, NonNull(pre + ROOTFILE_START + p + QUOTE + post)) == Returns(NonNull(PathsGet(root, p)))
  {
    LeadFreeSeparatorFree(p, QUOTE);
    FindExtracts(pre, ROOTFILE_START, p, QUOTE, post);
  }

  /** As written, an empty package path makes the search skip the closing quote:
      with nothing after it, `substring` is called with an end of -1. */
  lemma EmptyRootfilePathThrows(root: string)
    ensures RootfilePath(root, NonNull(ROOTFILE_START + QUOTE + "/>")) == Throws(StringIndexOutOfBounds)
    ensures RootfilePathCorrected(root, NonNull(ROOTFILE_START + QUOTE + "/>")) == Returns(NonNull(root))
  {
    var c := ROOTFILE_START + QUOTE + "/>";
    assert MatchAt(c, ROOTFILE_START, 0);
    IndexOfIs(c, ROOTFILE_START, 0, 0);
    ContainsIff(c, ROOTFILE_START);
    assert |c| == 24 && c[22] == '/' && c[23] == '>';
    NoQuoteInside(c, 22, 24);
    assert IndexOf(c, QUOTE, 22) == -1;
    assert MatchAt(c, QUOTE, 21) by { assert c[21..22] == QUOTE; }
    IndexOfIs(c, QUOTE, 21, 21);
  }

  /** The container element alone, without a `rootfile`. */
  const BARE_CONTAINER := "<container version=\"1.0\">"

  /** The bare container holds no `rootfile` marker: only its first character is
      a '<', and the marker's second character is not a 'c'. */
  lemma BareContainerHasNoRootfile()
    ensures IndexOf(BARE_CONTAINER, ROOTFILE_START, 0) == -1
  {
    var c := BARE_CONTAINER;
    assert |c| == 25;
    forall i | 0 <= i
      ensures !MatchAt(c, ROOTFILE_START, i)
    {
      if i == 0 {
        assert c[1] != ROOTFILE_START[1];
        assert c[i..i + |ROOTFILE_START|][1] == c[1];
      } else if i + |ROOTFILE_START| <= |c| {
        assert c[i] != '<';
        assert c[i..i + |ROOTFILE_START|][0] == c[i];
      }
    }
  }

  /** In the bare container, position 20 starts the version number and the
      first quote from position 21 on closes it. */
  lemma BareContainerVersion()
    ensures IndexOf(BARE_CONTAINER, QUOTE, 21) == 23
    ensures Substring(BARE_CONTAINER, 20, 23) == Returns("1.0")
  {
    var c := BARE_CONTAINER;
    assert c[20..23] == "1.0";
    assert c[21] == '.' && c[22] == '0';
    NoQuoteInside(c, 21, 23);
    assert MatchAt(c, QUOTE, 23) by { assert c[23..24] == QUOTE; }
    IndexOfIs(c, QUOTE, 21, 23);
  }

  /** As written, a container without any `rootfile` still yields a path: the
      text from position 20 to the next quote, here the version number. */
  lemma MissingRootfileGivesPath(root: string)
    ensures RootfilePath(root, NonNull(BARE_CONTAINER)) == Returns(NonNull(PathsGet(root, "1.0")))
    ensures RootfilePathCorrected(root, NonNull(BARE_CONTAINER)) == Returns(Null)
  {
    BareContainerHasNoRootfile();
    BareContainerVersion();
    RootfilePathIs(root, BARE_CONTAINER, 20, 23, "1.0");
  }

  // ---------------------------------------------------------------------------
  // getDataDirectory

  /** `dot` is the position of the last '.' of `name`. */
  predicate LastDot(name: string, dot: int) {
    0 <= dot < |name| && name[dot] == '.' && forall i :: dot < i < |name| ==> name[i] != '.'
  }

  /** `getDataDirectory`: the library's data path joined with the book's file
      name up to its last '.'; a root without a file name dereferences null and
      a file name without '.' makes `substring(0, -1)` fail. */
  function DataDirectory(libraryPath: string, root: string): (r: Outcome<string>)
    ensures FileName(root).Null? ==> r == Throws(NullPointer)
    ensures FileName(root).NonNull? && '.' !in FileName(root).value ==> r == Throws(StringIndexOutOfBounds)
    ensures FileName(root).NonNull? && '.' in FileName(root).value ==>
              r.Returns? && exists dot :: LastDot(FileName(root).value, dot) &&
                                          r.value == PathsGet(libraryPath, FileName(root).value[..dot])
  {
    match FileName(root)
    case Null => Throws(NullPointer)
    case NonNull(name) =>
      var dot := LastIndexOf(name, '.');
      if dot < 0 then Throws(StringIndexOutOfBounds)
      else Returns(PathsGet(libraryPath, name[..dot]))
  }

  /** The name `<stem>.epub` has no '/' when the stem has none, and its last '.'
      is the one before the extension. */
  lemma EpubName(stem: string)
    requires '/' !in stem
    ensures '/' !in stem + ".epub"
    ensures LastIndexOf(stem + ".epub", '.') == |stem| && (stem + ".epub")[..|stem|] == stem
  {
    var ext := "epub";
    assert '.' !in ext && '/' !in ext;
    assert stem + ".epub" == stem + ['.'] + ext;
    LastIndexOfBefore(stem, '.', ext);
  }

  /** A book stored as `<dir>/<stem>.epub` keeps its data in `<library>/<stem>`,
      whatever dots the stem itself contains. */
  lemma DataDirectoryOfBook(libraryPath: string, dir: string, stem: string)
    requires |dir| > 0 && dir[0] == '/' && (dir == "/" || dir[|dir| - 1] != '/')
    requires '/' !in stem
    ensures DataDirectory(libraryPath, PathsGet(dir, stem + ".epub")) == Returns(PathsGet(libraryPath, stem))
  {
    EpubName(stem);
    ParentAndName(dir, stem + ".epub");
  }

  // ---------------------------------------------------------------------------
  // Cover resolution (readCover)

  const META_COVER_START := "<meta name=\"cover\" content=\""
  const HREF_START := "href=\""
  const COVER_IMAGE_PROPERTY := "properties=\"cover-image\""

  /** `String.format("id=\"%s\"", id)`. */
  function IdAttribute(id: string): string {
    "id=\"" + id + "\""
  }

  /** The first line holding the cover's id attribute. */
  function IdLine(lines: seq<string>, id: string): Nullable<string> {
    FindFirst(lines, line => Contains(line, IdAttribute(id)))
  }

  /** The first line marked as the cover image. */
  function PropertyLine(lines: seq<string>): Nullable<string> {
    FindFirst(lines, line => Contains(line, COVER_IMAGE_PROPERTY))
  }

  /** The href of a manifest line found by a search, or null when the search
      found no line. */
  function HrefOf(line: Nullable<string>): (r: Outcome<Nullable<string>>)
    ensures line.Null? ==> r == Returns(Null)
    ensures r.Throws? ==> r.error == StringIndexOutOfBounds
  {
    match line
    case Null => Returns(Null)
    case NonNull(found) => Find(found, HREF_START, QUOTE)
  }

  /** The cover's href among the package document's lines once the cover `meta`
      has named an id: first through the first line holding that id, and only
      if that yields nothing through the first line marked as the cover image. */
  function CoverHrefIn(lines: seq<string>, id: string): (r: Outcome<Nullable<string>>)
    ensures HrefOf(IdLine(lines, id)).Throws? ==> r == HrefOf(IdLine(lines, id))
    ensures HrefOf(IdLine(lines, id)) == Returns(Null) ==> r == HrefOf(PropertyLine(lines))
    ensures r.Throws? ==> r.error == StringIndexOutOfBounds
  {
    match HrefOf(IdLine(lines, id))
    case Throws(e) => Throws(e)
    case Returns(Null) => HrefOf(PropertyLine(lines))
    case Returns(NonNull(href)) => Returns(NonNull(href))
  }

  /** The cover's href as `readCover` finds it in the package document: only when
      the cover `meta` names an id, and among the lines of the document split
      with Java's `split("\n")`. */
  function CoverHref(opf: string): (r: Outcome<Nullable<string>>)
    ensures Find(opf, META_COVER_START, QUOTE) == Returns(Null) ==> r == Returns(Null)
    ensures Find(opf, META_COVER_START, QUOTE).Throws? ==> r == Throws(StringIndexOutOfBounds)
    ensures Find(opf, META_COVER_START, QUOTE).Returns? && Find(opf, META_COVER_START, QUOTE).value.NonNull? ==>
              r == CoverHrefIn(JavaSplit(opf, "\n"), Find(opf, META_COVER_START, QUOTE).value.value)
    ensures r.Throws? ==> r.error == StringIndexOutOfBounds
  {
    match Find(opf, META_COVER_START, QUOTE)
    case Throws(e) => Throws(e)
    case Returns(Null) => Returns(Null)
    case Returns(NonNull(id)) => CoverHrefIn(JavaSplit(opf, "\n"), id)
  }

  /** The first line holding the id wins when it carries an href. */
  lemma CoverHrefById(lines: seq<string>, id: string, k: nat, href: string)
    requires k < |lines| && Contains(lines[k], IdAttribute(id))
    requires forall j :: 0 <= j < k ==> !Contains(lines[j], IdAttribute(id))
    requires Find(lines[k], HREF_START, QUOTE) == Returns(NonNull(href))
    ensures CoverHrefIn(lines, id) == Returns(NonNull(href))
  {
    var byId := FirstWhere(lines, line => Contains(line, IdAttribute(id)));
    assert byId == NonNull(k);
  }

  /** When the id leads to no href, the first line marked as the cover image
      decides. */
  lemma CoverHrefByProperty(lines: seq<string>, id: string, k: nat)
    requires IdLine(lines, id).Null? || Find(IdLine(lines, id).value, HREF_START, QUOTE) == Returns(Null)
    requires k < |lines| && Contains(lines[k], COVER_IMAGE_PROPERTY)
    requires forall j :: 0 <= j < k ==> !Contains(lines[j], COVER_IMAGE_PROPERTY)
    ensures CoverHrefIn(lines, id) == Find(lines[k], HREF_START, QUOTE)
  {
    PropertyLineAt(lines, k);
    assert HrefOf(IdLine(lines, id)) == Returns(Null);
  }

  /** A package document whose first cover `meta` names `id`, and whose first
      line holding `id="ID"` carries the href: `readCover` takes that href. */
  lemma CoverHrefOfDocument(opf: string, pre: string, id: string, post: string, k: nat, href: string)
    requires opf == pre + META_COVER_START + id + QUOTE + post
    requires SeparatorFree(pre, META_COVER_START) && SeparatorFree(id, QUOTE)
    requires k < |JavaSplit(opf, "\n")| && Contains(JavaSplit(opf, "\n")[k], IdAttribute(id))
    requires forall j :: 0 <= j < k ==> !Contains(JavaSplit(opf, "\n")[j], IdAttribute(id))
    requires Find(JavaSplit(opf, "\n")[k], HREF_START, QUOTE) == Returns(NonNull(href))
    ensures CoverHref(opf) == Returns(NonNull(href))
  {
    FindExtracts(pre, META_COVER_START, id, QUOTE, post);
    CoverHrefById(JavaSplit(opf, "\n"), id, k, href);
  }

  /** The line marked as the cover image is the first such line. */
  lemma PropertyLineAt(lines: seq<string>, k: nat)
    requires k < |lines| && Contains(lines[k], COVER_IMAGE_PROPERTY)
    requires forall j :: 0 <= j < k ==> !Contains(lines[j], COVER_IMAGE_PROPERTY)
    ensures PropertyLine(lines) == NonNull(lines[k])
  {
    var byProperty := FirstWhere(lines, line => Contains(line, COVER_IMAGE_PROPERTY));
    assert byProperty == NonNull(k);
  }

  /** The cover's location: the package document's directory and the href, with
      exactly one '/' between them. */
  function CoverPath(directory: string, href: string): (r: string)
    ensures EndsWith(directory, "/") ==> r == directory + href
    ensures !EndsWith(directory, "/") ==> r == directory + "/" + href
  {
    directory + (if EndsWith(directory, "/") then "" else "/") + href
  }

  /** An href naming a file beside the package document resolves to that file. */
  lemma CoverPathBesidePackage(dir: string, name: string)
    requires |dir| > 0 && dir[0] == '/' && (dir == "/" || dir[|dir| - 1] != '/')
    requires name != "" && '/' !in name
    ensures CoverPath(dir, name) == PathsGet(dir, name)
    ensures Parent(CoverPath(dir, name)) == NonNull(dir) && FileName(CoverPath(dir, name)) == NonNull(name)
  {
    ParentAndName(dir, name);
  }

  /** `readCover` takes the first entry named exactly `content.opf` as the
      package document. */
  predicate IsPackageDocument(e: Entry) {
    FileName(e.path) == NonNull("content.opf")
  }

  /** The cover image found through the package document `opf`, up to decoding:
      the text of the first entry whose path is the cover's location, or null.
      Reading a directory fails and is caught. */
  function CoverOf(archive: seq<Entry>, opf: Entry): (r: Outcome<Nullable<string>>)
    ensures opf.Dir? ==> r == Returns(Null)
    ensures r.Throws? ==> r.error == StringIndexOutOfBounds || r.error == NullPointer
    ensures r.Returns? && r.value.NonNull? ==>
              exists k :: 0 <= k < |archive| && archive[k].File? && archive[k].text == r.value.value
  {
    if opf.Dir? then Returns(Null)
    else match CoverHref(opf.text)
      case Throws(e) => Throws(e)
      case Returns(Null) => Returns(Null)
      case Returns(NonNull(href)) =>
        match Parent(opf.path)
        case Null => Throws(NullPointer)
        case NonNull(directory) =>
          var location := CoverPath(directory, href);
          Returns(Read(archive, path => path == location))
  }

  /** `readCover`, up to decoding: nothing when the data directory already holds
      `cover.png` (`onDisk` stands for the file-system test), otherwise the cover
      found through the first package document. Computing the data directory
      can fail before anything else happens. */
  function ReadCover(archive: seq<Entry>, libraryPath: string, root: string, onDisk: string -> bool): (r: Outcome<Nullable<string>>)
    ensures DataDirectory(libraryPath, root).Throws? ==> r == Throws(DataDirectory(libraryPath, root).error)
    ensures DataDirectory(libraryPath, root).Returns? && onDisk(PathsGet(DataDirectory(libraryPath, root).value, "cover.png"))
            ==> r == Returns(Null)
    ensures DataDirectory(libraryPath, root).Returns? && !onDisk(PathsGet(DataDirectory(libraryPath, root).value, "cover.png"))
            ==> r == CoverOfPackage(archive)
    ensures DataDirectory(libraryPath, root).Returns? && (forall k :: 0 <= k < |archive| ==> !IsPackageDocument(archive[k]))
            ==> r == Returns(Null)
    ensures r.Throws? ==> r.error == StringIndexOutOfBounds || r.error == NullPointer
  {
    match DataDirectory(libraryPath, root)
    case Throws(e) => Throws(e)
    case Returns(dataDirectory) =>
      if onDisk(PathsGet(dataDirectory, "cover.png")) then Returns(Null)
      else CoverOfPackage(archive)
  }

  /** The cover found through the first package document, or null when the
      book has none. */
  function CoverOfPackage(archive: seq<Entry>): (r: Outcome<Nullable<string>>)
    ensures (forall k :: 0 <= k < |archive| ==> !IsPackageDocument(archive[k])) ==> r == Returns(Null)
    ensures r.Throws? ==> r.error == StringIndexOutOfBounds || r.error == NullPointer
  {
    match FindFirst(archive, IsPackageDocument)
    case Null => Returns(Null)
    case NonNull(opf) => CoverOf(archive, opf)
  }

  /** The cover found through a package document that is a file, names the
      cover's href and has a parent directory: the first entry at the resulting
      location, when it is a file. */
  lemma CoverOfFinds(archive: seq<Entry>, opf: Entry, href: string, j: nat)
    requires opf.File? && CoverHref(opf.text) == Returns(NonNull(href)) && Parent(opf.path).NonNull?
    requires j < |archive| && archive[j].File?
    requires archive[j].path == CoverPath(Parent(opf.path).value, href)
    requires forall k :: 0 <= k < j ==> archive[k].path != archive[j].path
    ensures CoverOf(archive, opf) == Returns(NonNull(archive[j].text))
  {
    var location := archive[j].path;
    ReadFirst(archive, path => path == location, j);
  }

  /** The cover `readCover` returns, traced through every step: the data
      directory holds no `cover.png`, the first package document is a file whose
      cover href is `href`, and the first entry at the resulting location is the
      image file. */
  lemma ReadCoverFinds(archive: seq<Entry>, libraryPath: string, root: string, onDisk: string -> bool,
                       dataDirectory: string, i: nat, href: string, j: nat)
    requires DataDirectory(libraryPath, root) == Returns(dataDirectory)
    requires !onDisk(PathsGet(dataDirectory, "cover.png"))
    requires i < |archive| && IsPackageDocument(archive[i]) && archive[i].File?
    requires forall k :: 0 <= k < i ==> !IsPackageDocument(archive[k])
    requires CoverHref(archive[i].text) == Returns(NonNull(href))
    requires Parent(archive[i].path).NonNull?
    requires j < |archive| && archive[j].File?
    requires archive[j].path == CoverPath(Parent(archive[i].path).value, href)
    requires forall k :: 0 <= k < j ==> archive[k].path != archive[j].path
    ensures ReadCover(archive, libraryPath, root, onDisk) == Returns(NonNull(archive[j].text))
  {
    FindFirstIs(archive, IsPackageDocument, i);
    CoverOfFinds(archive, archive[i], href, j);
    assert CoverOfPackage(archive) == Returns(NonNull(archive[j].text));
  }
}
