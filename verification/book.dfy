/** The state an `Epub` keeps about one book: its location, its entries, and the
    metadata, manifest and spine it loads lazily from the package document and
    caches. Each Java method that updates a field becomes a function from the old
    state to the new one; XML parsing is the parameter `parse`, which gives null
    where the parser throws. */
module Book {
  import opened Lang
  import opened Strings
  import opened Xml
  import opened Metadata
  import opened Archive

  /** One `item` of the manifest: a resource of the book. */
  datatype ManifestEntry = ManifestEntry(id: string, href: string, mediaType: string)

  /** One `itemref` of the spine: a manifest id in reading order. */
  datatype SpineEntry = SpineEntry(idref: string)

  /** The fields of an `Epub`. */
  datatype Book = Book(
    root: string,
    archive: seq<Entry>,
    metadata: Nullable<EpubMetadata>,
    manifest: Nullable<seq<ManifestEntry>>,
    spine: Nullable<seq<SpineEntry>>)

  /** The parsed package document: null when there is no `content.opf` to read
      or the parser rejects it (the exception is caught by every loader). */
  function Package(archive: seq<Entry>, parse: string -> Nullable<Node>): Nullable<Node> {
    match ReadContentOpf(archive)
    case Null => Null
    case NonNull(opf) => parse(opf)
  }

  // ---------------------------------------------------------------------------
  // loadMetadata(force)

  /** The metadata of the package document, when it parses and has a
      `metadata` element; null when any step fails. */
  function Fresh(archive: seq<Entry>, parse: string -> Nullable<Node>): (r: Nullable<EpubMetadata>)
    ensures r.NonNull? <==> Package(archive, parse).NonNull? && From(Package(archive, parse).value).Returns?
    ensures r.NonNull? ==> From(Package(archive, parse).value) == Returns(r.value)
  {
    match Package(archive, parse)
    case Null => Null
    case NonNull(doc) =>
      match From(doc)
      case Throws(_) => Null
      case Returns(md) => NonNull(md)
  }

  /** `loadMetadata(force)` as written: the cached metadata is kept unless
      `force` is set or there is none; a failed load keeps the old value; and it
      answers true only on the cached path, even after a successful load. */
  function LoadMetadata(b: Book, force: bool, parse: string -> Nullable<Node>): (r: (Book, bool))
    ensures r.1 <==> b.metadata.NonNull? && !force
    ensures r.0.root == b.root && r.0.archive == b.archive
    ensures r.0.manifest == b.manifest && r.0.spine == b.spine
    ensures b.metadata.NonNull? && !force ==> r.0 == b
    ensures Fresh(b.archive, parse).Null? ==> r.0 == b
    ensures r.0.metadata != b.metadata ==> r.0.metadata == Fresh(b.archive, parse)
    ensures (force || b.metadata.Null?) && Fresh(b.archive, parse).NonNull? ==>
              r.0.metadata == Fresh(b.archive, parse)
  {
    if b.metadata.NonNull? && !force then (b, true)
    else
      match Fresh(b.archive, parse)
      case Null => (b, false)
      case NonNull(md) => (b.(metadata := NonNull(md)), false)
  }

  /** `loadMetadata(force)` as its documentation promises: the same state
      change, answering true exactly when metadata is available afterwards
      because it was cached or has just been loaded. */
  function LoadMetadataCorrected(b: Book, force: bool, parse: string -> Nullable<Node>): (r: (Book, bool))
    ensures r.0 == LoadMetadata(b, force, parse).0
    ensures r.1 <==> (b.metadata.NonNull? && !force) || ((force || b.metadata.Null?) && Fresh(b.archive, parse).NonNull?)
    ensures r.1 ==> r.0.metadata.NonNull?
    ensures !r.1 ==> r.0 == b
  {
    var (loaded, cached) := LoadMetadata(b, force, parse);
    (loaded, cached || Fresh(b.archive, parse).NonNull?)
  }

  /** A forced `loadMetadata` answers false whatever happens. */
  lemma ForcedLoadAnswersFalse(b: Book, parse: string -> Nullable<Node>)
    ensures !LoadMetadata(b, true, parse).1
  {
  }

  /** A load that finds metadata reports success once corrected, but failure as
      written. */
  lemma {:induction false} SuccessfulLoadReported(b: Book, force: bool, parse: string -> Nullable<Node>)
    requires force || b.metadata.Null?
    requires Fresh(b.archive, parse).NonNull?
    ensures LoadMetadata(b, force, parse).0.metadata == Fresh(b.archive, parse)
    ensures LoadMetadataCorrected(b, force, parse).1
    ensures !LoadMetadata(b, force, parse).1
  {
  }

  /** A second, unforced `loadMetadata` changes nothing once metadata is there. */
  lemma LoadMetadataCached(b: Book, force: bool, parse: string -> Nullable<Node>)
    requires LoadMetadata(b, force, parse).0.metadata.NonNull?
    ensures LoadMetadata(LoadMetadata(b, force, parse).0, false, parse) == (LoadMetadata(b, force, parse).0, true)
  {
  }

  /** A one-file book whose package document parses to the sample document. */
  const SAMPLE_ARCHIVE: seq<Entry> := [Dir("/"), File("/content.opf", "<package/>")]

  /** The package document of the one-file book is found at its second entry. */
  lemma SamplePackageRead()
    ensures ReadContentOpf(SAMPLE_ARCHIVE) == NonNull("<package/>")
  {
    SamplePackageNamed();
    assert FileName("/").Null?;
    ReadContentOpfFirst(SAMPLE_ARCHIVE, 1);
  }

  /** The file name of "/content.opf" contains "content.opf". */
  lemma SamplePackageNamed()
    ensures NameContains("/content.opf", "content.opf")
  {
    var name := "content.opf";
    ParentAndName("/", name);
    assert PathsGet("/", name) == "/content.opf";
    IndexOfIs(name, name, 0, 0);
  }

  /** A parser that knows only the one-file book's package text, and reads it
      as the sample document. */
  function SampleParse(s: string): Nullable<Node> {
    if s == "<package/>" then NonNull(SampleDocument()) else Null
  }

  /** Opening the sample book loads its metadata, and a forced reload answers
      false although it loads the same metadata again. */
  lemma SampleLoadAnswersFalse(b: Book)
    requires b.archive == SAMPLE_ARCHIVE
    ensures LoadMetadata(b, true, SampleParse) ==
            (b.(metadata := NonNull(EpubMetadata("The Youngest Camel", "Kay Boyle", "Fritz Kredel", "", "", "", "2021-04-04", "", "en"))), false)
    ensures LoadMetadataCorrected(b, true, SampleParse) ==
            (b.(metadata := NonNull(EpubMetadata("The Youngest Camel", "Kay Boyle", "Fritz Kredel", "", "", "", "2021-04-04", "", "en"))), true)
  {
    SamplePackageRead();
    SampleBookMetadata();
  }

  // ---------------------------------------------------------------------------
  // loadManifest(force) and loadSpine(force)

  /** The loop over the element children of `manifest` or `spine`: each child is
      turned into an entry until one lacks an attribute, whose null dereference
      ends the loop; the entries added so far stay. */
  function Collect<T>(nodes: seq<Node>, entry: Node -> Outcome<T>): (r: seq<T>)
    ensures |r| <= |nodes|
    ensures forall k :: 0 <= k < |r| ==> entry(nodes[k]) == Returns(r[k])
    ensures |r| < |nodes| ==> entry(nodes[|r|]).Throws?
  {
    if |nodes| == 0 then []
    else
      match entry(nodes[0])
      case Throws(_) => []
      case Returns(x) => [x] + Collect(nodes[1..], entry)
  }

  /** A manifest `item`: its `id`, `href` and `media-type` attributes. */
  function ManifestEntryOf(n: Node): (r: Outcome<ManifestEntry>)
    ensures r.Returns? <==> n.Element? && "id" in n.attrs && "href" in n.attrs && "media-type" in n.attrs
    ensures r.Returns? ==> r.value == ManifestEntry(n.attrs["id"], n.attrs["href"], n.attrs["media-type"])
  {
    var id :- Attribute(n, "id");
    var href :- Attribute(n, "href");
    var mediaType :- Attribute(n, "media-type");
    Returns(ManifestEntry(id, href, mediaType))
  }

  /** A spine `itemref`: its `idref` attribute. */
  function SpineEntryOf(n: Node): (r: Outcome<SpineEntry>)
    ensures r.Returns? <==> n.Element? && "idref" in n.attrs
    ensures r.Returns? ==> r.value == SpineEntry(n.attrs["idref"])
  {
    var idref :- Attribute(n, "idref");
    Returns(SpineEntry(idref))
  }

  /** The entries read from the first element with tag `tag` in the document;
      none when the document has no such element (the null dereference is
      caught). */
  function EntriesOf<T>(doc: Node, tag: string, entry: Node -> Outcome<T>): (r: seq<T>)
    ensures !HasTag(ElementsOf(doc), tag) ==> r == []
    ensures HasTag(ElementsOf(doc), tag) ==>
              exists k :: FirstWithTag(ElementsOf(doc), tag, k) &&
                          r == Collect(ElementChildren(ElementsOf(doc)[k].children), entry)
  {
    match First(DocumentByTag(doc, tag))
    case Null => []
    case NonNull(e) => Collect(ElementChildren(e.children), entry)
  }

  /** The list a forced load builds: empty when the package document is
      missing or does not parse. */
  function Reload<T>(archive: seq<Entry>, parse: string -> Nullable<Node>, tag: string, entry: Node -> Outcome<T>): (r: seq<T>)
    ensures Package(archive, parse).Null? ==> r == []
    ensures Package(archive, parse).NonNull? ==> r == EntriesOf(Package(archive, parse).value, tag, entry)
  {
    match Package(archive, parse)
    case Null => []
    case NonNull(doc) => EntriesOf(doc, tag, entry)
  }

  /** `loadManifest(force)`: a cached manifest is kept unless `force` is set;
      otherwise the manifest is rebuilt from the package document. */
  function LoadManifest(b: Book, force: bool, parse: string -> Nullable<Node>): (r: Book)
    ensures r.root == b.root && r.archive == b.archive && r.metadata == b.metadata && r.spine == b.spine
    ensures b.manifest.NonNull? && !force ==> r == b
    ensures force || b.manifest.Null? ==> r.manifest == NonNull(Reload(b.archive, parse, "manifest", ManifestEntryOf))
  {
    if b.manifest.NonNull? && !force then b
    else b.(manifest := NonNull(Reload(b.archive, parse, "manifest", ManifestEntryOf)))
  }

  /** `loadSpine(force)`: the same for the spine. */
  function LoadSpine(b: Book, force: bool, parse: string -> Nullable<Node>): (r: Book)
    ensures r.root == b.root && r.archive == b.archive && r.metadata == b.metadata && r.manifest == b.manifest
    ensures b.spine.NonNull? && !force ==> r == b
    ensures force || b.spine.Null? ==> r.spine == NonNull(Reload(b.archive, parse, "spine", SpineEntryOf))
  {
    if b.spine.NonNull? && !force then b
    else b.(spine := NonNull(Reload(b.archive, parse, "spine", SpineEntryOf)))
  }

  /** When every child of the element carries its attributes, every child
      becomes an entry, in document order. */
  lemma {:induction false} CollectAll<T>(nodes: seq<Node>, entry: Node -> Outcome<T>)
    requires forall k :: 0 <= k < |nodes| ==> entry(nodes[k]).Returns?
    ensures |Collect(nodes, entry)| == |nodes|
    ensures forall k :: 0 <= k < |nodes| ==> Collect(nodes, entry)[k] == entry(nodes[k]).value
  {
    if |nodes| > 0 {
      CollectAll(nodes[1..], entry);
    }
  }

  /** A child missing an attribute cuts the list short: it and everything after
      it is lost. */
  lemma {:induction false} CollectStops<T>(nodes: seq<Node>, entry: Node -> Outcome<T>, i: nat)
    requires i < |nodes| && entry(nodes[i]).Throws?
    requires forall k :: 0 <= k < i ==> entry(nodes[k]).Returns?
    ensures |Collect(nodes, entry)| == i
  {
    if i > 0 {
      CollectStops(nodes[1..], entry, i - 1);
    }
  }

  /** Loading again without `force` keeps what the first load built, and a
      second forced load builds the same list again. */
  lemma LoadManifestStable(b: Book, force: bool, parse: string -> Nullable<Node>)
    ensures LoadManifest(LoadManifest(b, force, parse), false, parse) == LoadManifest(b, force, parse)
    ensures LoadManifest(LoadManifest(b, force, parse), true, parse) == LoadManifest(b, true, parse)
  {
  }

  /** The same for the spine. */
  lemma LoadSpineStable(b: Book, force: bool, parse: string -> Nullable<Node>)
    ensures LoadSpine(LoadSpine(b, force, parse), false, parse) == LoadSpine(b, force, parse)
    ensures LoadSpine(LoadSpine(b, force, parse), true, parse) == LoadSpine(b, true, parse)
  {
  }

  // ---------------------------------------------------------------------------
  // Getters

  /** `getMetadata()`: loads (forced) when nothing is cached, then returns the
      field, which is still null when the load failed. */
  function GetMetadata(b: Book, parse: string -> Nullable<Node>): (r: (Book, Nullable<EpubMetadata>))
    ensures r.1 == r.0.metadata
    ensures b.metadata.NonNull? ==> r == (b, b.metadata)
    ensures b.metadata.Null? ==> r.1 == Fresh(b.archive, parse)
  {
    var loaded := if b.metadata.Null? then LoadMetadata(b, true, parse).0 else b;
    (loaded, loaded.metadata)
  }

  /** `getManifest()`: loads (forced) when nothing is cached, then returns the
      list. */
  function GetManifest(b: Book, parse: string -> Nullable<Node>): (r: (Book, seq<ManifestEntry>))
    ensures r.0.manifest == NonNull(r.1)
    ensures b.manifest.NonNull? ==> r == (b, b.manifest.value)
    ensures b.manifest.Null? ==> r.1 == Reload(b.archive, parse, "manifest", ManifestEntryOf)
    ensures r.0.archive == b.archive
  {
    var loaded := if b.manifest.Null? then LoadManifest(b, true, parse) else b;
    (loaded, loaded.manifest.value)
  }

  /** `getSpine()`: loads (forced) when nothing is cached, then returns the
      list. */
  function GetSpine(b: Book, parse: string -> Nullable<Node>): (r: (Book, seq<SpineEntry>))
    ensures r.0.spine == NonNull(r.1)
    ensures b.spine.NonNull? ==> r == (b, b.spine.value)
    ensures b.spine.Null? ==> r.1 == Reload(b.archive, parse, "spine", SpineEntryOf)
  {
    var loaded := if b.spine.Null? then LoadSpine(b, true, parse) else b;
    (loaded, loaded.spine.value)
  }

  /** `getSpineEntry(index)`: a negative index fails before the spine is
      touched; otherwise the spine is obtained and the index checked against
      its size. */
  function GetSpineEntry(b: Book, index: int, parse: string -> Nullable<Node>): (r: (Book, Outcome<SpineEntry>))
    ensures r.1.Returns? <==> 0 <= index < |GetSpine(b, parse).1|
    ensures r.1.Returns? ==> r.1.value == GetSpine(b, parse).1[index]
    ensures r.1.Throws? ==> r.1.error == IndexOutOfBounds
    ensures r.0 == if index < 0 then b else GetSpine(b, parse).0
  {
    if index < 0 then (b, Throws(IndexOutOfBounds))
    else
      var (loaded, spine) := GetSpine(b, parse);
      if index >= |spine| then (loaded, Throws(IndexOutOfBounds))
      else (loaded, Returns(spine[index]))
  }

  /** Every entry of a loaded spine is reachable by its position, and its
      position is the only one that does not throw past the end. */
  lemma SpineEntriesReachable(b: Book, parse: string -> Nullable<Node>)
    requires b.spine.NonNull?
    ensures forall i :: 0 <= i < |b.spine.value| ==> GetSpineEntry(b, i, parse) == (b, Returns(b.spine.value[i]))
    ensures GetSpineEntry(b, |b.spine.value|, parse) == (b, Throws(IndexOutOfBounds))
    ensures GetSpineEntry(b, -1, parse) == (b, Throws(IndexOutOfBounds))
  {
  }

  // ---------------------------------------------------------------------------
  // readSection(spineEntry)

  /** The archive entries whose path contains `href` (`readSection` compares
      the whole path, not only the file name). */
  predicate PathContains(path: string, href: string) {
    Contains(path, href)
  }

  /** `readSection(spineEntry)`: the first manifest entry whose id is the spine
      entry's idref names the resource; its text is read from the first path
      containing its href. No such manifest entry gives ""; an unreadable
      resource gives null, as `read` does. */
  function ReadSection(b: Book, s: SpineEntry, parse: string -> Nullable<Node>): (r: (Book, Nullable<string>))
    ensures r.0 == GetManifest(b, parse).0
    ensures (forall k :: 0 <= k < |GetManifest(b, parse).1| ==> GetManifest(b, parse).1[k].id != s.idref) ==>
              r.1 == NonNull("")
    ensures (exists k :: 0 <= k < |GetManifest(b, parse).1| && GetManifest(b, parse).1[k].id == s.idref) ==>
              exists k :: 0 <= k < |GetManifest(b, parse).1| && GetManifest(b, parse).1[k].id == s.idref &&
                          (forall j :: 0 <= j < k ==> GetManifest(b, parse).1[j].id != s.idref) &&
                          r.1 == Read(b.archive, path => PathContains(path, GetManifest(b, parse).1[k].href))
  {
    var (loaded, manifest) := GetManifest(b, parse);
    match FindFirst(manifest, (e: ManifestEntry) => e.id == s.idref)
    case Null => (loaded, NonNull(""))
    case NonNull(entry) => (loaded, Read(b.archive, path => PathContains(path, entry.href)))
  }

  /** The section of a spine entry whose manifest item is the `k`th and whose
      resource is the first path containing its href is that file's text. */
  lemma ReadSectionFinds(b: Book, s: SpineEntry, parse: string -> Nullable<Node>, k: nat, j: nat)
    requires b.manifest.NonNull?
    requires k < |b.manifest.value| && b.manifest.value[k].id == s.idref
    requires forall i :: 0 <= i < k ==> b.manifest.value[i].id != s.idref
    requires j < |b.archive| && b.archive[j].File? && Contains(b.archive[j].path, b.manifest.value[k].href)
    requires forall i :: 0 <= i < j ==> !Contains(b.archive[i].path, b.manifest.value[k].href)
    ensures ReadSection(b, s, parse) == (b, NonNull(b.archive[j].text))
  {
    var manifest := b.manifest.value;
    FindFirstIs(manifest, (e: ManifestEntry) => e.id == s.idref, k);
    ReadFirst(b.archive, path => PathContains(path, manifest[k].href), j);
  }

  // ---------------------------------------------------------------------------
  // The constructor

  /** `new Epub(root)`: nothing is cached, then metadata is loaded (forced).
      Image extraction is not part of this model. */
  function Open(root: string, archive: seq<Entry>, parse: string -> Nullable<Node>): (r: Book)
    ensures r.root == root && r.archive == archive
    ensures r.manifest.Null? && r.spine.Null?
    ensures r.metadata == Fresh(archive, parse)
  {
    LoadMetadata(Book(root, archive, Null, Null, Null), true, parse).0
  }

  /** A freshly opened book fetches its metadata again on `getMetadata` only
      when the first load failed, and then gets the same answer. */
  lemma OpenThenGetMetadata(root: string, archive: seq<Entry>, parse: string -> Nullable<Node>)
    ensures GetMetadata(Open(root, archive, parse), parse).1 == Fresh(archive, parse)
  {
  }
}
