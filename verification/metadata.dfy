/** The Dublin Core metadata of a book (`EpubMetadata`): nine strings read from
    the `metadata` element of the package document. The getters of the Java class
    are the fields of the datatype, which cannot change after construction. */
module Metadata {
  import opened Lang
  import opened Xml

  datatype EpubMetadata = EpubMetadata(
    title: string,
    creator: string,
    contributor: string,
    identifier: string,
    relation: string,
    publisher: string,
    date: string,
    subject: string,
    language: string)

  /** `retrieve`: the text content of the first descendant of `metadata` with the
      given tag, or "" when there is none. */
  function Retrieve(metadata: Node, tag: string): (r: string)
    requires metadata.Element?
    ensures !HasTag(Elements(metadata.children), tag) ==> r == ""
    ensures HasTag(Elements(metadata.children), tag) ==>
              exists k :: FirstWithTag(Elements(metadata.children), tag, k) &&
                          r == TextContent(Elements(metadata.children)[k])
  {
    match First(DescendantsByTag(metadata, tag))
    case Null => ""
    case NonNull(item) => TextContent(item)
  }

  /** Each field of `md` is read from its own Dublin Core tag under `metadata`. */
  predicate ReadFrom(metadata: Node, md: EpubMetadata) {
    && metadata.Element?
    && md.title == Retrieve(metadata, "dc:title")
    && md.creator == Retrieve(metadata, "dc:creator")
    && md.contributor == Retrieve(metadata, "dc:contributor")
    && md.identifier == Retrieve(metadata, "dc:identifier")
    && md.relation == Retrieve(metadata, "dc:relation")
    && md.publisher == Retrieve(metadata, "dc:publisher")
    && md.date == Retrieve(metadata, "dc:date")
    && md.subject == Retrieve(metadata, "dc:subject")
    && md.language == Retrieve(metadata, "dc:language")
  }

  /** `from`: the metadata of a parsed package document. A document without a
      `metadata` element makes every `retrieve` dereference null. */
  function From(doc: Node): (r: Outcome<EpubMetadata>)
    ensures r.Throws? <==> !HasTag(ElementsOf(doc), "metadata")
    ensures r.Throws? ==> r.error == NullPointer
    ensures r.Returns? ==> exists k :: FirstWithTag(ElementsOf(doc), "metadata", k) &&
                                       ReadFrom(ElementsOf(doc)[k], r.value)
  {
    match First(DocumentByTag(doc, "metadata"))
    case Null => Throws(NullPointer)
    case NonNull(metadata) =>
      Returns(EpubMetadata(
        Retrieve(metadata, "dc:title"),
        Retrieve(metadata, "dc:creator"),
        Retrieve(metadata, "dc:contributor"),
        Retrieve(metadata, "dc:identifier"),
        Retrieve(metadata, "dc:relation"),
        Retrieve(metadata, "dc:publisher"),
        Retrieve(metadata, "dc:date"),
        Retrieve(metadata, "dc:subject"),
        Retrieve(metadata, "dc:language")))
  }

  // ---------------------------------------------------------------------------
  // Metadata written as a flat list of Dublin Core elements

  /** `<tag>text</tag>`. */
  function Leaf(tag: string, text: string): Node {
    Element(tag, map[], [Text(text)])
  }

  /** One leaf element per (tag, text) pair, in order. */
  function Leaves(fields: seq<(string, string)>): (r: seq<Node>)
    ensures |r| == |fields|
    ensures forall i :: 0 <= i < |fields| ==> r[i] == Leaf(fields[i].0, fields[i].1)
  {
    seq(|fields|, i requires 0 <= i < |fields| => Leaf(fields[i].0, fields[i].1))
  }

  /** A leaf holds no element below itself. */
  lemma ElementsOfLeaf(tag: string, text: string)
    ensures ElementsOf(Leaf(tag, text)) == [Leaf(tag, text)]
  {
    assert [Text(text)][1..] == [];
    assert Elements([Text(text)]) == [];
  }

  /** The elements below a list of leaves are the leaves themselves. */
  lemma {:induction false} ElementsOfLeaves(fields: seq<(string, string)>)
    ensures Elements(Leaves(fields)) == Leaves(fields)
  {
    if |fields| > 0 {
      assert Leaves(fields)[1..] == Leaves(fields[1..]);
      ElementsOfLeaves(fields[1..]);
      ElementsOfLeaf(fields[0].0, fields[0].1);
    }
  }

  /** The first pair with a tag gives that tag's value. */
  lemma RetrieveLeaf(name: string, fields: seq<(string, string)>, i: nat)
    requires i < |fields|
    requires forall j :: 0 <= j < i ==> fields[j].0 != fields[i].0
    ensures Retrieve(Element(name, map[], Leaves(fields)), fields[i].0) == fields[i].1
  {
    ElementsOfLeaves(fields);
    TextOfLeaf(fields[i].0, map[], fields[i].1);
  }

  /** A tag that no pair carries gives "". */
  lemma RetrieveAbsent(name: string, fields: seq<(string, string)>, tag: string)
    requires forall j :: 0 <= j < |fields| ==> fields[j].0 != tag
    ensures Retrieve(Element(name, map[], Leaves(fields)), tag) == ""
  {
    ElementsOfLeaves(fields);
  }

  /** Five fields of "The Youngest Camel", with the values MetadataTest checks;
      the sample document carries no other field. */
  const SAMPLE_FIELDS: seq<(string, string)> := [
    ("dc:title", "The Youngest Camel"),
    ("dc:creator", "Kay Boyle"),
    ("dc:contributor", "Fritz Kredel"),
    ("dc:date", "2021-04-04"),
    ("dc:language", "en")
  ]

  /** `<package><metadata>...</metadata></package>` around the sample fields. */
  function SampleDocument(): Node {
    Element("package", map[], [Element("metadata", map[], Leaves(SAMPLE_FIELDS))])
  }

  /** The tags of the sample differ from one another at their fourth or fifth
      character. */
  lemma SampleTagsDistinct()
    ensures forall i, j :: 0 <= j < i < |SAMPLE_FIELDS| ==> SAMPLE_FIELDS[j].0 != SAMPLE_FIELDS[i].0
  {
    var tags := ["dc:title", "dc:creator", "dc:contributor", "dc:date", "dc:language"];
    assert forall i :: 0 <= i < 5 ==> SAMPLE_FIELDS[i].0 == tags[i];
    assert tags[0][3] == 't' && tags[1][3] == 'c' && tags[2][3] == 'c' && tags[3][3] == 'd' && tags[4][3] == 'l';
    assert tags[1][4] == 'r' && tags[2][4] == 'o';
  }

  /** No sample tag is one of the four fields the sample does not record. */
  lemma SampleTagsAbsent(tag: string)
    requires tag in {"dc:identifier", "dc:relation", "dc:publisher", "dc:subject"}
    ensures forall j :: 0 <= j < |SAMPLE_FIELDS| ==> SAMPLE_FIELDS[j].0 != tag
  {
    var tags := ["dc:title", "dc:creator", "dc:contributor", "dc:date", "dc:language"];
    assert forall i :: 0 <= i < 5 ==> SAMPLE_FIELDS[i].0 == tags[i];
    assert tags[0][3] == 't' && tags[1][3] == 'c' && tags[2][3] == 'c' && tags[3][3] == 'd' && tags[4][3] == 'l';
    assert tag[3] in {'i', 'r', 'p', 's'};
  }

  /** The `metadata` element of the sample document. */
  function SampleMetadataElement(): Node {
    Element("metadata", map[], Leaves(SAMPLE_FIELDS))
  }

  /** The document's first `metadata` element is the one under `package`. */
  lemma SampleMetadataFound()
    ensures First(DocumentByTag(SampleDocument(), "metadata")) == NonNull(SampleMetadataElement())
  {
    var metadata := SampleMetadataElement();
    SampleElements();
    assert ([SampleDocument(), metadata] + Leaves(SAMPLE_FIELDS))[1] == metadata;
    assert ByTag([SampleDocument(), metadata] + Leaves(SAMPLE_FIELDS), "metadata")[0] == metadata;
  }

  /** The elements of the sample document in document order. */
  lemma SampleElements()
    ensures ElementsOf(SampleDocument()) == [SampleDocument(), SampleMetadataElement()] + Leaves(SAMPLE_FIELDS)
  {
    var metadata := SampleMetadataElement();
    ElementsOfSingle(metadata);
    ElementsOfParent("metadata", SAMPLE_FIELDS);
    assert ElementsOf(SampleDocument()) == [SampleDocument()] + ElementsOf(metadata);
  }

  /** An element whose children are leaves is followed by those leaves. */
  lemma ElementsOfParent(name: string, fields: seq<(string, string)>)
    ensures ElementsOf(Element(name, map[], Leaves(fields))) == [Element(name, map[], Leaves(fields))] + Leaves(fields)
  {
    ElementsOfLeaves(fields);
  }

  /** Each field the sample records comes back as recorded. */
  lemma SampleField(i: nat)
    requires i < |SAMPLE_FIELDS|
    ensures Retrieve(SampleMetadataElement(), SAMPLE_FIELDS[i].0) == SAMPLE_FIELDS[i].1
  {
    SampleTagsDistinct();
    RetrieveLeaf("metadata", SAMPLE_FIELDS, i);
  }

  /** The fields the sample records come back as recorded. */
  lemma SampleRecorded()
    ensures Retrieve(SampleMetadataElement(), "dc:title") == "The Youngest Camel"
    ensures Retrieve(SampleMetadataElement(), "dc:creator") == "Kay Boyle"
    ensures Retrieve(SampleMetadataElement(), "dc:contributor") == "Fritz Kredel"
    ensures Retrieve(SampleMetadataElement(), "dc:date") == "2021-04-04"
    ensures Retrieve(SampleMetadataElement(), "dc:language") == "en"
  {
    SampleField(0);
    SampleField(1);
    SampleField(2);
    SampleField(3);
    SampleField(4);
  }

  /** The fields the sample does not record come back empty. */
  lemma SampleUnrecorded()
    ensures Retrieve(SampleMetadataElement(), "dc:identifier") == ""
    ensures Retrieve(SampleMetadataElement(), "dc:relation") == ""
    ensures Retrieve(SampleMetadataElement(), "dc:publisher") == ""
    ensures Retrieve(SampleMetadataElement(), "dc:subject") == ""
  {
    var fields := SAMPLE_FIELDS;
    SampleTagsAbsent("dc:identifier");
    RetrieveAbsent("metadata", fields, "dc:identifier");
    SampleTagsAbsent("dc:relation");
    RetrieveAbsent("metadata", fields, "dc:relation");
    SampleTagsAbsent("dc:publisher");
    RetrieveAbsent("metadata", fields, "dc:publisher");
    SampleTagsAbsent("dc:subject");
    RetrieveAbsent("metadata", fields, "dc:subject");
  }

  /** On the sample document, the title, language, creator, contributor and date
      come out as MetadataTest expects them; the four fields the sample document
      does not carry are "". */
  lemma SampleBookMetadata()
    ensures From(SampleDocument()).Returns?
    ensures From(SampleDocument()).value ==
            EpubMetadata("The Youngest Camel", "Kay Boyle", "Fritz Kredel", "", "", "", "2021-04-04", "", "en")
  {
    SampleMetadataFound();
    SampleRecorded();
    SampleUnrecorded();
  }
}
