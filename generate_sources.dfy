/**
 * The generator: from one catalog entry it extracts a metadata record, with a
 * placeholder for every missing field, and lays that record out as a dbt source
 * document in YAML. The cached columns of the dataset are a parameter here.
 */
module GenerateSources {
  import opened Wrappers
  import opened Seqs
  import opened Ascii
  import opened UuidPattern
  import opened Catalog
  import opened TableNames
  import opened ColumnsYaml
  import opened DescriptionWrap

  /** The placeholder for a missing value. */
  const NotAvailable: string := "N/A"

  /** `transform_keywords_to_tags`: each keyword lower-cased, in order. */
  function Tags(keywords: seq<string>): (tags: seq<string>)
    ensures |tags| == |keywords|
    ensures forall i :: 0 <= i < |tags| ==>
      |tags[i]| == |keywords[i]| && IsLowerCase(tags[i])
      && (forall k :: 0 <= k < |tags[i]| && !IsUpper(keywords[i][k]) ==> tags[i][k] == keywords[i][k])
      && (forall k :: 0 <= k < |tags[i]| && IsUpper(keywords[i][k]) ==> tags[i][k] as int == keywords[i][k] as int + 32)
  {
    if keywords == [] then []
    else
      forall i | 0 <= i < |keywords| ensures |Lower(keywords[i])| == |keywords[i]| && IsLowerCase(Lower(keywords[i])) {
        LowerSpec(keywords[i]);
      }
      seq(|keywords|, i requires 0 <= i < |keywords| => Lower(keywords[i]))
  }

  /** Tags are already tags: lower-casing them again changes nothing. */
  lemma TagsIdempotent(keywords: seq<string>)
    ensures Tags(Tags(keywords)) == Tags(keywords)
  {
    var tags := Tags(keywords);
    forall i | 0 <= i < |tags| ensures Lower(tags[i]) == tags[i] {
      LowerSpec(tags[i]);
    }
  }

  /** The generator's `extract_uuid_from_identifier`: the first match of the UUID pattern,
      ignoring case and keeping the identifier's own case, or `N/A`. */
  function ExtractUuidOrNA(identifier: string): (r: string)
    ensures r == NotAvailable <==> forall j: nat :: !MatchesAt(identifier, j, true)
    ensures r != NotAvailable ==> IsUuid(r, true)
    ensures r != NotAvailable ==>
      var i := Search(identifier, true).value;
      r == identifier[i..i + UuidLength] && forall j: nat :: j < i ==> !MatchesAt(identifier, j, true)
  {
    if identifier == [] then NotAvailable
    else
      match Search(identifier, true)
      case Some(i) => identifier[i..i + UuidLength]
      case None => NotAvailable
  }

  /** `strip_mailto`: `N/A` for an empty address, otherwise every `mailto:` removed. */
  function StripMailto(email: string): (r: string)
    ensures email == [] ==> r == NotAvailable
  {
    if email == [] then NotAvailable else ReplaceAll(email, "mailto:", "")
  }

  /** An address without `mailto:` is kept as it is. */
  lemma StripMailtoUnchanged(email: string)
    requires email != [] && !Contains(email, "mailto:")
    ensures StripMailto(email) == email
  {
    ReplaceAbsent(email, "mailto:", "");
  }

  /** The `mailto:` prefix is removed from an address that has no other. */
  lemma StripMailtoPrefix(address: string)
    requires !Contains(address, "mailto:")
    ensures StripMailto("mailto:" + address) == address
  {
    var s := "mailto:" + address;
    assert OccursAt(s, "mailto:", 0);
    assert s[|"mailto:"|..] == address;
    ReplaceAbsent(address, "mailto:", "");
  }

  /** Everything from this text on is cut from a description. */
  const Marker: string := "Below is the list of tables"

  /** A record of `extract_dataset_metadata`. */
  datatype Metadata = Metadata(
    tableName: string,
    title: string,
    description: string,
    tags: seq<string>,
    cmsCategory: string,
    dataSourceUrl: string,
    dataDictionaryUrl: string,
    dataMethodologyUrl: string,
    sampleDataUrl: string,
    contact: string,
    datasetUuid: string)

  /** The description with the marker and everything after it cut off, then stripped;
      a description without the marker is kept whole. */
  function CutAtMarker(raw: string): (d: string)
    ensures !Contains(d, Marker)
    ensures Find(raw, Marker).None? ==> d == raw
    ensures Find(raw, Marker).Some? ==> d == Strip(raw[..Find(raw, Marker).value])
  {
    match Find(raw, Marker)
    case None => raw
    case Some(i) =>
      var before := Split(raw, Marker)[0];
      assert before == raw[..i];
      StripSpec(before);
      var a, n := StripStart(before), |Strip(before)|;
      assert Strip(before) == raw[a..a + n];
      NotInSlice(raw, Marker, i, a, n);
      Strip(before)
  }

  /** A slice of `s` that ends before the first occurrence of `pat` does not contain `pat`. */
  lemma NotInSlice(s: string, pat: string, first: nat, a: nat, n: nat)
    requires forall j: nat :: j < first ==> !OccursAt(s, pat, j)
    requires a + n <= first <= |s| && |pat| > 0
    ensures !Contains(s[a..a + n], pat)
  {
    var t := s[a..a + n];
    forall j: nat | j + |pat| <= |t| ensures !OccursAt(t, pat, j) {
      var u, v := t[j..j + |pat|], s[a + j..a + j + |pat|];
      forall k | 0 <= k < |pat| ensures u[k] == v[k] {
        assert t[j + k] == s[a + j + k];
      }
      assert u == v;
      assert !OccursAt(s, pat, a + j);
    }
  }

  /** `extract_dataset_metadata`. */
  function ExtractMetadata(d: Dataset): (m: Metadata)
    ensures m.title == d.title.GetOr("Unknown Dataset")
    ensures m.tableName == SnakeCase(m.title) && IsSnakeName(m.tableName)
    ensures m.description == CutAtMarker(d.description.GetOr(NotAvailable))
    ensures !Contains(m.description, Marker)
    ensures m.tags == Tags(d.keyword.GetOr([]))
    ensures m.cmsCategory == (if d.contactPoint.Some? then d.contactPoint.value.fn.GetOr(NotAvailable) else NotAvailable)
    ensures m.contact == StripMailto(if d.contactPoint.Some? then d.contactPoint.value.hasEmail.GetOr(NotAvailable) else NotAvailable)
    ensures m.dataSourceUrl == d.landingPage.GetOr(NotAvailable)
    ensures m.dataDictionaryUrl == d.describedBy.GetOr(NotAvailable)
    ensures m.dataMethodologyUrl == (if d.references.Some? && d.references.value != [] then d.references.value[0] else NotAvailable)
    ensures m.sampleDataUrl == d.identifier.GetOr(NotAvailable)
    ensures m.datasetUuid == ExtractUuidOrNA(m.sampleDataUrl)
    ensures m.datasetUuid == NotAvailable || IsUuid(m.datasetUuid, true)
  {
    var title := d.title.GetOr("Unknown Dataset");
    var contactPoint := d.contactPoint.GetOr(ContactPoint(None, None));
    var identifier := d.identifier.GetOr(NotAvailable);
    SnakeCaseIsSnakeName(title);
    Metadata(
      tableName := SnakeCase(title),
      title := title,
      description := CutAtMarker(d.description.GetOr(NotAvailable)),
      tags := Tags(d.keyword.GetOr([])),
      cmsCategory := contactPoint.fn.GetOr(NotAvailable),
      dataSourceUrl := d.landingPage.GetOr(NotAvailable),
      dataDictionaryUrl := d.describedBy.GetOr(NotAvailable),
      dataMethodologyUrl := if d.references.Some? && d.references.value != [] then d.references.value[0] else NotAvailable,
      sampleDataUrl := identifier,
      contact := StripMailto(contactPoint.hasEmail.GetOr(NotAvailable)),
      datasetUuid := ExtractUuidOrNA(identifier))
  }

  /** The six lines of the fixed start of every document, the long ones written in pieces. */
  const HeaderSources: string := "sources:"
  const HeaderName: string := "  - name: Data.CMS.gov"
  const HeaderDescription: string :=
    "    description: Public data " + "released by the Centers " + "for Medicare & Medicaid " + "Services (CMS)"
  const HeaderMeta: string := "    meta:"
  const HeaderSourceUrl: string := "      data_source_url: " + "https://data.cms.gov"
  const HeaderTables: string := "    tables:"

  /** The fixed start of every document: the six lines, each followed by a line feed but the last. */
  const StaticHeader: string :=
    HeaderSources + "\n" + (HeaderName + "\n" + (HeaderDescription + "\n"
      + (HeaderMeta + "\n" + (HeaderSourceUrl + "\n" + HeaderTables))))

  /** The lines of the fixed start. */
  const HeaderLines: seq<string> :=
    [HeaderSources, HeaderName, HeaderDescription, HeaderMeta, HeaderSourceUrl, HeaderTables]

  lemma HeaderDescriptionNoNewline()
    ensures '\n' !in HeaderDescription
  {
    assert '\n' !in "    description: Public data ";
    assert '\n' !in "released by the Centers ";
    assert '\n' !in "for Medicare & Medicaid ";
    assert '\n' !in "Services (CMS)";
  }

  lemma HeaderNoNewline()
    ensures forall k :: 0 <= k < |HeaderLines| ==> '\n' !in HeaderLines[k]
  {
    HeaderDescriptionNoNewline();
    assert '\n' !in HeaderSources;
    assert '\n' !in HeaderName;
    assert '\n' !in HeaderMeta;
    assert '\n' !in HeaderSourceUrl;
    assert '\n' !in HeaderTables;
  }

  /** The header is its six lines joined by line feeds, and splits back into them. */
  lemma HeaderIsLines()
    ensures StaticHeader == Join(HeaderLines, "\n")
    ensures Split(StaticHeader, "\n") == HeaderLines
  {
    HeaderJoin();
    HeaderNoNewline();
    SplitJoin(HeaderLines, '\n');
  }

  lemma HeaderJoin()
    ensures StaticHeader == Join(HeaderLines, "\n")
  {
    var h := HeaderLines;
    assert Join(h[5..], "\n") == h[5];
    assert Join(h[4..], "\n") == h[4] + "\n" + h[5];
    assert Join(h[3..], "\n") == h[3] + "\n" + (h[4] + "\n" + h[5]);
    assert Join(h[2..], "\n") == h[2] + "\n" + (h[3] + "\n" + (h[4] + "\n" + h[5]));
    assert Join(h[1..], "\n") == h[1] + "\n" + (h[2] + "\n" + (h[3] + "\n" + (h[4] + "\n" + h[5])));
    assert Join(h, "\n") == h[0] + "\n" + (h[1] + "\n" + (h[2] + "\n" + (h[3] + "\n" + (h[4] + "\n" + h[5]))));
  }

  function TagLine(tag: string): string
  {
    "          - " + tag
  }

  function TagLines(tags: seq<string>): (lines: seq<string>)
    ensures |lines| == |tags| && forall i :: 0 <= i < |tags| ==> lines[i] == TagLine(tags[i])
  {
    seq(|tags|, i requires 0 <= i < |tags| => TagLine(tags[i]))
  }

  /** The lines between the header and the description block: the table's name, `tags:`,
      one line per tag, and the start of the description block. */
  function TableLines(m: Metadata): seq<string>
  {
    ["      - name: " + m.tableName, "        tags:"] + TagLines(m.tags) + ["        description: |"]
  }

  /** The pieces up to the description block, the header still in one piece. */
  function HeadParts(m: Metadata): seq<string>
  {
    [StaticHeader] + TableLines(m)
  }

  /** The lines of the `meta:` section. */
  function MetaLines(m: Metadata): seq<string>
  {
    [ "        meta:",
      "          cms_category: " + m.cmsCategory,
      "          data_source_url: " + m.dataSourceUrl,
      "          data_dictionary_url: " + m.dataDictionaryUrl,
      "          data_methodology_url: " + m.dataMethodologyUrl,
      "          sample_data_url: " + m.sampleDataUrl,
      "          contact: " + m.contact,
      "          dataset_uuid: " + m.datasetUuid ]
  }

  /** The columns are written when they were found and are not empty. */
  predicate HasColumns(columns: Option<seq<Column>>)
  {
    columns.Some? && columns.value != []
  }

  /** The description block and the `meta:` section. */
  function BodyParts(m: Metadata): seq<string>
  {
    [DescriptionText(m.description, 10, 120)] + MetaLines(m)
  }

  /** The pieces of a document without its columns section. */
  function BaseParts(m: Metadata): seq<string>
  {
    HeadParts(m) + BodyParts(m)
  }

  /** The columns block, when there is one. */
  function ColumnsParts(columns: Option<seq<Column>>): seq<string>
  {
    if HasColumns(columns) then [Join(ColumnLines(columns.value, 8), "\n")] else []
  }

  /** The pieces that `generate_yml_content` joins with line feeds. */
  function DocumentParts(m: Metadata, columns: Option<seq<Column>>): seq<string>
  {
    BaseParts(m) + ColumnsParts(columns)
  }

  /** The loop of `generate_yml_content` that appends one line per tag. */
  method AppendTagLines(lines: seq<string>, tags: seq<string>) returns (out: seq<string>)
    ensures out == lines + TagLines(tags)
  {
    out := lines;
    for i := 0 to |tags|
      invariant out == lines + TagLines(tags[..i])
    {
      assert TagLines(tags[..i + 1]) == TagLines(tags[..i]) + [TagLine(tags[i])];
      out := out + ["          - " + tags[i]];
    }
    assert tags[..|tags|] == tags;
  }

  /** The appends of `generate_yml_content` that write the `meta:` section. */
  method AppendMetaLines(lines: seq<string>, m: Metadata) returns (out: seq<string>)
    ensures out == lines + MetaLines(m)
  {
    out := lines;
    out := out + ["        meta:"];
    out := out + ["          cms_category: " + m.cmsCategory];
    out := out + ["          data_source_url: " + m.dataSourceUrl];
    out := out + ["          data_dictionary_url: " + m.dataDictionaryUrl];
    out := out + ["          data_methodology_url: " + m.dataMethodologyUrl];
    out := out + ["          sample_data_url: " + m.sampleDataUrl];
    out := out + ["          contact: " + m.contact];
    out := out + ["          dataset_uuid: " + m.datasetUuid];
  }

  /** `generate_yml_content`, given the columns the cache holds for the dataset (`None` when there are none). */
  method GenerateYmlContent(m: Metadata, columns: Option<seq<Column>>) returns (yml: string)
    ensures yml == Join(DocumentParts(m, columns), "\n")
  {
    var ymlLines := [StaticHeader];
    ymlLines := ymlLines + ["      - name: " + m.tableName];
    ymlLines := ymlLines + ["        tags:"];
    ymlLines := AppendTagLines(ymlLines, m.tags);
    ymlLines := ymlLines + ["        description: |"];
    assert ymlLines == HeadParts(m);
    var formattedDescription := FormatMultilineDescription(m.description, 10, 120);
    ymlLines := ymlLines + [formattedDescription];
    ymlLines := AppendMetaLines(ymlLines, m);
    assert ymlLines == BaseParts(m);
    if columns.Some? && columns.value != [] {
      var columnsYaml := FormatColumnsYaml(columns.value, 8);
      ymlLines := ymlLines + [columnsYaml];
    }
    assert ymlLines == DocumentParts(m, columns);
    yml := Join(ymlLines, "\n");
  }

  /** The lines a document opens with: the header's lines, the table name, `tags:`, one
      line per tag in order, and the start of the description block. */
  function OpeningLines(m: Metadata): seq<string>
  {
    HeaderLines + TableLines(m)
  }

  /** With no line feed in the table name and the tags, no opening line holds one. */
  lemma OpeningLinesNoNewline(m: Metadata)
    requires '\n' !in m.tableName
    requires forall i :: 0 <= i < |m.tags| ==> '\n' !in m.tags[i]
    ensures forall k :: 0 <= k < |OpeningLines(m)| ==> '\n' !in OpeningLines(m)[k]
  {
    var lines := OpeningLines(m);
    var table := TableLines(m);
    forall k | 0 <= k < |table| ensures '\n' !in table[k] {
      if 2 <= k < 2 + |m.tags| {
        assert table[k] == TagLine(m.tags[k - 2]);
      }
    }
    HeaderNoNewline();
    forall k | 0 <= k < |lines| ensures '\n' !in lines[k] {
      if k >= |HeaderLines| {
        assert lines[k] == table[k - |HeaderLines|];
      }
    }
  }

  /** The opening lines joined are the pieces of the document before the description. */
  lemma OpeningJoined(m: Metadata)
    ensures Join(OpeningLines(m), "\n") == Join(HeadParts(m), "\n")
  {
    HeaderIsLines();
    JoinAppend([StaticHeader], TableLines(m), "\n");
    JoinAppend(HeaderLines, TableLines(m), "\n");
  }

  /** A document begins with its opening lines, followed by a line feed: the static header,
      the table's name, and one `- <tag>` line per tag, in the order of the tags. */
  lemma DocumentOpening(m: Metadata, columns: Option<seq<Column>>)
    requires '\n' !in m.tableName
    requires forall i :: 0 <= i < |m.tags| ==> '\n' !in m.tags[i]
    ensures var doc, head := Join(DocumentParts(m, columns), "\n"), Join(OpeningLines(m), "\n");
      && |head| < |doc| && doc[..|head| + 1] == head + "\n"
      && Split(head, "\n") == OpeningLines(m)
  {
    DocumentStartsWithOpening(m, columns);
    OpeningLinesNoNewline(m);
    SplitJoin(OpeningLines(m), '\n');
  }

  /** The joined opening lines and a line feed start every document. */
  lemma DocumentStartsWithOpening(m: Metadata, columns: Option<seq<Column>>)
    ensures var doc, head := Join(DocumentParts(m, columns), "\n"), Join(OpeningLines(m), "\n");
      |head| < |doc| && doc[..|head| + 1] == head + "\n"
  {
    JoinPrefix3(HeadParts(m), BodyParts(m), ColumnsParts(columns), "\n");
    OpeningJoined(m);
  }

  /** The last piece before the columns section is the `dataset_uuid` line. */
  lemma LastBasePart(m: Metadata)
    ensures |BaseParts(m)| > 1
    ensures BaseParts(m)[|BaseParts(m)| - 1] == "          dataset_uuid: " + m.datasetUuid
  {
    var head, body := HeadParts(m), BodyParts(m);
    assert |body| == 9;
    assert BaseParts(m)[|head| + 8] == body[8];
  }

  /** A document has a columns section exactly when there are columns: it is then the
      document without one, a line feed, and the columns block, whose lines are the
      `columns:` line and a name and a type line per column; otherwise the document ends
      with the `dataset_uuid` line. */
  lemma DocumentColumns(m: Metadata, columns: Option<seq<Column>>)
    ensures var doc, base := Join(DocumentParts(m, columns), "\n"), BaseParts(m);
      && base[|base| - 1] == "          dataset_uuid: " + m.datasetUuid
      && (!HasColumns(columns) ==>
            doc == Join(base[..|base| - 1], "\n") + "\n" + "          dataset_uuid: " + m.datasetUuid)
      && (HasColumns(columns) ==> doc == Join(base, "\n") + "\n" + Join(ColumnLines(columns.value, 8), "\n"))
  {
    LastBasePart(m);
    var base := BaseParts(m);
    if HasColumns(columns) {
      var block := Join(ColumnLines(columns.value, 8), "\n");
      assert DocumentParts(m, columns) == base + [block];
      JoinSnoc(base, block, "\n");
    } else {
      assert DocumentParts(m, columns) == base;
      JoinInitLast(base, "\n");
    }
  }
}
