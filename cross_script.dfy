/**
 * How the two scripts fit together: the fetcher names a cache file after the UUID it
 * extracts, and the generator looks the file up under the UUID it extracts from the
 * same identifier, then writes the cached fields as the columns section.
 */
module CrossScript {
  import opened Wrappers
  import opened Ascii
  import opened UuidPattern
  import opened ColumnsYaml
  import opened GenerateSources
  import opened FetchColumns

  predicate IsUpperHexLetter(c: char)
  {
    'A' <= c <= 'F'
  }

  /** Without the letters `A`-`F`, matching with and without case makes no difference. */
  lemma MatchesAgree(s: string, i: nat)
    requires forall k :: 0 <= k < |s| ==> !IsUpperHexLetter(s[k])
    ensures MatchesAt(s, i, true) <==> MatchesAt(s, i, false)
  {
    if MatchesAt(s, i, true) {
      var u := s[i..i + UuidLength];
      forall k | 0 <= k < UuidLength ensures !IsHyphenOffset(k) ==> IsHex(u[k], false) {
        assert u[k] == s[i + k];
      }
    }
  }

  /** For an identifier without `A`-`F`, both scripts extract the same UUID, and both find none
      exactly when the other finds none. */
  lemma ExtractorsAgree(identifier: string)
    requires forall k :: 0 <= k < |identifier| ==> !IsUpperHexLetter(identifier[k])
    ensures ExtractUuid(identifier).None? <==> ExtractUuidOrNA(identifier) == NotAvailable
    ensures ExtractUuid(identifier).Some? ==> ExtractUuid(identifier).value == ExtractUuidOrNA(identifier)
  {
    forall j: nat ensures MatchesAt(identifier, j, true) <==> MatchesAt(identifier, j, false) {
      MatchesAgree(identifier, j);
    }
    match Search(identifier, false)
    case None =>
    case Some(i) =>
      SearchIsFirst(identifier, i, true);
  }

  /** An identifier that is an upper-case UUID: the generator extracts it, the fetcher finds
      no UUID and counts the dataset as failed, so no cache file is ever written under it. */
  lemma UpperCaseUuidDiverges(u: string)
    requires IsUuid(u, true)
    requires exists k :: 0 <= k < |u| && IsUpperHexLetter(u[k])
    ensures ExtractUuidOrNA(u) == u
    ensures ExtractUuid(u) == None
  {
    assert u[0..UuidLength] == u;
    assert MatchesAt(u, 0, true);
    SearchIsFirst(u, 0, true);
    var k :| 0 <= k < |u| && IsUpperHexLetter(u[k]);
    forall j: nat ensures !MatchesAt(u, j, false) {
      if j == 0 {
        assert !IsHex(u[..UuidLength][k], false);
      }
    }
  }

  /** The UUID of the catalog's own example dataset, written in upper case. */
  lemma UpperCaseExample()
    ensures ExtractUuidOrNA("9767CB68-8EA9-4F0B-8179-9431ABC89F11") == "9767CB68-8EA9-4F0B-8179-9431ABC89F11"
    ensures ExtractUuid("9767CB68-8EA9-4F0B-8179-9431ABC89F11") == None
  {
    var u := "9767CB68-8EA9-4F0B-8179-9431ABC89F11";
    assert IsUpperHexLetter(u[4]);
    UpperCaseUuidDiverges(u);
  }

  /** A character that is neither a hex digit nor `-` rules out every match that covers it. */
  lemma Blocked(s: string, j: nat, p: nat, ignoreCase: bool)
    requires j <= p < j + UuidLength && p < |s|
    requires s[p] != '-' && !IsHex(s[p], true)
    ensures !MatchesAt(s, j, ignoreCase)
  {
    if j + UuidLength <= |s| {
      assert s[j..j + UuidLength][p - j] == s[p];
    }
  }

  /** What comes before the UUID in a dataset's identifier URL. */
  const DatasetPrefix := "https://data.cms.gov/data-api/v1/dataset/"

  /** What comes after the UUID in a dataset's identifier URL. */
  const ViewerSuffix := "/data-viewer"

  /** The same divergence for an upper-case UUID inside a dataset's identifier URL. */
  lemma UpperCaseUrlDiverges(u: string)
    requires IsUuid(u, true)
    requires exists k :: 0 <= k < |u| && IsUpperHexLetter(u[k])
    ensures ExtractUuidOrNA(DatasetPrefix + u + ViewerSuffix) == u
    ensures ExtractUuid(DatasetPrefix + u + ViewerSuffix) == None
  {
    var url := DatasetPrefix + u + ViewerSuffix;
    assert |DatasetPrefix| == 41 && |url| == 89;
    assert url[5] == ':' && url[40] == '/' && url[77] == '/';
    assert url[41..77] == u;
    forall j: nat, ignoreCase | j < 41 ensures !MatchesAt(url, j, ignoreCase) {
      if j <= 5 {
        Blocked(url, j, 5, ignoreCase);
      } else {
        Blocked(url, j, 40, ignoreCase);
      }
    }
    assert MatchesAt(url, 41, true);
    SearchIsFirst(url, 41, true);
    var k :| 0 <= k < |u| && IsUpperHexLetter(u[k]);
    forall j: nat ensures !MatchesAt(url, j, false) {
      if j == 41 {
        assert !IsHex(url[41..77][k], false);
      } else if 41 < j <= 53 {
        Blocked(url, j, 77, false);
      }
    }
  }

  /** The columns the generator reads from a cache record. */
  function CachedColumns(fields: seq<Field>): (cs: seq<Column>)
    ensures |cs| == |fields|
    ensures forall i :: 0 <= i < |fields| ==> cs[i].name == Some(fields[i].name) && cs[i].typ == Some(fields[i].typ)
  {
    seq(|fields|, i requires 0 <= i < |fields| => Column(Some(fields[i].name), Some(fields[i].typ)))
  }

  /** Reading the quoted name of each column line the generator writes for a fetched response
      gives back the API's field name, lower-cased; the type line carries the field's type. */
  lemma CachedNamesReadBack(resp: ApiResponse, i: nat)
    requires i < |SchemaFields(resp)|
    requires var name := SchemaFields(resp)[i].name.GetOr("");
      forall k :: 0 <= k < |name| ==> IsPrintable(name[k])
    ensures var raw := SchemaFields(resp)[i];
      var lines := ColumnLines(CachedColumns(NormalizedFields(resp)), 8);
      && ReadQuoted(lines[1 + 2 * i][QuoteStart(8)..]) == Some((Lower(raw.name.GetOr("")), ""))
      && lines[2 + 2 * i] == Spaces(12) + "type: " + raw.typ.GetOr("string")
  {
    var columns := CachedColumns(NormalizedFields(resp));
    var name := SchemaFields(resp)[i].name.GetOr("");
    LowerSpec(name);
    NameLineRoundTrip(columns[i], 8);
  }
}
