/**
 * The fetcher: for every catalog entry it finds the dataset's UUID, skips datasets
 * already cached unless forced, fetches the column metadata of the rest, and caches
 * the normalised field list. The HTTP request is the parameter `fetch` (the response
 * of the request issued for the n-th dataset, `None` when it failed), and the cache
 * directory is the set of UUIDs that have a cache file.
 */
module FetchColumns {
  import opened Wrappers
  import opened Ascii
  import opened UuidPattern
  import opened Catalog

  /** The fetcher's `extract_uuid_from_identifier`: the first match of the lower-case
      UUID pattern, or `None`. Unlike the generator, it does not ignore case. */
  function ExtractUuid(identifier: string): (r: Option<string>)
    ensures r.None? <==> forall j: nat :: !MatchesAt(identifier, j, false)
    ensures r.Some? ==> IsUuid(r.value, false)
    ensures r.Some? ==>
      var i := Search(identifier, false).value;
      r.value == identifier[i..i + UuidLength] && forall j: nat :: j < i ==> !MatchesAt(identifier, j, false)
  {
    match Search(identifier, false)
    case Some(i) => Some(identifier[i..i + UuidLength])
    case None => None
  }

  /** The parts of an API response the fetcher reads: `meta.data_file_meta_data.tableSchema.descriptor.fields`. */
  datatype RawField = RawField(name: Option<string>, typ: Option<string>)
  datatype Descriptor = Descriptor(fields: Option<seq<RawField>>)
  datatype TableSchema = TableSchema(descriptor: Option<Descriptor>)
  datatype FileMeta = FileMeta(tableSchema: Option<TableSchema>)
  datatype Meta = Meta(dataFileMetaData: Option<FileMeta>)
  datatype ApiResponse = ApiResponse(meta: Option<Meta>)

  /** Every key on the path to the field list is present. */
  predicate HasFieldsPath(resp: ApiResponse)
  {
    && resp.meta.Some?
    && resp.meta.value.dataFileMetaData.Some?
    && resp.meta.value.dataFileMetaData.value.tableSchema.Some?
    && resp.meta.value.dataFileMetaData.value.tableSchema.value.descriptor.Some?
    && resp.meta.value.dataFileMetaData.value.tableSchema.value.descriptor.value.fields.Some?
  }

  /** The chain of lookups with an empty object as the default of each step and an empty list at the end. */
  function SchemaFields(resp: ApiResponse): (fields: seq<RawField>)
    ensures !HasFieldsPath(resp) ==> fields == []
    ensures HasFieldsPath(resp) ==>
      fields == resp.meta.value.dataFileMetaData.value.tableSchema.value.descriptor.value.fields.value
  {
    resp.meta.GetOr(Meta(None))
      .dataFileMetaData.GetOr(FileMeta(None))
      .tableSchema.GetOr(TableSchema(None))
      .descriptor.GetOr(Descriptor(None))
      .fields.GetOr([])
  }

  /** A field as it is cached. */
  datatype Field = Field(name: string, typ: string)

  function Normalize(f: RawField): Field
  {
    Field(Lower(f.name.GetOr("")), f.typ.GetOr("string"))
  }

  /** What `extract_fields` returns: one field per field of the response, in order, each
      name lower-cased (empty when missing) and each type kept (`string` when missing). */
  function NormalizedFields(resp: ApiResponse): (fs: seq<Field>)
    ensures !HasFieldsPath(resp) ==> fs == []
    ensures |fs| == |SchemaFields(resp)|
    ensures forall i :: 0 <= i < |fs| ==>
      var raw := SchemaFields(resp)[i];
      && IsLowerCase(fs[i].name)
      && |fs[i].name| == |raw.name.GetOr("")|
      && (forall k :: 0 <= k < |fs[i].name| && !IsUpper(raw.name.GetOr("")[k]) ==> fs[i].name[k] == raw.name.GetOr("")[k])
      && (forall k :: 0 <= k < |fs[i].name| && IsUpper(raw.name.GetOr("")[k]) ==> fs[i].name[k] as int == raw.name.GetOr("")[k] as int + 32)
      && fs[i].typ == (if raw.typ.Some? then raw.typ.value else "string")
  {
    var fields := SchemaFields(resp);
    forall i | 0 <= i < |fields| ensures var n := fields[i].name.GetOr(""); |Lower(n)| == |n| && IsLowerCase(Lower(n)) {
      LowerSpec(fields[i].name.GetOr(""));
    }
    seq(|fields|, i requires 0 <= i < |fields| => Normalize(fields[i]))
  }

  /** `extract_fields`. */
  method ExtractFields(resp: ApiResponse) returns (normalized: seq<Field>)
    ensures normalized == NormalizedFields(resp)
  {
    var fields := SchemaFields(resp);
    normalized := [];
    for i := 0 to |fields|
      invariant |normalized| == i
      invariant forall k :: 0 <= k < i ==> normalized[k] == Normalize(fields[k])
    {
      var field := fields[i];
      normalized := normalized + [Field(Lower(field.name.GetOr("")), field.typ.GetOr("string"))];
    }
  }

  /** The content of a cache file. */
  datatype CacheRecord = CacheRecord(datasetUuid: string, fields: seq<Field>)

  /** The record `save_column_data` writes for a dataset. */
  method SaveColumnData(datasetUuid: string, data: ApiResponse) returns (record: CacheRecord)
    ensures record.datasetUuid == datasetUuid && record.fields == NormalizedFields(data)
  {
    var fields := ExtractFields(data);
    record := CacheRecord(datasetUuid, fields);
  }

  /** What happened to one dataset. */
  datatype Outcome =
    | NoUuid
    | Skipped(uuid: string)
    | Saved(uuid: string, record: CacheRecord)
    | FetchFailed(uuid: string)

  /** The outcome for the `index`-th dataset (counting from 1) given the UUIDs cached so far. */
  function Classify(d: Dataset, index: nat, cache: set<string>, force: bool,
                    fetch: (nat, string) -> Option<ApiResponse>): (o: Outcome)
    ensures o.NoUuid? <==> ExtractUuid(d.identifier.GetOr("")).None?
    ensures !o.NoUuid? ==> o.uuid == ExtractUuid(d.identifier.GetOr("")).value && IsUuid(o.uuid, false)
    ensures o.Skipped? <==> !o.NoUuid? && o.uuid in cache && !force
    ensures o.Saved? <==> !o.NoUuid? && !(o.uuid in cache && !force) && fetch(index, o.uuid).Some?
    ensures o.Saved? ==> o.record == CacheRecord(o.uuid, NormalizedFields(fetch(index, o.uuid).value))
  {
    match ExtractUuid(d.identifier.GetOr(""))
    case None => NoUuid
    case Some(u) =>
      if u in cache && !force then Skipped(u)
      else
        match fetch(index, u)
        case Some(resp) => Saved(u, CacheRecord(u, NormalizedFields(resp)))
        case None => FetchFailed(u)
  }

  /** A dataset without a UUID, or one already cached when not forced, is decided without a
      request: its outcome is the same whatever the requests would have returned. */
  lemma DecidedWithoutFetch(d: Dataset, index: nat, cache: set<string>, force: bool,
                            fetch: (nat, string) -> Option<ApiResponse>, other: (nat, string) -> Option<ApiResponse>)
    requires Classify(d, index, cache, force, fetch).NoUuid? || Classify(d, index, cache, force, fetch).Skipped?
    ensures Classify(d, index, cache, force, other) == Classify(d, index, cache, force, fetch)
  {
  }

  /** A saved record leaves a cache file behind. */
  function CacheAfter(cache: set<string>, o: Outcome): set<string>
  {
    if o.Saved? then cache + {o.uuid} else cache
  }

  /** The outcomes of the datasets `ds`, the first of them being the `index`-th, in order,
      each seeing the cache files written before it. */
  function Run(ds: seq<Dataset>, index: nat, cache: set<string>, force: bool,
               fetch: (nat, string) -> Option<ApiResponse>): (os: seq<Outcome>)
    decreases |ds|
    ensures |os| == |ds|
  {
    if ds == [] then []
    else
      var o := Classify(ds[0], index, cache, force, fetch);
      [o] + Run(ds[1..], index + 1, CacheAfter(cache, o), force, fetch)
  }

  predicate IsSuccess(o: Outcome) { o.Saved? }
  predicate IsFailure(o: Outcome) { o.NoUuid? || o.FetchFailed? }
  predicate IsSkip(o: Outcome) { o.Skipped? }

  /** How many of the outcomes satisfy `p`. */
  function Count(os: seq<Outcome>, p: Outcome -> bool): (n: nat)
    ensures n <= |os|
  {
    if os == [] then 0 else Count(os[..|os| - 1], p) + (if p(os[|os| - 1]) then 1 else 0)
  }

  /** Every outcome is exactly one of a success, a failure and a skip, so the three counts add up. */
  lemma {:induction false} CountsPartition(os: seq<Outcome>)
    ensures Count(os, IsSuccess) + Count(os, IsFailure) + Count(os, IsSkip) == |os|
  {
    if os != [] {
      CountsPartition(os[..|os| - 1]);
    }
  }

  /** The UUIDs whose records were saved. */
  function SavedUuids(os: seq<Outcome>): (us: set<string>)
    ensures forall u :: u in us <==> exists k :: 0 <= k < |os| && os[k].Saved? && os[k].uuid == u
  {
    if os == [] then {}
    else
      var rest := SavedUuids(os[..|os| - 1]);
      var last := os[|os| - 1];
      assert forall k :: 0 <= k < |os| - 1 ==> os[..|os| - 1][k] == os[k];
      if last.Saved? then rest + {last.uuid} else rest
  }

  /** The remaining outcomes from the `i`-th dataset on: its own, then those after it. */
  lemma RunStep(ds: seq<Dataset>, i: nat, cache: set<string>, force: bool,
                fetch: (nat, string) -> Option<ApiResponse>, done: seq<Outcome>, all: seq<Outcome>, o: Outcome)
    requires i < |ds| && all == done + Run(ds[i..], i + 1, cache, force, fetch)
    requires o == Classify(ds[i], i + 1, cache, force, fetch)
    ensures all == (done + [o]) + Run(ds[i + 1..], i + 2, CacheAfter(cache, o), force, fetch)
  {
    assert ds[i..][1..] == ds[i + 1..];
  }

  lemma CountSnoc(os: seq<Outcome>, o: Outcome, p: Outcome -> bool)
    ensures Count(os + [o], p) == Count(os, p) + (if p(o) then 1 else 0)
  {
    assert (os + [o])[..|os|] == os;
  }

  lemma SavedUuidsSnoc(os: seq<Outcome>, o: Outcome)
    ensures SavedUuids(os + [o]) == if o.Saved? then SavedUuids(os) + {o.uuid} else SavedUuids(os)
  {
    assert (os + [o])[..|os|] == os;
  }

  /** The body of the `fetch_all_datasets` loop for the `index`-th dataset: find the UUID,
      skip a cached dataset unless forced, otherwise request and save the columns. */
  method ProcessDataset(dataset: Dataset, index: nat, cache: set<string>, force: bool,
                        fetch: (nat, string) -> Option<ApiResponse>)
    returns (outcome: Outcome, cacheAfter: set<string>)
    ensures outcome == Classify(dataset, index, cache, force, fetch)
    ensures cacheAfter == CacheAfter(cache, outcome)
  {
    cacheAfter := cache;
    match ExtractUuid(dataset.identifier.GetOr("")) {
      case None =>
        outcome := NoUuid;
      case Some(datasetUuid) =>
        if datasetUuid in cache && !force {
          outcome := Skipped(datasetUuid);
        } else {
          var responseData := fetch(index, datasetUuid);
          match responseData {
            case Some(resp) =>
              var record := SaveColumnData(datasetUuid, resp);
              cacheAfter := cache + {datasetUuid};
              outcome := Saved(datasetUuid, record);
            case None =>
              outcome := FetchFailed(datasetUuid);
          }
        }
    }
  }

  /** The `fetch_all_datasets` loop: classifies every dataset in order, saving the fetched
      ones, and returns the three counters, the outcomes, and the cached UUIDs afterwards. */
  method FetchAllDatasets(datasets: seq<Dataset>, cached: set<string>, force: bool,
                          fetch: (nat, string) -> Option<ApiResponse>)
    returns (successful: nat, failed: nat, skipped: nat, outcomes: seq<Outcome>, cache: set<string>)
    ensures outcomes == Run(datasets, 1, cached, force, fetch)
    ensures successful == Count(outcomes, IsSuccess)
    ensures failed == Count(outcomes, IsFailure)
    ensures skipped == Count(outcomes, IsSkip)
    ensures successful + failed + skipped == |datasets|
    ensures cache == cached + SavedUuids(outcomes)
  {
    successful, failed, skipped := 0, 0, 0;
    outcomes := [];
    cache := cached;
    for i := 0 to |datasets|
      invariant |outcomes| == i
      invariant Run(datasets, 1, cached, force, fetch) == outcomes + Run(datasets[i..], i + 1, cache, force, fetch)
      invariant successful == Count(outcomes, IsSuccess)
      invariant failed == Count(outcomes, IsFailure)
      invariant skipped == Count(outcomes, IsSkip)
      invariant cache == cached + SavedUuids(outcomes)
    {
      var outcome, cacheAfter := ProcessDataset(datasets[i], i + 1, cache, force, fetch);
      RunStep(datasets, i, cache, force, fetch, outcomes, Run(datasets, 1, cached, force, fetch), outcome);
      cache := cacheAfter;
      match outcome {
        case NoUuid => failed := failed + 1;
        case Skipped(_) => skipped := skipped + 1;
        case Saved(_, _) => successful := successful + 1;
        case FetchFailed(_) => failed := failed + 1;
      }
      CountSnoc(outcomes, outcome, IsSuccess);
      CountSnoc(outcomes, outcome, IsFailure);
      CountSnoc(outcomes, outcome, IsSkip);
      SavedUuidsSnoc(outcomes, outcome);
      outcomes := outcomes + [outcome];
    }
    assert datasets[|datasets|..] == [];
    CountsPartition(outcomes);
  }
}
