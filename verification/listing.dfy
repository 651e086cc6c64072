/** The handling of one listing tile of a search-result page
    (`_process_bolig`, `_extract_bolig_data` and `_create_bolig_folder` in
    scraper.py): a chain of gates decides whether the listing is extracted,
    and an extracted listing is stored as the `data.json` of a folder named
    after its address.

    The HTML of the tile and of the detail page is replaced by the texts the
    parser pulls out of it; the two HTTP requests (following a redirect and
    fetching the detail page) are parameters that yield `None` when the
    request raises; the output directory is a `Disk` holding the folder names
    and the records stored in them.
 */
module Listing {
  import opened Results
  import opened Text
  import Json
  import opened ScraperConfig
  import opened ScraperFields
  import FactsBox
  import opened Redirect

  /** The configuration entries the gates read. */
  datatype Config = Config(
    url: string,
    boligTypes: map<string, Json.Value>,
    filters: PostalFilters,
    overridePrevious: bool)

  /** A listing tile: whether it has the `tile` div, the text of its type line
      (`tile__mix`), of its address line (`tile__address`), and the `href` of
      its image link. */
  datatype Tile = Tile(hasTileDiv: bool, mixText: string, addressText: string, href: string)

  /** What the extraction reads from a listing's detail page. */
  datatype DetailPage = DetailPage(
    addressComponents: seq<string>,
    priceText: string,
    factRows: seq<FactsBox.FactRow>)

  /** Why a listing was passed over; each is a plain `return` (or a caught
      exception) in the source. */
  datatype SkipReason =
    | NoTile           // the tile div is missing
    | UnknownType      // the dwelling type is not a configured key
    | TypeDisabled     // the dwelling type is configured as `false`
    | UnsupportedSite  // the redirect leads to a site the scraper cannot read
    | FilteredOut      // the postal code passes no filter
    | DataExists       // `data.json` exists and overriding is off
    | FetchFailed      // the detail-page request raised, and was caught

  /** What became of a listing. `Crashed` is an exception that escapes
      `_process_bolig`; it resurfaces when `scrape` collects the thread's
      result. */
  datatype Outcome =
    | Saved(folder: string, record: Json.Record)
    | Skipped(reason: SkipReason)
    | Crashed(error: Error)

  /** The output directory: the listing folders and the `data.json` records
      stored in them. */
  datatype Disk = Disk(folders: set<string>, data: map<string, Json.Record>)

  /** Every stored record lies in an existing folder. */
  predicate Consistent(disk: Disk) {
    disk.data.Keys <= disk.folders
  }

  /** Where the gates end: on to extraction, with the URL, type, site and
      folder the extraction uses, or stopped with an outcome. */
  datatype Gate =
    | Proceed(url: string, boligType: string, site: string, folder: string)
    | Stop(outcome: Outcome)

  /** The scraper runs only on a validated configuration (`scrape` validates
      before any listing is processed). */
  predicate Validated(cfg: Config) {
    ValidateConfig(cfg.filters.ranges).Valid?
  }

  /** The folder a listing is stored in: its address line without commas. */
  function FolderName(addressText: string): (folder: string)
    ensures ',' !in folder
    ensures folder == Without(addressText, {','})
  {
    RemoveChar(addressText, ',');
    ReplaceAll(addressText, ",", "")
  }

  /** The configured flag of a dwelling type admits it: the type is a key and
      its value is not the JSON `false` (`is False` is an identity test, so
      `0` or `null` do not exclude a type). */
  predicate TypeEnabled(types: map<string, Json.Value>, t: string) {
    t in types && types[t] != Json.Bool(false)
  }

  /** The gates of `_process_bolig` that read only the tile, the
      configuration and the redirect, in the source's order. A page-wise
      postal code that is not found raises IndexError, which the `except
      ValueError` around it does not catch; a redirect whose request raises is
      not caught either. */
  function TileGates(cfg: Config, tile: Tile, follow: string -> Option<string>): (g: Gate)
    requires Validated(cfg)
    ensures g.Proceed? ==> g.site != Unsupported && g.boligType == ExtractBoligType(tile.mixText)
    ensures g.Proceed? ==> g.folder == FolderName(tile.addressText)
    ensures g.Proceed? ==> CheckRedirect(cfg.url + tile.href, follow) == Ok((g.url, g.site))
    ensures g.Stop? && g.outcome.Crashed? ==>
              g.outcome.error == IndexError || g.outcome.error == RequestError
    ensures g.Stop? ==> g.outcome.Skipped? ==> g.outcome.reason != DataExists && g.outcome.reason != FetchFailed
    ensures g.Stop? ==> !g.outcome.Saved?
  {
    var t := ExtractBoligType(tile.mixText);
    if !tile.hasTileDiv then Stop(Skipped(NoTile))
    else if t !in cfg.boligTypes then Stop(Skipped(UnknownType))
    else if cfg.boligTypes[t] == Json.Bool(false) then Stop(Skipped(TypeDisabled))
    else
      match ExtractPostalCodePageWise(tile.addressText)
      case Err(e) => Stop(Crashed(e))
      case Ok(code) =>
        match CheckRedirect(cfg.url + tile.href, follow)
        case Err(e) => Stop(Crashed(e))
        case Ok((url, site)) =>
          ValidRangesHaveTwo(cfg.filters.ranges);
          if site == Unsupported then Stop(Skipped(UnsupportedSite))
          else if !PostalAccepted(cfg.filters, code) then Stop(Skipped(FilteredOut))
          else Proceed(url, t, site, FolderName(tile.addressText))
  }

  /** All gates: after the tile gates, a folder already holding `data.json`
      is skipped unless overriding is on. */
  function GateListing(cfg: Config, tile: Tile, stored: set<string>,
                       follow: string -> Option<string>): (g: Gate)
    requires Validated(cfg)
    ensures g.Proceed? ==> cfg.overridePrevious || g.folder !in stored
    ensures g.Proceed? ==> CheckRedirect(cfg.url + tile.href, follow) == Ok((g.url, g.site))
    ensures g.Proceed? ==> g.boligType == ExtractBoligType(tile.mixText) && g.folder == FolderName(tile.addressText)
    ensures g.Stop? ==> !g.outcome.Saved?
  {
    match TileGates(cfg, tile, follow)
    case Stop(outcome) => Stop(outcome)
    case Proceed(url, t, site, folder) =>
      if !cfg.overridePrevious && folder in stored then Stop(Skipped(DataExists))
      else Proceed(url, t, site, folder)
  }

  /** A validated range has exactly two numbers. */
  lemma ValidRangesHaveTwo(ranges: seq<seq<int>>)
    requires ValidateConfig(ranges).Valid?
    ensures forall i :: 0 <= i < |ranges| ==> |ranges[i]| >= 2
  {
  }

  /** A listing is extracted exactly when every gate passes: the tile div
      exists, its type is an enabled key, a tile postal code is found, the
      redirect resolves to a readable site, the postal filter accepts the
      code, and either overriding is on or no data is stored in its folder. */
  lemma GateIff(cfg: Config, tile: Tile, stored: set<string>, follow: string -> Option<string>)
    requires Validated(cfg)
    ensures var postal := ExtractPostalCodePageWise(tile.addressText);
            var redirect := CheckRedirect(cfg.url + tile.href, follow);
            GateListing(cfg, tile, stored, follow).Proceed? <==>
              && tile.hasTileDiv
              && TypeEnabled(cfg.boligTypes, ExtractBoligType(tile.mixText))
              && postal.Ok?
              && redirect.Ok? && redirect.value.1 != Unsupported
              && PostalAccepted(cfg.filters, postal.value)
              && (cfg.overridePrevious || FolderName(tile.addressText) !in stored)
  {
    ValidRangesHaveTwo(cfg.filters.ranges);
  }

  /** The keys of a stored record, in the order `_extract_bolig_data` sets
      them: five from the listing, then the six facts-box fields. */
  const RecordKeys: seq<string> :=
    ["url", "address", "postal_code", "type", "price",
     "size", "basement_size", "rooms", "year_built", "year_rebuilt", "energy_label"]

  /** The record holding `values` under `RecordKeys`, in order. */
  function RecordOf(values: seq<Json.Value>): (rec: Json.Record)
    requires |values| == |RecordKeys|
    ensures Json.Keys(rec) == RecordKeys
    ensures forall i :: 0 <= i < |rec| ==> rec[i] == (RecordKeys[i], values[i])
  {
    seq(|values|, i requires 0 <= i < |values| => (RecordKeys[i], values[i]))
  }

  /** Looking up the i-th key of such a record finds the i-th value: the
      keys are distinct, so no earlier entry shadows it. */
  lemma RecordLookup(values: seq<Json.Value>, i: nat)
    requires |values| == |RecordKeys| && i < |RecordKeys|
    ensures Json.Get(RecordOf(values), RecordKeys[i]) == Some(values[i])
  {
    RecordKeysDistinct();
    Json.IndexOfUnique(RecordOf(values), RecordKeys[i], i);
  }

  /** Every key of such a record, looked up by name, finds its value. */
  lemma RecordLookups(values: seq<Json.Value>)
    requires |values| == |RecordKeys|
    ensures Json.Get(RecordOf(values), "url") == Some(values[0])
    ensures Json.Get(RecordOf(values), "address") == Some(values[1])
    ensures Json.Get(RecordOf(values), "postal_code") == Some(values[2])
    ensures Json.Get(RecordOf(values), "type") == Some(values[3])
    ensures Json.Get(RecordOf(values), "price") == Some(values[4])
    ensures Json.Get(RecordOf(values), "size") == Some(values[5])
    ensures Json.Get(RecordOf(values), "basement_size") == Some(values[6])
    ensures Json.Get(RecordOf(values), "rooms") == Some(values[7])
    ensures Json.Get(RecordOf(values), "year_built") == Some(values[8])
    ensures Json.Get(RecordOf(values), "year_rebuilt") == Some(values[9])
    ensures Json.Get(RecordOf(values), "energy_label") == Some(values[10])
  {
    RecordLookup(values, 0);
    RecordLookup(values, 1);
    RecordLookup(values, 2);
    RecordLookup(values, 3);
    RecordLookup(values, 4);
    RecordLookup(values, 5);
    RecordLookup(values, 6);
    RecordLookup(values, 7);
    RecordLookup(values, 8);
    RecordLookup(values, 9);
    RecordLookup(values, 10);
  }

  /** `_extract_bolig_data` without the image URLs: address, URL postal code,
      price and facts box are extracted in that order, and the first failure
      is the result. */
  function ExtractRecord(url: string, boligType: string, site: string, page: DetailPage): (r: Result<Json.Record>)
    ensures r.Ok? <==> && ExtractAddress(page.addressComponents, site).Ok?
                       && ExtractPostalCode(url).Ok?
                       && ExtractPrice(page.priceText).Ok?
                       && FactsBox.ExtractFactsBox(page.factRows).Ok?
    ensures r.Ok? ==> Json.Keys(r.value) == RecordKeys
    ensures r.Ok? ==> Json.Get(r.value, "url") == Some(Json.Str(url))
    ensures r.Ok? ==> Json.Get(r.value, "type") == Some(Json.Str(boligType))
    ensures r.Ok? ==> Json.Get(r.value, "address") == Some(Json.Str(ExtractAddress(page.addressComponents, site).value))
    ensures r.Ok? ==> Json.Get(r.value, "postal_code") == Some(Json.Int(ExtractPostalCode(url).value))
    ensures r.Ok? ==> Json.Get(r.value, "price") == Some(Json.Int(ExtractPrice(page.priceText).value))
    ensures r.Ok? ==> FactsStored(r.value, FactsBox.ExtractFactsBox(page.factRows).value)
  {
    var address :- ExtractAddress(page.addressComponents, site);
    var postal :- ExtractPostalCode(url);
    var price :- ExtractPrice(page.priceText);
    var facts :- FactsBox.ExtractFactsBox(page.factRows);
    Ok(BuildRecord(url, address, postal, boligType, price, facts))
  }

  /** The dictionary `_extract_bolig_data` returns, from the extracted parts. */
  function BuildRecord(url: string, address: string, postal: int, boligType: string, price: int,
                       facts: FactsBox.Facts): (rec: Json.Record)
    ensures Json.Keys(rec) == RecordKeys
    ensures Json.Get(rec, "url") == Some(Json.Str(url))
    ensures Json.Get(rec, "type") == Some(Json.Str(boligType))
    ensures Json.Get(rec, "address") == Some(Json.Str(address))
    ensures Json.Get(rec, "postal_code") == Some(Json.Int(postal))
    ensures Json.Get(rec, "price") == Some(Json.Int(price))
    ensures FactsStored(rec, facts)
  {
    var values := [
      Json.Str(url), Json.Str(address), Json.Int(postal), Json.Str(boligType), Json.Int(price),
      Json.OfOptInt(facts.size), Json.OfOptInt(facts.basementSize), Json.OfOptInt(facts.rooms),
      Json.OfOptInt(facts.yearBuilt), Json.OfOptInt(facts.yearRebuilt),
      Json.OfOptStr(facts.energyLabel)];
    RecordLookups(values);
    RecordOf(values)
  }

  /** `rec` holds the six facts-box fields under their keys, a missing field
      as null. */
  predicate FactsStored(rec: Json.Record, facts: FactsBox.Facts)
  {
    && Json.Get(rec, "size") == Some(Json.OfOptInt(facts.size))
    && Json.Get(rec, "basement_size") == Some(Json.OfOptInt(facts.basementSize))
    && Json.Get(rec, "rooms") == Some(Json.OfOptInt(facts.rooms))
    && Json.Get(rec, "year_built") == Some(Json.OfOptInt(facts.yearBuilt))
    && Json.Get(rec, "year_rebuilt") == Some(Json.OfOptInt(facts.yearRebuilt))
    && Json.Get(rec, "energy_label") == Some(Json.OfOptStr(facts.energyLabel))
  }

  /** A record stored by the scraper has distinct keys. */
  lemma RecordKeysDistinct()
    ensures forall i, j :: 0 <= i < j < |RecordKeys| ==> RecordKeys[i] != RecordKeys[j]
  {
  }

  /** A listing forwarded to the one supported agency site is never stored:
      its address extraction is not implemented. */
  lemma AgencyListingsFail(url: string, boligType: string, page: DetailPage)
    ensures ExtractRecord(url, boligType, "home", page) == Err(NotImplementedError)
  {
  }

  /** `_process_bolig` for one tile against the disk. After the gates the
      folder is created, then the detail page is fetched (a failed request is
      caught and reported) and the record is written to the folder. */
  function ProcessListing(cfg: Config, disk: Disk, tile: Tile,
                          follow: string -> Option<string>,
                          fetch: string -> Option<DetailPage>): (res: (Outcome, Disk))
    requires Validated(cfg)
    ensures Consistent(disk) ==> Consistent(res.1)
    ensures res.0.Saved? ==> res.1.data == disk.data[res.0.folder := res.0.record]
    ensures !res.0.Saved? ==> res.1.data == disk.data
    ensures disk.folders <= res.1.folders
    ensures res.1.folders <= disk.folders + {FolderName(tile.addressText)}
    ensures res.0.Saved? ==> res.0.folder == FolderName(tile.addressText)
    ensures res.0.Saved? ==> Json.Keys(res.0.record) == RecordKeys
    ensures res.0.Saved? ==>
              var g := GateListing(cfg, tile, disk.data.Keys, follow);
              && g.Proceed? && fetch(g.url).Some?
              && ExtractRecord(g.url, g.boligType, g.site, fetch(g.url).value) == Ok(res.0.record)
  {
    match GateListing(cfg, tile, disk.data.Keys, follow)
    case Stop(outcome) => (outcome, disk)
    case Proceed(url, boligType, site, folder) =>
      var created := disk.(folders := disk.folders + {folder});
      match fetch(url)
      case None => (Skipped(FetchFailed), created)
      case Some(page) =>
        match ExtractRecord(url, boligType, site, page)
        case Err(e) => (Crashed(e), created)
        case Ok(rec) => (Saved(folder, rec), created.(data := created.data[folder := rec]))
  }

  /** Without overriding, a second run over a listing that was stored skips
      it and leaves the disk as it is. */
  lemma SecondRunSkips(cfg: Config, disk: Disk, tile: Tile,
                       follow: string -> Option<string>, fetch: string -> Option<DetailPage>)
    requires Validated(cfg)
    requires !cfg.overridePrevious
    requires ProcessListing(cfg, disk, tile, follow, fetch).0.Saved?
    ensures var after := ProcessListing(cfg, disk, tile, follow, fetch).1;
            ProcessListing(cfg, after, tile, follow, fetch) == (Skipped(DataExists), after)
  {
    var res := ProcessListing(cfg, disk, tile, follow, fetch);
    var after := res.1;
    var folder := FolderName(tile.addressText);
    assert folder in after.data.Keys;
    GateIff(cfg, tile, disk.data.Keys, follow);
    GateIff(cfg, tile, after.data.Keys, follow);
    SameGatesOtherStore(cfg, tile, disk.data.Keys, after.data.Keys, follow);
  }

  /** The gates before the stored-data test do not look at the disk. */
  lemma SameGatesOtherStore(cfg: Config, tile: Tile, a: set<string>, b: set<string>,
                            follow: string -> Option<string>)
    requires Validated(cfg)
    requires GateListing(cfg, tile, a, follow).Proceed?
    requires !cfg.overridePrevious && FolderName(tile.addressText) in b
    ensures GateListing(cfg, tile, b, follow) == Stop(Skipped(DataExists))
  {
    ValidRangesHaveTwo(cfg.filters.ranges);
  }

  /** With overriding on, a listing that passes the other gates is extracted
      whatever the disk holds. */
  lemma OverrideIgnoresDisk(cfg: Config, tile: Tile, a: set<string>, b: set<string>,
                            follow: string -> Option<string>)
    requires Validated(cfg)
    requires cfg.overridePrevious
    ensures GateListing(cfg, tile, a, follow) == GateListing(cfg, tile, b, follow)
  {
    ValidRangesHaveTwo(cfg.filters.ranges);
  }

  /** The tiles of the crawl, processed one after another (the source runs
      them on a thread pool). Every tile gets an outcome, and the disk stays
      consistent. */
  function ProcessAll(cfg: Config, disk: Disk, tiles: seq<Tile>,
                      follow: string -> Option<string>,
                      fetch: string -> Option<DetailPage>): (res: (seq<Outcome>, Disk))
    requires Validated(cfg)
    decreases |tiles|
    ensures |res.0| == |tiles|
    ensures Consistent(disk) ==> Consistent(res.1)
    ensures disk.folders <= res.1.folders
    ensures disk.data.Keys <= res.1.data.Keys
    ensures forall i :: 0 <= i < |tiles| && res.0[i].Saved? ==>
              && res.0[i].folder == FolderName(tiles[i].addressText)
              && res.0[i].folder in res.1.data.Keys
    ensures forall f :: f in res.1.folders ==>
              f in disk.folders || exists i :: 0 <= i < |tiles| && f == FolderName(tiles[i].addressText)
  {
    if |tiles| == 0 then ([], disk)
    else
      var first := ProcessListing(cfg, disk, tiles[0], follow, fetch);
      var rest := ProcessAll(cfg, first.1, tiles[1..], follow, fetch);
      TileLinksCons(tiles, disk.folders, first.0, first.1, rest.0, rest.1);
      ([first.0] + rest.0, rest.1)
  }

  /** The per-tile facts of `ProcessAll` carry over from the tail run to the
      whole run. `outcome` and `mid` are the first tile's result, `outcomes`
      and `end` those of the tail. */
  lemma TileLinksCons(tiles: seq<Tile>, folders: set<string>, outcome: Outcome, mid: Disk,
                      outcomes: seq<Outcome>, end: Disk)
    requires |tiles| > 0 && |outcomes| == |tiles| - 1
    requires outcome.Saved? ==> outcome.folder == FolderName(tiles[0].addressText) && outcome.folder in mid.data.Keys
    requires mid.folders <= folders + {FolderName(tiles[0].addressText)}
    requires mid.data.Keys <= end.data.Keys
    requires forall i :: 0 <= i < |tiles[1..]| && outcomes[i].Saved? ==>
               && outcomes[i].folder == FolderName(tiles[1..][i].addressText)
               && outcomes[i].folder in end.data.Keys
    requires forall f :: f in end.folders ==>
               f in mid.folders || exists i :: 0 <= i < |tiles[1..]| && f == FolderName(tiles[1..][i].addressText)
    ensures forall i :: 0 <= i < |tiles| && ([outcome] + outcomes)[i].Saved? ==>
              && ([outcome] + outcomes)[i].folder == FolderName(tiles[i].addressText)
              && ([outcome] + outcomes)[i].folder in end.data.Keys
    ensures forall f :: f in end.folders ==>
              f in folders || exists i :: 0 <= i < |tiles| && f == FolderName(tiles[i].addressText)
  {
    var all := [outcome] + outcomes;
    forall i | 0 < i < |tiles| ensures all[i] == outcomes[i - 1] && tiles[i] == tiles[1..][i - 1] {
    }
    forall f | f in end.folders && f !in folders
      ensures exists i :: 0 <= i < |tiles| && f == FolderName(tiles[i].addressText)
    {
      if f !in mid.folders {
        var i :| 0 <= i < |tiles[1..]| && f == FolderName(tiles[1..][i].addressText);
        assert f == FolderName(tiles[i + 1].addressText);
      } else {
        assert f == FolderName(tiles[0].addressText);
      }
    }
  }

  /** `scrape` ends by collecting every thread's result; the first crashed
      listing, in submission order, is the exception it raises. */
  function FirstCrash(outcomes: seq<Outcome>): (o: Option<Error>)
    ensures o.None? <==> forall i :: 0 <= i < |outcomes| ==> !outcomes[i].Crashed?
    ensures o.Some? ==> exists i :: && 0 <= i < |outcomes| && outcomes[i] == Crashed(o.value)
                                    && forall j :: 0 <= j < i ==> !outcomes[j].Crashed?
  {
    if |outcomes| == 0 then None
    else if outcomes[0].Crashed? then Some(outcomes[0].error)
    else
      var o := FirstCrash(outcomes[1..]);
      assert forall i :: 0 < i < |outcomes| ==> outcomes[i] == outcomes[1..][i - 1];
      assert o.Some? ==> exists i :: && 0 <= i < |outcomes| && outcomes[i] == Crashed(o.value)
                                     && forall j :: 0 <= j < i ==> !outcomes[j].Crashed? by {
        if o.Some? {
          var i :| && 0 <= i < |outcomes[1..]| && outcomes[1..][i] == Crashed(o.value)
                   && forall j :: 0 <= j < i ==> !outcomes[1..][j].Crashed?;
          assert outcomes[i + 1] == Crashed(o.value);
        }
      }
      o
  }
}
