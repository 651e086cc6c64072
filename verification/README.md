# nybolig-scrape, modelled in Dafny

This project models the decision and parsing logic of the nybolig-scrape
scripts. The scripts crawl the search pages of the Danish housing site
nybolig.dk. For each listing they store one `data.json` record in a folder
named after its address, then post-process that folder of records:
- add a postal-code price feature;
- split the folders into train, test and validation sets;
- filter keys, rename folders and remove empty ones;
- look for duplicate addresses;
- export a CSV file;
- geocode addresses.

The HTML, HTTP, filesystem and thread-pool layers are replaced by plain
inputs:
- HTML becomes the texts and class lists the parser pulls out of a node.
- An HTTP request becomes a function parameter that answers with a value,
  or with `None` when the request raises.
- The output folder becomes a `Disk` of folder names and records, a list of
  directory entries, or a directory tree.

Python exceptions become the `Err` side of a `Result`, named after the
exception class. Throughout, `isdigit` means the ASCII digits `0`-`9`, and
whitespace, `strip`, `split()` and `lower` are those of Latin-1.

Modules:
- `Results`: `Option`, `Result`, and the exception classes that occur.
- `Text`: the Python string operations the scripts use:
  - `split` and `split()`, `join`, `strip`, `lower` and `replace`;
  - `isdigit` and `int()` on strings;
  - the decimal numeral of an integer.
- `Json`: JSON scalars, and a record as an insertion-ordered dictionary.
- `ScraperConfig`: config validation, the page clamp, the crawled pages and
  the postal filter.
- `Redirect`: the external-listing redirect and the agency site choice.
- `ScraperFields`: dwelling type, URL postal code, tile postal code, price
  and address.
- `FactsBox`: the facts box of a detail page.
- `Listing`: the gate chain of `_process_bolig`, the extracted record, and
  the crawl over the tiles.
- `Features`: the postal-label expansion and `add_postal_avg_sqm_price`.
- `Splitter`, `FolderTools`, `Duplicates`, `Converter` and `Coordinates`:
  the post-processing scripts.

Where the code and its own comments disagree, the model follows the code:
- A tile with no four-digit token raises IndexError, which escapes the
  `except ValueError` meant to skip such a listing. The model gives
  `Crashed(IndexError)`, not a skip.
- A redirect request that raises is not caught in `_process_bolig`, and the
  model reports it the same way.

## Model

| member | source | states |
|---|---|---|
| ScraperConfig.ValidateConfig | scraper.py:33-43 | Valid exactly when every range holds two numbers with start <= end, so equal endpoints are accepted. Otherwise the range reported is the first bad one in order, and the reason is the arity exactly when the range does not hold two numbers. |
| ScraperConfig.GetPages | scraper.py:333-337 | The result never exceeds the maximum. A request at or below the maximum is kept unchanged, however small; a larger one becomes the maximum. |
| ScraperConfig.PyRange | scraper.py:155 | `range(lo, hi)` has `hi - lo` elements (none when `hi <= lo`), and element `i` is `lo + i`. |
| ScraperConfig.CrawlPagesSpec | scraper.py:150-155 | The crawl visits exactly the pages 400 to the clamped total, in strictly increasing order. It visits none when the total is below 400. |
| ScraperConfig.PostalFilterPasses | scraper.py:116-124 | The loop accepts a code exactly when some inclusive range holds it or it is in the individual list. |
| ScraperConfig.RangeBoundsAccepted | scraper.py:118-120 | Both ends of a configured range, and every code between them, pass the filter. |
| Redirect.FirstContained | scraper.py:199-204 | None exactly when no site name occurs in the URL. Otherwise the result is the first site, in list order, that occurs. |
| Redirect.SelectSite | scraper.py:199-206 | `found` holds exactly when some supported name occurs in the resolved URL. The site chosen is that first name, or "unsupported". |
| Redirect.SiteOf | scraper.py:199-206 | "unsupported" when no supported name occurs in the resolved URL; otherwise a supported name that occurs in it. |
| Redirect.CheckRedirect | scraper.py:169-208 | A URL without a marker comes back unchanged with site "nybolig". A marked URL is requested with the primary host cut out. The request fails (RequestError) exactly when the follow fails; otherwise the resolved URL is returned. The site is "nybolig" exactly for unmarked URLs, and is always "nybolig", "unsupported" or a supported site. |
| Redirect.ExternalSite | scraper.py:170-207 | With the single supported site, a forwarded listing gets site "home" exactly when the resolved URL contains "home", else "unsupported". |
| Redirect.RequestedTarget | scraper.py:194-195 | An agency URL glued to the primary host is requested as the agency URL itself. |
| ScraperFields.ExtractBoligType | scraper.py:327-330 | The type holds no space, is a prefix of the stripped lower-cased line, and ends at a space or at the end of that line. |
| ScraperFields.ExtractPostalCode | scraper.py:280-285 | IndexError exactly when the URL has fewer than five `/`-segments. Otherwise it succeeds exactly when the fifth segment is all digits (as in ".../0800/..."), and the code is the number that segment spells; the only other failure is ValueError. |
| ScraperFields.PostalCodeFromPath | scraper.py:280-285 | A URL whose fifth segment is the numeral of `n` yields `n`. A fifth segment that is not all digits yields ValueError. |
| ScraperFields.FirstPostalToken | scraper.py:320-322 | IndexError exactly when no token is four digits. Otherwise the value is that of the first four-digit token, and at most 9999. |
| ScraperFields.ExtractPostalCodePageWise | scraper.py:316-324 | The only failure is IndexError, and a code found is at most 9999. |
| ScraperFields.PageWiseOfWords | scraper.py:316-324 | On an address line of words joined by single spaces, the tile postal code is the first four-digit word, and it fails exactly when there is none. |
| ScraperFields.PageWiseExample | scraper.py:318 | "Tranevænget 2, 5610 Assens" gives 5610. |
| ScraperFields.ExtractPrice | scraper.py:271-277 | Succeeds exactly when the text holds a digit, and the price is the number its digits form in order. Otherwise ValueError. |
| ScraperFields.PriceOfNumeral | scraper.py:275-276 | The numeral of `n` surrounded by digit-free decoration gives `n`. |
| ScraperFields.PriceOnlyDigits | scraper.py:275-276 | The price of a text equals the price of its digits alone. |
| ScraperFields.PriceExample | scraper.py:271-277 | "1.250.000 kr." gives 1250000. |
| ScraperFields.ExtractAddress | scraper.py:288-313 | Succeeds exactly for site "nybolig". The address is the non-empty stripped headings joined by spaces, with every newline and comma removed, so it holds neither. Site "home" raises NotImplementedError; any other site reaches the return with the address unbound. |
| ScraperFields.AddressOfCleanComponents | scraper.py:292-309 | Headings that are already trimmed and free of newlines and commas come out simply joined by spaces. |
| FactsBox.EnergyLabelOf | scraper.py:266 | Succeeds exactly when the node has at least two classes and the second splits on `-` into at least three parts; the label is the third part, so it holds no `-`. TypeError exactly when the node has no class attribute; any other failure is IndexError. |
| FactsBox.LeadingNumber | scraper.py:253 | Reading the number before the unit fails only with ValueError. |
| FactsBox.LeadingNumberOfWord | scraper.py:253 | For any text, the number is `int()` of the piece before the first space, whatever follows, so " 12 m²" fails on the empty piece and "007 m²" gives 7. |
| FactsBox.LeadingNumberOfSpaceless | scraper.py:253 | A text without a space is read whole by `int()`. |
| FactsBox.RoomCount | scraper.py:257-259 | Succeeds exactly when the value has a `/` part after the first and both parts parse; the count is their sum. A value whose first part parses but that has no `/` is an IndexError; the only other failure is ValueError. |
| FactsBox.BuildYears | scraper.py:261-264 | Succeeds exactly when the first `/`-part parses and, when there is a second part, it parses too. The building year is the first part; a rebuilding year is present exactly when there is a second part, and it is that part. The only failure is ValueError. |
| FactsBox.ClassifyFirst | scraper.py:252-265 | A row takes no branch exactly when its text contains none of the five labels. Otherwise it takes the branch of the first label, in elif order, that the text contains. |
| FactsBox.ApplyFact | scraper.py:251-266 | A row changes only the fields of its own kind, which is chosen by the first label in elif order that its text contains. A row with no known label changes nothing. Failures are only ValueError, IndexError, or TypeError (the last only for the energy label). A row that parses sets its field. |
| FactsBox.ApplyKind | scraper.py:252-266 | Each branch of the elif chain sets its own field and keeps all others. It succeeds exactly when its parser (leading number, room count, build years or energy label) succeeds, and stores that parser's value; a lone building year leaves the rebuilding year as it was. It fails only with the exceptions of its parser. |
| FactsBox.ApplyFactFailure | scraper.py:252-266 | Whether a row fails, and with which exception, does not depend on the facts gathered before it. |
| FactsBox.FoldFacts | scraper.py:251-266 | The loop succeeds exactly when no row fails, and the fields of kinds no row has keep their starting value. Otherwise the exception is that of the first failing row. |
| FactsBox.ExtractFactsBox | scraper.py:241-268 | Succeeds exactly when no row fails; every fact absent from the page stays null. |
| FactsBox.FoldFactsSnoc | scraper.py:251-266 | Rows are applied in page order, so the last row of a kind decides its fields. |
| FactsBox.SizeOfArea | scraper.py:252-253 | A living area "<n> <unit>" gives size `n`. |
| FactsBox.BasementOfArea | scraper.py:254-255 | A basement "<n> <unit>" gives basement size `n`. |
| FactsBox.LeadingNumberOf | scraper.py:253 | The number before the first space of "<n> <unit>" is `n`. |
| FactsBox.RoomsOfPair | scraper.py:256-259 | "<a>/<b>" gives `a + b` rooms. |
| FactsBox.RoomCountOfPair | scraper.py:257-259 | The room count of "<a>/<b>" is `a + b`. |
| FactsBox.BuiltOfPair | scraper.py:260-264 | "<y>/<z>" sets the building year to `y` and the rebuilding year to `z`. |
| FactsBox.BuiltOfYear | scraper.py:260-264 | A lone year sets the building year and leaves the rebuilding year as it was. |
| FactsBox.BuiltYearOnly | scraper.py:241-264 | A facts box whose only row is a lone year has that building year and a null rebuilding year. |
| FactsBox.EnergyOfClass | scraper.py:266 | A second class "<p>-<q>-<grade>" gives the grade. |
| Listing.FolderName | scraper.py:126-129 | The folder is the address line with every comma removed, so it holds no comma. |
| Listing.TileGates | scraper.py:89-124 | A listing that proceeds carries the resolved URL and the site the redirect check returned for the listing link, which is a readable site, along with the parsed type and the comma-free folder. A crash there is only IndexError (no tile postal code) or RequestError (the redirect). No skip for stored data or a failed fetch arises from these gates. |
| Listing.GateListing | scraper.py:110-132 | A listing proceeds only when overriding is on or its folder holds no data. It then carries the resolved URL and site from the redirect check, the parsed type and the folder of its address. |
| Listing.GateIff | scraper.py:89-132 | A listing is extracted exactly when all of these hold: the tile div exists; its type is a configured key whose value is not `False` (an identity test, so 0 and null do not exclude it); a tile postal code is found; the redirect resolves to a readable site; the postal filter accepts the code; and overriding is on or no data is stored in its folder. |
| Listing.ValidRangesHaveTwo | scraper.py:33-43 | After validation every range holds two numbers, so the filter's indexing is safe. |
| Listing.BuildRecord | scraper.py:51-60 | The record has the eleven keys in the order they are set. Looking up "url", "address", "postal_code", "type" and "price" finds the listing URL, the address, the URL postal code, the dwelling type and the price. The six facts-box keys hold the facts, a missing one as null. |
| Listing.ExtractRecord | scraper.py:46-69 | Extraction succeeds exactly when address, URL postal code, price and facts box all succeed. The record then has the eleven keys in order: "url" and "type" hold what it was given; "address", "postal_code" and "price" hold what the address, URL postal code and price extraction return; the six facts keys hold the facts box. |
| Listing.RecordKeysDistinct | scraper.py:55-60 | The stored keys are distinct. |
| Listing.RecordLookup | scraper.py:55-60 | Looking up the i-th stored key finds the i-th value: no earlier key shadows it. |
| Listing.RecordLookups | scraper.py:55-60 | Each of the eleven keys, looked up by name, finds the value stored under it. |
| Listing.AgencyListingsFail | scraper.py:310-311 | A listing forwarded to "home" always fails with NotImplementedError, whatever its URL, dwelling type and page. |
| Listing.ProcessListing | scraper.py:89-140 | Only a saved listing changes the stored data, and only in its own folder. Folders are only ever added, and only that folder. A saved record has the eleven keys, and is exactly what extraction gives for the URL, type and site that the gates passed and the page that was fetched. Consistency of disk and data is preserved. |
| Listing.SecondRunSkips | scraper.py:132-140 | Without overriding, processing a stored listing again skips it and leaves the disk unchanged. |
| Listing.SameGatesOtherStore | scraper.py:132-140 | The gates before the stored-data test do not read the disk. |
| Listing.OverrideIgnoresDisk | scraper.py:132 | With overriding on, the gate decision does not depend on what is stored. |
| Listing.ProcessAll | scraper.py:152-164 | Every tile gets an outcome, outcome `i` belonging to tile `i`: a saved outcome names the folder of its own tile, and that folder holds data at the end. Every folder at the end existed before or is the folder of some tile. Consistency is preserved, and no folder or stored record is ever lost. |
| Listing.FirstCrash | scraper.py:163-164 | No exception exactly when no listing crashed. Otherwise the exception is that of the first crashed listing in submission order: no listing before it crashed. |
| Text.DigitsOf | add_new_features.py:66 | Succeeds exactly when the text has a digit, with the number its digits form. |
| Features.PlanKey | add_new_features.py:62-80 | Failure is only ValueError. A label without `-` is read exactly when it has a digit, and then it is the single code its digits form. A label with `-` is read exactly when it splits into two parts and the first has a digit. |
| Features.PlanOfRange | add_new_features.py:63-75 | "A-B" with digits in both parts stands for every code from digits(A) to digits(B). |
| Features.PlanOfOpenRange | add_new_features.py:63-71 | "A-B" where B has no digits stands for the single code digits(A). |
| Features.OpenPlan | add_new_features.py:63-71 | A label that splits on `-` into a start with digits and an end without is the single code formed by all its digits. |
| Features.LabelTable | add_new_features.py:49-56 | The table's keys are exactly the labels of the file, each with its own value. |
| Features.AssignCodes | add_new_features.py:73-74 | Every code the plan covers takes the value; every other key keeps its entry. |
| Features.ExpandPostalKeys | add_new_features.py:62-82 | Fails with ValueError exactly when some label cannot be read. Otherwise no label key survives, and each code holds the value of the last label in file order that covers it. |
| Features.RekeyLabelsInOrder | add_new_features.py:62-80 | The loop stops at the first unreadable label, or after the last. Labels not yet done keep their values, and the codes hold what the done labels assigned. |
| Features.RekeyStep | add_new_features.py:62-80 | One pass replaces the current label by its codes and keeps the loop state. |
| Features.RekeyEnd | add_new_features.py:62-82 | Once every label is done, only code keys remain, each with the value of its last covering label. |
| Features.PriceFor | add_new_features.py:91 | The table's value for the record's code, or 0 when there is none. |
| Features.AddPostalAvgSqmPrice | add_new_features.py:85-93 | A record that has the feature comes back unchanged. Otherwise it succeeds exactly when the table loads and the record has "postal_code" and "address". The feature is then appended with the code's price, and every other key keeps its value. |
| Features.AddTwice | add_new_features.py:87-88 | Adding the feature to a record that has it changes nothing, whatever the table. |
| Splitter.Slice | splitter.py:70-82 | A slice with clamped bounds has the clamped length and the elements from the clamped start. |
| Splitter.SplitSets | splitter.py:69-85 | Train, test and validation laid end to end are the shuffled list. Train has `min(n_train, len)` folders; test has `n_test` of those left, or fewer. |
| Splitter.SetsDisjoint | splitter.py:69-85 | Distinct folder names land in at most one set. |
| Splitter.PartSizes | splitter.py:91-93 | `n = 0` fails with ZeroDivisionError and a negative `n` with IndexError. Otherwise there are `n` sizes summing to the count: all but the last are `count // n`, and the last is `count // n + count % n`, at most `count // n + n - 1`. |
| Splitter.RemoveFirst | splitter.py:105 | `list.remove` takes out one occurrence: the length drops by one and the multiset loses that element. |
| Splitter.FillPart | splitter.py:100-105 | A part receives its size in folders, and together with what is left they are exactly the folders before. |
| Splitter.DealParts | splitter.py:95-105 | Each part has its size, the train folder ends empty, and each folder occurs in the parts as often as in the train set. |
| Splitter.SplitTrain | splitter.py:89-105 | Fails exactly when `n <= 0`. Otherwise there are `n` parts, all but the last of size `len // n`, together holding exactly the train folders. |
| FolderTools.RemoveUnwanted | folder_tools.py:53-55 | The filter leaves the record restricted to the wanted keys, in the original order, so every key left is wanted. |
| FolderTools.FilterStep | folder_tools.py:53-55 | Popping each unwanted key in turn keeps the done part filtered and the rest untouched. |
| FolderTools.PopBehind | folder_tools.py:55 | `pop` of a key absent from the front part leaves the front part alone. |
| FolderTools.RetainGet | folder_tools.py:53-55 | A wanted key reads the same value after the filter, and any other key is gone. |
| FolderTools.RetainIdempotent | folder_tools.py:53-55 | Filtering twice is filtering once. |
| FolderTools.RemoveUnwantedTwice | folder_tools.py:44-58 | Running the tool on its own output changes nothing. Wanted keys keep their values and all other keys are gone. |
| FolderTools.RenamedFolder | folder_tools.py:38-40 | Every space becomes an underscore and every other character stays, so the name keeps its length and holds no space. A name without spaces is untouched. |
| FolderTools.RenameIdempotent | folder_tools.py:33-42 | Renaming a renamed folder keeps its name. |
| FolderTools.DropEmpty | folder_tools.py:28-30 | Exactly the entries that are not empty directories remain. |
| FolderTools.PruneKeepsFiles | folder_tools.py:24-31 | Pruning removes directories only: a tree holds a file exactly when its pruned form does. |
| FolderTools.PruneEmptiesIff | folder_tools.py:24-31 | A directory is left empty exactly when no file lies anywhere below it. Chains of nested empty directories disappear entirely, while the top directory stays. |
| FolderTools.PruneLeavesNoEmpty | folder_tools.py:24-31 | After pruning, no empty directory is left below the top. |
| FolderTools.PruneSettled | folder_tools.py:24-31 | A tree with no empty directory below the top is left as it is. |
| FolderTools.PruneIdempotent | folder_tools.py:24-31 | Removing empty folders a second time removes nothing. |
| Duplicates.Dedup | duplicate_checker.py:21-30 | The seen list holds each name once and exactly the names that occur. |
| Duplicates.DedupLength | duplicate_checker.py:21-30 | The seen list is as long as the names exactly when no name repeats. |
| Duplicates.DedupSnoc | duplicate_checker.py:25-30 | A new name is appended to the seen list and a seen one is not. A name repeats exactly when it was seen before. |
| Duplicates.ReportNotClosing | duplicate_checker.py:27-34 | A duplicate report is never the closing message. |
| Duplicates.ScanRepeat | duplicate_checker.py:25-27 | A repeated directory name is reported and sets the flag, keeping the scan state. |
| Duplicates.ScanNew | duplicate_checker.py:28-30 | A new directory name is appended to the seen list, keeping the scan state. |
| Duplicates.ScanFile | duplicate_checker.py:23 | An entry that is not a directory changes nothing. |
| Duplicates.CheckDuplicates | duplicate_checker.py:8-34 | The flag is set exactly when some directory name occurs twice, which is exactly when the seen list is shorter than the names. The seen list holds each name once, in first-occurrence order. The closing message is printed exactly when nothing was found. One report is printed per repeat. A listing with distinct names, which is what `os.listdir` gives, prints only the closing message. |
| Duplicates.DirNamesOfUnique | duplicate_checker.py:14-30 | When the listing has no repeated name, as `os.listdir` guarantees, the directory names are distinct, so the check never reports a duplicate. |
| Converter.Fields | converter.py:19 | One field per value, each the `str` of that value, in key order. |
| Converter.Lines | converter.py:16-19 | One line more than there are records: the first record's header, then each record's row in order. |
| Converter.Convert | converter.py:16-23 | An empty list fails with IndexError. Otherwise the text is the lines joined by newlines. |
| Converter.ConvertLines | converter.py:16-23 | When no key or value holds a newline, the file splits back into exactly the header and the rows, with no trailing line. |
| Converter.RowFields | converter.py:17-19 | When no key or value holds a comma, a row splits back into its values and a header into its keys. |
| Converter.CommaShiftsColumns | converter.py:19 | A value holding a comma adds a column: a one-key record yields a one-field header but a two-field row. |
| Coordinates.StreetWords | coordinates.py:37-41 | The words strictly before the first word with a digit, or all words when none has one. |
| Coordinates.FallbackAddress | coordinates.py:37-44 | The second address always ends in " 1". |
| Coordinates.FallbackOfStreet | coordinates.py:37-44 | For a street of digit-free words followed by a house number and more, the second address is the street followed by " 1". |
| Coordinates.StreetWordsStop | coordinates.py:38-41 | The scan keeps digit-free words and stops at the first word with a digit. |
| Coordinates.LatLng | coordinates.py:32 | Coordinates are found exactly when both "lat" and "lng" are present, and are their values. |
| Coordinates.GetCoordinates | coordinates.py:23-60 | A failed request gives (0, 0), and a complete first answer is returned. Otherwise the manual table decides when it holds the second address. Failing that, the second answer is used; a failed second request or a missing coordinate gives (0, 0). |
| Coordinates.Retry | coordinates.py:46-60 | The manual table decides when it holds the second address. Otherwise a failed second request gives (0, 0), and a complete second answer is returned. Any result other than (0, 0) outside the table is the second answer's coordinates. |
| Coordinates.ManualSkipsRetry | coordinates.py:46-47 | A second address found in the manual table needs no second request: the result does not depend on the service beyond the first answer. |
| Coordinates.RetryWithoutCoordinates | coordinates.py:52-56 | A second answer without "lat" or "lng" gives (0, 0). |

## Left out

- HTTP: the page and detail requests, image downloads and the geocoding service. Requests are parameters that answer with a value or a failure.
- HTML parsing: BeautifulSoup queries are replaced by the texts and class lists they yield. A missing node (an AttributeError on `None`) is not modelled, nor is a node that is not a tag, such as the text child `contents[3]` can be on the energy-label row, whose `.get` also raises AttributeError; the tile div is the one missing node the source tests.
- Threads: the thread pool of `scrape` and the threads of `add_new_features` run their items one after another here. Interleavings are not modelled.
- Filesystem side effects become values: mkdir, copytree, move, rmdir, rename and the JSON reads and writes. The write order and format of `data.json` (indent, ASCII escaping) are not modelled, nor is `clear_folder`. A folder name is one flat name: an address line holding `/` would make `joinpath` nest folders, and a leading `/` would leave the output folder, which the model does not represent.
- Listing.ExtractRecord: floor plan and image URLs (`_extract_floorplan`, `_extract_images`, `INCLUDE_IMAGES`) and their downloads are left out, because they only feed the image files.
- Floating point: the ratio tolerance check and `int(len * ratio)` of `split_data`, where the set sizes are taken as naturals; the pandas CSV load, NaN coercion and averaging of `_load_postal_avg_sqm_price`, where the table values are opaque. Manual coordinates keep their decimal text.
- Randomness: the shuffle is any order (the folders arrive shuffled), and `random.choice` is an arbitrary choice.
- `isdigit` accepts only ASCII digits. Python's `isdigit` also accepts every other Unicode digit character: decimal digits of other scripts, which `int()` reads, and characters such as the superscripts in "²³¹⁴", which `int()` rejects with ValueError. None of these is modelled, nor are underscores inside `int()` literals.
- Whitespace, `strip`, `split()` and `lower` are those of Latin-1, whereas Python's are Unicode-wide. Text with other Unicode spaces or letters can tokenise or lower-case differently in ExtractBoligType, the tile tokens of ExtractPostalCodePageWise and ExtractAddress.
- Printing: progress and error messages are not modelled, except the lines `check_duplicates` prints.
- Config loading at import time, `main.py` (argument dispatch) and `stylize.py` (image processing) are not part of this model.
- Coordinates: MANUAL_COORDINATES_FIRST is never read by the code and is not modelled. A service answer that is JSON but not an object is not modelled.
- JSON values are scalars; nested arrays and objects in a record are not modelled. Python's equality of `True` with `1`, and of a float such as `2000.0` with the int `2000`, in dictionary look-ups is not modelled: Features.PriceFor gives 0 for a postal code stored as a float, where `.get` would find the int key.
- FolderTools.RenamedFolder: the name transform only. Renaming onto an existing folder is not modelled.
- Listing.TileGates: has no printed skip for the ValueError path of lines 102-106. In this ASCII model the tile postal code fails only with IndexError, so the path is unreachable. In Python it is reached by a four-character token that `isdigit` accepts but `int()` rejects, such as "²³¹⁴"; that listing is then skipped.
- ScraperFields.ExtractPostalCodePageWise: its own contract gives only the error kind and the bound; the exact value is stated by ScraperFields.PageWiseOfWords for lines made of words joined by single spaces.
