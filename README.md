# Automação Canal PRO — verified model of the decision logic

Automação Canal PRO scrapes property listings from a real-estate site, stores
them, and publishes them as ads through a browser-driven form. Around the browser,
network and database calls sits a small amount of deterministic decision logic. This
project models that logic in Dafny and proves what it promises:

- **Executor** (`executor.dfy`, module `Executor`). This is the publishing automation:
  - the property-type and property-tax-period mappings;
  - the "switch" check: find the first matching selector, test whether the switch
    already looks active, click at most once;
  - the photo pipeline: download filter, file-extension inference, batches of
    eight, and the batch-upload loop with its sent-files counter;
  - the footer readiness check.

  The page is a value, a map from selector to matched elements. Browser actions
  are returned as data, never performed.
- **Publisher** (`publisher.dfy`, module `Publisher`):
  - the property-type and subtype tables;
  - subtype detection by keyword priority;
  - the completeness check of a listing record;
  - ad-title generation with its 100-character cut.
- **Database** (`database.dfy`, module `Database`). This is the broker-code pool, a
  class holding the code table:
  - the available-codes filter;
  - the in-place "mark used" update;
  - saving a publication, where the code is marked only after the update returns;
  - the statistics, which report the available-code count on both paths.
- **Scraper** (`scraper.dfy`, module `Scraper`):
  - property-type detection from the title;
  - price-text normalisation;
  - the property-tax period;
  - the city/state split of the location, including the case that raises;
  - the photo storage path;
  - the loop that reads rooms, suites, bathrooms, parking and area from the first
    eight detail texts.
- `text.dfy` (module `Text`) holds the Python string operations the code relies
  on: `in`, `lower`, `strip`, `split`, `join`, `replace`, `%03d` formatting. Each
  comes with the lemmas the other modules use. `wrappers.dfy` holds `Option`
  and `Result`.

## Model

| member | source | states |
|---|---|---|
| Executor.MapPropertyType | src/automation/canal_pro_test_executor.py:38-46 | The result is always one of the four form codes; a known type gets its own code; any other type gets APARTMENT's code. |
| Executor.PropertyTypeCodesInjective | src/automation/canal_pro_test_executor.py:40-45 | Distinct known types get distinct form codes. |
| Executor.MapIptuPeriod | src/automation/canal_pro_test_executor.py:48-56 | The result is MONTHLY or YEARLY, and MONTHLY exactly when a period is given and contains "Mensal" (even with "Anual"). |
| Executor.FirstMatch | src/automation/canal_pro_test_executor.py:66-75 | The selector used is the first one with at least one match; none exactly when no selector matches. |
| Executor.FirstMatchIs | src/automation/canal_pro_test_executor.py:66-75 | Any selector that matches, with no earlier one matching, is the one chosen. |
| Executor.SwitchClick | src/automation/canal_pro_test_executor.py:77-110 | A click, when there is one, is on the first element of one of the given selectors. |
| Executor.VerifySwitchState | src/automation/canal_pro_test_executor.py:58-120 | It always reports success. It makes at most one click, none when no selector matches, and clicks only an element that neither is checked nor has a class containing "active", "selected" or "checked". |
| Executor.InactiveClassLooksActive | src/automation/canal_pro_test_executor.py:95-103 | The class test works on substrings, so a switch with class "inactive" counts as already active and is not clicked. |
| Executor.SwitchCheckIdempotent | src/automation/canal_pro_test_executor.py:58-120 | Once the chosen element looks active, running the check again clicks nothing. |
| Executor.ExtensionFor | src/automation/canal_pro_test_executor.py:177-185 | The extension is .jpg, .png or .webp. On the lower-cased content type it is .jpg for jpeg/jpg, else .png for png, else .webp for webp, else .jpg. |
| Executor.ExtensionCaseInsensitive | src/automation/canal_pro_test_executor.py:177 | The extension does not depend on the case of the content type. |
| Executor.Downloads | src/automation/canal_pro_test_executor.py:162-197 | The kept files number at most the URLs. Each comes from a successful response of at least 1000 bytes and carries that response's extension. They are in strictly increasing URL order. |
| Executor.DownloadsComplete | src/automation/canal_pro_test_executor.py:171-192 | Every successful response of at least 1000 bytes is kept, so only failed or undersized responses are dropped. |
| Executor.DownloadsOrdered | src/automation/canal_pro_test_executor.py:162-192 | The kept list keeps the URL order between any two positions. |
| Executor.DownloadPhotos | src/automation/canal_pro_test_executor.py:160-197 | The download loop keeps exactly the files of the download specification. |
| Executor.Batches | src/automation/canal_pro_test_executor.py:218-219 | There are ⌈n/8⌉ batches, each non-empty with at most 8 files, and all but the last have exactly 8. |
| Executor.FlattenBatches | src/automation/canal_pro_test_executor.py:219 | Concatenating the batches gives back the downloaded list. |
| Executor.InputFor | src/automation/canal_pro_test_executor.py:252-277 | The input used is the first of the five file-input selectors whose last match is usable. |
| Executor.UploadBatch | src/automation/canal_pro_test_executor.py:252-277 | A batch goes to the last element of the first selector that yields an input, and nothing is sent when no selector does. |
| Executor.UploadedFrom | src/automation/canal_pro_test_executor.py:237-281 | The number of batches sent is the length of the leading run of page views that yield an input. |
| Executor.Uploads | src/automation/canal_pro_test_executor.py:237-277 | The k-th upload action assigns batch k to the input found on the k-th page view. |
| Executor.SizeOfFirst | src/automation/canal_pro_test_executor.py:234-270 | The counter after n batches is the number of files in those batches. |
| Executor.SendBatches | src/automation/canal_pro_test_executor.py:234-281 | The batch loop sends the leading batches up to the first one without an input, each to its page's input, and counts exactly their files. |
| Executor.SentAccounting | src/automation/canal_pro_test_executor.py:234-281 | The sent count never exceeds the downloaded count, and equals it exactly when every batch was sent. |
| Executor.UploadPhotos | src/automation/canal_pro_test_executor.py:148-331 | No URL: success with no action. No usable download: failure. Otherwise the downloads are batched and sent as above, and the result is success even on a partial upload, with sent ≤ downloaded. |
| Executor.TotalMatchesPositive | src/automation/canal_pro_test_executor.py:359-375 | The summed match count is positive exactly when some button selector matches. |
| Executor.CheckFooter | src/automation/canal_pro_test_executor.py:333-379 | After a scroll that returns, the count is the summed matches of the five button selectors. The result is true exactly when the scroll returned and one of the selectors matches. A scroll that raises (line 345, caught at lines 377-379) gives false. No action is produced, so nothing is clicked. |
| Publisher.OfferedSubtypesHaveCodes | src/publisher/helpers.py:7-30 | Every subtype offered for a property type has a form code. |
| Publisher.DetectSubtype | src/publisher/helpers.py:32-47 | The result is a key of the subtype table, chosen by the keyword priority duplex, triplex, cobertura, condomínio/condominio, vila, else Padrão, on the lower-cased title, a space, and the description. |
| Publisher.KeywordInTitle | src/publisher/helpers.py:34 | A keyword in the lower-cased title is seen in the combined text. |
| Publisher.KeywordInDescription | src/publisher/helpers.py:34 | A keyword in the lower-cased description is seen in the combined text. |
| Publisher.DuplexTitleWins | src/publisher/helpers.py:36-37 | "duplex" in the title gives Duplex whatever the description says. |
| Publisher.SubtypeMayNotFitType | src/publisher/helpers.py:7-47 | Detection ignores the property type: "Casa duplex" gives Duplex, which is not offered for Casa. |
| Publisher.MissingLabels | src/publisher/helpers.py:62-66 | There are at most as many labels as fields, and each is the label of some field. |
| Publisher.UnfilledReported | src/publisher/helpers.py:64-66 | An absent or falsy field's label is always reported. |
| Publisher.MissingLabelsDistinct | src/publisher/helpers.py:62-66 | With distinct field labels, no label is reported twice. |
| Publisher.MissingLabelsInOrder | src/publisher/helpers.py:62-66 | Two unfilled fields are reported in their declaration order. |
| Publisher.MissingLabelsExact | src/publisher/helpers.py:64-66 | A field's label is reported exactly when the field is absent or falsy. |
| Publisher.MissingLabelsEmpty | src/publisher/helpers.py:64-66 | Nothing is reported exactly when every field is present and truthy. |
| Publisher.PhotoCount | src/publisher/helpers.py:69 | The photo count is defined for a list, a string, a dict or an absent key; any other value raises. |
| Publisher.Validate | src/publisher/helpers.py:49-75 | It fails exactly when the photo count raises. Otherwise the missing list is the labels of absent or falsy required fields in declaration order, then "Mínimo 3 fotos" when there are fewer than 3 photos. The record is valid exactly when that list is empty. |
| Publisher.ValidIffComplete | src/publisher/helpers.py:64-75 | A record is valid exactly when all eight required fields are truthy and it has at least 3 photos. |
| Publisher.RequiredLabelReported | src/publisher/helpers.py:51-66 | Each required field's label is reported exactly when that field is absent or falsy. |
| Publisher.Truncate | src/publisher/helpers.py:99 | The cut is a prefix of at most n characters, and a short string is unchanged. |
| Publisher.GenerateTitle | src/publisher/helpers.py:81-99 | A type entry holding None raises. Otherwise the title is the type (default "Imóvel"), then the rooms, area and neighbourhood parts when truthy, space-joined and cut to 100 characters. |
| Publisher.JoinAppend | src/publisher/helpers.py:88-99 | Appending one part to the joined parts adds a space and that part. |
| Publisher.TitleBounded | src/publisher/helpers.py:99 | The title has at most 100 characters and is a prefix of the full title. |
| Publisher.TitleStartsWithType | src/publisher/helpers.py:88-99 | A type of at most 100 characters is a prefix of the title. |
| Publisher.TitleOfTypeOnly | src/publisher/helpers.py:88-99 | With no truthy rooms, area or neighbourhood, the title is the type alone (cut to 100). |
| Database.HaCodeInjective | src/utils/database.py:26-60 | Different numbers give different "HA" codes. |
| Database.HaBlockFacts | src/utils/database.py:26-60 | The 34 "HA" codes are unique, free and start with 'H'. |
| Database.InitialTableWellFormed | src/utils/database.py:19-66 | The initial table has 44 entries with unique codes. An entry is in use exactly when it has an ad date, and entries with an associated property are exactly those with a time of use. |
| Database.InitialAvailableCount | src/utils/database.py:19-98 | At start-up 38 codes are available. |
| Database.Available | src/utils/database.py:94-98 | The available list is no longer than the table. |
| Database.AvailableMembers | src/utils/database.py:98 | An entry is listed exactly when it is in the table and not in use. |
| Database.AvailableConcat | src/utils/database.py:98 | Filtering distributes over concatenation, so table order is kept. |
| Database.AvailableAround | src/utils/database.py:98 | The available list splits around any position of the table. |
| Database.BrokerCodePool.AvailableCodes | src/utils/database.py:94-98 | The available codes of the pool are the filter of its table. |
| Database.FirstIndexOf | src/utils/database.py:103-104 | The position found is the first entry with the code, and none exactly when no entry has it. |
| Database.MarkUnknown | src/utils/database.py:103-108 | Marking an unknown code leaves the table unchanged. |
| Database.MarkTouchesOneEntry | src/utils/database.py:103-108 | With unique codes, marking sets in-use, property and time on the entry holding the code, and every other entry is unchanged. |
| Database.MarkWellFormed | src/utils/database.py:100-108 | Marking preserves the table invariant. |
| Database.MarkShrinksAvailable | src/utils/database.py:94-108 | Marking an available code removes exactly that entry from the available list and keeps the rest in order. |
| Database.MarkAgainOverwrites | src/utils/database.py:103-108 | Marking the same code again keeps it in use, overwrites its property and time, and leaves the available list as it was. |
| Database.BrokerCodePool.MarkUsed | src/utils/database.py:100-108 | The loop marks the first entry with the code and stops, leaving the table as the marking specification says, with the invariant kept. |
| Database.BrokerCodePool.SavePublication | src/utils/database.py:110-137 | The request is built only with a configured client and both codes present (a missing key raises). The code is marked only after the update returns. The highlight flag is written as given, False when absent. Success means marked; any failure leaves the table untouched. A save whose code was free makes the available count drop by exactly one. |
| Database.BrokerCodePool.GetStatistics | src/utils/database.py:139-165 | The available-code count is reported on the success path and on the fallback path; the two row counts are 0 on the fallback. |
| Database.AvailableAfterInUse | src/utils/database.py:98 | Behind a run of entries in use, exactly the free entries are available. |
| Scraper.DetectType | src/scraper/gintervale_scraper.py:140-144 | Casa exactly when the lower-cased title contains "casa"; otherwise Terreno exactly when it contains "terreno"; otherwise Apartamento. |
| Scraper.DetectedTypeIsKnown | src/scraper/gintervale_scraper.py:140-144 | Every detected type has a form code in the executor's table and a subtype list in the publisher's. |
| Scraper.NormalizePriceSpec | src/scraper/gintervale_scraper.py:150 | The normalised price is trimmed and has no comma. Its dots are exactly the commas left after each non-overlapping "R$" is removed once; the thousands dots are gone. |
| Scraper.PriceChars | src/scraper/gintervale_scraper.py:150 | The character-wise reading of a price adds only dots. |
| Scraper.DotsThenCommas | src/scraper/gintervale_scraper.py:150 | Removing the dots and then turning the commas into dots is the character-wise reading. |
| Scraper.NormalizePriceExact | src/scraper/gintervale_scraper.py:150 | For figures without 'R' or white space, with or without a leading "R$ ", the normalised price is the character-wise reading: every digit is kept in order. |
| Scraper.NormalizePricePrefixed | src/scraper/gintervale_scraper.py:150 | A leading "R$ " is removed with its space. |
| Scraper.NormalizePriceExample | src/scraper/gintervale_scraper.py:150 | "R$ 1.234,56" normalises to "1234.56". |
| Scraper.IptuPeriod | src/scraper/gintervale_scraper.py:165-181 | The period is Mensal when the tax block is present, its value parsed and it says "Mensal". Otherwise it is Anual when the block says "Anual", and unset in every other case. |
| Scraper.IptuPeriodBilling | src/scraper/gintervale_scraper.py:176-181 | Feeding the scraped period to the executor's mapping gives MONTHLY exactly when the block said "Mensal". |
| Scraper.SplitLocation | src/scraper/gintervale_scraper.py:249-254 | It raises exactly when the location has '-' and '/' and the last '-' segment splits into more than two parts on '/'. A city/state result requires '-' in the location and '/' in that segment, and both parts are trimmed and free of '/'. |
| Scraper.CityState | src/scraper/gintervale_scraper.py:252-254 | The unpacking raises exactly when the segment splits into more than two parts on '/'. A result needs a '/' in the segment, and its city and state are trimmed and free of '/'. |
| Scraper.SplitLocationRoundTrip | src/scraper/gintervale_scraper.py:249-254 | "district - city/state" with a trimmed city and state (no '-' or '/') gives back that city and state. |
| Scraper.SplitLocationRaises | src/scraper/gintervale_scraper.py:252-254 | A last segment with two '/' makes the unpacking raise. |
| Scraper.StoragePathIndex | src/scraper/gintervale_scraper.py:36 | The file name has at least three digits and reads back as the index. |
| Scraper.StoragePathInjective | src/scraper/gintervale_scraper.py:36 | A code without '/' and the index are determined by the path. |
| Scraper.FindRun | src/scraper/gintervale_scraper.py:225-233 | A captured run is a non-empty run of the character class, and there is no capture when the text has no such character. |
| Scraper.FindRunLeftmost | src/scraper/gintervale_scraper.py:225-233 | For words that start with neither a class character nor white space, the capture is the leftmost maximal run followed by one of the words. |
| Scraper.FindRunFound | src/scraper/gintervale_scraper.py:225-233 | For such words, whenever a maximal run is followed by one of them, there is a capture. |
| Scraper.FindRunFollowed | src/scraper/gintervale_scraper.py:225-233 | The captured run occurs in the text and is followed (after white space) by one of the words. |
| Scraper.AreaText | src/scraper/gintervale_scraper.py:233-235 | There is an area text exactly when the search for a digits-and-commas run followed by "m²" captures one. The area text is that capture with its commas turned into dots, so it is non-empty and has no comma. |
| Scraper.ExtractDetails | src/scraper/gintervale_scraper.py:195-244 | The imperative loop computes exactly the figures of the loop specification: first eight texts, elif chain, and an end on a rejected area text. |
| Scraper.OnlyFirstEight | src/scraper/gintervale_scraper.py:197 | Texts after the eighth never influence the figures. |
| Scraper.StepTouchesChosen | src/scraper/gintervale_scraper.py:201-244 | One text changes at most the figure of the one branch it takes, and adds at most that category to the found set. |
| Scraper.ChosenIsNew | src/scraper/gintervale_scraper.py:201-232 | The branch taken is never that of a category already found. |
| Scraper.StepConsistent | src/scraper/gintervale_scraper.py:201-244 | A category is recorded as found exactly when its figure is set, before and after each text. |
| Scraper.FirstMatchWins | src/scraper/gintervale_scraper.py:195-244 | Over the whole loop a category once found keeps its figure. |
| Scraper.NoBathroomsFromSuite | src/scraper/gintervale_scraper.py:216-222 | A text mentioning "suíte" never sets the bathroom count. |
| Scraper.ParkingFromParkingWords | src/scraper/gintervale_scraper.py:225-229 | A parking count comes from the parking branch, from a text with "vaga" or "garagem", and is the number the parking search reads. |
| Scraper.ParkingNumberFollowed | src/scraper/gintervale_scraper.py:226 | The parking number is a run of digits followed by "vaga", "vagas" or "garagem". |
| Scraper.AreaSources | src/scraper/gintervale_scraper.py:232-244 | The area changes only from a text with "m²" and "útil" or "total", and only while no area was set. |
| Text.LowerIdempotent | src/publisher/helpers.py:34 | Lower-casing twice is lower-casing once. |
| Text.JoinSplit | src/scraper/gintervale_scraper.py:251-254 | Joining the pieces of a split with the separator gives the string back. |
| Text.OccurrencesReplaceChar | src/scraper/gintervale_scraper.py:150 | Replacing a character by a string: each occurrence contributes the occurrences in the replacement and other characters are kept. |
| Text.ParseZeroPad | src/scraper/gintervale_scraper.py:36 | Zero-padding keeps the value of the number. |

## Left out

- Browser driving is not modelled: login, navigation, waits, sleeps, scrolling,
  screenshots and the observation pause. The one scroll whose failure changes a
  result, in the footer check, is a parameter of Executor.CheckFooter. The page is an input value, and each
  batch sees its own snapshot of the page.
- The form-filling steps of the test run (`preencher_campo_simples` and
  `executar_teste`) are outside the modelled decision logic.
- No network I/O is modelled. Each photo download is given as a success flag,
  a byte length and a content type.
- Temporary files are represented by their URL position and extension. Their
  writing and deletion are not modelled. They are deleted only on the normal path
  (lines 306-313 of the executor), not in a `finally` block, and the exception
  path at lines 329-331 leaves them behind, so the model makes no cleanup claim.
- The preview count after the upload (lines 283-304 of the executor) is not
  modelled. It only feeds log lines and never changes the result.
- The switch check reads only the element's own checked state and class
  attribute. It does not look up an associated label input, so the model does
  not either.
- The footer check only counts matching buttons. It scrolls but injects no
  control into the page, and the model has no injection step.
- Executor.UploadPhotos: the exception path of the batch loop is not modelled.
  Only the first scroll (line 208) and the per-selector lookup and upload (lines
  252-277) are wrapped in their own `try`. The re-scroll before every batch after
  the first (line 248) is not: if it raises, the outer `except` at line 329
  returns False, even after earlier batches were sent. The model always scrolls
  successfully, so it never takes that path.
- Database calls are not modelled: storage `list`/`upload`, table
  `select`/`insert`/`update`, `create_or_update_anuncio` and `check_connection`.
  Their outcomes are parameters: whether the client is configured, whether the
  update succeeded, and what a count query returned.
- Clock readings (`datetime.now()`) are parameters of type `Instant`.
- Floating point is not modelled:
  - `formatar_preco`;
  - the `float` parses of price, condominium fee, property tax and area in the
    scraper;
  - `int(preco)` in the executor.

  For the scraper's area, `float` acceptance is a predicate on the captured text
  (at most one dot and not only a dot), and the area is kept as that text.
- Publisher.GenerateTitle: the type is taken as a string, and the room count and
  area as integers. A truthy non-string type, which makes the final `" ".join`
  raise a TypeError (line 98 of the helpers), is not modelled, nor is a
  fractional area (truthy but truncated by `int`).
- The condominium fee uses the same normalisation as the price, so it has no
  separate member.
- The photo loop of the scraper (lines 256-277) is not modelled beyond the
  storage path. Its uploads are network calls, and the existence check in
  `upload_image` is a storage listing.
- Strings are not full Unicode:
  - lower-casing covers ASCII and the Latin-1 accented capitals;
  - white space for `strip` and `\s` is Python's `str.isspace` set: the ASCII
    white space (tab to carriage return and the space), U+001C-U+001F, U+0085,
    U+00A0, U+1680, U+2000-U+200A, U+2028, U+2029, U+202F, U+205F and U+3000;
  - `\d` covers only the ASCII digits.
- Publisher.Value has no float case. A record field holding a float is not
  representable. Lists, strings and dicts are; `len` of a dict counts its keys.
- Database.BrokerCodePool.SavePublication: the publication's broker code,
  property code, ad id and grade are taken as strings. Only the highlight flag
  is a general value, which is written as given (False when absent). A
  non-string code, which the source would pass on to the update and then fail to
  match in the code table, is not modelled.
- The Streamlit UI, the logging helpers and the standalone browser and storage
  scripts are not part of this model.
