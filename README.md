# Dolphin WiiUtils: WAD installs and online system updates

This project models `WiiUtils`, the part of the Dolphin emulator that puts
titles into the emulated Wii's NAND through the secure title store (ES):

- **InstallWAD** imports a WAD file. It imports the ticket and initialises
  the title import. When a signature check fails, it may ask whether to
  continue with checks off. It then imports every content and finalises
  the import. It reports success whenever the finalising call succeeds.
  That includes a Cancel after a content failed to import, and the model
  keeps this (`Wad.FinishImportFinalizesOnce`).
- **The online system updater** asks the update catalog (a SOAP service)
  which system titles the console should have. It then installs each
  title from the content server in catalog order. A title is skipped only
  when the console already holds it at the catalog version or later with
  all of its contents stored; a missing content makes the updater install
  the title again, even at the same or a newer version. The IOS a
  title's TMD requires is installed first, and contents already stored
  are skipped. Progress is reported to a callback that may cancel the
  update.

The store is a value `Es.State`:

- the host's signature-check setting;
- the installed TMDs;
- the content ids stored per title;
- the open import context;
- a script of verdicts for the store's mutating calls;
- a trace of everything the engine did, in order. The trace records:
  - store calls with their return codes;
  - HTTP GETs;
  - the catalog POST;
  - dialog answers;
  - progress reports;
  - cache flushes.

The class `Es.Host` holds such a state. Its methods change it exactly as
the `Es*` functions describe.

The engine is written twice:

- As pure functions: `Wad.InstallWadSpec`, `Nus.InstallTitle`,
  `Update.DoOnlineUpdateSpec` and `Update.OnlineUpdate`. The properties are
  proved about these, as lemmas.
- As methods that run against a `Host`: `Wad.InstallWad`, the class
  `Updater.OnlineSystemUpdater` and `Updater.DoOnlineUpdate`. Each method
  ensures that its return value and the host's new state are what the
  function of the same name gives. So every lemma about the function
  holds of the method.

The world outside the store is an `Nus.Env`:

- the content server's answers, as a map from URL to body;
- the parsed catalog answers, keyed by device id and region;
- the TMD reader;
- the store's device id.

## Model

| member | source | states |
|---|---|---|
| Format.HexRoundTrip | Source/Core/Core/WiiUtils.cpp:487 | a value below 16^n written as n lower-case hex digits (`%016x`, `%08x`) parses back to itself |
| Format.HexFixedInjective | Source/Core/Core/WiiUtils.cpp:470 | two values that fit the width and render alike are equal |
| Format.Hex16 | Source/Core/Core/WiiUtils.cpp:444-445 | the `%016` rendering of a 64-bit id has 16 hex digits and parses back to the id |
| Format.Hex8 | Source/Core/Core/WiiUtils.cpp:487 | the `%08x` rendering of a 32-bit content id has 8 hex digits and parses back to the id |
| Format.DecimalRoundTrip | Source/Core/Core/WiiUtils.cpp:144 | the `PRIu64` decimal rendering parses back to the value |
| Format.DecimalLength | Source/Core/Core/WiiUtils.cpp:144 | a decimal rendering has n digits exactly when 10^(n-1) <= x < 10^n |
| Catalog.GetDeviceRegion | Source/Core/Core/WiiUtils.cpp:121-137 | empty exactly when no System Menu is installed; otherwise one of JPN/USA/EUR/KOR, and EUR for an unknown region |
| Catalog.RegionTableInjective | Source/Core/Core/WiiUtils.cpp:127-132 | distinct regions map to distinct names, except PAL and unknown, which both give EUR |
| Catalog.GetDeviceId | Source/Core/Core/WiiUtils.cpp:139-145 | empty exactly when the store reports no id; otherwise ten decimal digits whose value is 2^32 + id |
| Catalog.RequestRegion | Source/Core/Core/WiiUtils.cpp:267 | a requested region is used as given. With none requested the result is one of JPN/USA/EUR/KOR, or empty exactly when no System Menu is installed |
| Catalog.DowngradeScheme | Source/Core/Core/WiiUtils.cpp:223 | the rewritten URL is no longer than the original and is empty exactly when the original is |
| Catalog.DowngradeKeepsPlain | Source/Core/Core/WiiUtils.cpp:223 | a URL without `https://` comes back unchanged |
| Catalog.DowngradeFirst | Source/Core/Core/WiiUtils.cpp:223 | ReplaceAll's find-and-resume rule: when the first `https://` comes right after a prefix a, the result is a unchanged, then `http://`, then the rewrite of what follows that occurrence. With DowngradeKeepsPlain this fixes the result of every input, so each `https://` becomes `http://` and nothing else changes |
| Catalog.DowngradeRemovesHttps | Source/Core/Core/WiiUtils.cpp:223 | after replacing every `https://` by `http://`, no `https://` occurs anywhere |
| Catalog.ParseTitlesResponseMeaning | Source/Core/Core/WiiUtils.cpp:192-237 | states `ParseTitlesResponse`: a missing node, a non-zero error code or an empty prefix give the empty response. Otherwise the prefix is downgraded and each TitleVersion gives one entry, in order: the id parsed as hex, the version truncated to 16 bits. A non-empty title list implies error code 0 and a non-empty prefix. The prefix never holds `https://` |
| Es.FindInstalledTmd | Source/Core/Core/WiiUtils.cpp:150 | a TMD is found exactly when the title is installed |
| Es.GetStoredContents | Source/Core/Core/WiiUtils.cpp:388 | holds exactly the TMD's contents whose ids the store holds for that title |
| Es.PresentAll | Source/Core/Core/WiiUtils.cpp:152 | the stored contents number as many as the TMD's exactly when every content is stored |
| Es.UpToDateMeaning | Source/Core/Core/WiiUtils.cpp:147-153 | `ShouldInstallTitle` is false for a title exactly when it is installed at the catalog version or later with all its contents stored |
| Es.EsImportTicket | Source/Core/Core/WiiUtils.cpp:57 | records the ticket import with the current check setting and its code; changes nothing else |
| Es.EsImportTitleInit | Source/Core/Core/WiiUtils.cpp:58 | records the call; an import context for the TMD is opened exactly when the code is non-negative |
| Es.EsImportContentBegin | Source/Core/Core/WiiUtils.cpp:79 | records the call; a content is opened exactly when the code is non-negative |
| Es.EsImportContentData | Source/Core/Core/WiiUtils.cpp:80 | records the call; the content stays open |
| Es.EsImportContentEnd | Source/Core/Core/WiiUtils.cpp:81 | records the call; the content is closed exactly when the code is non-negative |
| Es.EsImportTitleDone | Source/Core/Core/WiiUtils.cpp:90 | closes the context. On success the TMD is installed and the imported ids are added to the stored ones; on failure the store is unchanged |
| Es.EsImportTitleCancel | Source/Core/Core/WiiUtils.cpp:91 | closes the context and leaves installed titles and stored contents unchanged |
| Es.FinalizeImport | Source/Core/Core/WiiUtils.cpp:90-91 | Done when the contents were imported, else Cancel. Only a successful Done changes the store: it installs the TMD and stores its imported contents |
| Es.Host.ImportTicket | Source/Core/Core/WiiUtils.cpp:57 | the host's state and result are those of `EsImportTicket` |
| Es.Host.ImportTitleInit | Source/Core/Core/WiiUtils.cpp:58 | the host's state and result are those of `EsImportTitleInit` |
| Es.Host.ImportContentBegin | Source/Core/Core/WiiUtils.cpp:79 | the host's state and result are those of `EsImportContentBegin` |
| Es.Host.ImportContentData | Source/Core/Core/WiiUtils.cpp:80 | the host's state and result are those of `EsImportContentData` |
| Es.Host.ImportContentEnd | Source/Core/Core/WiiUtils.cpp:81 | the host's state and result are those of `EsImportContentEnd` |
| Es.Host.ImportTitleDone | Source/Core/Core/WiiUtils.cpp:90 | the host's state and result are those of `EsImportTitleDone` |
| Es.Host.ImportTitleCancel | Source/Core/Core/WiiUtils.cpp:91 | the host's state and result are those of `EsImportTitleCancel` |
| Es.Host.SetSignatureChecks | Source/Core/Core/WiiUtils.cpp:63 | sets the check flag and nothing else |
| Es.Host.Get | Source/Core/Core/WiiUtils.cpp:471 | records the GET; data comes back exactly when the server has the URL |
| Wad.InitAttempt | Source/Core/Core/WiiUtils.cpp:57-58 | one or two import calls made with the current check setting. The last call's code decides. A context for the WAD's TMD is open exactly when that code is non-negative |
| Wad.InitLoop | Source/Core/Core/WiiUtils.cpp:56-71 | the retry loop leaves a fresh idle context for the WAD's TMD exactly when it reports success; installed titles and stored contents are unchanged |
| Wad.InitLoopPrompts | Source/Core/Core/WiiUtils.cpp:57-65 | the loop makes only import calls and prompts. A prompt happens only when checks were enabled, right after an import rejected with the check-value error |
| Wad.InitLoopConsent | Source/Core/Core/WiiUtils.cpp:56-71 | an import with checks off happens only when checks were off at entry, or after a yes answer |
| Wad.ImportOne | Source/Core/Core/WiiUtils.cpp:75-85 | one content: Begin first, then only content calls. On success the id is appended to the imported ones and the context is idle; on failure the last call was rejected |
| Wad.ImportContents | Source/Core/Core/WiiUtils.cpp:73-88 | the content lambda keeps the context open and idle on success, and leaves the store untouched |
| Wad.ImportContentsCalls | Source/Core/Core/WiiUtils.cpp:73-88 | the lambda makes only content calls, and a failure ends with a rejected call |
| Wad.ImportContentsAll | Source/Core/Core/WiiUtils.cpp:73-88 | on success every content of the list was imported, in order |
| Wad.FinishImport | Source/Core/Core/WiiUtils.cpp:73-98 | the contents and finalisation leave no context open and keep the check setting |
| Wad.FinishImportFinalizesOnce | Source/Core/Core/WiiUtils.cpp:90-98 | exactly one finalisation. It is Done exactly when all contents were imported. The result is true exactly when the finalisation succeeded, and exactly when the cache was flushed |
| Wad.FinishImportInstalls | Source/Core/Core/WiiUtils.cpp:73-98 | when all contents were imported and Done succeeded, the TMD is installed and its contents stored; otherwise the store is unchanged |
| Wad.FinishImportEvents | Source/Core/Core/WiiUtils.cpp:73-98 | after the init only content calls, a finalisation and the cache flush occur |
| Wad.InstallWadSpec | Source/Core/Core/WiiUtils.cpp:41-99 | the whole install restores the check setting, leaves no context open and only appends to the trace |
| Wad.InstallWadOutcome | Source/Core/Core/WiiUtils.cpp:41-99 | an invalid WAD changes nothing and returns false. There is one finalisation exactly when the init loop succeeded. True is returned exactly when the cache was flushed. The installed titles are unchanged, or (on success) gain the WAD's TMD |
| Wad.InstallWadConsent | Source/Core/Core/WiiUtils.cpp:56-71 | no import runs with signature checks off unless they were off at entry or the user said yes |
| Wad.InstallWad | Source/Core/Core/WiiUtils.cpp:41-99 | the method's result and the host's new state are those of `InstallWadSpec` |
| Wad.FinishImportOn | Source/Core/Core/WiiUtils.cpp:73-98 | the method's result and the host's new state are those of `FinishImport` |
| Download.TicketUrlDecodes | Source/Core/Core/WiiUtils.cpp:470 | `TicketUrl` is the prefix, `/`, the 16-digit hex id that parses back to the title id, and `/cetk` |
| Download.TmdUrlDecodes | Source/Core/Core/WiiUtils.cpp:442-445 | `TmdUrl` is the prefix, the 16-digit hex id and `/tmd`, followed by `.` and the decimal version exactly when the version is non-zero |
| Download.ContentUrlDecodes | Source/Core/Core/WiiUtils.cpp:487 | `ContentUrl` is the prefix, the 16-digit hex title id and the 8-digit hex content id, each decodable back |
| Download.ContentUrlInjective | Source/Core/Core/WiiUtils.cpp:487 | distinct content ids of one title give distinct URLs |
| Download.UrlsDistinct | Source/Core/Core/WiiUtils.cpp:442-487 | for one title the ticket, TMD and content URLs are pairwise different |
| Download.SplitTicket | Source/Core/Core/WiiUtils.cpp:467-482 | both parts are non-empty exactly when the response is longer than a ticket. The ticket is then the first 0x2a4 bytes, with the chain after it |
| Download.SplitTmd | Source/Core/Core/WiiUtils.cpp:446-464 | a split exists exactly when the response is longer than both the header and the size the header claims. The TMD then has that size, the rest is a non-empty chain, and the two make up the response |
| Download.SplitTmdSelfConsistent | Source/Core/Core/WiiUtils.cpp:453-456 | a TMD that was split off is as long as its own header plus 0x24 bytes per content it declares |
| Nus.DownloadTicketSpec | Source/Core/Core/WiiUtils.cpp:467-482 | one GET of the ticket URL. Ticket and chain are both non-empty exactly when the server answered with more than 0x2a4 bytes; the ticket is then 0x2a4 bytes and the two make up the answer |
| Nus.DownloadTmdSpec | Source/Core/Core/WiiUtils.cpp:439-465 | one GET of the TMD URL. A split comes back exactly when the server answered with more bytes than the header and than the size the header claims; the TMD then has that size and the two parts make up the answer |
| Nus.DownloadContentSpec | Source/Core/Core/WiiUtils.cpp:484-489 | one GET of the content URL; data exactly when the server has it, and then the server's bytes for that URL |
| Nus.Missing | Source/Core/Core/WiiUtils.cpp:390-399 | the contents the loop fetches are those of the TMD whose id is not among the stored ones |
| Nus.FetchOne | Source/Core/Core/WiiUtils.cpp:401-419 | fetching one content ends Succeeded, ImportFailed or DownloadFailed. On success the id is appended to the imported ones and the context is idle. The store is untouched |
| Nus.FetchOneTrace | Source/Core/Core/WiiUtils.cpp:401-419 | the fetch runs Begin, GET, Data, End in order, each step only after the previous one succeeded. The result is DownloadFailed exactly when the GET found nothing, and ImportFailed exactly when a store call was rejected |
| Nus.ContentLoop | Source/Core/Core/WiiUtils.cpp:389-422 | the content lambda keeps the context open, leaves the store untouched and only appends to the trace |
| Nus.ContentLoopCalls | Source/Core/Core/WiiUtils.cpp:389-422 | every event of the loop follows the fetch order for this title |
| Nus.ContentLoopBegins | Source/Core/Core/WiiUtils.cpp:389-422 | the contents begun are, in order, a prefix of the missing ones, and all of them when the loop succeeds |
| Nus.ContentLoopGets | Source/Core/Core/WiiUtils.cpp:389-422 | a successful loop downloads exactly the missing contents' URLs, in order |
| Nus.ContentLoopStop | Source/Core/Core/WiiUtils.cpp:389-422 | a failed loop ends with its failure: a GET the server could not answer, or a rejected content call |
| Nus.ContentLoopImports | Source/Core/Core/WiiUtils.cpp:389-422 | a successful loop imported exactly the missing contents' ids, in order |
| Nus.ImportFromTmd | Source/Core/Core/WiiUtils.cpp:379-436 | the import closes its context and keeps the check setting. The title joins the updated set exactly when the import succeeded |
| Nus.ImportFromTmdFinalizes | Source/Core/Core/WiiUtils.cpp:379-436 | the import begins with ImportTitleInit for the TMD. If that is rejected, nothing else happens. Otherwise the last event is the one finalisation |
| Nus.ImportFromTmdResult | Source/Core/Core/WiiUtils.cpp:379-436 | Succeeded exactly when the last call is a successful Done. A rejected finalisation gives ImportFailed. After a successful Cancel, the result is the failure that stopped the loop |
| Nus.ImportFromTmdStore | Source/Core/Core/WiiUtils.cpp:379-436 | on success the TMD is installed, and the title the downloaded TMD names, at the TMD's own version, no longer needs installing; otherwise the store is unchanged |
| Nus.ImportFromTmdUpToDate | Source/Core/Core/WiiUtils.cpp:379-436 | when the downloaded TMD names the catalog title at the catalog version or later, a successful import leaves that catalog title up to date and in the updated set |
| Nus.TicketStep | Source/Core/Core/WiiUtils.cpp:338-353 | the ticket step leaves installed titles, stored contents and the check setting unchanged |
| Nus.InstallTitle | Source/Core/Core/WiiUtils.cpp:325-437 | an install ends Succeeded, ImportFailed or DownloadFailed with no context open. It only grows the trace, the installed titles and the updated set, and makes only store calls and GETs. BOOT2, an up-to-date title and an already updated title (`Skipped`) leave everything unchanged |
| Nus.InstallWithTmd | Source/Core/Core/WiiUtils.cpp:363-436 | the steps after the TMD download keep the same invariants as a whole install |
| Nus.RequireIos | Source/Core/Core/WiiUtils.cpp:363-377 | an IOS that is not needed (`NeedsIos` false: zero, not a system title, or installed) changes nothing. A needed IOS with no depth left fails the import |
| Nus.InstallTitleSteps | Source/Core/Core/WiiUtils.cpp:338-361 | an install that is not skipped first GETs the ticket, then imports it only if it downloaded, then GETs the TMD only if the import was accepted |
| Nus.InstallTitleUpdated | Source/Core/Core/WiiUtils.cpp:325-437 | a successful install either was skipped or put the title in the updated set |
| Nus.RequireIosSatisfied | Source/Core/Core/WiiUtils.cpp:363-377 | after a successful dependency step, the IOS was not needed, is BOOT2, or was updated |
| Nus.InstallWithTmdOrder | Source/Core/Core/WiiUtils.cpp:363-385 | the dependency runs before the import. A failed dependency ends the install with its result. Otherwise the next event is ImportTitleInit for this TMD, and the IOS is present or updated |
| Update.GetSystemTitles | Source/Core/Core/WiiUtils.cpp:254-288 | posts exactly one catalog request and changes nothing else |
| Update.GetSystemTitlesMeaning | Source/Core/Core/WiiUtils.cpp:254-288 | the request (`CatalogRequest`) carries an empty device id exactly when the store has none. It carries the requested region, or the device region, which is empty exactly when no System Menu is installed. A failed request gives the empty response. Titles come back only from an error-free catalog answer with a prefix |
| Update.FromNus | Source/Core/Core/WiiUtils.cpp:306 | the installer the loop calls satisfies every invariant of `InstallTitle` |
| Update.UpdateLoop | Source/Core/Core/WiiUtils.cpp:299-322 | the loop ends with no context open and grows the store and updated set. Succeeded implies something was updated; AlreadyUpToDate implies nothing was |
| Update.UpdateLoopReports | Source/Core/Core/WiiUtils.cpp:301-314 | a loop that completes reports, for each title in order, `processed` before its install and `processed + 1` after it |
| Update.UpdateLoopStops | Source/Core/Core/WiiUtils.cpp:301-314 | a loop that stops does so at some title k. Every earlier title was reported twice and title k once. The result is Cancelled exactly when the callback refused title k |
| Update.UpdateLoopStopsAt | Source/Core/Core/WiiUtils.cpp:301-314 | a loop that stops does so at some title k after a run of successful installs. Titles before k were reported twice, k once, and that report is the last event. If the callback refused k the result is Cancelled with the state reached at that report; otherwise the result and state are those of installing k from that state, which did not succeed |
| Update.UpdateLoopNothingToDo | Source/Core/Core/WiiUtils.cpp:299-322 | when every remaining title is skipped and the callback agrees, the loop only adds the progress reports. It returns AlreadyUpToDate exactly when nothing was updated before |
| Update.DoOnlineUpdateSpec | Source/Core/Core/WiiUtils.cpp:290-323 | the update leaves no import context open |
| Update.DoOnlineUpdateOutcome | Source/Core/Core/WiiUtils.cpp:290-323 | the catalog request comes first. ServerFailed is returned exactly when no titles came back, and then nothing else happens. Succeeded means something was updated; AlreadyUpToDate means nothing was. The check setting and the installed titles are kept |
| Update.DoOnlineUpdateUpToDate | Source/Core/Core/WiiUtils.cpp:290-323 | when every catalog title is already up to date and the callback agrees, the update returns AlreadyUpToDate and only adds progress reports |
| Update.OnlineUpdate | Source/Core/Core/WiiUtils.cpp:491-497 | the free function leaves no context open |
| Update.OnlineUpdateClears | Source/Core/Core/WiiUtils.cpp:491-497 | returns the updater's result with its installed titles and stored contents. The cache is flushed exactly once in the run, as its last event |
| Update.UpdateLoopRun | Source/Core/Core/WiiUtils.cpp:299-322 | the loop adds only store calls, GETs and progress reports to the trace |
| Updater.OnlineSystemUpdater.constructor | Source/Core/Core/WiiUtils.cpp:187-190 | the updater holds the callback and requested region it was given |
| Updater.OnlineSystemUpdater.DownloadTicket | Source/Core/Core/WiiUtils.cpp:467-482 | result and host state are those of `DownloadTicketSpec` |
| Updater.OnlineSystemUpdater.DownloadTmd | Source/Core/Core/WiiUtils.cpp:439-465 | result and host state are those of `DownloadTmdSpec` |
| Updater.OnlineSystemUpdater.DownloadContent | Source/Core/Core/WiiUtils.cpp:484-489 | result and host state are those of `DownloadContentSpec` |
| Updater.OnlineSystemUpdater.InstallTitleFromNus | Source/Core/Core/WiiUtils.cpp:325-361 | result, updated set and host state are those of `Nus.InstallTitle` |
| Updater.OnlineSystemUpdater.InstallWithTmd | Source/Core/Core/WiiUtils.cpp:363-436 | result, updated set and host state are those of `Nus.InstallWithTmd` |
| Updater.OnlineSystemUpdater.RequireIos | Source/Core/Core/WiiUtils.cpp:363-377 | an IOS that is not needed changes nothing. A needed IOS without depth fails. Otherwise the IOS is installed at version 0 as `Nus.InstallTitle` describes |
| Updater.OnlineSystemUpdater.ImportTitle | Source/Core/Core/WiiUtils.cpp:379-436 | result, updated set and host state are those of `Nus.ImportFromTmd` |
| Updater.OnlineSystemUpdater.ImportContents | Source/Core/Core/WiiUtils.cpp:389-422 | result and host state are those of `Nus.ContentLoop` |
| Updater.OnlineSystemUpdater.GetSystemTitles | Source/Core/Core/WiiUtils.cpp:254-288 | response and host state are those of `Update.GetSystemTitles` |
| Updater.OnlineSystemUpdater.DoOnlineUpdate | Source/Core/Core/WiiUtils.cpp:290-323 | result and host state are those of `Update.DoOnlineUpdateSpec` |
| Updater.DoOnlineUpdate | Source/Core/Core/WiiUtils.cpp:491-497 | result and host state are those of `Update.OnlineUpdate` |

## Left out

- User interface:
  - Message boxes and log output are not modelled.
  - The yes/no dialog of InstallWAD is a script of answers; an exhausted script answers no.
  - The dialog's text is not modelled.
  - The widget that relays the update dialog is not part of this model.
- Inside the store:
  - ES signature and certificate verification are not modelled. Each mutating store call takes its return code from a script of verdicts, and an exhausted script answers success.
  - Import contexts, the kernel object and the TMD byte format are not modelled. The TMD reader is an abstract function from bytes to the fields the engine reads.
  - Whether a downloaded TMD is valid is judged only by the size checks of DownloadTMD.
- HTTP and SOAP:
  - HTTP transport, headers and the three-minute timeout are not modelled. The content server is a map from URL to body, and a missing URL is a failed request.
  - The catalog request's XML text and the XML parser are not modelled. The catalog is a map from (device id, region) to the parsed response node, and a missing key is a failed request or a document without the response node.
- Update.GetSystemTitles: title ids are assumed to be plain hex digits below 2^64 (`Catalog.ParsableTitleId`, required through `Update.ParsableCatalog`). `std::stoull` with base 16 also accepts leading blanks, a sign, a `0x` prefix and trailing text that is not hex, parsing the longest hex prefix (a `-` sign wraps the value). It throws only when there are no digits or the value overflows. Those inputs and the exception are not modelled.
- The update callback:
  - It is a pure function of (processed, total, title id), which is what the loop passes it.
  - The result of the callback after each install is ignored by the source and by the model.
  - Each call is recorded in the trace as a progress report.
- ClearCache of the NAND content manager is recorded as an event. The cache itself is not modelled.
- The store's device id is a field of the environment (`None` when the store cannot report one).
- Updater.OnlineSystemUpdater.InstallTitleFromNus: the dependency recursion is bounded by a depth. A required IOS with no depth left fails the import with ImportFailed. The source has no bound, and a TMD chain that requires itself would recurse without end there.
- Update.FromNus: the loop never hands the installer a state with an import open. The installer answers ImportFailed there only to be total.
- The ES constants come from headers that are not part of this model: the ticket size 0x2a4, the TMD header size 0x1e4, the content record size 0x24, the content count offset 0x1de, IOSC_FAIL_CHECKVALUE -2011, and the BOOT2 and System Menu title ids.
- InstallTitleFromNUS is one function in the source. Here it is five methods: the ticket and TMD steps, the dependency step, the import, and the content lambda, each proved against the function of the same name.
- Nus.ImportFromTmdUpToDate: it holds only when the downloaded TMD names the catalog title at the catalog version or later. The TMD reader is unconstrained, and the source does not compare the TMD with the catalog entry.
- Nus.TicketStep and Nus.InstallWithTmd: their own contracts state only the invariants. Their event order is stated by Nus.InstallTitleSteps and Nus.InstallWithTmdOrder.
- Update.DoOnlineUpdateSpec and Update.OnlineUpdate: their own contracts state only that no context stays open. What they return is stated by Update.DoOnlineUpdateOutcome, Update.DoOnlineUpdateUpToDate and Update.OnlineUpdateClears.
