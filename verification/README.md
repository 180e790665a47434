# Job tracker — a verified model of its core rules

The job tracker keeps a user's job applications: a Spring back end stores
applications, their status history and user accounts, and a React front end
lists, searches and pages through them and draws monthly statistics. This
project models the parts of both that carry real logic and proves what they
promise.

- **Back end.**
  - `JobApplications` models the application controller as a class. Its fields are an in-memory applications table (id to record and owner), a status history that only grows, and the next identity value. Every handler validates the request body, then resolves the current user, then checks ownership. The class invariant `Consistent` says that each stored application's last history entry is its current status, and that the history is a chain of real transitions. Every state-changing handler preserves it.
  - `Accounts` models the account service as a class over a users table keyed by e-mail address, with the password encoder's `encode`/`matches` pair as constructor parameters. `AccountRules` states the same rules as functions: e-mail normalisation, the registered row, and the outcome of a profile update.
  - `UserEntity` models the user entity's `prePersist` and `preUpdate` callbacks, both as methods on a `User` class and as the functions that specify them.
  - `JwtFilter` models token extraction (a bearer header, else the first cookie with the configured name) and the control flow of the authentication filter. JWT parsing and validation are a parameter.
- **Front end.**
  - `Pagination`: the page-number bar with ellipses, and the previous/next/after-delete page clamps.
  - `DateFormat`: `formatDateBR`, `todayISO` and `safeISODate`, with today's date given as a parameter.
  - `CompanyLogos`: `unique`, company-name to candidate-domain inference, and the logo-provider URLs.
  - `Search`: the company/role search filter.
  - `Toasts`: the stack of at most four notifications.
  - `Statistics`: `groupByMonth` (a counting loop over a map), the sorted month keys, the chart's maximum, and the best-month fold.
- **Shared.** `Text` holds the string primitives both languages use, each written out: Java's `trim`/`isBlank`, JavaScript's `trim`, ASCII lower-casing, `split`/`join`, `String(n)`, `parseInt` and `padStart`. `Wrappers` holds `Option` and `Result`.

Source paths below are relative to the repository root.

## Model

| member | source | states |
|---|---|---|
| Pagination.AddRange | job-tracker-web/src/pages/ApplicationsPage.tsx:1361-1363 | The loop appends exactly the page buttons start..end, in order, to the list built so far; nothing when start > end. |
| Pagination.PageNumbers | job-tracker-web/src/pages/ApplicationsPage.tsx:1345-1381 | Up to 7 pages: exactly the buttons 1..totalPages. More than 7: the first page, an optional "...", the window around the current page, an optional "...", and the last page. In either case the bar satisfies `BarShape`. |
| Pagination.WideBarShape | job-tracker-web/src/pages/ApplicationsPage.tsx:1370-1380 | With more than 7 pages the bar has 3 to 7 entries, starts with page 1, ends with the last page, and never shows two "..." side by side. |
| Pagination.WideBarIncreasing | job-tracker-web/src/pages/ApplicationsPage.tsx:1370-1380 | The page numbers strictly increase from left to right and all lie in 1..totalPages. |
| Pagination.WideBarEllipses | job-tracker-web/src/pages/ApplicationsPage.tsx:1372-1377 | A "..." follows page 1 iff left > 2, and one precedes the last page iff right < totalPages - 1. |
| Pagination.WideBarHasCurrent | job-tracker-web/src/pages/ApplicationsPage.tsx:1357-1380 | For a valid 0-based page, its 1-based number is on the bar. |
| Pagination.WideBarMeetsShape | job-tracker-web/src/pages/ApplicationsPage.tsx:1370-1380 | The five-part bar for more than 7 pages has every property of `BarShape`. |
| Pagination.NarrowBarMeetsShape | job-tracker-web/src/pages/ApplicationsPage.tsx:1365-1368 | Listing 1..totalPages (at most 7 pages) has every property of `BarShape`, and includes the current page. |
| Pagination.NavigationStaysInRange | job-tracker-web/src/pages/ApplicationsPage.tsx:927-941 | Previous and next keep a valid page in 0..max(totalPages-1, 0). Each moves by one unless clamped. Previous undoes next and next undoes previous. |
| Pagination.DeleteStepsBackOnlyFromEmptiedPage | job-tracker-web/src/pages/ApplicationsPage.tsx:641 | After a delete the page drops by one iff it was a later page with a single item on it; it never goes below 0. |
| DateFormat.FormatDateBR | job-tracker-web/src/pages/ApplicationsPage.tsx:276-282 | A changed result means the input had at least three '-'-separated parts. |
| DateFormat.FormatsNonZeroDate | job-tracker-web/src/pages/ApplicationsPage.tsx:276-282 | Y-M-D made of non-zero decimal numbers becomes DD/MM/Y: day and month padded to two digits, the year as a plain number. |
| DateFormat.KeepsDateWithZeroPart | job-tracker-web/src/pages/ApplicationsPage.tsx:276-278 | A Y-M-D date with a zero part comes back unchanged. |
| DateFormat.KeepsZeroPart | job-tracker-web/src/pages/ApplicationsPage.tsx:277-278 | Once one of the three parts reads as 0, the input comes back unchanged. |
| DateFormat.KeepsUnreadablePart | job-tracker-web/src/pages/ApplicationsPage.tsx:277-278 | When one of the three parts is missing or parses to NaN, the input comes back unchanged. |
| DateFormat.KeepsDateWithUnreadablePart | job-tracker-web/src/pages/ApplicationsPage.tsx:276-278 | A date whose month part does not start with a number (such as 2024-ab-01) comes back unchanged. |
| DateFormat.TodayISOShape | job-tracker-web/src/pages/ApplicationsPage.tsx:284-290 | For a real day of a four-digit year, today's ISO date is ten characters: year, '-', two-digit month, '-', two-digit day. |
| DateFormat.PadDigits | job-tracker-web/src/pages/ApplicationsPage.tsx:279-280 | String(n).padStart(2, "0") is the two-digit form of n with value n. |
| DateFormat.FormatsToday | job-tracker-web/src/pages/ApplicationsPage.tsx:276-290 | formatDateBR of todayISO is DD/MM/YYYY of the same day. |
| DateFormat.SafeISODate | job-tracker-web/src/pages/ApplicationsPage.tsx:292-295 | A string whose trimmed length is at least 10 gives a 10-character prefix of the untrimmed input; anything else gives today's ISO date. |
| DateFormat.SafeISODateKeepsTodayISO | job-tracker-web/src/pages/ApplicationsPage.tsx:284-295 | An ISO date produced by todayISO passes safeISODate unchanged, whatever day the fallback would use. |
| CompanyLogos.Unique | job-tracker-web/src/pages/ApplicationsPage.tsx:216-218 | No empty strings and no repeats. An element is in the result iff it is a non-empty element of the input. The result is no longer than the input. |
| CompanyLogos.UniqueKeepsFirstOccurrenceOrder | job-tracker-web/src/pages/ApplicationsPage.tsx:216-218 | Values appear in the order of their first occurrence in the input. |
| CompanyLogos.UniqueOfDistinct | job-tracker-web/src/pages/ApplicationsPage.tsx:216-218 | A list without empty strings and repeats is its own unique list. |
| CompanyLogos.UniqueIdempotent | job-tracker-web/src/pages/ApplicationsPage.tsx:216-218 | unique applied twice is unique applied once. |
| CompanyLogos.UniqueStartsWithFirstNonEmpty | job-tracker-web/src/pages/ApplicationsPage.tsx:216-218 | When every item before position n is empty, unique starts with item n, if that is non-empty. |
| CompanyLogos.Lookup | job-tracker-web/src/pages/ApplicationsPage.tsx:241-245 | Finds a value iff the table has an entry for the key, and the value found is that key's entry. |
| CompanyLogos.FindPartial | job-tracker-web/src/pages/ApplicationsPage.tsx:246-248 | A result is the value of the FIRST entry whose key has at least 3 characters and occurs in the name (no earlier entry qualifies); no result means no entry has such a key. |
| CompanyLogos.ExtractDomainLikeValue | job-tracker-web/src/pages/ApplicationsPage.tsx:220-224 | A value is found exactly when the normalised input, without one leading "www.", is two or more non-empty dot-separated labels over [a-z0-9-]; the value is that string, and it is non-empty. |
| CompanyLogos.Compact | job-tracker-web/src/pages/ApplicationsPage.tsx:244 | The compact name holds only [a-z0-9]. |
| CompanyLogos.CompactKeepsNameChars | job-tracker-web/src/pages/ApplicationsPage.tsx:244 | The compact name is exactly the [a-z0-9] characters of the name: an order-preserving subsequence that keeps every occurrence of each of them. |
| CompanyLogos.NameWords | job-tracker-web/src/pages/ApplicationsPage.tsx:250-253 | Every word is non-empty, made of [a-z0-9], and not a legal suffix. |
| CompanyLogos.WordsSpellCompact | job-tracker-web/src/pages/ApplicationsPage.tsx:244-251 | The runs of [a-z0-9] of the name, joined, spell the compact name. |
| CompanyLogos.WordsFromSpellCompact | job-tracker-web/src/pages/ApplicationsPage.tsx:244-251 | The runs found after a partial run, joined, are that run followed by the compact rest of the name. |
| CompanyLogos.NameWordsKeepsWords | job-tracker-web/src/pages/ApplicationsPage.tsx:250-253 | A word is kept iff it is a run of [a-z0-9] of the name and not a legal suffix; the kept words stay in their order. |
| CompanyLogos.DropSuffixes | job-tracker-web/src/pages/ApplicationsPage.tsx:253 | A word is kept iff it is a word of the input and not a legal suffix. |
| CompanyLogos.DropSuffixesIsSubsequence | job-tracker-web/src/pages/ApplicationsPage.tsx:253 | The kept words are an order-preserving subsequence of the input. |
| CompanyLogos.BaseCandidates | job-tracker-web/src/pages/ApplicationsPage.tsx:255-260 | Every base is at least 2 characters of [a-z0-9], and no base is repeated. |
| CompanyLogos.BaseCandidatesAreLongBases | job-tracker-web/src/pages/ApplicationsPage.tsx:255-260 | A base is tried iff it is one of the four built bases and has at least two characters. |
| CompanyLogos.BaseCandidatesIncludeBases | job-tracker-web/src/pages/ApplicationsPage.tsx:255-260 | All words joined, the first two words joined, the first word and the compact name are each tried when at least two characters long. |
| CompanyLogos.WithTlds | job-tracker-web/src/pages/ApplicationsPage.tsx:262-264 | One domain per common top-level domain, in order: the base followed by that TLD. |
| CompanyLogos.Guesses | job-tracker-web/src/pages/ApplicationsPage.tsx:262-264 | One guess per base and common TLD; every guess is a valid base followed by one of the common TLDs. |
| CompanyLogos.GuessesListEveryPair | job-tracker-web/src/pages/ApplicationsPage.tsx:262-264 | Guess i * 7 + k is base i followed by TLD k: every base with every TLD, bases in order. |
| CompanyLogos.FallbackDomains | job-tracker-web/src/pages/ApplicationsPage.tsx:244-266 | No duplicates; every candidate is a domain from the table or a guessed domain. |
| CompanyLogos.FallbackDomainsInclude | job-tracker-web/src/pages/ApplicationsPage.tsx:244-266 | The table's entry for the compact name, when non-empty, comes first; the first partial match and every guessed domain are among the candidates. |
| CompanyLogos.InferDomainsFromName | job-tracker-web/src/pages/ApplicationsPage.tsx:234-267 | No duplicates; every domain is from the table, a guess, or the name itself when it is domain-like. |
| CompanyLogos.DomainsOfName | job-tracker-web/src/pages/ApplicationsPage.tsx:238-266 | The explicit domain alone when there is one; else the table's non-empty entry for the exact name alone; else the fallback candidates. No duplicates either way. |
| CompanyLogos.InferDomainsOfBlank | job-tracker-web/src/pages/ApplicationsPage.tsx:235-236 | An empty normalised name has no candidates. |
| CompanyLogos.InferDomainsOfDomain | job-tracker-web/src/pages/ApplicationsPage.tsx:238-239 | A domain-like name is its own only candidate. |
| CompanyLogos.InferDomainsOfKnownName | job-tracker-web/src/pages/ApplicationsPage.tsx:241-242 | A non-domain name listed in the table with a non-empty domain has that domain as its only candidate. |
| CompanyLogos.InferDomainsOfUnknownName | job-tracker-web/src/pages/ApplicationsPage.tsx:244-266 | For a name neither domain-like nor in the table: the compact name's table entry comes first when present, and the first partial match and every guessed domain are candidates. |
| CompanyLogos.ProviderUrls | job-tracker-web/src/pages/ApplicationsPage.tsx:226-232 | Three URLs per domain. |
| CompanyLogos.AllProviderUrls | job-tracker-web/src/pages/ApplicationsPage.tsx:273 | Three URLs per domain. A URL is in the result iff it is a provider URL of one of the domains. |
| CompanyLogos.UrlsOfDomains | job-tracker-web/src/pages/ApplicationsPage.tsx:273 | No duplicates and at most three URLs per domain. A URL is listed iff it is a provider URL of one of the domains. |
| CompanyLogos.ResolveCompanyLogoUrls | job-tracker-web/src/pages/ApplicationsPage.tsx:269-274 | No domains gives no URLs. Otherwise: no duplicates, at most three URLs per inferred domain, and exactly the provider URLs of the inferred domains. |
| CompanyLogos.UrlsOfOneDomain | job-tracker-web/src/pages/ApplicationsPage.tsx:226-232 | One domain yields its three provider URLs, all distinct, in provider order. |
| CompanyLogos.ResolveExplicitDomain | job-tracker-web/src/pages/ApplicationsPage.tsx:238-239 | A company given as a domain gets exactly the three provider URLs of that domain. |
| Search.KeepMatching | job-tracker-web/src/pages/ApplicationsPage.tsx:528-532 | An application is kept iff it is in the list and its lower-cased company or role contains the query. |
| Search.FilterApps | job-tracker-web/src/pages/ApplicationsPage.tsx:525-533 | A query that is blank once trimmed returns the list unchanged. Otherwise an application is in the result iff it is in the list and matches the trimmed, lower-cased query. |
| Search.KeepMatchingIsSubsequence | job-tracker-web/src/pages/ApplicationsPage.tsx:528-532 | The kept applications are a subsequence of the list, in the original order. |
| Search.FilterAppsIsSubsequence | job-tracker-web/src/pages/ApplicationsPage.tsx:525-533 | The search result is always an order-preserving subsequence of the loaded list. |
| Search.KeepMatchingOfMatching | job-tracker-web/src/pages/ApplicationsPage.tsx:528-532 | A list whose every application matches is kept whole. |
| Search.FilterAppsIdempotent | job-tracker-web/src/pages/ApplicationsPage.tsx:525-533 | Searching the result again with the same query changes nothing. |
| Toasts.Without | job-tracker-web/src/pages/ApplicationsPage.tsx:440 | A notification is kept iff it was shown and has another id. |
| Toasts.PushedKeepsNewestFour | job-tracker-web/src/pages/ApplicationsPage.tsx:439 | A pushed notification goes on top and the older ones follow in their order. Beyond four the oldest drops off, and the stack never exceeds four. |
| Toasts.DismissAfterPush | job-tracker-web/src/pages/ApplicationsPage.tsx:437-441 | When the timer of a just-pushed notification fires, the older ones that were kept remain, in order. |
| Toasts.WithoutAbsent | job-tracker-web/src/pages/ApplicationsPage.tsx:440 | Dismissing an id that is not shown changes nothing. |
| Toasts.WithoutIsSubsequence | job-tracker-web/src/pages/ApplicationsPage.tsx:440 | Dismissing keeps the remaining notifications in their order. |
| Toasts.WithoutAppend | job-tracker-web/src/pages/ApplicationsPage.tsx:440 | Dismissing from two stacked parts dismisses from each part in place. |
| Toasts.DismissOldest | job-tracker-web/src/pages/ApplicationsPage.tsx:437-441 | The timer of the bottom notification removes just it; the newer ones stay as they were. |
| Toasts.ToastStack.Push | job-tracker-web/src/pages/ApplicationsPage.tsx:437-439 | The new stack is the pushed one; at most four remain. |
| Toasts.ToastStack.Dismiss | job-tracker-web/src/pages/ApplicationsPage.tsx:440 | The new stack is the old one without that id. |
| Statistics.MonthKey | job-tracker-web/src/pages/StatisticsPage.tsx:30 | The key is a prefix of the date, seven characters long (or the whole date if it is shorter). |
| Statistics.CountsOf | job-tracker-web/src/pages/StatisticsPage.tsx:31 | Exactly the elements that occur are keys, each mapped to its number of occurrences, which is at least 1. |
| Statistics.GroupByMonth | job-tracker-web/src/pages/StatisticsPage.tsx:26-34 | The loop's counts are the multiplicities of the month keys of the dated applications. The key list names each counted month exactly once. |
| Statistics.MonthCountsStep | job-tracker-web/src/pages/StatisticsPage.tsx:29-31 | A dated application adds one to its month's count (1 for a new month); an undated one changes nothing. |
| Statistics.MonthsComeFromDatedApps | job-tracker-web/src/pages/StatisticsPage.tsx:29-30 | Every month key is the seven-character prefix of the date of some application with a non-empty applied date. |
| Statistics.DatedAppsAreCounted | job-tracker-web/src/pages/StatisticsPage.tsx:29-31 | Every dated application's month is a key of the counts. |
| Statistics.MonthsCountDated | job-tracker-web/src/pages/StatisticsPage.tsx:29 | One month key per application with a non-empty applied date. |
| Statistics.CountsSumToDatedApps | job-tracker-web/src/pages/StatisticsPage.tsx:28-32 | The counts add up to the number of applications with a non-empty applied date. |
| Statistics.MonthCountsOrderIndependent | job-tracker-web/src/pages/StatisticsPage.tsx:28-32 | Any reordering of the applications gives the same counts. |
| Statistics.MonthsOrderIndependent | job-tracker-web/src/pages/StatisticsPage.tsx:28-32 | Any reordering of the applications gives the same month keys with the same multiplicities. |
| Statistics.MonthsAppend | job-tracker-web/src/pages/StatisticsPage.tsx:28-32 | The months of two lists, one after the other, are the months of each in turn. |
| Statistics.BelowTotal | job-tracker-web/src/pages/StatisticsPage.tsx:108 | The lexicographic order of the default sort is total. |
| Statistics.BelowAntisymmetric | job-tracker-web/src/pages/StatisticsPage.tsx:108 | The lexicographic order is antisymmetric. |
| Statistics.BelowTransitive | job-tracker-web/src/pages/StatisticsPage.tsx:108 | The lexicographic order is transitive. |
| Statistics.Insert | job-tracker-web/src/pages/StatisticsPage.tsx:108 | Inserting into a sorted list keeps it sorted and adds exactly that one element. |
| Statistics.SortStrings | job-tracker-web/src/pages/StatisticsPage.tsx:108 | The result is sorted and a permutation of the input. |
| Statistics.SortedMonthsStrictlyIncrease | job-tracker-web/src/pages/StatisticsPage.tsx:107-108 | Sorting the distinct month keys lists exactly the key set, each key once, in strictly increasing order. |
| Statistics.MonthlyPoints | job-tracker-web/src/pages/StatisticsPage.tsx:109-120 | One point per sorted month, in order, holding that month's count. |
| Statistics.MaxMonthly | job-tracker-web/src/pages/StatisticsPage.tsx:121 | At least 1 and at least every count, and equal to 1 or to some count. |
| Statistics.BestMonth | job-tracker-web/src/pages/StatisticsPage.tsx:141-147 | None iff there are no points. Otherwise a point holding the largest count, and every earlier point has a strictly smaller count. |
| Statistics.BestMonthIsEarliestMaximal | job-tracker-web/src/pages/StatisticsPage.tsx:107-147 | Over the chart of sorted months: no best month iff no months. Otherwise it has the largest count, and every other month with that count sorts after it. |
| JobApplications.Violations | src/main/java/com/diego/jobtracker/dto/UpsertJobApplicationRequest.java:12-19 | Company (role) is reported iff it is null or blank once trimmed; status iff it is null. |
| JobApplications.StatusViolations | src/main/java/com/diego/jobtracker/dto/UpdateJobApplicationRequest.java:7-8 | The status-change body is rejected iff its status is null, and then only status is reported. |
| JobApplications.ValidMeansNoViolations | src/main/java/com/diego/jobtracker/dto/UpsertJobApplicationRequest.java:12-19 | A body passes validation iff no constraint is broken. |
| JobApplications.FieldsMeaning | src/main/java/com/diego/jobtracker/controller/JobApplicationController.java:104-114 | The written record has trimmed, non-empty company and role; a null priority becomes MEDIUM; the other fields are copied; the owner is the caller. |
| JobApplications.OverdueTakesPrecedence | src/main/java/com/diego/jobtracker/controller/JobApplicationController.java:68-90 | With the overdue flag set, the due flag does not matter. Overdue implies due, and due implies selected without the flags. |
| JobApplications.LastStatusAppend | src/main/java/com/diego/jobtracker/controller/JobApplicationController.java:220-232 | A new entry becomes its application's last status and leaves every other application's last status alone. |
| JobApplications.LastStatusOfUnlogged | src/main/java/com/diego/jobtracker/controller/JobApplicationController.java:220-232 | An application without entries has no last status. |
| JobApplications.ChainedAppend | src/main/java/com/diego/jobtracker/controller/JobApplicationController.java:220-232 | Appending an entry that starts from the application's last status and changes it keeps the history a chain. |
| JobApplications.FirstEntryIsCreation | src/main/java/com/diego/jobtracker/controller/JobApplicationController.java:116 | In a chained history the oldest entry of each application is from null. |
| JobApplications.CreateKeepsConsistent | src/main/java/com/diego/jobtracker/controller/JobApplicationController.java:115-116 | Storing a new application under the next id and logging null → status keeps the store consistent. |
| JobApplications.StatusChangeKeepsConsistent | src/main/java/com/diego/jobtracker/controller/JobApplicationController.java:144-146 | Changing an application's status and logging previous → new keeps the store consistent. |
| JobApplications.SameStatusKeepsConsistent | src/main/java/com/diego/jobtracker/controller/JobApplicationController.java:174-177 | Rewriting an application without changing its status, and logging nothing, keeps the store consistent. |
| JobApplications.DeleteKeepsConsistent | src/main/java/com/diego/jobtracker/controller/JobApplicationController.java:208 | Removing an application keeps the store consistent. |
| JobApplications.NewestFirst | src/main/java/com/diego/jobtracker/controller/JobApplicationController.java:191-192 | An entry is listed iff it belongs to that application and that user. |
| JobApplications.NewestFirstAppend | src/main/java/com/diego/jobtracker/controller/JobApplicationController.java:191-192 | A newer entry of that application comes first; entries of other applications do not show. |
| JobApplications.NewestFirstEndsInLastStatus | src/main/java/com/diego/jobtracker/controller/JobApplicationController.java:191-192 | When all of an application's entries are its owner's, the owner's newest entry ends in the application's last status. |
| JobApplications.Matching | src/main/java/com/diego/jobtracker/controller/JobApplicationController.java:191-192 | An entry is in the oldest-first filter iff it belongs to that application and that user. |
| JobApplications.MatchingAppend | src/main/java/com/diego/jobtracker/controller/JobApplicationController.java:191-192 | A logged entry joins the end of the oldest-first filter exactly when it belongs to that application and user. |
| JobApplications.NewestFirstIsReversedMatching | src/main/java/com/diego/jobtracker/controller/JobApplicationController.java:191-192 | The history listing is exactly the matching entries, each as often as logged, in reverse order of logging. |
| JobApplications.HistoryShowsCurrentStatus | src/main/java/com/diego/jobtracker/controller/JobApplicationController.java:182-196 | In a consistent store, the history of an owned application is not empty, and its first entry ends in the current status. |
| JobApplications.JobApplicationController.constructor | src/main/java/com/diego/jobtracker/controller/JobApplicationController.java:35-43 | Empty tables, the first identity value 1, and a consistent store. |
| JobApplications.JobApplicationController.RequireCurrentUser | src/main/java/com/diego/jobtracker/controller/JobApplicationController.java:211-218 | Succeeds iff the principal is present and is a known address, giving that user's id; otherwise UNAUTHORIZED "Unauthorized". |
| JobApplications.JobApplicationController.RecordStatusChange | src/main/java/com/diego/jobtracker/controller/JobApplicationController.java:220-232 | Appends exactly one entry, and changes nothing else. |
| JobApplications.JobApplicationController.List | src/main/java/com/diego/jobtracker/controller/JobApplicationController.java:58-95 | UNAUTHORIZED without a known user. Otherwise an id is returned iff it is one of the user's applications satisfying the status filter and the overdue-over-due flag rule. |
| JobApplications.JobApplicationController.Create | src/main/java/com/diego/jobtracker/controller/JobApplicationController.java:99-118 | Invalid body: the broken fields. Unknown user: UNAUTHORIZED. Otherwise the record from `Fields` is stored under the next id and exactly one null → status entry is appended. Failures change nothing; consistency is kept. |
| JobApplications.JobApplicationController.GetById | src/main/java/com/diego/jobtracker/controller/JobApplicationController.java:121-128 | UNAUTHORIZED without a known user; the record if the user owns it; NOT_FOUND "Application not found" otherwise. |
| JobApplications.JobApplicationController.UpdateStatus | src/main/java/com/diego/jobtracker/controller/JobApplicationController.java:131-148 | A null status is a validation failure; then UNAUTHORIZED; then NOT_FOUND for an application the user does not own. The same status returns the record with nothing changed or logged. A different status is stored, and exactly one previous → new entry is appended. |
| JobApplications.JobApplicationController.Update | src/main/java/com/diego/jobtracker/controller/JobApplicationController.java:155-179 | Same error order as create, plus NOT_FOUND. Every editable field is overwritten from the body. An entry previous → new is appended iff the status changed. Failures change nothing. |
| JobApplications.JobApplicationController.History | src/main/java/com/diego/jobtracker/controller/JobApplicationController.java:182-196 | UNAUTHORIZED, then NOT_FOUND for an application the user does not own; otherwise that user's entries for it, newest first. |
| JobApplications.JobApplicationController.Delete | src/main/java/com/diego/jobtracker/controller/JobApplicationController.java:200-209 | UNAUTHORIZED, then NOT_FOUND, and nothing changes. Otherwise only that id is removed; the other records and the whole history stay. |
| AccountRules.NormalizeEmail | src/main/java/com/diego/jobtracker/service/AuthService.java:110-112 | null gives "". The result neither begins nor ends with a trimmed character and has no upper-case ASCII letter. |
| AccountRules.NormalizeEmailMeaning | src/main/java/com/diego/jobtracker/service/AuthService.java:110-112 | The result is the lower-cased address with exactly its leading and trailing characters up to U+0020 removed. |
| AccountRules.NormalizeEmailIdempotent | src/main/java/com/diego/jobtracker/service/AuthService.java:110-112 | Normalising a normalised address changes nothing. |
| AccountRules.RegisteredUserShape | src/main/java/com/diego/jobtracker/service/AuthService.java:35-42 | A new user has a trimmed name, the given address and hash, no avatar, pt/light/sidebar shown, and both timestamps. |
| AccountRules.UpdateFailsOnlyOnBrokenRule | src/main/java/com/diego/jobtracker/service/AuthService.java:69-96 | An update fails iff the name, language or theme rule is broken, and always with BAD_REQUEST. |
| AccountRules.UpdateKeepsNullFields | src/main/java/com/diego/jobtracker/service/AuthService.java:69-100 | Each null request field leaves its value untouched; id, address, hash and timestamps never change. |
| AccountRules.UpdatedNameIsTrimmed | src/main/java/com/diego/jobtracker/service/AuthService.java:69-75 | An accepted name is stored trimmed and is not blank. |
| AccountRules.UpdatedAvatarIsTrimmedOrNull | src/main/java/com/diego/jobtracker/service/AuthService.java:77-80 | A blank avatar is stored as null, iff it is blank; any other is stored trimmed and non-blank. |
| AccountRules.UpdateLanguageAndTheme | src/main/java/com/diego/jobtracker/service/AuthService.java:82-96 | After a successful update, a given language is "pt" or "en" and a given theme "light" or "dark". |
| AccountRules.Saved | src/main/java/com/diego/jobtracker/service/AuthService.java:102 | The saved row equals the updated one except for the update instant. That instant is refreshed iff some field changed; an unchanged row is saved as it was. |
| Accounts.StoreKeepsWellKeyed | src/main/java/com/diego/jobtracker/service/AuthService.java:42 | Storing a row with a hash and an id under its own address keeps every row keyed by its address. |
| Accounts.UpdatedName | src/main/java/com/diego/jobtracker/service/AuthService.java:69-75 | Fails iff the given name is blank once trimmed, with BAD_REQUEST "Name cannot be blank"; otherwise the name after the update. |
| Accounts.UpdatedAvatar | src/main/java/com/diego/jobtracker/service/AuthService.java:77-80 | The avatar after the update (see UpdatedAvatarIsTrimmedOrNull). |
| Accounts.UpdatedChoice | src/main/java/com/diego/jobtracker/service/AuthService.java:82-96 | Fails iff a given value, trimmed and lower-cased, is neither allowed value, with BAD_REQUEST and the reason. Otherwise a given value becomes one of the two. |
| Accounts.AuthService.constructor | src/main/java/com/diego/jobtracker/service/AuthService.java:21-27 | An empty, well-keyed users table and the given encoder. |
| Accounts.AuthService.NewRow | src/main/java/com/diego/jobtracker/service/AuthService.java:35-42 | The entity built field by field, after prePersist and with its id, is the registered row. |
| Accounts.AuthService.Register | src/main/java/com/diego/jobtracker/service/AuthService.java:29-45 | An address already in use: CONFLICT "Email already in use" and nothing added. Otherwise exactly one row, the registered user with the next id, is stored under the normalised address. |
| Accounts.AuthService.Login | src/main/java/com/diego/jobtracker/service/AuthService.java:47-57 | Succeeds iff the normalised address is stored and the password matches its hash. An unknown address and a wrong password both give UNAUTHORIZED "Invalid credentials". |
| Accounts.AuthService.Me | src/main/java/com/diego/jobtracker/service/AuthService.java:59-63 | The stored user iff the normalised address is known, else UNAUTHORIZED "User not found". |
| Accounts.AuthService.UpdateMe | src/main/java/com/diego/jobtracker/service/AuthService.java:65-104 | Unknown user: UNAUTHORIZED. A broken rule: that error, and nothing is stored. Otherwise the updated row is stored, with its update instant refreshed only if something changed. |
| UserEntity.PersistDefaultsComplete | src/main/java/com/diego/jobtracker/model/User.java:51-68 | After prePersist, language and theme are set and not blank, and sidebarVisible and both timestamps are set. |
| UserEntity.PersistDefaultsKeepsSetValues | src/main/java/com/diego/jobtracker/model/User.java:53-67 | A null or blank language (theme) becomes "pt" ("light"), and otherwise is kept. A null sidebarVisible becomes true. Timestamps are set only when null. Everything else is untouched. |
| UserEntity.PersistDefaultsIdempotent | src/main/java/com/diego/jobtracker/model/User.java:51-68 | Running prePersist again, at any instants, changes nothing. |
| UserEntity.Touched | src/main/java/com/diego/jobtracker/model/User.java:70-73 | The update instant becomes now; every other field is unchanged. |
| UserEntity.User.constructor | src/main/java/com/diego/jobtracker/model/User.java:17-49 | A new entity has every field null. |
| UserEntity.User.PrePersist | src/main/java/com/diego/jobtracker/model/User.java:51-68 | The entity's new state is PersistDefaults of its old state. |
| UserEntity.User.PreUpdate | src/main/java/com/diego/jobtracker/model/User.java:70-73 | The entity's new state is its old state with the update instant set to now. |
| JwtFilter.CookieValue | src/main/java/com/diego/jobtracker/security/JwtAuthenticationFilter.java:79-84 | A value found belongs to a cookie with the configured name. |
| JwtFilter.CookieValueIsFirstMatch | src/main/java/com/diego/jobtracker/security/JwtAuthenticationFilter.java:79-83 | The value is the first matching cookie's, even when later cookies share the name. |
| JwtFilter.CookieValueAbsent | src/main/java/com/diego/jobtracker/security/JwtAuthenticationFilter.java:84 | Without a cookie of that name there is no token. |
| JwtFilter.BearerWinsOverCookie | src/main/java/com/diego/jobtracker/security/JwtAuthenticationFilter.java:71-76 | A "Bearer " header decides the token whatever cookies come with it. Any other header is ignored, and the cookies decide. |
| JwtFilter.BearerRoundTrip | src/main/java/com/diego/jobtracker/security/JwtAuthenticationFilter.java:72-73 | A token sent as "Bearer " + token comes out unchanged. |
| JwtFilter.AuthenticatedMeaning | src/main/java/com/diego/jobtracker/security/JwtAuthenticationFilter.java:42-61 | An address is authenticated iff all of these hold: the token is present and non-blank, readable and unexpired; its subject is a stored user's address; the context was empty. That address is the subject. |
| JwtFilter.KeepsPriorAuthentication | src/main/java/com/diego/jobtracker/security/JwtAuthenticationFilter.java:50 | An already authenticated context is never overwritten. |
| JwtFilter.SecurityContext.constructor | src/main/java/com/diego/jobtracker/security/JwtAuthenticationFilter.java:50 | A fresh context holds no authentication. |
| JwtFilter.FilterChain.constructor | src/main/java/com/diego/jobtracker/security/JwtAuthenticationFilter.java:40 | A fresh chain has not been invoked. |
| JwtFilter.FilterChain.DoFilter | src/main/java/com/diego/jobtracker/security/JwtAuthenticationFilter.java:44 | Each invocation is counted once. |
| JwtFilter.JwtAuthenticationFilter.constructor | src/main/java/com/diego/jobtracker/security/JwtAuthenticationFilter.java:28-34 | Keeps the configured cookie name and the token reader. |
| JwtFilter.JwtAuthenticationFilter.ExtractToken | src/main/java/com/diego/jobtracker/security/JwtAuthenticationFilter.java:70-85 | The cookie loop returns the token defined by the bearer-then-first-cookie rule (`TokenOf`). |
| JwtFilter.JwtAuthenticationFilter.DoFilterInternal | src/main/java/com/diego/jobtracker/security/JwtAuthenticationFilter.java:36-68 | The chain runs exactly once on every path. The context gets the authenticated address when `Authenticated` gives one, and is otherwise unchanged. |
| Text.JavaTrim | src/main/java/com/diego/jobtracker/service/AuthService.java:111 | The result neither begins nor ends with a character trim removes, and is no longer than the input. |
| Text.JavaTrimIsTrim | src/main/java/com/diego/jobtracker/service/AuthService.java:111 | The result is a slice of the input; everything before and after it is a character up to U+0020, and it neither begins nor ends with one. |
| Text.JavaStripStartDrops | src/main/java/com/diego/jobtracker/service/AuthService.java:111 | Every leading character dropped is one trim removes. |
| Text.JavaStripEndDrops | src/main/java/com/diego/jobtracker/service/AuthService.java:111 | Every trailing character dropped is one trim removes. |
| Text.JsTrim | job-tracker-web/src/pages/ApplicationsPage.tsx:526 | The result neither begins nor ends with JavaScript whitespace, and is no longer than the input. |
| Text.JsTrimIsTrim | job-tracker-web/src/pages/ApplicationsPage.tsx:526 | The result is a slice of the input; everything before and after it is JavaScript whitespace, and it neither begins nor ends with any. |
| Text.JsStripStartDrops | job-tracker-web/src/pages/ApplicationsPage.tsx:526 | Every leading character dropped is JavaScript whitespace. |
| Text.JsStripEndDrops | job-tracker-web/src/pages/ApplicationsPage.tsx:526 | Every trailing character dropped is JavaScript whitespace. |
| Text.JavaTrimIdempotent | src/main/java/com/diego/jobtracker/service/AuthService.java:70 | Trimming twice is trimming once. |
| Text.TrimLowerIdempotent | src/main/java/com/diego/jobtracker/service/AuthService.java:111 | trim().toLowerCase() of its own result changes nothing. |
| Text.ToLower | job-tracker-web/src/pages/ApplicationsPage.tsx:526-530 | Same length, each character lower-cased. |
| Text.SplitJoin | job-tracker-web/src/pages/ApplicationsPage.tsx:277 | Joining the parts of a split with the separator gives back the string. |
| Text.ParseInt | job-tracker-web/src/pages/ApplicationsPage.tsx:277 | A number read is the value of a non-empty run of decimal digits, possibly negated. |
| Text.ParseIntOfLayout | job-tracker-web/src/pages/ApplicationsPage.tsx:277 | parseInt skips leading whitespace and one optional sign, then reads the longest digit run: NaN when it is empty, otherwise its value, negated after a minus sign. |
| Text.EveryStringHasNumberLayout | job-tracker-web/src/pages/ApplicationsPage.tsx:277 | Every string splits into whitespace, sign, digit run and rest, so the layout lemma determines parseInt on every input. |
| Text.SignedValueOf | job-tracker-web/src/pages/ApplicationsPage.tsx:277 | After the whitespace, the sign and the digit run alone decide the number read. |
| Text.ParseShowNat | job-tracker-web/src/pages/ApplicationsPage.tsx:277-281 | parseInt reads back every String(n) of a natural number. |
| Text.ShowNatValue | job-tracker-web/src/pages/ApplicationsPage.tsx:279-281 | The digits of String(n) have the value n. |
| Text.PadStart2 | job-tracker-web/src/pages/ApplicationsPage.tsx:279-280 | At least two characters: the input, preceded by as many '0's as it is short of two. |
| Text.Pad2 | job-tracker-web/src/pages/ApplicationsPage.tsx:279-280 | Two digits below 100, with the value n. |

## Left out

- HTTP transport, the fetch wrappers and pagination objects are not modelled. Spring's request binding, the repositories' paging and sorting, and React rendering and effects are left out too.
- JobApplications.JobApplicationController.List: returns the set of selected ids. Page size, page number and sort order are not modelled.
- JobApplications.JobApplicationController.History: "ORDER BY changedAt DESC" is modelled as newest-appended first. This assumes the clock never runs backwards and no two entries share an instant.
- JobApplications.JobApplicationController.Delete: the history rows of a deleted application are kept. The database's foreign-key behaviour on delete is not part of this model.
- JobApplications.Violations: the bad-request body is modelled as the set of broken fields, each with its `Message`. The map layout of the error handler is not modelled.
- The application entity's own timestamps and callbacks are not modelled. Of the priority values, only MEDIUM is named.
- The controller sees the users table as a map from address to id (`users`).
- Clock reads are parameters: `LocalDate.now()` (list), `LocalDateTime.now()` (prePersist's two reads and preUpdate), and `new Date()` (todayISO). The toast id made from the clock and a random number is a parameter too.
- Toasts.ToastStack.Dismiss: the three-second timer is not modelled. Its callback is the `Dismiss` method.
- JwtFilter.Authenticated: JWT signing, parsing and expiry checking are the parameter `read`. A token that throws is `Unreadable`. A missing expiry (which makes isTokenValid throw) is treated like an expired token.
- Accounts.AuthService.Register: the password hash comes from the parameter `encode`. The bean constraints on the register request are not modelled; the name is non-null.
- Accounts.AuthService.Login: `matches` is a parameter.
- CompanyLogos.NormalizeCompanyName: Unicode NFD decomposition and diacritic removal are not modelled (ASCII input assumed).
- CompanyLogos.Lookup: JavaScript prototype keys such as "constructor" are not modelled.
- Text.ToLower: lower-cases ASCII letters only; other scripts are left as they are.
- Accounts.AuthService.Register, Accounts.AuthService.UpdateMe, JobApplications.JobApplicationController.Create, JobApplications.JobApplicationController.Update: the database column limits are not modelled. These members report success where saving the row would fail. The limits are: user name 120 characters, e-mail 160 and unique, avatar URL 500, language 5, theme 10; application company and role 255, job URL 500, salary 100. A concurrent duplicate registration that fails on the unique e-mail is not modelled either.
- Text.ParseInt, Text.ShowInt, Text.ShowNat: JavaScript numbers are doubles, while the model uses unbounded integers. It is faithful only for safe integers (magnitude below 2^53). Beyond that, parseInt rounds and String switches to exponent notation.
- DateFormat.SafeISODate, Statistics.MonthKey, Statistics.SortStrings, Statistics.Below: strings are sequences of code points, while JavaScript's `length`, `slice` and default `sort` work on UTF-16 code units. The model agrees with them on text inside the Basic Multilingual Plane.
- Statistics.MonthlyPoints: the locale-formatted month label is not modelled; points carry the month key and count.
- The floating-point rates, averages and tips of the statistics page are not modelled.
- The duplicate date helper of the dashboard is not modelled.
