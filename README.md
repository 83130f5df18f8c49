# Badge management: a verified model

This project models the core of a small staff-badge application. The application keeps:

- a table of employees (`Funcionarios`);
- a table of badges (`crachas`), at most one per employee;
- an append-only log of badge scans (`scan_logs`);
- a bucket of photos (`avatars`).

Administrators list, filter, create, suspend and (de)activate employees, issue badges and upload photos. A scan-logging component attempts one write to the scan log the first time it runs, with the scanner's position when the browser gives one; a failed write is dropped. A dashboard and a support page count employees by status, by business unit and by badge state.

The model has one Dafny module per source file:

- **Functions.** Read-only queries and pure helpers are functions on values.
- **Tables.** Each database table is a class whose `rows` field the writing operations reassign. A `Valid()` predicate holds the table's key constraints, and every write preserves it.
- **Components.** Each page component is a class whose fields are its React state. Each handler is one method that runs from the start of the handler to the point where it settles.
- **Inputs.** The following are parameters of the operation that meets them:
  - whatever the backend decides, such as a failure and its message;
  - whatever the environment supplies: the clock, the generated identifier, the browser's user agent, the geolocation outcome, the photo-analysis reply and the e-mail format test.

Shared modules:

- `Wrappers`: `Option`, `Result` and `Outcome`.
- `Sequences`: filter, find, conditional map, sort by comparator, subsequence.
- `Text`: ASCII lower case, substring search, code-point order, split on a character.
- `Types`: the `Employee` and badge shapes of `src/types/index.ts`.
- `Grouping`: counting keys into a dictionary that remembers insertion order. It is the `Map`/`Record` counting loop that both the charts and the statistics use.

## Model

| member | source | states |
|---|---|---|
| Crachas.GetCrachaDetails | src/lib/crachas.ts:9-38 | an empty id gives `None` before any lookup; a failed query gives `None`; a result is the badge with exactly that id, with its columns and its embedded employee |
| Crachas.GetCrachaDetailsFindsEveryBadge | src/lib/crachas.ts:12-37 | in a table whose badge ids are unique, every badge with a non-empty id is found and joined to its employee |
| Crachas.SingleByEmployee | src/lib/crachas.ts:57-61 | `.single()` on the employee's badges: a result is a row of the table for that employee |
| Crachas.SingleById | src/lib/crachas.ts:28-29 | `.single()` on the badges with an id: a result is a row of the table with that id |
| Crachas.AtMostOneBadge | src/lib/crachas.ts:53-54 | under the UNIQUE `funcionario_id` constraint an employee has at most one badge, and exactly one when any row references them |
| Crachas.SingleByIdFinds | src/lib/crachas.ts:28-29 | under the primary key, the lookup by a row's id returns that row |
| Crachas.SingleByEmployeeFinds | src/lib/crachas.ts:57-61 | under the UNIQUE constraint, the lookup by a row's employee returns that row |
| Crachas.InsertError | src/lib/crachas.ts:46-52 | a transport or permission fault is reported as it is; otherwise the insert fails with `23505` exactly when the employee already has a badge or the generated id is taken |
| Crachas.Issue | src/lib/crachas.ts:45-69 | issuance either leaves the table as it was or appends exactly one active row for that employee, whose id is then the reply; any fault other than `23505` answers `None` and adds no row; the table's key constraints are preserved |
| Crachas.IssueInsertsOne | src/lib/crachas.ts:46-50 | an employee without a badge gets exactly one new row, and its id is returned |
| Crachas.IssueReturnsExisting | src/lib/crachas.ts:53-62 | on `23505` for an employee who has a badge, that badge's id is returned and the table is unchanged |
| Crachas.IssueIdempotent | src/lib/crachas.ts:45-62 | issuing twice for one employee answers the same id both times, the second call changes nothing, and the employee ends with exactly one badge |
| Crachas.CrachaTable.CreateCracha | src/lib/crachas.ts:45-69 | the insert-then-fallback sequence on the table agrees with `Issue`, and the table's key constraints still hold afterwards |
| Logs.UserAgent | src/lib/logs.ts:9 | the navigator's user agent when there is a navigator, else `Desconhecido` |
| Logs.ScanLogTable.RegistrarScan | src/lib/logs.ts:3-27 | every call counts as one write attempt; a successful write appends exactly one row with the badge id, the coordinates as given and the device string, under the next sequence id; a failed write changes nothing and is not thrown |
| Logs.NewestFirstIsTotal | src/lib/logs.ts:77 | descending `scanned_at` is a total preorder |
| Logs.NewestLocated | src/lib/logs.ts:76-77 | the located rows, each exactly as often as in the table, newest first |
| Logs.NewestLocatedFromRows | src/lib/logs.ts:76 | every row of the newest-first list has a latitude and is a row of the table |
| Logs.FetchScanLogs | src/lib/logs.ts:60-86 | a query error gives `[]`; otherwise at most 100 rows, every one of them located and in the table, newest first |
| Logs.PrefixIsNewest | src/lib/logs.ts:77-78 | cutting a newest-first list leaves out only rows no newer than every row kept |
| Logs.FetchScanLogsKeepsNewest | src/lib/logs.ts:76-78 | the map's rows are located rows of the table; exactly 100 of them come back when there are more, and all of them otherwise; a located row left out is no newer than any returned |
| Logs.FetchAllScanLogs | src/lib/logs.ts:88-114 | a query error gives `[]`; otherwise every row, located or not, each exactly once, newest first |
| ScanLogging.Coordinates | src/components/app/scan-logger.tsx:21-51 | both coordinates are present exactly when a position was obtained, and they are then its latitude and longitude |
| ScanLogging.ScanLogger.RunEffect | src/components/app/scan-logger.tsx:12-58 | a run after the first changes nothing and makes no write attempt; the first run sets the flag and makes exactly one `registrarScan` attempt in each of the three branches, whether or not the write succeeds, with coordinates only when a position was obtained; the toast fires exactly on a first run that obtained a position |
| Employees.NomeOrderIsTotal | src/lib/employees.ts:11 | ascending `nome` is a total preorder |
| Employees.FuncionarioTable.FetchEmployees | src/lib/employees.ts:6-14 | an error is thrown; a reply without data gives `[]`; otherwise every row of the table, each exactly once, sorted by `nome` ascending |
| Employees.SetStatusById | src/lib/employees.ts:22-25 | the update keeps the number of rows |
| Employees.SetStatusByIdChangesOnlyStatus | src/lib/employees.ts:22-25 | only the `status` of the rows with that id changes, to the new value; every other row and field is unchanged |
| Employees.SetStatusByIdRestores | src/components/app/employees-client.tsx:81-92 | setting the status back to the one every matching row had restores the rows exactly |
| Employees.SetStatusByIdKeepsIds | src/lib/employees.ts:22-25 | the status update keeps the primary key unique |
| Employees.FuncionarioTable.UpdateEmployeeStatus | src/lib/employees.ts:17-27 | a failure is thrown and changes nothing; otherwise the table is the status update of the old table and keeps its primary key |
| Employees.FuncionarioTable.CreateEmployee | src/lib/employees.ts:48-66 | a fault, or an id already taken, is thrown and changes nothing; otherwise the input is appended exactly as given and that row is returned; it succeeds exactly when there is no fault and the id is free |
| EmployeesPage.FilteredEmployees | src/components/app/employees-client.tsx:51-63 | the filtered list is an order-preserving subsequence of the list |
| EmployeesPage.FilteredEmployeesKeepsIff | src/components/app/employees-client.tsx:54-61 | an employee of the list is kept exactly when the lower-cased term occurs in its lower-cased `nome` or `email`, and the filter is `todos` or its status |
| EmployeesPage.EmptySearchKeepsAll | src/components/app/employees-client.tsx:54-59 | an empty search under `todos` keeps the whole list, in order |
| EmployeesPage.Toggled | src/components/app/employees-client.tsx:80 | the new status differs from the old; it is `Inativo` exactly when the old was `Ativo`, and it is never `Suspenso` |
| EmployeesPage.ToggledTwice | src/components/app/employees-client.tsx:80 | toggling twice restores `Ativo` and `Inativo`, and turns `Suspenso` into `Inativo` |
| EmployeesPage.ReplaceById | src/components/app/employees-client.tsx:72-74 | same length and ids; the entries with the updated id become the update and the others are unchanged |
| EmployeesPage.ReplaceByIdLookup | src/components/app/employees-client.tsx:71-74 | after the replacement, the lookup of the updated id finds the update when the id was present and nothing when it was not; the lookup of every other id is unchanged |
| EmployeesPage.EmployeesClient.Shown | src/components/app/employees-client.tsx:51-63 | the list handed to `EmployeeTable`; it is a subsequence of the page's list |
| EmployeesPage.EmployeesClient.LoadData | src/components/app/employees-client.tsx:35-47 | loading ends either way; an error keeps the list; a reply without data empties it; otherwise the list is the table sorted by `nome`; the search, filter and dialog state are untouched |
| EmployeesPage.EmployeesClient.HandleEdit | src/components/app/employees-client.tsx:66-69 | opens the edit dialog on that employee and changes nothing else |
| EmployeesPage.EmployeesClient.HandleUpdateSuccess | src/components/app/employees-client.tsx:71-77 | replaces the entries with the updated id, closes the dialog and shows `Funcionário atualizado!` |
| EmployeesPage.EmployeesClient.HandleToggleStatus | src/components/app/employees-client.tsx:79-94 | on success both the page and the table carry the toggled status, and the title names the new status; on failure the table is unchanged, the title is `Erro!`, and the optimistic change is undone by setting the clicked employee's status back, which restores the list whenever every matching entry had that status |
| EmployeeTableView.Initials | src/components/app/employee-table.tsx:123-126 | the initials contain no space |
| EmployeeTableView.InitialsAreWordStarts | src/components/app/employee-table.tsx:123-126 | the initials are the characters of the name that start a word, in order |
| EmployeeTableView.InitialsCount | src/components/app/employee-table.tsx:123-126 | there is one initial per non-empty space-separated word |
| EmployeeTableView.SplitFirstChars | src/components/app/employee-table.tsx:123-126 | the first characters of the words of `split(' ')` are the word-starting characters of the name |
| EmployeeTableView.ReplaceRow | src/components/app/employee-table.tsx:97 | same length; the rows with the updated id become the update, the others are unchanged |
| EmployeeTableView.EmployeeTable.Unmount | src/components/app/employee-table.tsx:91-93 | the cleanup clears the mounted flag and nothing else |
| EmployeeTableView.EmployeeTable.LoadSettled | src/components/app/employee-table.tsx:78-94 | after unmount neither the items nor the loading flag change; while mounted, the loading state ends and a successful fetch replaces the items; the error toast fires exactly on a failed fetch, mounted or not |
| EmployeeTableView.EmployeeTable.HandleSuspended | src/components/app/employee-table.tsx:96-98 | an absent list stays absent; otherwise the rows with the updated id are replaced |
| EmployeeTableView.EmployeeTable.HandleSuspend | src/components/app/employee-table.tsx:33-42 | on success the table marks the employee `Suspenso`, the title is `Funcionário suspenso` and the suspended copy is passed to `onSuspended`; on failure the title is `Erro ao suspender` and neither the table nor the list changes |
| PhotoUploadField.FeedbackText | src/components/app/photo-upload.tsx:58 | the feedback is never empty: the action's error text when it has one, else the default message |
| PhotoUploadField.FailedAnalysis | src/components/app/photo-upload.tsx:51-59 | every check flag is false, no face is found with confidence 0, and the feedback is the error text or the default |
| PhotoUploadField.PhotoUpload.HandleFileChange | src/components/app/photo-upload.tsx:20-64 | without a file nothing changes and nothing is read; with a file the status becomes `loading` and the previous result is cleared |
| PhotoUploadField.PhotoUpload.ReaderLoaded | src/components/app/photo-upload.tsx:27-61 | the preview is always the data URI; the status becomes `success` exactly when the action succeeded with data and all four checks pass, otherwise `error`; `photoUrl` is set to the data URI only on success; the result is the returned data when there is any, else the failed analysis |
| Grouping.Bump | src/components/app/dashboard-charts.tsx:19-23 | after a bump the key has a counter of at least 1 |
| Grouping.TalliedStart | src/components/app/dashboard-charts.tsx:10-14 | a dictionary of distinct keys all at zero is an exact tally of nothing |
| Grouping.TallyStep | src/lib/stats.ts:33 | counting one more key keeps the tally exact: its counter goes up by one and a new key is added at the end |
| Grouping.NewKeys | src/lib/stats.ts:30-34 | the keys that enter the dictionary, each once, in the order of their first occurrence; every one of them occurs among the keys and was not there at the start |
| Grouping.NewKeysSnoc | src/lib/stats.ts:31-34 | one more key is appended to the new keys exactly when it is neither there at the start nor seen before |
| Grouping.OrderStep | src/lib/stats.ts:31-34 | one step of the counting loop appends the key to the dictionary's key order exactly when it is new |
| Grouping.Tally | src/lib/stats.ts:30-34 | after the loop the dictionary holds, for every key seen, its number of occurrences, the counters adding up to the number of keys; its key order is the starting keys followed by the new keys in first-occurrence order; keys present at the start stay |
| Grouping.ThreeKeysBound | src/components/app/dashboard-charts.tsx:17-35 | the occurrences of three distinct keys add up to at most the number of keys |
| DashboardCharts.UnitOf | src/components/app/dashboard-charts.tsx:18 | a missing or empty unit counts as `Outros`, any other as itself |
| DashboardCharts.Units | src/components/app/dashboard-charts.tsx:17-18 | the unit of each employee, in order |
| DashboardCharts.TransformDataForColorBars | src/components/app/dashboard-charts.tsx:8-36 | one row named `Total` whose three counters are the numbers of employees in `RIKAUTO`, `GESGLOBAL` and `ABRECOME`, adding up to at most the number of employees |
| DashboardCharts.CountStatus | src/components/app/dashboard-charts.tsx:39-40 | a status count is at most the list length |
| DashboardCharts.StatusPartition | src/components/app/dashboard-charts.tsx:39-40 | the `Ativo`, `Inativo` and `Suspenso` counts add up to the list length |
| DashboardCharts.GetCountByStatus | src/components/app/dashboard-charts.tsx:38-46 | the `Ativos` slice then the `Inativos` slice, with those counts; together they are the list length minus the `Suspenso` count |
| Dashboard.MetricsOf | src/components/app/dashboard-client.tsx:28-30 | the total is the list length; active and inactive are the `Ativo` and `Inativo` counts and add up to the total minus the `Suspenso` count |
| Dashboard.DashboardClient.LoadData | src/components/app/dashboard-client.tsx:14-26 | loading ends either way; an error keeps the list; otherwise the list is the table sorted by `nome` |
| Dashboard.DashboardClient.Cards | src/components/app/dashboard-client.tsx:28-32 | no cards while loading; afterwards the total is the list length and active plus inactive is at most the total |
| Dashboard.FirstLoadFails | src/components/app/dashboard-client.tsx:15-22 | a failed first load shows cards of zero |
| Stats.CompanyOf | src/lib/stats.ts:32 | a missing or empty unit counts as `Sem Empresa`, any other as itself |
| Stats.Companies | src/lib/stats.ts:31-32 | the company of each row, in order |
| Stats.Entries | src/lib/stats.ts:36-39 | one entry per dictionary key, in insertion order, with its counter |
| Stats.TotalCountEntries | src/lib/stats.ts:36-39 | the entries' counts add up to the dictionary's counters |
| Stats.EntriesOfTally | src/lib/stats.ts:30-39 | the list made from an exact tally names each company once, with its number of rows, names every company seen, and its counts add up to the number of rows |
| Stats.GroupByCompany | src/lib/stats.ts:30-39 | each company once, in the order it first appears among the rows, with its number of rows; every row's company is listed; the counts add up to the number of rows; no rows give `[]` |
| Stats.CompanyEntries | src/lib/stats.ts:30-39 | the list made from the exact tally of the rows' companies names each company once with its number of rows, names every row's company, and its counts add up to the number of rows |
| Stats.CompanyOrder | src/lib/stats.ts:30-39 | a dictionary filled in the order the companies first appear gives a list in that order |
| Stats.ActiveCount | src/lib/stats.ts:51-53 | the number of active badges is at most the number of badges |
| Stats.ActiveCountIsFilter | src/lib/stats.ts:51-53 | the active count is the number of badges whose `is_active` holds |
| Stats.CountBadges | src/lib/stats.ts:48-57 | the active counter is the number of active badges, and the two counters add up to the number of badges |
| Stats.FetchSupportStats | src/lib/stats.ts:15-65 | a failed count gives 0; a failed query leaves its part empty or zero; otherwise the grouping and counting above, each query on its own |
| Schemas.NomeIssues | src/lib/schemas.ts:7 | `nome` is flagged exactly when it is not a string of at least 2 characters |
| Schemas.EmailIssues | src/lib/schemas.ts:9-11 | `email` is flagged exactly when it is not a string of e-mail format |
| Schemas.BiNrIssues | src/lib/schemas.ts:14-16 | `bi_nr` is flagged exactly when it is not a string of at least 3 characters |
| Schemas.OptionalIssues | src/lib/schemas.ts:19-24 | an optional text field is flagged exactly when it is `null`; it may be absent |
| Schemas.StatusIssues | src/lib/schemas.ts:29 | `status` is flagged exactly when it is given and is neither `Ativo` nor `Inativo` |
| Schemas.AllIssues | src/lib/schemas.ts:4-32 | the fields named by the issues are the union of the fields each rule flags |
| Schemas.Validate | src/lib/schemas.ts:4-32 | the form is accepted exactly when every rule holds, and a rejection carries at least one issue; accepted values are the given ones: `nome`, `email` and `bi_nr` as given, each optional text field as given or absent, `status` defaulting to `Ativo`, and `expiry_date` and `photo_url` passed through whether absent, null or given |
| Schemas.IssuesNameFailingFields | src/lib/schemas.ts:4-32 | the issues name a field exactly when that field's rule fails |
| Schemas.PathsConcat | src/lib/schemas.ts:4-32 | the fields named by two issue lists together are the union of those each names |
| Schemas.SuspensoRejected | src/lib/schemas.ts:29 | a form whose status is `Suspenso` is rejected |
| Data.SampleIdsDistinct | src/lib/data.ts:3-64 | the five sample ids are pairwise distinct |
| Data.GetEmployeeById | src/lib/data.ts:66-68 | a result has the requested id and is a sample; there is no result exactly when no sample has that id |
| Data.GetEmployeeByIdFindsTheOne | src/lib/data.ts:66-68 | the lookup returns the sample with that id, which is therefore the first match in array order |
| Data.EverySampleFound | src/lib/data.ts:3-68 | every sample is found by its own id |
| Storage.Extension | src/lib/supabase/storage.ts:12 | the extension is the text after the last dot: it holds no dot, ends the name and, when the name has a dot, follows one; a name without a dot is its own extension |
| Storage.LastPieceIsSuffix | src/lib/supabase/storage.ts:12 | the last piece of a split ends the text; it is preceded by the separator when the text holds one, and is the whole text otherwise |
| Storage.SplitAtSeparator | src/lib/supabase/storage.ts:12 | splitting at a separator splits each side on its own |
| Storage.SplitWithoutSeparator | src/lib/supabase/storage.ts:12 | a text without the separator splits into itself |
| Storage.StoredNameKeepsExtension | src/lib/supabase/storage.ts:12-14 | the stored name is `<uuid>.<extension>`: it splits into exactly the identifier and the original extension, so the extension is kept |
| Storage.Bucket.Upload | src/lib/supabase/storage.ts:16-21 | with `upsert: false` an existing path is refused, as is any failed upload, and nothing changes; otherwise only that path is added |
| Storage.Bucket.UploadImage | src/lib/supabase/storage.ts:10-39 | a failed or refused upload throws `Supabase upload error: ` followed by the service's message and stores nothing; otherwise the file is stored under its new name, and the public address is returned, or the missing-address error thrown; nothing already stored is ever replaced |
| Text.ToLower | src/components/app/employees-client.tsx:55-56 | the lower-cased text has the same length and lower-cases each character |
| Text.IncludesIff | src/components/app/employees-client.tsx:55-56 | `includes` holds exactly when the term occurs at some position |
| Text.Split | src/components/app/employee-table.tsx:124 | `split` on one character gives at least one piece, and no piece holds the separator |
| Text.SplitJoin | src/components/app/employee-table.tsx:124 | joining the pieces back with the separator restores the text |
| Text.LexLeqTotal | src/lib/employees.ts:11 | any two names are ordered one way or the other |
| Text.LexLeqTransitive | src/lib/employees.ts:11 | the name order is transitive |

## Left out

- Network, authentication and the Supabase client are not modelled. Each backend call succeeds or fails as its parameters say, and a failure's message is an input.
- Nested joins are not modelled. `fetchScanLogs` and `fetchAllScanLogs` embed the badge's employee, and the model returns the scan rows without it. The join itself is modelled once, in `getCrachaDetails`.
- Rows with equal `scanned_at` or equal `nome` come out of the model's sort in one fixed order. The database may order such ties differently.
- Lower-casing covers ASCII letters only. `nome` is ordered by code point, with no database collation.
- Text length is counted in characters, not in UTF-16 code units.
- Toasts are modelled as their titles or a boolean. Descriptions, variants, durations and all rendering are not modelled. `ScanLogger` renders nothing, and that has no counterpart in the model.
- React scheduling is not modelled. Each handler, or each settled asynchronous step, is one method. Concurrent or interleaved handlers are not modelled.
- For geolocation, only the outcome is kept: unsupported, error, or a position. The high-accuracy, timeout and maximum-age options are not modelled.
- The `logSent` ref lives as long as the component instance. A change of `crachaId` on the same instance is not modelled separately: it logs nothing, like any later run.
- The photo analysis is an input, the action's reply. The analysis flow behind it is not part of this model.
- The `FileReader` becomes two methods: one when a file is chosen, one when the reader has loaded. The data URI is an input.
- The sign-in, settings, support, map, print and badge-verdict pages are not modelled. The verdict page's rules are not part of this model.
- `employee-table.tsx` uses its own row shape, with `name`, `photoUrl` and `expiryDate`. The model keeps that shape as it is, so the rows it loads are an input of `LoadSettled`. The same goes for `data.ts`, with its text ids.
- `CrachaRow` gives a new badge `is_active = true` and the database clock as `issued_at`. These are the table defaults, which are not in the shown files.
- `getCrachaDetails` does not select `funcionario_id`, so its result type leaves that column out.
- `fetchScanLogs` and `fetchAllScanLogs` select neither `cracha_id` nor, in `fetchScanLogs`, `user_agent`. The model returns whole `ScanLogRow`s, so its results carry those columns too.
- No page in the modelled sources mounts `ScanLogger`. The validation pages under src/app/validar neither mount it nor call `registrarScan`, so `RunEffect` models the component on its own, and whichever page mounts it is not part of this model.
- The schema library's default error messages are abstracted as problem kinds: required, wrong type, invalid option.
- The e-mail regular expression is a predicate parameter.
- `expiry_date` is carried as given. An invalid `Date` object is not modelled.
- The uuid generator is an input. `StoredNameKeepsExtension` assumes it contains no dot, as a version-4 UUID does not.
- The foreign key from `crachas.funcionario_id` to `Funcionarios` is not modelled. An insert for an employee who does not exist fails in the database, and the model counts that failure as a `fault`. So `Crachas.IssueInsertsOne` holds only for employees that exist.
- `EmployeeTable` (src/components/app/employee-table.tsx:73) takes no props. It renders the rows it fetches itself and ignores the `employees`, `onEditEmployee` and `onToggleStatus` the employees page passes it (src/components/app/employees-client.tsx:152-157). So the page's filtered list only decides between the table and the empty-state message. The rendered table never reaches the page's `handleEdit` and `handleToggleStatus`, which `EmployeesClient` models as they are written.
- The public address of an upload is an input. `cacheControl` is not modelled.
- `Crachas.CrachaTable.CreateCracha`, `Logs.ScanLogTable.RegistrarScan` and the other table methods assume the table's key constraints (`Valid()`) hold on entry. The database enforces these constraints, and every method keeps them.
