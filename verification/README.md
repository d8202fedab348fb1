# kube-web-view: discovery and dispatch core, in Dafny

This project models the decision logic of kube-web-view's single module
`kube_web/__main__.py`: a read-only web view of a Kubernetes cluster that
learns at startup which resource kinds the cluster serves, registers one
resource type per kind, routes list and view requests to the right type, and
exports a listing as a tab-separated download.

The cluster and the HTTP layer are plain input values:

- The discovery documents are an `Api` value. It holds the core `v1` resource
  list and the `/apis` group list. Each group has a preferred version and a
  resource list per version. Every answer is either `Ok(body)` or `Failed`
  (a status for which `raise_for_status` raises).
- The queries pykube runs (`as_table`, `get`) are function parameters:
  `tables: Query -> Table` and `objects: (Query, string) -> Option<Object>`.
  `None` stands for `ObjectDoesNotExist`.
- The response stream is the sequence of chunks handed to `response.write`.

Modules, one per file:

- `common.dfy`: `Option` and `Result`.
- `strings.dfy`: the Python string operations the handlers use:
  `split(",")`, `"\t".join`, `strip("/")` and `replace("/", "_")`, with their
  round trips.
- `discovery.dfy`: `discover_api_resources`. It has two parts:
  - the loop as the source runs it, with the per-group state of emitted
    entries, the `yielded` name set and the `non_preferred` buffer;
  - a declarative reference definition, proved equal to the loop.
- `registry.dfy`: the handle record, `get_namespaced_resource_types`, and the
  loop that splits handles into `cluster_resource_types` and
  `namespaced_resource_types`.
- `tsv.dfy`: the `ResponseWriter` buffer/flush state machine, `as_tsv`, the
  tab-separated text and its parse-back, and the file name and headers of
  `download_tsv`.
- `dispatch.dfy`: first-match lookup by endpoint, the four list and view
  handlers, the comma-separated multi-kind listing, the `download=tsv`
  trigger and the namespace of a cluster-scoped view.

Behaviour of the code worth noting:

- Discovery does not guarantee one entry per resource name and group. Two
  non-preferred versions that both serve a name the preferred version did not
  yield each emit it (`Discovery.DuplicateNonPreferredKept`). Two entries
  of the same name inside the preferred version's list are both emitted too.
- The namespaced instance view does not catch `ObjectDoesNotExist`, so it
  gives no "Resource does not exist" 404. The model returns
  `Unhandled("ObjectDoesNotExist")` there.
- An export of a table with no rows sends nothing, not even the header. This
  is reported under Findings below.

## Model

| member | source | states |
|---|---|---|
| `Discovery.ListedMembers` | kube_web/__main__.py:35-42 | A resource list yields only listable entries, each tagged with the list's version and the resource's own scope flag. Every listable resource is among them. |
| `Discovery.ListedAppend` | kube_web/__main__.py:35-42 | Entries are yielded in the order of the resource list. |
| `Discovery.DiscoverOnlyListable` | kube_web/__main__.py:37-41 | Discovery never emits a subresource (a "/" in the name). It never emits a resource that lacks the "get" verb or the "list" verb. |
| `Discovery.DiscoverCoreFirst` | kube_web/__main__.py:32-42 | Core entries come first and in listing order. Each is tagged "v1". None of them is deduplicated. |
| `Discovery.DiscoverIsSpec` | kube_web/__main__.py:31-70 | Discovery succeeds exactly when every request succeeds. Its result is then the core entries followed by each group's entries, group by group. |
| `Discovery.DiscoverFailureNamesRequest` | kube_web/__main__.py:33-54 | A failed discovery has no result. Its error names a request that failed: "v1", "/apis" or a group version. |
| `Discovery.CollectResourcesEffect` | kube_web/__main__.py:55-67 | The inner loop appends a preferred version's listable resources to the output and records their names. Any other version's listable resources go to the buffer. |
| `Discovery.CollectVersionsEffect` | kube_web/__main__.py:50-67 | The version loop fails exactly when one of its requests fails. Otherwise it has gathered all preferred entries and all other entries, each in discovery order. |
| `Discovery.DiscoverGroupIsSpec` | kube_web/__main__.py:46-70 | One group's output is all preferred-version entries, then every non-preferred entry whose name the preferred version did not yield. |
| `Discovery.DiscoverGroupsIsSpec` | kube_web/__main__.py:46-70 | The group list succeeds exactly when every version request of every group succeeds. Its output is the groups' outputs in order. |
| `Discovery.NotYielded` | kube_web/__main__.py:68-70 | An entry survives the final buffer pass exactly when its name is not in `yielded`. |
| `Discovery.PreferredAlwaysEmitted` | kube_web/__main__.py:61-63 | A listable preferred-version resource is always emitted, and its name is recorded as yielded. |
| `Discovery.OtherEmittedUnlessYielded` | kube_web/__main__.py:64-70 | A listable non-preferred resource is emitted exactly when the preferred version yielded no resource of that name. |
| `Discovery.PreferredComeFirst` | kube_web/__main__.py:61-70 | Within a group, the preferred-version entries come first. Every entry after them belongs to another version. |
| `Discovery.GroupsIndependent` | kube_web/__main__.py:46-49 | `yielded` is reset per group. Each group's output depends on that group alone. |
| `Discovery.DuplicateNonPreferredKept` | kube_web/__main__.py:64-70 | In any group whose requests succeed, a name that two different non-preferred versions serve with listable resources, and that the preferred version did not yield, is emitted twice: one entry per version. |
| `Discovery.DuplicateNonPreferredExample` | kube_web/__main__.py:46-70 | An instance: with preferred "example.io/v2" serving nothing, a resource served by "example.io/v1" and "example.io/v1beta1" comes out as exactly those two entries, in version order. |
| `Registry.ResourceTypes` | kube_web/__main__.py:89-100 | There is one handle per discovered triple, in order. Each handle has endpoint = name, the triple's kind, version = apiVersion and the triple's scope. |
| `Registry.ScopedMembers` | kube_web/__main__.py:106-110 | A handle is in a scope's list exactly when it is a handle of that scope. |
| `Registry.ScopedAppend` | kube_web/__main__.py:106-110 | Each list keeps the discovery order of its handles. |
| `Registry.PartitionIsPermutation` | kube_web/__main__.py:103-110 | The two lists together hold every handle exactly as often as it was discovered. |
| `Registry.Populate` | kube_web/__main__.py:103-110 | The append loop builds exactly the cluster-scoped list and the namespaced list. |
| `Registry.StartupPlacesEveryEntry` | kube_web/__main__.py:89-110 | The registry exists exactly when discovery succeeds. A namespaced triple's handle is then in the namespaced list, and any other triple's handle is in the cluster list. |
| `Registry.StartupHandlesAreDiscovered` | kube_web/__main__.py:89-110 | Every registered handle comes from a discovered triple of its own scope. |
| `Dispatch.FindIndex` | kube_web/__main__.py:163-166 | The lookup loop stops at the first resource type whose endpoint is the plural. It finds nothing only when no type has that endpoint. |
| `Dispatch.Find` | kube_web/__main__.py:162-168 | Lookup finds a type with that endpoint that no earlier type shares. It finds nothing exactly when no type has the endpoint. |
| `Dispatch.FindFirstWins` | kube_web/__main__.py:163-166 | Duplicates are tolerated: a type found in a prefix of the list is the type found in the whole list. |
| `Dispatch.ClusterResourceList` | kube_web/__main__.py:158-172 | The only error is 404 "Resource type not found", given exactly when no cluster-scoped type has the endpoint. Otherwise the first such type's unfiltered table is a TSV download of the request path when `download=tsv`, and else the single table of a page with no namespace, for the same cluster and plural. |
| `Dispatch.ClusterResourceView` | kube_web/__main__.py:178-204 | The only errors are 404 "Resource type not found" for an unknown plural and 404 "Resource does not exist" for a missing instance. When the type and the instance are both found, the response is a page for the same cluster and plural holding that instance and the `view` parameter. Its namespace is the instance's own name exactly when the type's kind is "Namespace", and none otherwise. |
| `Dispatch.ResolveAll` | kube_web/__main__.py:248-255 | Either every segment resolves, to its first-match type and in segment order, or the result is nothing. |
| `Dispatch.GatherTables` | kube_web/__main__.py:247-261 | The segment loop comes out empty-handed exactly when some segment has no type. Otherwise it has appended, after the tables it started with, one table per segment in segment order: the table of that segment's first-match type in the namespace, filtered by the selector when one is given. |
| `Dispatch.GatherIsResolveThenQuery` | kube_web/__main__.py:247-261 | Interleaving lookups and queries gives the same outcome as resolving every segment first and then querying each resolved type. |
| `Dispatch.NamespacedResourceList` | kube_web/__main__.py:242-269 | The only error is 404 "Resource type not found", given exactly when some comma-separated segment names no namespaced type. When every segment resolves, `download=tsv` gets a TSV download of the first segment's table. Any other request gets a page for the same cluster, namespace and plural with one table per segment, in segment order. |
| `Dispatch.NamespacedResourceView` | kube_web/__main__.py:275-295 | The only error status is 404 "Resource type not found", given exactly when the plural is unknown. A missing instance is left uncaught. When type and instance are found, the response is the page for the same cluster, namespace and plural with that instance and `view`. |
| `Dispatch.CoreResourceResolves` | kube_web/__main__.py:242-269 | A namespaced, listable core resource ends up in the namespaced list. Listing it in a namespace yields exactly the cluster's table for that namespace. |
| `Tsv.Write` | kube_web/__main__.py:212-213 | `write` sends nothing and appends its text to what was written. |
| `Tsv.Flush` | kube_web/__main__.py:215-217 | `flush` sends the buffer as one chunk and empties it. Nothing written is lost or reordered. |
| `Tsv.WriteRows` | kube_web/__main__.py:223-225 | The row loop sends one chunk per row and leaves the buffer empty after at least one row. The contents grow by the rows' text. |
| `Tsv.AsTsv` | kube_web/__main__.py:220-225 | The output is the header record, then each row, tab-joined and newline-terminated. With zero rows nothing is flushed and the header stays in the buffer. |
| `Tsv.WriteRowsChunks` | kube_web/__main__.py:223-225 | The pending buffer goes out with the first row. Each later chunk is exactly one row. |
| `Tsv.AsTsvChunks` | kube_web/__main__.py:220-225 | On a new writer, chunk 0 is the header line plus row 0. Chunk i is row i. |
| `Tsv.ZeroRowsSendNothing` | kube_web/__main__.py:220-225 | As written, a table with no rows sends an empty body, although its text (the header line) is not empty. That text is left in the buffer. |
| `Tsv.Stream` | kube_web/__main__.py:220-225 | With a final flush, the chunks sent are exactly the table's text, with or without rows. |
| `Tsv.ParseRender` | kube_web/__main__.py:221-224 | Reading an export back gives the column names and the rows' cells it was made from. |
| `Tsv.ExportExample` | kube_web/__main__.py:220-225 | Columns NAME, AGE and rows (a, 1d), (b, 2d): the chunks `as_tsv` sends on a new writer join to "NAME\tAGE\na\t1d\nb\t2d\n". |
| `Tsv.Filename` | kube_web/__main__.py:231-232 | The file name contains no "/". It is empty exactly when the path is all slashes. Otherwise it is the stripped path with each "/" turned into "_". |
| `Tsv.FilenameAvoids` | kube_web/__main__.py:232 | A character that is not in the path and is not "_" is not in the file name either. |
| `Tsv.DispositionReadBack` | kube_web/__main__.py:231-233 | For a path without a double quote, a client reading the `Content-Disposition` value (after `attachment; filename="`, up to the first closing quote) gets the path's file name followed by ".tsv", with no "/" in it. |
| `Tsv.QuoteTruncatesName` | kube_web/__main__.py:231-233 | The file name is quoted without escaping: for the path `/a"b` the file name is `a"b`, and a client reading the header gets only `a`. |
| `Tsv.Body` | kube_web/__main__.py:220-225 | With the corrected final flush of `Tsv.Stream`, the chunks of a download join to the table's text, header included. |
| `Tsv.BodyAgainstAsTsv` | kube_web/__main__.py:220-236 | For a table with rows, the download sends exactly the chunks `as_tsv` sends on a new writer. For a table without rows, `as_tsv` sends no chunk, and the corrected body sends the header line as its single chunk. |
| `Strings.Split` | kube_web/__main__.py:248 | `split(",")` always gives at least one piece, and no piece contains ",". |
| `Strings.JoinSplit` | kube_web/__main__.py:248 | Re-joining the pieces of a split gives back the plural. |
| `Strings.SplitJoin` | kube_web/__main__.py:221-224 | Splitting a join of separator-free pieces gives back the pieces. |
| `Strings.Strip` | kube_web/__main__.py:232 | `strip("/")` removes only slashes, from both ends. What remains neither starts nor ends with a slash. |
| `Strings.Replace` | kube_web/__main__.py:232 | `replace("/", "_")` keeps the length, maps each character and leaves no "/". |

## Findings

| source | as written | input that shows it | evidently intended | confidence | as-written member | corrected member |
|---|---|---|---|---|---|---|
| kube_web/__main__.py:220-225 | The header record goes into the `ResponseWriter` buffer. It is flushed only together with the first row, and nothing is flushed after the row loop. | A listing with columns NAME, AGE and no rows: no chunk is sent, so the downloaded file is empty. | The file holds the header line "NAME\tAGE\n", because the buffer is flushed once more after the loop. | not executed; high, since the buffer is plainly dropped | `Tsv.ZeroRowsSendNothing` | `Tsv.Stream` |

The download body (`Tsv.Body`) uses the corrected `Tsv.Stream`.

## Left out

- Credential loading, the kubeconfig fallback and the HTTP client (kube_web/__main__.py:22-28). These are I/O and library setup, so the cluster's answers are input values.
- Routing, templates, static assets, the index redirect, the cluster list and cluster pages, the health check, and the application bootstrap (kube_web/__main__.py:112-113, 130-152, 298-300, 315-326). These are transport and rendering.
- The `context()` decorator (kube_web/__main__.py:115-127). It performs a live namespace fetch and only adds template context.
- The YAML and syntax-highlighting template filters (kube_web/__main__.py:303-312). These are rendering.
- pykube's `as_table`, `filter` and `get`. They are function parameters of the handlers, so server-side projection and selector matching are not modelled. Errors they raise other than `ObjectDoesNotExist` are not modelled either; such an exception would propagate out of the handler.
- Malformed discovery documents (missing keys, non-JSON bodies). The model takes the documents as well-formed values.
- The cost of the queries in the multi-kind listing. `Dispatch.GatherTables` interleaves lookups and queries as the source does, but the queries are pure function parameters, so their order and any work done before a later segment's lookup fails cannot be observed.
- The debug logging in discovery (kube_web/__main__.py:52).
- Async suspension, streaming back-pressure and cancellation. `flush` is an append to the sequence of sent chunks, and UTF-8 encoding of the chunks is not modelled.
- Tsv.AsTsv: requires plain cells. The csv module's quoting is not modelled, so cells may not contain a tab, newline, carriage return or double quote. A record may not be a single empty cell, which the csv module writes as `""`. Cells are display strings, so the `str()` conversion of non-string cells is not modelled.
- Tsv.Stream: requires plain cells, for the same reason as `Tsv.AsTsv`.
- Tsv.Body: requires plain cells, for the same reason as `Tsv.AsTsv`. It also follows the corrected stream: for a table with no rows it sends the header line, where line 235 as written sends nothing (see Findings and `Tsv.BodyAgainstAsTsv`).
- Tsv.DispositionReadBack: requires a path without a double quote. The source puts the file name between quotes without escaping, so for such a path the value a client reads is cut at the first quote of the name (`Tsv.QuoteTruncatesName`). Escaping is not modelled because the source does none.
- Tsv.ParseRender: also requires at least one column and one cell per row. A record with no cells is written as an empty line, and that line reads back as one empty cell.
