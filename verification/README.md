# Project-data pipeline of a portfolio site

This Dafny project models `lib/github.js` of a static portfolio site. That
file turns an owner's repository listing from the GitHub API into
render-ready project records. It has four parts:

- **Repository selection** (`fetchRepositories`). Forks and private
  repositories are dropped. The rest are ranked by stars, then by last
  update, and the list is cut to `maxRepos`.
- **Project normalisation** (the record built in `processRepositories`).
  This covers the slug, the humanised title, the description with its
  short form, the live URL and topic defaults, and the README with its
  front matter.
- **Batch mapping** (`processRepositories`). One record is built per
  selected repository, in selection order.
- **Catalog queries**: `getProjects`, `getProjectBySlug` and
  `getAllProjectSlugs`.

Everything is modelled with immutable datatypes and pure functions.

Each module follows one component:

- `Js`: `null`-able values, the `||` fallback on strings, and the end clamp of `slice`.
- `Http`: the reply to one request.
- `Repositories`: repository selection.
- `Text`: the slug, the title and the short description.
- `Projects`: the README step, the per-repository record and the batch.
- `Catalog`: the three public operations.

The upstream API is a parameter of type `Catalog.Upstream`. It holds the reply
to the listing request for an owner and a page size, and the reply to the
README request for an owner and a repository name. A reply is a response
with a status and a body, or a network error. The three libraries the file
calls (`gray-matter`, `marked`, and the base64 decoding through `Buffer`) are
the opaque functions of `Projects.Libraries`.

The model follows the code as written, in these points in particular:

- The slug replaces each character outside `[a-z0-9]` with one hyphen. It does not collapse runs.
- The short description always ends in `...`, even for short or empty text.
- Upstream failures are swallowed. The listing becomes `[]` and the README becomes `null`.
- `getProjectBySlug` lists 50 projects again and searches them. It does not look the repository up directly.
- `getAllProjectSlugs` uses the default page size of 10.

`Text.SlugNotInjective` shows that two distinct names (`my.site`,
`my_site`) share a slug. So a slug does not always identify one project.
`FindBySlug` then returns the first one in ranking order.

## Model

| member | source | states |
|---|---|---|
| `Js.Slice` | lib/github.js:50 | `slice(0, end)` is a prefix of its input: the first `end` elements, or all but the last `-end` when `end` is negative, clamped to the input's length |
| `Http.Payload` | lib/github.js:34-38 | a body is used exactly when the status is 2xx and the body could be read; every other reply leads to the failure path |
| `Repositories.Eligible` | lib/github.js:42 | the filter keeps exactly the non-fork, non-private repositories, each with its multiplicity in the input |
| `Repositories.EligibleAppend` | lib/github.js:42 | the filter keeps listing order: filtering a concatenation is the concatenation of the filtered parts |
| `Repositories.Insert` | lib/github.js:43-49 | inserting into a ranked sequence keeps it ranked and adds exactly one element |
| `Repositories.Sort` | lib/github.js:43-49 | the sort yields a permutation of its input that is ranked: more stars first, then the later update |
| `Repositories.PrefixIsSubMultiset` | lib/github.js:50 | a prefix holds no element more often than the whole, and a prefix of a ranked sequence is ranked |
| `Repositories.SliceOfSorted` | lib/github.js:43-50 | slicing the sorted sequence keeps it ranked, takes no element more often than the input, has the clamped length, and keeps everything when the limit covers the input |
| `Repositories.Select` | lib/github.js:41-50 | the selection holds only listed repositories taken from the input, is ranked, and has length `min(maxRepos, #eligible)`; when everything fits, it is a permutation of the eligible repositories |
| `Repositories.FetchRepositories` | lib/github.js:34-54 | any failed listing yields `[]`; otherwise the result has the selection's properties, with at most `maxRepos` entries |
| `Repositories.RankedAllPairs` | lib/github.js:43-49 | in a ranked sequence, the ranking holds for every pair of positions |
| `Repositories.InOrderTransitive` | lib/github.js:43-49 | the order the comparator sorts by is transitive |
| `Repositories.RankedPairwise` | lib/github.js:43-49 | in a ranked sequence every earlier repository may stand before every later one, not only neighbours |
| `Repositories.WithKeyAppend` | lib/github.js:43-49 | picking the repositories with one star/update key distributes over concatenation |
| `Repositories.WithKeyOfEligible` | lib/github.js:42-49 | picking the repositories that tie on one star/update key commutes with the filter |
| `Repositories.SingleRepoCommutes` | lib/github.js:42-49 | the same commutation for a single repository |
| `Repositories.InsertWithKey` | lib/github.js:43-49 | insertion puts a repository before every repository that ties with it |
| `Repositories.SortIsStable` | lib/github.js:43-49 | repositories that tie on stars and update time keep their listing order (the comparator returns 0 and the sort is stable) |
| `Repositories.SelectKeepsTiesInListingOrder` | lib/github.js:41-50 | among tied repositories, the ones kept are the first tied, non-fork, non-private repositories of the raw listing, in listing order |
| `Repositories.SelectKeepsAllThatFit` | lib/github.js:41-50 | when the listing holds at most `maxRepos` entries, every eligible repository is selected |
| `Repositories.RankedPrefixIsBest` | lib/github.js:43-50 | a prefix of a ranked sequence is ranked at or above every element left out |
| `Repositories.SelectKeepsTheBest` | lib/github.js:41-50 | every eligible repository cut off by `maxRepos` ranks at or below every repository kept |
| `Text.LowerCase` | lib/github.js:119 | `toLowerCase` keeps the length and lower-cases each character |
| `Text.HyphenateUnsafe` | lib/github.js:119 | each character outside `[a-z0-9]` becomes one `-`, and the others are kept |
| `Text.Slug` | lib/github.js:119 | the slug has the name's length, holds only `[a-z0-9-]`, and maps each character of the lower-cased name to itself when it is in `[a-z0-9]`, else to `-` |
| `Text.SlugIdempotent` | lib/github.js:119 | the slug of a slug is the slug |
| `Text.SlugFixedPoints` | lib/github.js:119 | a name is its own slug exactly when it is written over `[a-z0-9-]` |
| `Text.SlugNotInjective` | lib/github.js:119 | two distinct names can have the same slug |
| `Text.DashesToSpaces` | lib/github.js:120 | every `-` becomes a space, and nothing else changes |
| `Text.CapitalizeFrom` | lib/github.js:120 | the left-to-right scan of `\b\w` upper-cases a word character exactly when the character before it is not a word character (or, at the start, when the scan began at a boundary) |
| `Text.CapitalizeWords` | lib/github.js:120 | a character is upper-cased exactly when it is a word character at position 0 or after a non-word character |
| `Text.Humanize` | lib/github.js:120 | the derived title has the name's length; each word start is upper-cased, each `-` is a space, and everything else is kept |
| `Text.HumanizeHasNoHyphen` | lib/github.js:120 | the derived title holds no hyphen |
| `Text.HumanizeExample` | lib/github.js:120 | `y-z` becomes `Y Z` |
| `Text.ShortDescription` | lib/github.js:122 | the short form is the first `min(150, len(d))` characters of `d` followed by `...`, so it is at most 153 characters long and always ends with the ellipsis |
| `Text.ShortDescriptionKeepsShortText` | lib/github.js:122 | text of at most 150 characters is kept whole and still gets the ellipsis |
| `Projects.FetchReadme` | lib/github.js:63-89 | the README text is present exactly when the reply succeeded with content, and is then the decoded content |
| `Projects.RenderReadme` | lib/github.js:101-114 | no HTML and empty front matter for a missing or empty README; otherwise the rendered body and its front matter, or the whole text rendered when front-matter parsing throws |
| `Projects.Normalize` | lib/github.js:116-132 | the record: slug from the name; title from front matter, else the humanised name; description priority front matter, then repository, then placeholder; the short description derived from the description; live URL priority `live_url`, then homepage, then null; topics defaulting to `[]`; passthrough fields; README absent exactly when the lookup gave none or empty text |
| `Projects.ProcessRepositories` | lib/github.js:97-137 | one record per repository, with the same length and order: record i is built from repository i and its own README lookup |
| `Projects.ReadmeFailureIsIsolated` | lib/github.js:98-114 | a failed README lookup leaves that record without README or front matter and does not shorten the batch |
| `Projects.LongDescriptionIsCut` | lib/github.js:121-122 | a description of 150 characters or more gives a 153-character short description: the first 150 characters plus `...` |
| `Catalog.GetProjects` | lib/github.js:145-153 | an empty owner name or a failed listing gives `[]`; otherwise one record per selected repository, in order, all of them listed, at most `maxProjects` of them, and every earlier project ranked at or above every later one |
| `Catalog.FindBySlug` | lib/github.js:163 | null exactly when no project has the slug; otherwise the first project in list order that has it |
| `Catalog.GetProjectBySlug` | lib/github.js:161-164 | the project found has the slug and is the first project of the 50-project listing that has it; null exactly when no project of that listing has the slug |
| `Catalog.SlugPaths` | lib/github.js:173-175 | one path per project, in project order, each carrying that project's slug |
| `Catalog.GetAllProjectSlugs` | lib/github.js:171-176 | the slugs of the selected repositories' names in ranking order, at most 10 of them, and none for an empty owner name |
| `Catalog.ListedRepoIsSearched` | lib/github.js:161-163 | a listed repository on a page of at most 50 is among the projects that the slug lookup searches |
| `Catalog.EveryListedSlugResolves` | lib/github.js:161-176 | every path from `getAllProjectSlugs` is found by `getProjectBySlug` when the upstream answers consistently |
| `Catalog.EmptySlugIsNotFound` | lib/github.js:161-163 | the empty slug finds nothing when every listed repository has a name |

## Left out

- HTTP requests, the `Accept` and `Authorization` headers, the `GITHUB_TOKEN` lookup and `console` logging (lines 21-37, 52, 65-75, 86, 147) are I/O. The replies are the parameters of `Catalog.Upstream` instead.
- Base64 decoding, `gray-matter` and `marked` (lines 7-11, 83, 107-112) are foreign libraries. They are the opaque functions of `Projects.Libraries`. `marked` is taken never to throw. So the model leaves out two cases. One is an exception escaping the `catch` branch. The other is `marked(content)` throwing after `frontMatter = data` (lines 108-112): the parsed front matter would then stand next to the whole text rendered.
- `Promise.all` (line 98) is modelled as a sequential map, because only the output order is observable.
- `new Date(...)` (line 48) is not modelled. Timestamps are integers, both `updated_at` (which the sort parses) and `created_at` (which line 128 passes through as a string), so invalid dates (`NaN` comparisons) do not arise.
- Front matter values are strings. YAML numbers, booleans and lists, with their own truthiness, are not modelled.
- `Text.LowerCase`, `Text.CapitalizeWords`: case mapping covers ASCII letters only. GitHub repository names are ASCII, so full Unicode case mapping (`toLowerCase` of characters such as U+212A) is not modelled.
- Strings are sequences of Unicode scalar values, not UTF-16 code units. So `slice(0, 150)` counts characters, not code units.
- The rendering pages, components, the theme context and `next.config.js` are presentation or configuration. They are not part of this model.
