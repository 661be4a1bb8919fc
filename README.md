# Greenhouse Labs site core in Dafny

This project models the server-side logic of the Greenhouse Labs website, a
Next.js site. It covers five parts of that site:

- **The content layer** (`lib/content.ts`) reads blog posts and project
  write-ups from the `.mdx` files of two content directories. Its results are
  drafts filtered out, newest first, looked up by slug, and projected onto
  slugs.
- **`slugify`** (`lib/utils.ts`) turns a title into a URL slug.
- **The contact endpoint** (`app/api/contact/route.ts`) validates a project
  inquiry and forwards it to a spreadsheet webhook.
- **The newsletter endpoint** (`app/api/newsletter/route.ts`) validates an
  address and subscribes it with Buttondown.
- **The sitemap** (`app/sitemap.ts`) lists the fixed pages, then every listed
  post, then every project.

Modules:

- `SeqUtil` has an `Option` type and `Keep`, the model of `Array.prototype.filter`.
- `RegexClasses` has the ECMAScript `\s` and `\w` classes.
- `NewestFirst` is the stable newest-first sort. It has a functional
  definition, the in-place array insertion sort proved equal to it, and the
  proof that every stable newest-first ordering is that same sequence.
- `Content`, `Slug`, `EmailFormat`, `HttpResponse`, `ContactRoute`,
  `NewsletterRoute` and `Sitemap` model the parts listed above.

Inputs that come from outside the code are parameters:

- A content directory is `Option<seq<File<F>>>`. `None` means the directory
  does not exist. Otherwise it is the entries in `readdirSync` order, each
  already split by the front-matter parser into `data` and `content`.
- The reading-time library is a function `string -> string`.
- `new Date(s).getTime()` is a function `string -> int`.
- Each endpoint is a function of three inputs: the parsed request body, the
  environment setting (webhook URL or API key), and what the upstream service
  would answer. It returns the response and the one outbound request it made,
  if any.

The content layer does no validation of its own:

- it casts the parsed data to the front-matter type without any check, so
  every `.mdx` entry takes part (`lib/content.ts:25`, `lib/content.ts:80`);
- it lets a read error propagate.

## Model

| member | source | states |
|---|---|---|
| SeqUtil.Keep | lib/content.ts:110 | the kept elements all satisfy the predicate and there are no more of them than in the input |
| SeqUtil.KeepIsFilter | lib/content.ts:12 | a filter keeps the input order (subsequence) and keeps each satisfying element exactly as often as it occurs, dropping all others |
| NewestFirst.SortIsStableNewestFirst | lib/content.ts:37-41 | the sort is non-increasing by key, keeps every group of equal keys in input order, and is a permutation of the input |
| NewestFirst.StableNewestFirstIsUnique | lib/content.ts:37-41 | any ordering that is non-increasing by key and stable is exactly the sort's result, so any stable sort with this comparator gives the same list |
| NewestFirst.InsertInPlace | lib/content.ts:37-41 | one insertion step on the array: element i moves behind the last older-or-equal element, and the rest of the array is unchanged |
| NewestFirst.SortInPlace | lib/content.ts:37-41 | sorting the array in place leaves exactly the stable newest-first order of its old contents |
| Content.MdxFiles | lib/content.ts:10-13 | a missing directory gives no files; otherwise the result is exactly the entries whose names end in `.mdx`, in listing order, each kept as often as it occurs in the listing and every other entry dropped |
| Content.PublishedPosts | lib/content.ts:20-35 | every post kept is published and carries the reading time of its own body; every published file's post is kept |
| Content.PublishedPostsArePublishedFiles | lib/content.ts:20-35 | position by position, the kept posts are the published files' posts: each published file appears exactly once, in file order |
| Content.GetAllPosts | lib/content.ts:17-42 | the published posts are copied into a fresh array and sorted in place; the result is the stable newest-first order of the published posts |
| Content.AllPostsArePublishedNewestFirst | lib/content.ts:17-42 | `getAllPosts` is a permutation of the published posts ordered by date newest first, ties in listing order; no draft appears, and every reading time depends only on the post's body |
| Content.PostsAreThePublished | lib/content.ts:37-41 | sorting the posts neither adds nor loses one |
| Content.GetPostBySlug | lib/content.ts:44-63 | the result is the post of the first file in listing order whose slug matches, whether published or not; none when no file matches |
| Content.GetPostSlugs | lib/content.ts:65-67 | the slugs have the same length and order as `getAllPosts`, element i being post i's slug |
| Content.PostSlugsArePublishedSlugs | lib/content.ts:65-67 | a slug is listed exactly when some published `.mdx` file carries it, so a draft's slug is never listed |
| Content.GetAllProjects | lib/content.ts:71-90 | one project per `.mdx` file is copied into a fresh array and sorted in place; the result is the stable newest-first order by `updated_at` |
| Content.AllProjectsAreEveryFileNewestFirst | lib/content.ts:71-90 | no file is dropped: there are as many projects as `.mdx` files, the result is a permutation of them, newest first, ties in listing order |
| Content.ProjectsAreTheFiles | lib/content.ts:85-89 | sorting the projects neither adds nor loses one |
| Content.GetProjectBySlug | lib/content.ts:92-107 | the result is the project of the first file in listing order whose slug matches; none when no file matches |
| Content.GetFeaturedProjects | lib/content.ts:109-111 | the result is `getAllProjects` filtered on `featured` |
| Content.FeaturedProjectsAreTheFeaturedSubsequence | lib/content.ts:109-111 | every featured project is featured, their relative order is kept, and each featured project is kept as often as it occurs |
| Content.GetProjectSlugs | lib/content.ts:113-115 | the slugs have the same length and order as `getAllProjects`, element i being project i's slug |
| Content.ProjectSlugsAreFileSlugs | lib/content.ts:113-115 | a slug is listed exactly when some `.mdx` project file carries it |
| Slug.ToLowerCase | lib/utils.ts:18 | the length is kept, no upper-case ASCII letter is left, each upper-case letter becomes its lower-case letter and every other character is unchanged |
| Slug.StripSymbolsIsFilter | lib/utils.ts:19 | every character left is a word character, whitespace or a hyphen; the characters left keep their order, and each of them is kept exactly as often as it occurs while every other character is removed |
| Slug.CollapseShape | lib/utils.ts:20 | every character is a hyphen or a non-separator character of the input, and no two hyphens are adjacent |
| Slug.CollapseHeadHyphen | lib/utils.ts:20 | the output starts with a hyphen exactly when the input starts with a separator, and otherwise with the input's first character |
| Slug.CollapseWithoutSeparators | lib/utils.ts:20 | a string without whitespace, `_` or `-` is left unchanged |
| Slug.CollapseRun | lib/utils.ts:20 | a non-empty run of separators followed by a non-separator (or by nothing) becomes exactly one hyphen |
| Slug.CollapseSplit | lib/utils.ts:20 | collapsing distributes over a cut just after a non-separator, since no separator run spans it |
| Slug.CollapseBetween | lib/utils.ts:20 | a separator run between two pieces that do not touch it with separators becomes exactly one hyphen, and the pieces are collapsed on their own, so non-separators are kept in order |
| Slug.DropLeadingHyphens | lib/utils.ts:21 | only leading hyphens are removed, and the result does not start with one |
| Slug.DropTrailingHyphens | lib/utils.ts:21 | only trailing hyphens are removed, and the result does not end with one |
| Slug.TrimHyphensTrimsOnlyEnds | lib/utils.ts:21 | the result neither starts nor ends with a hyphen, and it is the input with its leading and trailing hyphens cut off and nothing else changed |
| Slug.TrimUnhyphenated | lib/utils.ts:21 | a string that neither starts nor ends with a hyphen is left unchanged |
| Slug.Slugify | lib/utils.ts:16-22 | the output holds only lower-case ASCII letters, digits and single hyphens, and neither starts nor ends with a hyphen |
| Slug.SlugifyJoinsWords | lib/utils.ts:16-22 | two words of ASCII letters and digits joined by any non-empty run of whitespace, `_` or `-` slugify to the lower-cased words joined by one hyphen |
| Slug.SlugifyHelloWorld | lib/utils.ts:16-22 | `"Hello World"` slugifies to `"hello-world"` |
| Slug.SlugifyKeepsAlnums | lib/utils.ts:19-21 | the letters and digits of the lower-cased input appear in the output in the same order, and nothing else but hyphens does |
| Slug.SlugifyFixesSlug | lib/utils.ts:16-22 | a string that already has the slug shape slugifies to itself |
| Slug.SlugifyIdempotent | lib/utils.ts:16-22 | slugifying twice gives the same as slugifying once |
| Slug.SlugifyWithoutAlnumsIsEmpty | lib/utils.ts:19-21 | an input with no ASCII letter or digit slugifies to the empty string |
| Slug.SlugifyOfSymbolsOnly | lib/utils.ts:19-21 | `"  --__!!"` slugifies to `""` |
| EmailFormat.EmailRegexCharacterisation | app/api/contact/route.ts:19 | the regex accepts an address exactly when it has no whitespace, exactly one `@` with a non-empty local part before it, and a `.` in the domain that is neither its first nor its last character |
| ContactRoute.Post | app/api/contact/route.ts:5-65 | statuses are 200, 400 or 500, and 200 exactly for a message; a body that is not valid JSON or is JSON `null` gives the generic 500; a request is forwarded exactly when the inquiry is valid and a webhook is configured, and then to that webhook; 400 exactly for an invalid inquiry |
| ContactRoute.MissingFieldIsRejectedFirst | app/api/contact/route.ts:11-25 | a missing or empty name, email, description or project type gives 400 "Please fill in all required fields." whatever the email looks like, and nothing is forwarded |
| ContactRoute.NonObjectBodyLacksRequiredFields | app/api/contact/route.ts:7-15 | a JSON body that is neither an object nor `null` (a number, string, boolean or array) has every field undefined and gets 400 "Please fill in all required fields.", not the generic 500 |
| ContactRoute.BadEmailIsRejected | app/api/contact/route.ts:19-25 | with the required fields present, the inquiry gets 400 "Please provide a valid email address." and is not forwarded exactly when the address is not well formed |
| ContactRoute.ConfiguredWebhookReceivesInquiry | app/api/contact/route.ts:27-64 | a valid inquiry is posted once with the seven fields, `""` standing for an absent or empty company, budget or timeline; only an ok answer gives the thank-you message, and anything else gives the generic 500 error, never the upstream status |
| ContactRoute.UnconfiguredWebhookStillThanks | app/api/contact/route.ts:45-57 | without a webhook a valid inquiry gets the thank-you message and nothing is sent |
| NewsletterRoute.Post | app/api/newsletter/route.ts:3-67 | statuses are 200, 400 or 500, and 200 exactly for a message; a body that is not valid JSON or is JSON `null` gives the generic 500; a subscription request with the address and the `website` tag is sent exactly when the address is present and valid and a key is configured; 400 exactly for a missing or invalid address |
| NewsletterRoute.MissingEmailIsRejected | app/api/newsletter/route.ts:8-13 | a missing or empty address gives 400 "Email is required." and nothing is sent |
| NewsletterRoute.NonObjectBodyLacksEmail | app/api/newsletter/route.ts:5-13 | a JSON body that is neither an object nor `null` has no `email` and gets 400 "Email is required.", not the generic 500 |
| NewsletterRoute.BadEmailIsRejected | app/api/newsletter/route.ts:15-21 | a present address gets 400 "Please provide a valid email address." and nothing is sent exactly when it is not well formed |
| NewsletterRoute.NotAnEmailIsRejected | app/api/newsletter/route.ts:15-21 | `"not-an-email"` is refused with 400 |
| NewsletterRoute.UnconfiguredProviderStillWelcomes | app/api/newsletter/route.ts:50-59 | without an API key a valid address gets "You're in!" and nothing is sent |
| NewsletterRoute.ConfiguredProviderDecides | app/api/newsletter/route.ts:25-66 | with a key, one request goes to the Buttondown subscribers URL with `Token <key>`, the address and the `website` tag; an ok answer gives "You're in!", a 400 whose body has a truthy `email` gives "You're already subscribed!", and every other answer gives the generic 500 error |
| Sitemap.Sitemap | app/sitemap.ts:6-34 | there are 6 + posts + projects entries: the six fixed pages with their frequencies and priorities, then a monthly 0.7 entry `/blog/<slug>` per post slug in order, then a monthly 0.8 entry `/projects/<slug>` per project slug in order |
| Sitemap.Sections | app/sitemap.ts:10-33 | only the blog entries have a URL under `/blog/` and only the project entries one under `/projects/` |
| Sitemap.BlogUrlListed | app/sitemap.ts:19-24 | a blog URL is in the sitemap exactly when its slug is one of the post slugs |
| Sitemap.ProjectUrlListed | app/sitemap.ts:26-31 | a project URL is in the sitemap exactly when its slug is one of the project slugs |
| Sitemap.SitemapListsOnlyPublishedPosts | app/sitemap.ts:7-24 | built from the content directories, the sitemap lists a post URL exactly when a published `.mdx` post carries that slug, so no draft is listed |
| Sitemap.SitemapListsEveryProject | app/sitemap.ts:8-31 | built from the content directories, the sitemap lists a project URL exactly when some `.mdx` project file carries that slug |

## Left out

- The filesystem is left out. `existsSync`, `readdirSync`, `readFileSync` and `path.join` become the given directory listing. A read error, which the code lets propagate, is not modelled.
- The front-matter parser (gray-matter) is left out: its output is the entry's `data` and `content`. Front matter with missing or mistyped fields is not modelled, and the model's typed fields stand for what the cast assumes. For example, a missing `published` or `featured` reads as false.
- The reading-time library and date parsing are opaque function parameters. A date that parses to `NaN`, which makes the comparator inconsistent, is not modelled.
- The JavaScript engine's own sort algorithm is not modelled. It is stable, so `NewestFirst.StableNewestFirstIsUnique` shows that its result is the one the insertion sort computes.
- Slug.ToLowerCase maps only the ASCII letters. JavaScript's `toLowerCase` maps every Unicode upper-case letter, and `slugify` strips most of the results again. Two exceptions are not modelled: the Kelvin sign U+212A becomes `k`, and U+0130 becomes `i` plus a combining dot.
- Request bodies that are valid JSON objects but carry non-string values in the form fields are not modelled. The contact handler would coerce them in the regex test, or throw in `substring`.
- Parsing the body is not modelled; its outcome is the handler's input. A body that is not valid JSON, or is JSON `null`, makes `request.json()` or the destructuring throw and is `None`. Any other JSON value that is not an object destructures to `undefined` in every field and is the request with every field `None`.
- `console.log` and `console.error` are output only and are left out, including the 100-character description excerpt the contact handler logs.
- `process.env` lookups become parameters, and so does `fetch`'s answer. A rejected `fetch` is `WebhookUnreachable` or `ProviderUnreachable`. The upstream body is reduced to whether it is readable and whether its `email` member is truthy.
- Outbound headers other than Buttondown's `Authorization` are not modelled. `Content-Type: application/json` is constant in both handlers.
- The sitemap's `lastModified: new Date()` reads the clock and is left out. Priorities are integer tenths rather than floating-point numbers.
- `cn` and `formatDate` in `lib/utils.ts` are left out. They wrap class-name merging and `Intl.DateTimeFormat`.
