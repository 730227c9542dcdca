# setup-registry: a verified model of the action's pure core

`setup-registry` is a GitHub Action that starts a local Docker registry.
It has basic authentication and a local certificate authority. Most of
its work is process and filesystem orchestration. Four pieces of it are
pure string computations with exact behaviour, and this project models
and proves those four in Dafny:

- the `users` input parser (`users.dfy`, module `Users`): `split(",")`,
  `filter(Boolean)`, and `indexOf(":")` / `slice` per entry. This includes
  what JavaScript's `slice` does with the -1 that `indexOf` answers for an
  entry without a `:`;
- the registry configuration:
  - the template exported by `src/config.yml.ts` (`config_yml.dfy`, module
    `ConfigYml`);
  - the chain of four global replacements that fills in its placeholders
    (`config_render.dfy`, module `RegistryConfig`);
- the htpasswd file text (`htpasswd.dfy`, module `Htpasswd`): one trimmed
  line per user, joined with `"\n"`. The `htpasswd` container run that
  produces each line is a function parameter `hash`;
- the mkcert download address (`mkcert.dfy`, module `Mkcert`).

Module `JsStrings` (`js_strings.dfy`) models the ECMAScript string
operations these are built from:

- `indexOf`, `slice`, `split` and `join`;
- `replace` with a global regular expression that is a literal pattern;
- `trim`.

Edge cases are written out: the -1 of `indexOf`, `slice` counting negative
positions from the end, `"".split(",")` giving one empty part, and the
ECMAScript white-space and line-terminator set of `trim`.

An entry without `:` does not get an empty password. `indexOf` answers
-1, so the username is `slice(0, -1)`, the entry minus its last character,
and the password is `slice(0)`, the whole entry (`Users.ParseEntry`,
`Users.EntryWithoutColon`).

## Model

| member | source | states |
|---|---|---|
| JsStrings.IndexOf | src/main.ts:30-31 | `indexOf(":")` is -1 exactly when the character is absent; otherwise it is the position of its first occurrence. |
| JsStrings.RelativeIndex | src/main.ts:30-31 | A `slice` argument is clamped to `0..len`; a negative one counts back from the end. |
| JsStrings.Slice | src/main.ts:30 | `slice(start, end)` is the substring between the two positions; a negative end (the -1 case) ends that many characters before the end. |
| JsStrings.SliceFrom | src/main.ts:31 | `slice(start)` runs to the end; `slice(k)` for `0 <= k <= len` is the suffix from `k`. |
| JsStrings.Join | src/main.ts:171 | `join` of no parts is empty; a join starts with its first part, followed by the separator when there are more parts. |
| JsStrings.JoinAppend | src/main.ts:171 | Joining one more part appends the separator and that part. |
| JsStrings.Split | src/main.ts:29 | `split` gives at least one part; joining the parts with the separator gives the text back; no part holds the separator. |
| JsStrings.SplitAbsent | src/main.ts:29 | A text without the separator splits into itself alone. |
| JsStrings.SplitAtSeparator | src/main.ts:29 | Splitting `a + c + b` at `c` gives the parts of `a` followed by the parts of `b`. |
| JsStrings.SplitSeparatorsOnly | src/main.ts:29 | A text made only of separators splits into empty parts, one more than it has separators. |
| JsStrings.SplitJoin | src/main.ts:171 | `split` undoes `join` on a one-character separator that no part holds. |
| JsStrings.ReplaceAll | src/main.ts:56-59 | `replace(/pat/g, rep)` leaves a text without `pat` unchanged. |
| JsStrings.ReplaceAllIsSplitJoin | src/main.ts:56-59 | A global literal replace equals `split(pat).join(rep)`, so the text between occurrences is kept in order; the number of replacements is the number of parts minus one. |
| JsStrings.FreePrefix | src/main.ts:56-59 | Text that lacks the pattern's first character is passed over unchanged by the replace. |
| JsStrings.AroundChar | src/main.ts:56-59 | No occurrence spans a character the pattern lacks, so a replace on `a + c + b` is a replace on `a` and on `b` apart. |
| JsStrings.LeavesNoOccurrence | src/main.ts:56-59 | After replacing `pat`, neither `pat` nor any pattern absent before can occur, when the replacement does not hold that pattern's first character and the pattern does not hold the replacement's first character. |
| JsStrings.Trim | src/main.ts:168 | The result of `trim` neither starts nor ends with white space. |
| JsStrings.TrimSurrounded | src/main.ts:168 | `trim` removes only white space: the text is the trimmed text with white space before and after. |
| JsStrings.TrimPadded | src/main.ts:168 | A text with no white space at its ends is exactly what `trim` gives back from it padded with white space. |
| JsStrings.TrimIdempotent | src/main.ts:168 | Trimming twice is trimming once. |
| Users.Credential | src/main.ts:29-32 | The `{ username, password }` object the parser builds per entry. |
| Users.ParseEntry | src/main.ts:30-31 | With a `:`: the username holds no `:`, and `username + ":" + password` is the entry. Without one: the password is the whole entry and the username is the entry minus its last character (empty for an empty entry). |
| Users.NonEmpty | src/main.ts:29 | `filter(Boolean)` keeps exactly the non-empty parts, and no more of them than there were. |
| Users.NonEmptyAppend | src/main.ts:29 | `filter(Boolean)` of two lists joined is the two filtered lists joined, so input order is kept. |
| Users.Entries | src/main.ts:29 | Every entry is non-empty and holds no `,`. |
| Users.EntriesWithoutComma | src/main.ts:29 | A text without `,` is one entry, or none when it is empty. |
| Users.EntriesAtComma | src/main.ts:29 | The entries of `a + "," + b` are those of `a` followed by those of `b`. |
| Users.ParseUsers | src/main.ts:29-32 | There is one credential per entry, in order, each the entry's `ParseEntry`; no username or password holds a `,`. |
| Users.CommasOnly | src/main.ts:29 | A text made only of commas has no entries. |
| Users.NoEntries | src/main.ts:29-32 | An empty `users` input, or one of commas only, gives no users. |
| Users.ParseEntryFormatted | src/main.ts:30-31 | `username:password` with a username free of `:` parses back to that credential, however many `:` the password holds. |
| Users.EntriesOfJoin | src/main.ts:29 | Non-empty entries without `,` are recovered, in order, from their `,`-join. |
| Users.ParseFormat | src/main.ts:29-32 | Parsing the `users` text of credentials with no `:` in a username and no `,` anywhere gives back exactly those credentials, in order. |
| Users.EntryWithoutColon | src/main.ts:29-32 | A single entry without `:`, with commas around it, gives one user: username = entry minus its last character, password = the whole entry. |
| ConfigYml.Template | src/config.yml.ts:1-37 | The exported template: the 37 entries of `Lines` joined with `"\n"`; entry k is line k+1 of the file, the first and last empty. |
| ConfigYml.LinesWithoutPlaceholders | src/config.yml.ts:1-37 | The template has 37 lines; every line that is not a placeholder row holds neither `{` nor a line break. |
| ConfigYml.LinesWithPlaceholders | src/config.yml.ts:12-36 | Lines 12, 21, 30, 31 and 36 are each a prefix, one placeholder token and a suffix. |
| ConfigYml.LinesShaped | src/config.yml.ts:1-37 | The template's lines have that shape. |
| ConfigYml.TemplateLines | src/config.yml.ts:1-37 | `Template.split("\n")` gives the 37 lines back. |
| ConfigYml.CountJoin | src/config.yml.ts:1-37 | A pattern without a line break occurs in the joined lines as often as in the lines taken one by one. |
| ConfigYml.CountByRows | src/config.yml.ts:1-37 | A pattern starting with `{` occurs only on the five placeholder rows. |
| ConfigYml.CountInRow | src/config.yml.ts:12-36 | A placeholder row holds its own placeholder once and no other. |
| ConfigYml.ShapedCount | src/config.yml.ts:1-37 | In lines of the template's shape, `{{certs}}` occurs twice and every other placeholder once. |
| ConfigYml.ShapedBraces | src/config.yml.ts:1-37 | In lines of the template's shape, `{{` occurs five times. |
| ConfigYml.TemplatePlaceholders | src/config.yml.ts:1-37 | The template holds `{{data}}`, `{{addr}}` and `{{auth}}` once each, `{{certs}}` twice, and five `{{` in all. As `Count` counts non-overlapping matches from the left, that there is no other `{{` (not even an overlapping `{{{`) rests on `LinesShaped`: every other line is free of `{`. |
| ConfigYml.PlaceholderRows | src/config.yml.ts:12-36 | Where the placeholders stand: `{{data}}` on `rootdirectory` (line 12), `{{addr}}` on `addr` (line 21), `{{certs}}` on the two commented lines after `# tls:` (lines 29-31), and `{{auth}}` followed by `/htpasswd` (line 36). |
| RegistryConfig.Value | src/main.ts:56-59 | Every replacement value starts with `:` or `/` and holds neither `{` nor a line break. |
| RegistryConfig.Fill | src/main.ts:56-59 | One replacement step leaves no occurrence of its own placeholder and brings back none of the others. |
| RegistryConfig.Render | src/main.ts:55-59 | After the four replacements, no placeholder is left. |
| RegistryConfig.RenderUnchanged | src/main.ts:55-59 | A text without placeholders renders to itself. |
| RegistryConfig.RenderIdempotent | src/main.ts:55-59 | Rendering twice is rendering once. |
| RegistryConfig.RenderBraceFree | src/main.ts:55-59 | Text without `{` is left untouched. |
| RegistryConfig.FillAroundBreak | src/main.ts:55-59 | One replacement step works on each side of a line break apart. |
| RegistryConfig.RenderAroundBreak | src/main.ts:55-59 | Rendering works on each side of a line break apart. |
| RegistryConfig.RenderEach | src/main.ts:55-59 | Line `i` of the result is line `i` rendered. |
| RegistryConfig.RenderJoin | src/main.ts:55-59 | Rendering lines joined by `"\n"` is joining the rendered lines. |
| RegistryConfig.RenderRow | src/main.ts:55-59 | A row with one placeholder between text free of `{` renders to the same row with that placeholder's value in its place. |
| RegistryConfig.ShapedRender | src/main.ts:55-59 | Lines of the template's shape render line by line to the filled lines, none of which holds `{` or a line break. |
| RegistryConfig.RenderTemplate | src/main.ts:55-59 | The rendered configuration is the filled lines joined by `"\n"`; splitting it at line breaks gives them back; it holds no `{`. |
| RegistryConfig.RenderKeepsOtherLines | src/main.ts:55-59 | The rendered configuration has as many lines as the template, and every line without a placeholder is unchanged. |
| RegistryConfig.RenderedLines | src/main.ts:55-59 | The rendered lines read `rootdirectory: /var/lib/registry` and `addr: :5000` whatever the `port` input. `path: /auth/htpasswd` follows, and the `tls` block stays commented out. |
| Htpasswd.HtpasswdLines | src/main.ts:158-169 | There is one line per user, in user order, each the trimmed `htpasswd` output for that user. |
| Htpasswd.HtpasswdText | src/main.ts:171 | No users give the empty text; otherwise the text starts with the first user's line. |
| Htpasswd.HtpasswdSplit | src/main.ts:158-171 | When no line holds a line break, splitting the text at `"\n"` gives exactly one line per user, in order (for one user or more). |
| Htpasswd.HtpasswdAppend | src/main.ts:158-171 | One more user adds `"\n"` and that user's line at the end. |
| Htpasswd.PaddedOutput | src/main.ts:162-168 | Output with white space around a line, such as the trailing newline of `htpasswd -n`, is stored as the bare line. |
| Mkcert.Tag | src/main.ts:148-149 | The release tag is `v` followed by the version. |
| Mkcert.AssetName | src/main.ts:149 | The asset name starts with `mkcert-` and the tag. |
| Mkcert.DownloadUrl | src/main.ts:148-149 | The address is the release download path, `/`, the tag, `/` and the asset name. |
| Mkcert.PathSegments | src/main.ts:148-149 | Two segments without `/` added under a path are its last two `/`-segments. |
| Mkcert.UrlPath | src/main.ts:148-149 | With no `/` in the arguments, the address's last two `/`-segments are the tag and the asset name. |
| Mkcert.AssetNameParts | src/main.ts:149 | With no `-` in the arguments, the asset name splits at `-` into `mkcert`, the tag, the OS and the architecture. |
| Mkcert.ActionAsset | src/main.ts:68 | The action fetches tag `v1.4.4`, asset `mkcert-v1.4.4-linux-amd64`. |

## Left out

- Filesystem work is not modelled: `os.tmpdir`, `path.join`, `mkdirSync` and `writeFileSync` (src/main.ts:34-44, 48, 60). It is I/O.
- No shell-out is modelled. These are external processes:
  - `chmod`, `mkcert -install` and certificate issuance (src/main.ts:70-96);
  - the `cat` of the certificate files;
  - `docker run` of the registry (src/main.ts:101-117);
  - the `wget` download (src/main.ts:150).
- `downloadMkcert`'s return value, `path.join(process.cwd(), "mkcert")`, is not modelled. It depends on the working directory.
- Htpasswd.HtpasswdLines: the bcrypt hashing by `htpasswd -Bbn` in an `httpd:2` container is the parameter `hash`. Its output is random-salted and not modelled; only the trim, map and join around it are.
- `run` (src/main.ts:122-141) is not modelled. It is Promise handling plus `::group::` log lines.
- `setTimeout(1e3)` is not modelled: it is timing.
- The action's entry point is not modelled: `getInput` with its `||` defaults, `setFailed` and `process.exit` (src/main.ts:9-20). The `port` input reaches only the `docker -p` mapping, and `Render` takes no input but the template.
- src/post.ts is not part of this model. It saves a cache that src/main.ts never produces.
- JavaScript strings are sequences of UTF-16 code units, while a Dafny `string` is a sequence of Unicode scalar values. So `slice(0, -1)` on an entry ending in a character outside the Basic Multilingual Plane, which in JavaScript cuts a surrogate pair in half, is not modelled.
- Htpasswd.HtpasswdLines: `hash` is a function of the username and the password, so two identical credentials get identical lines in the model; `htpasswd -B` salts each run, so in the action they would differ. No property here depends on it.
- JsStrings.ReplaceAll: only literal patterns and replacement texts without `$` substitution patterns are modelled. Those are the only ones the action uses: `/{{addr}}/g` and the others match their braces literally under Annex B of ECMAScript.
- JsStrings.Split: only a non-empty string separator is modelled (the action splits on `","`); the empty separator and the `limit` argument are not.
- JsStrings.IndexOf: only a one-character search string is modelled (the action searches for `":"`).
- Mkcert.UrlPath: states the last two `/`-segments of the address. The segments of the fixed release path before them are not computed.
- Mkcert.DownloadUrl: the function computes the source's exact concatenation; its contract states that text in terms of the release path, the tag and the asset name.
