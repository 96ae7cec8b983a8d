# Deployment discovery and status model

This project models `deploy_all.py`, the script that deploys migration
projects for a fixed list of customers. The script has four pieces of logic
of its own, and the model covers all four:

- **Source-folder selection.** For each customer, the script picks the first
  `srcdata` folder whose path has the customer name as one whole component.
- **Project names.** Every CSV stem in that folder loses each `" (ADD1)"` and
  then each `" (ADD2)"`, the way Python's `str.replace` does it. Names that
  contain `_` go into the `multi_projects` dict, keyed by the name, with the
  text after the first `_` as the value. The project list keeps the text
  before the first `_`.
- **Mapping names.** Every CSV stem in the sibling `mappings` folder loses its
  first 8 characters.
- **The customer loop.** The run stops if the base folder is missing or no
  `srcdata` folder exists. Otherwise every customer with a folder gets one
  entry in the `status` dict: `"ok"`, `"precheck not successfull"` (the
  script's own spelling), or a traceback text.

Everything outside the script is an input:

- **Filesystem** (`FileSystem`): whether the base folder exists, the
  `rglob("srcdata")` result in traversal order, and the stems of the regular
  `*.csv` files in each folder.
- **Library** (`LibraryRun`): for each iteration, what the precheck returned
  or raised, and whether one of the seven operations after it raised.

Modules:

- `Strings` (strings.dfy): the Python string operations the script uses.
- `Dicts` (dicts.dfy): a Python dict that keeps insertion order.
- `Discovery` (discovery.dfy): folder selection, project, multi-project and
  mapping derivation.
- `Deploy` (deploy.dfy): the abort checks and the customer loop, written as
  an imperative method (`DeployAll`) proved equal to a specification function
  (`Deployment`).
- `Options` (options.dfy): the usual optional value.

Where the script and a plain reading of its intent differ, the model follows
the script:

- The project list is a list, not a set. Duplicates and order are kept.
- A missing `mappings` folder gives an empty mapping list. The guard
  `if not mappingfolder` can never fire, because a `Path` is always truthy.
- A customer without a matching folder gets no status entry at all.
- Stripping the markers does not always leave a name free of markers.
  Python's `replace` can join the text around a removed marker into a new
  one: `" (AD (ADD1)D1)"` becomes `" (ADD1)"`. `MarkerCanSurviveStrip`
  proves this. So the strip is not idempotent: a second strip of that stem
  gives `""` (`StripNotIdempotent`).

## Model

| member | source | states |
|---|---|---|
| `Strings.RemoveAll` | deploy_all.py:66 | `s.replace(pat, "")` never makes the text longer and leaves text without an occurrence of `pat` unchanged |
| `Strings.RemoveAllSkipsPrefix` | deploy_all.py:66 | the left-to-right scan keeps any leading text that holds no first character of the pattern |
| `Strings.RemoveAllLeftToRight` | deploy_all.py:66 | occurrences are removed left to right without overlap: "aaa" minus "aa" is "a" |
| `Strings.RemoveAllJoin` | deploy_all.py:66 | when no occurrence starts inside `pre`, removing from `pre + pat + post` gives `pre` followed by the removal from `post`; with the identity on text without `pat`, this describes `replace(pat, "")` for any number of occurrences, and shows removal can join its neighbours into a new occurrence |
| `Strings.Before` | deploy_all.py:77 | `split("_", 1)[0]` is a prefix of the text that holds no `_`, ends just before the first `_`, and is the whole text exactly when there is no `_` |
| `Strings.After` | deploy_all.py:74 | `split("_", 1)[1]`, defined only when `_` occurs, is what follows the head and the first `_` |
| `Strings.SplitJoin` | deploy_all.py:74-77 | splitting `head + "_" + tail` at the first `_`, for a head without `_`, gives back `head` and `tail` |
| `Strings.BeforeIdempotent` | deploy_all.py:77 | splitting a project name a second time changes nothing |
| `Strings.DropFirst` | deploy_all.py:86 | `s[8:]` is the suffix of `s` of length `max(0, len(s) - 8)` |
| `Dicts.Dict.Put` | deploy_all.py:74 | `d[k] = v` sets `k`, keeps every other key and value, appends a new key at the end of the order and keeps the place of an existing key |
| `Dicts.Empty` | deploy_all.py:71 | `{}` is a well-formed dict with no keys |
| `Discovery.CsvStems` | deploy_all.py:60-62 | the `.stem`s of the regular `*.csv` files of a folder (here and at lines 85-88), taken from the filesystem input; a folder that is not there gives none. No contract of its own: `DiscoveredProjects` and `DiscoveredMappings` state what is made of it |
| `Discovery.Matching` | deploy_all.py:50-52 | the comprehension keeps exactly the folders that have the customer as a whole component |
| `Discovery.SelectFolder` | deploy_all.py:50-56 | there is no folder exactly when no candidate has the customer as a component; a chosen folder is a candidate that has it |
| `Discovery.SelectFolderIsFirst` | deploy_all.py:50-56 | the chosen folder is the first candidate, in input order, that has the customer as a component |
| `Discovery.SubstringDoesNotMatch` | deploy_all.py:51 | a component that only contains the customer name, such as "sibax" for "siba", does not match |
| `Discovery.StripMarkers` | deploy_all.py:65-68 | the marker strip never makes a stem longer and leaves a stem without either marker unchanged |
| `Discovery.NormalizedStems` | deploy_all.py:65-68 | the stripped list has the same length and order as the stems, entry by entry |
| `Discovery.ProjectNames` | deploy_all.py:77 | the project list has the same length and order as its input; each entry has no `_`, is a prefix of its name, and equals the name exactly when the name has no `_` |
| `Discovery.MultiProjects` | deploy_all.py:71-74 | the dict built by the loop is well formed |
| `Discovery.CollectMultiProjects` | deploy_all.py:71-74 | the imperative loop builds exactly the dict `MultiProjects` describes |
| `Discovery.Underscored` | deploy_all.py:72-73 | the names for which `"_" in project` holds, in order: exactly the names that contain `_` |
| `Discovery.MultiProjectsOrder` | deploy_all.py:71-74 | the keys of `multi_projects`, in the order the library receives them at line 101, are the names that contain `_`, each once, in order of first appearance |
| `Discovery.MultiProjectsKeys` | deploy_all.py:71-77 | the keys are exactly the names that contain `_`; each value is the text after the first `_`, and each key is its project entry, `_` and its value |
| `Discovery.PlainStemUnchanged` | deploy_all.py:65-77 | a stem with no marker and no `_` reaches the project list unchanged and is not a key of `multi_projects` |
| `Discovery.ProjectNamesIdempotent` | deploy_all.py:77 | applying the underscore split to the project list again changes nothing |
| `Discovery.OtherMarkerUntouched` | deploy_all.py:66 | removing " (ADD2)" leaves " (ADD1)" as it is |
| `Discovery.MarkerCanSurviveStrip` | deploy_all.py:66 | the full strip turns the stem " (AD (ADD1)D1)" into " (ADD1)", which still contains the marker |
| `Discovery.StripNotIdempotent` | deploy_all.py:66 | stripping " (AD (ADD1)D1)" twice gives "", which differs from stripping it once |
| `Discovery.ExampleStrip` | deploy_all.py:66 | "ProjA (ADD1)" becomes "ProjA" |
| `Discovery.VariantSharesProject` | deploy_all.py:77 | a project `a`, its variant `a + "_" + ext` and another project `c`, neither with `_`, give the projects `a`, `a`, `c`: the duplicate is kept |
| `Discovery.ExampleMappings` | deploy_all.py:85-89 | "mapping_foo" gives "foo" and a stem shorter than 8 characters gives "" |
| `Discovery.Parent` | deploy_all.py:80 | `.parent` (also at line 100) followed by the last component gives the path back; the empty path `Path(".")` is its own parent |
| `Discovery.MappingsFolder` | deploy_all.py:80 | the mappings folder is a sibling of the `srcdata` folder, named "mappings" |
| `Discovery.MappingFields` | deploy_all.py:85-89 | the mapping list has the same length and order as the stems; each entry is the stem without its first `min(8, len)` characters |
| `Discovery.Discover` | deploy_all.py:60-103 | the arguments handed to the library for a selected folder. No contract of its own: `DiscoveredProjects`, `DiscoveredMappings` and `MultiProjectsOrder` state what they are |
| `Discovery.DiscoveredProjects` | deploy_all.py:60-77 | the library gets one project per CSV stem, in order, each the stripped stem cut at its first `_`, and a multi-project entry for exactly the stripped stems that contain `_` |
| `Discovery.DiscoveredMappings` | deploy_all.py:80-100 | the library gets one mapping field per stem of the sibling `mappings` folder, in order, each without its first 8 characters, and the parent of the `srcdata` folder as its project directory |
| `Deploy.TracebackText` | deploy_all.py:121 | an error text is never "ok" and never "precheck not successfull" |
| `Deploy.AllOk` | deploy_all.py:106 | the `all(...)` test over the precheck values, true of an empty result. No contract of its own: `CustomerStep` and `EmptyPrecheckRunsOperations` state what it decides |
| `Deploy.CustomerStep` | deploy_all.py:49-121 | one iteration: skipped exactly when no folder matches; otherwise the status is "ok" exactly when the precheck returned only "ok" and no operation raised, "precheck not successfull" exactly when some precheck value differs, and the traceback otherwise; the operations start exactly when the precheck returned only "ok" |
| `Deploy.EmptyPrecheckRunsOperations` | deploy_all.py:105-114 | a precheck that reports on no item starts the operations, and the customer is "ok" exactly when none of them raises |
| `Deploy.DeployCustomer` | deploy_all.py:34-122 | the imperative body of the `try` for one customer ends in exactly the step `CustomerStep` describes |
| `Deploy.Loop` | deploy_all.py:30-122 | the `status` dict and the library calls after the iterations for a customer list. No contract of its own: `LoopValid`, `LoopStatusKeys`, `LoopCalls` and `LoopLastWrite` state what it builds |
| `Deploy.LoopValid` | deploy_all.py:30-122 | every `status` dict the loop builds is well formed: each key once, and exactly the listed keys have values |
| `Deploy.Deployment` | deploy_all.py:17-32 | the run stops before any customer exactly when the base folder is missing or no `srcdata` folder exists, for the first of those reasons that holds |
| `Deploy.DeployAll` | deploy_all.py:17-122 | the imperative script, customer by customer, ends in exactly the state `Deployment` describes |
| `Deploy.Matched` | deploy_all.py:50-55 | the customers that reach the library are exactly the listed ones with a folder |
| `Deploy.LoopStatusKeys` | deploy_all.py:30-121 | the keys of `status` are the customers with a folder, in order of first appearance in the list, each once |
| `Deploy.LoopCalls` | deploy_all.py:94-103 | the library is constructed, or its construction attempted, once per customer with a folder, in list order; every call is for a customer that has a folder and carries the arguments discovered in that folder (`CallFits`) |
| `Deploy.LoopFrame` | deploy_all.py:114-121 | one iteration writes its text under its own customer and keeps every other customer's entry as it was |
| `Deploy.LoopLastWrite` | deploy_all.py:114-121 | a customer's entry is the text its last iteration wrote |
| `Deploy.StatusMeaning` | deploy_all.py:50-121 | after the abort checks: a customer has an entry exactly when some `srcdata` folder has it as a component; the entry is "ok" exactly when its precheck was all "ok" and nothing raised, "precheck not successfull" exactly when some precheck value was not "ok", and otherwise the traceback of the precheck's or the operation's exception |
| `Deploy.ScriptStatusOrder` | deploy_all.py:25-32 | with the script's own three customers, the keys of `status` are the customers with a folder, in list order; there are at most three |

## Left out

- Filesystem access (`Path.exists`, `rglob`, `glob`, `is_file`) is not modelled. Its results are inputs, and the traversal order is whatever the input gives.
- Reading credentials with `ConfigParser` (deploy_all.py:40-47) is not modelled. The values are only passed through to the library, so they are not among the recorded arguments.
- The `NemoLibrary` constructor and its `MigMan*` methods are foreign code. Their behaviour is an input per iteration. A constructor error counts as a precheck exception. The model does not say which of the seven operations raised, or that the ones before it ran.
- Exceptions raised anywhere except the library are not modelled, for example by a configuration lookup or a path operation.
- Logging, `print`, `json.dumps` and the text of `traceback.format_exc` are not modelled. An error text is its fixed first line followed by an arbitrary detail.
- `exit()` is modelled as the `Aborted` result. The `status` dict is never created and the final log line is never reached.
- `Discovery.Parent` drops the last component of a path. It does not model `Path.parent` of a root path, which is the root itself. A `srcdata` folder found under the base folder is never a root.
- The CSV listings are one snapshot of the filesystem, taken for the whole run. The script lists the folders again in each iteration, after earlier customers' library operations may have written into them. The model assumes the library does not change the listings during the run, and `Deploy.LoopCalls` states each customer's arguments against that snapshot.
- `Deploy.ScriptStatusOrder`: the statement that keys follow list order is proved for the script's own distinct customer list. For any list, `Deploy.LoopStatusKeys` gives the order of first appearance.
