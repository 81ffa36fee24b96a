# scons_asciidoc in Dafny

A model of the SCons AsciiDoc tool: the `AsciiDoc` and `A2X` pseudo-builders,
the builders and source scanner behind them, and the signature generators and
defaults the tool installs in a construction environment, with proofs of what
each of them computes.

The model is split into these modules:

- `Strings` (strings.dfy): the Python `str` operations the tool uses (`startswith`,
  `endswith`, `in`, `split` on one character, `join`), with their round trips.
- `Paths` (paths.dfy): the file system as the tool sees it (`isfile`, `exists`)
  and the POSIX path helpers (`basename`, `dirname`, SCons' `splitext`,
  `os.sep.join` and `os.path.join`).
- `ConstructionEnv` (constructionenv.dfy): the `AD_*` / `A2X_*` construction
  variables, the errors the pseudo-builders raise, and the `Depends` / `Clean`
  registrations they make, which are returned as values.
- `Builders` (builders.dfy, for builders.py):
  - the document scanner, written as a small backtracking matcher for
    `include1{0,1}:{1,2}(.+?)\[` and `image:{1,2}(.+?)\[` with `re.findall`
    over it;
  - the scan check;
  - the two suffix tables and their lookups.
- `PseudoBuilders` (pseudobuilders.dfy, for pseudo_builders.py):
  - validation of backend, format and doctype;
  - configuration-file candidates;
  - resource specs (`get_res_entry`);
  - the extra-dependency loops;
  - the `izip` loops of both pseudo-builders, including the cleanup lists and
    the xhtml stylesheet appended to the targets.

  The loops are methods proved against recursive specification functions
  (`AsciidocBuilderSpec`, `A2xBuilderSpec`), and the lemmas state what those
  functions register.
- `Tool` (tool.dfy, for `__init__.py`): the six `_gen_*` signature fragments and
  the defaults of `generate`.

The model follows the code in these places:

- A `<file>=<destination>` resource spec counts only when the file is a regular
  file (`os.path.isfile`); a directory there is not a dependency.
- Manifest lines are passed to `get_res_entry` as read, line terminator included.
- Paths are joined with `os.sep.join` as the code writes them, also for a source in
  the current directory (see "## Findings").

## Model

| member | source | states |
|---|---|---|
| Strings.Split | pseudo_builders.py:81 | `str.split` on one character, at least one piece, characterised by `SplitSpec`, `JoinSplit` and `SplitJoin` |
| Strings.SplitSpec | pseudo_builders.py:81 | `split('=')` gives one more piece than there are `=`, and no piece holds an `=` |
| Strings.JoinSplit | pseudo_builders.py:81 | joining the pieces of a split with the separator gives back the string |
| Strings.SplitJoin | __init__.py:42 | splitting a join of separator-free pieces gives back the pieces |
| Paths.RFind | pseudo_builders.py:57 | the index is -1 or holds the character, and no later index holds it |
| Paths.FileSystem.IsFile | pseudo_builders.py:72 | `os.path.isfile`: a regular file of the file system; the empty path never is one |
| Paths.FileSystem.Exists | pseudo_builders.py:102-104 | `os.path.exists`: a regular file or a directory; the empty path never exists |
| Paths.Basename | pseudo_builders.py:57 | `os.path.basename`, characterised by `BasenameSpec` |
| Paths.Dirname | pseudo_builders.py:58 | `os.path.dirname`, characterised by `DirnameSpec` and `DirnameRun` |
| Paths.Splitext | pseudo_builders.py:57 | `SCons.Util.splitext`, characterised by `SplitextSpec` |
| Paths.JoinPath | pseudo_builders.py:68 | `os.path.join`, the corrected join of the finding below, characterised by `JoinPathSpec` and `JoinPathStaysInDir` |
| Paths.BasenameSpec | pseudo_builders.py:57 | the base name is a separator-free suffix of the path that is all of it or comes right after a separator |
| Paths.DirnameSpec | pseudo_builders.py:58 | the directory name is a prefix of the path: empty exactly when the path holds no separator, the root, or not ending in a separator |
| Paths.DirnameRun | pseudo_builders.py:58 | the path is its directory name, a run of separators and its base name; the run is empty after the root or an empty directory and nonempty otherwise |
| Paths.RStripSpec | pseudo_builders.py:58 | `rstrip` removes exactly the trailing run of the character |
| Paths.SplitextOfExtension | pseudo_builders.py:57 | conversely, a root followed by a proper extension (a dot, no later dot or separator, not digits and dots alone) splits back into that root and that extension |
| Paths.SplitextSpec | pseudo_builders.py:57 | root plus extension is the path; an extension starts at the last dot, lies after the last separator and is not all digits and dots; and there is one exactly when the last dot follows the last separator with such a tail |
| Paths.JoinPathSpec | pseudo_builders.py:68 | the corrected join ends with the name, and an empty directory leaves the name unchanged |
| Paths.JoinPathStaysInDir | pseudo_builders.py:68 | a separator-free name joined to the directory of a source has that directory and that base name |
| Paths.JoinPathInShapedDir | pseudo_builders.py:68 | the same for any directory-shaped path: empty, all separators, or not ending in a separator |
| Paths.SepJoin | pseudo_builders.py:68 | the as-written join is the directory, then one separator, then the name, even after an empty directory |
| Paths.SepJoinEmptyDirIsRoot | pseudo_builders.py:68 | with an empty directory the as-written join is `/name`, whose directory is the root, not the name's own |
| Paths.SepJoinInDir | pseudo_builders.py:68 | a separator-free name joined as written to the directory of a source keeps its name and lies in that directory, except that an empty or root directory gains a separator |
| Paths.DirnameOfChild | pseudo_builders.py:58 | the directory and base name of `head/name` for a separator-free name |
| Builders.BracketFrom | builders.py:20 | the scan for the `[` that ends a lazy `(.+?)`: a position at or after the start that holds `[`, characterised by `BracketFromSpec` |
| Builders.LazyBracket | builders.py:20 | `(.+?)\[` at the start of a text: the closing `[` comes after at least one character, characterised through `CaptureAtSound` and `CaptureAtComplete` |
| Builders.BracketFromSpec | builders.py:20 | the lazy `(.+?)\[` ends at a position iff a `[` is there and no `[` or line break comes before it |
| Builders.CaptureAt | builders.py:20 | `(.+?)\[` at a position, characterised by `CaptureAtSound` and `CaptureAtComplete` |
| Builders.ColonsCapture | builders.py:20 | `:{1,2}(.+?)\[` with the greedy colons tried two first, characterised by `ColonsCaptureSound` and `ColonsCaptureComplete` |
| Builders.MatchAt | builders.py:20-23 | one directive pattern at the start of a text, characterised by `MatchAtSound` and `MatchAtComplete` |
| Builders.FindAll | builders.py:21-24 | `re.findall` of a directive pattern, characterised by `FindAllGood`, `FindAllDirective`, `FindAllEmpty` and `FindAllLines` |
| Builders.CaptureAtSound | builders.py:20 | every capture is a good target (non-empty, no line break, no `[` after its first character), followed by its `[` |
| Builders.CaptureAtComplete | builders.py:20 | a good target followed by `[` is captured whole, up to that `[` |
| Builders.MatchAtSound | builders.py:20-23 | a match consumes one of the directive heads, then a good target and its `[` |
| Builders.MatchAtComplete | builders.py:20-23 | every head followed by a good target and `[` matches with exactly that target (unless the greedy colons take the target's leading colon) |
| Builders.HeadShape | builders.py:20-23 | each head is the keyword, an optional `1` (include only) and one or two colons |
| Builders.FindAllGood | builders.py:21 | every path `findall` returns is a good target |
| Builders.FindAllDirective | builders.py:20-24 | a directive yields its target, and scanning resumes after its `[` |
| Builders.FindAllNoKeyword | builders.py:21 | a text without the keyword yields nothing |
| Builders.FindAllEmpty | builders.py:21-24 | a text yields nothing iff the pattern matches at none of its positions, i.e. no position holds a head, a good target and its `[` |
| Builders.FindAllWithoutLetter | builders.py:21 | a text missing a letter of the keyword yields nothing |
| Builders.MatchAtLocal | builders.py:20-23 | a match never runs past a line break |
| Builders.FindAllLines | builders.py:21-24 | scanning whole lines and then the rest gives the lines' targets followed by the rest's |
| Builders.IncludeExample | builders.py:20-21 | `include::a.txt[` followed by any text without a `c` (such as `]` alone, or `]` and a line break) yields exactly `a.txt` |
| Builders.IncludeExampleHasNoImage | builders.py:23-24 | the same include directive yields no image target |
| Builders.ImageExample | builders.py:23-24 | `image::bar.png[` followed by any text without a `g` (such as `alt]`) yields exactly `bar.png` |
| Builders.ImageExampleHasNoInclude | builders.py:20-21 | the same image directive yields no include target |
| Builders.ScannerOrderExample | builders.py:14-26 | for an image line followed by the same include line twice, the result is both include targets and then the image target: includes come first, each group in document order, with duplicates kept |
| Builders.ScannerSkipsNonFiles | builders.py:17-18 | a note rather than a characterisation: a node that is not a regular file yields nothing, which is the first branch of `AdSrcScannerFunc` |
| Builders.AdScanCheckSpec | builders.py:28-35 | the check accepts every `.txt` path and only paths ending in `.txt` |
| Builders.AdSrcScannerFunc | builders.py:14-26 | the include targets of a regular file's text, then its image targets; nothing for anything else (`ScannerOrderExample`, `ScannerSkipsNonFiles`) |
| Builders.AdScanCheck | builders.py:28-35 | `ad_scan_check`, characterised by `AdScanCheckSpec` |
| Builders.GenAdSuffix | builders.py:59-64 | a suffix exists iff AD_BACKEND is a key of the AsciiDoc table |
| Builders.GenA2xSuffix | builders.py:102-107 | a suffix exists iff A2X_FORMAT is a key of the a2x table |
| PseudoBuilders.AdValidate | pseudo_builders.py:171-180 | passes iff the backend and doctype are valid (AD_VALID_BACKENDS, VALID_DOCTYPES) and `book` comes with a backend containing `docbook`; an invalid backend is reported before an invalid doctype, which comes before the book error |
| PseudoBuilders.A2xValidate | pseudo_builders.py:202-211 | passes iff format and doctype are valid (A2X_VALID_FORMATS, VALID_DOCTYPES) and `manpage` comes with the `manpage` doctype; an invalid format is reported before an invalid doctype, which comes before the manpage error naming the doctype |
| PseudoBuilders.AdBookBackends | pseudo_builders.py:177-180 | with `book`, exactly `docbook` and `docbook45` pass; the others fail with the book error |
| PseudoBuilders.SuffixTablesCoverValidValues | builders.py:47-100 | AD_BACKEND_SUFFIX_MAP and A2X_BACKEND_SUFFIX_MAP are keyed by exactly AD_VALID_BACKENDS and A2X_VALID_FORMATS (pseudo_builders.py:14-38), so the lookup succeeds after validation |
| PseudoBuilders.SuffixValues | builders.py:47-99 | docbook backends give `.xml`, `latex` `.tex`, the others `.html`; `manpage` gives no suffix, `xhtml` `.html`, `epub` `.epub` |
| PseudoBuilders.StemSpec | pseudo_builders.py:57 | the stem followed by the SCons extension is the base name, so it holds no separator |
| PseudoBuilders.StemExample | pseudo_builders.py:57 | `d/myprog.1.txt` has the stem `myprog.1`: only a suffix that is not all digits and dots is dropped |
| PseudoBuilders.Stem | pseudo_builders.py:57 | the base name without its extension, characterised by `StemSpec` |
| PseudoBuilders.AdConfNames | pseudo_builders.py:60-66 | the five AsciiDoc names, in the source's order (`AdConfCandidatesInSourceDir`) |
| PseudoBuilders.A2xConfNames | pseudo_builders.py:121-127 | the five a2x names, in the source's order (`A2xNamesAreDocbookNames`) |
| PseudoBuilders.InDir | pseudo_builders.py:68 | each name joined to the directory with `os.sep.join`, in order, as written |
| PseudoBuilders.InDirJoined | pseudo_builders.py:68 | each name joined with the corrected `os.path.join`, in order |
| PseudoBuilders.InDirOfSource | pseudo_builders.py:68 | names joined to a source's directory keep their names; as written they lie in that directory, or in the root for an empty or root directory; corrected they lie in the directory itself |
| PseudoBuilders.AdConfCandidates | pseudo_builders.py:60-69 | the AsciiDoc candidates as written, characterised by `AdConfCandidatesInSourceDir` |
| PseudoBuilders.AdConfCandidatesJoined | pseudo_builders.py:68 | the AsciiDoc candidates with the corrected join, characterised by `AdConfCandidatesJoinedInSourceDir` |
| PseudoBuilders.A2xConfCandidates | pseudo_builders.py:121-130 | the a2x candidates as written, characterised by `A2xConfCandidatesInSourceDir` |
| PseudoBuilders.A2xConfCandidatesJoined | pseudo_builders.py:129 | the a2x candidates with the corrected join, characterised by `A2xConfCandidatesJoinedInSourceDir` |
| PseudoBuilders.A2xNamesAreDocbookNames | pseudo_builders.py:121-127 | the a2x names are the AsciiDoc names with `docbook` as the backend |
| PseudoBuilders.AdConfCandidatesInSourceDir | pseudo_builders.py:60-69 | five conventional names, each with its name, in the source's directory as `os.sep.join` places them (the root for a source in the current directory), then AD_CONFFILES unchanged |
| PseudoBuilders.AdConfCandidatesJoinedInSourceDir | pseudo_builders.py:68 | with the corrected join the five names lie in the source's own directory, then AD_CONFFILES unchanged |
| PseudoBuilders.A2xConfCandidatesInSourceDir | pseudo_builders.py:121-130 | the five a2x names, placed as `os.sep.join` places them, then A2X_CONFFILE |
| PseudoBuilders.A2xConfCandidatesJoinedInSourceDir | pseudo_builders.py:129 | with the corrected join the five a2x names lie in the source's own directory, then A2X_CONFFILE |
| PseudoBuilders.AdCandidatesAsWrittenAgree | pseudo_builders.py:68 | with a directory other than empty or the root, the as-written candidates equal the corrected ones |
| PseudoBuilders.AdCandidatesAsWrittenAtRoot | pseudo_builders.py:68 | for a source in the current directory the as-written first candidate is `/asciidoc.conf`, the corrected one `asciidoc.conf` |
| PseudoBuilders.A2xCandidatesAsWrittenAtRoot | pseudo_builders.py:129 | for a source in the current directory the as-written first a2x candidate is `/asciidoc.conf`, the corrected one `asciidoc.conf` |
| PseudoBuilders.ExistingFiles | pseudo_builders.py:71-73 | the candidates that are regular files, in order, characterised by `ExistingFilesSpec` |
| PseudoBuilders.ExistingFilesSpec | pseudo_builders.py:71-73 | a path becomes a dependency iff it is a candidate and a regular file |
| PseudoBuilders.KeepExisting | pseudo_builders.py:71-73 | the loop depends on exactly the candidates that are regular files, in order |
| PseudoBuilders.AdAddExtraDeps | pseudo_builders.py:50-73 | the dependencies are the existing AsciiDoc candidates as written |
| PseudoBuilders.AdExtraDeps | pseudo_builders.py:50-73 | the candidates as written that are regular files (`ExistingFilesSpec`, `AsciidocDepsAreFiles`) |
| PseudoBuilders.ResEntryWith | pseudo_builders.py:81-107 | the branches of `get_res_entry` given the alternative path; a spec yields at most one resource |
| PseudoBuilders.GetResEntry | pseudo_builders.py:75-107 | `get_res_entry` with `alt_res` joined as written; a spec yields at most one resource |
| PseudoBuilders.GetResEntryJoined | pseudo_builders.py:86 | `get_res_entry` with the corrected join for `alt_res` |
| PseudoBuilders.GetResEntrySpec | pseudo_builders.py:81-107 | by number of `=`: a bare spec needs an existing path, one `=` a regular file and no leading dot, more `=` nothing; the spec as given wins over `os.sep.join([dir, res])`; whatever is yielded exists |
| PseudoBuilders.ResEntryForms | pseudo_builders.py:89-105 | `.ext=mimetype` yields nothing, `file=dst` with no regular file as given or joined as written yields nothing, and an existing bare path yields itself |
| PseudoBuilders.GetResEntryAtRoot | pseudo_builders.py:86 | for a source in the current directory a bare name missing there is looked up as `/name` at the root as written; the corrected join looks nowhere else |
| PseudoBuilders.GetResEntryJoinedBeside | pseudo_builders.py:86 | with the corrected join a bare name is found as given or beside the source under its own name |
| PseudoBuilders.ResourceDeps | pseudo_builders.py:142-154 | what each spec yields, in order, characterised by `ResourceDepsExist` and `CollectResources` |
| PseudoBuilders.ResourceDepsExist | pseudo_builders.py:142-154 | every resource dependency exists |
| PseudoBuilders.CollectResources | pseudo_builders.py:142-154 | the loop adds what each spec yields, in order |
| PseudoBuilders.A2xExtraDeps | pseudo_builders.py:109-154 | fails iff a manifest is named and cannot be read, with that error; otherwise the existing as-written candidates, the manifest's resources and those of A2X_RESOURCES |
| PseudoBuilders.A2xExtraDepsExist | pseudo_builders.py:109-154 | every a2x extra dependency exists |
| PseudoBuilders.A2xAddExtraDeps | pseudo_builders.py:109-154 | the existing configuration files, then the manifest's resources, then those of A2X_RESOURCES, all joined as written |
| PseudoBuilders.PairDepsMember | pseudo_builders.py:185-186 | target `t` is registered on `p` exactly when `t` is the target of one of the pairs and `p` is listed for that pair |
| PseudoBuilders.AdRegisterPairs | pseudo_builders.py:185-186 | the `izip` loop registers each target's dependencies for as many pairs as the shorter list |
| PseudoBuilders.AsciidocBuilder | pseudo_builders.py:160-188 | the validation error, or the builder's targets with the dependencies of each pair |
| PseudoBuilders.AsciidocBuilderSpec | pseudo_builders.py:160-188 | the validation error (`AdValidate`), or the targets with each pair's dependencies, characterised by `AsciidocDepsAreFiles` |
| PseudoBuilders.AsciidocDepsAreFiles | pseudo_builders.py:182-186 | target `t` depends on `p` exactly when `t` is the target of an `izip` pair and `p` is a configuration candidate of that pair's source that is a regular file |
| PseudoBuilders.CleanupFiles | pseudo_builders.py:226-270 | a cleanup list starts with the target, then the `.xml` artifact when artifacts are kept; formats without extras give just that; epub, htmlhelp and text without keep give `[t]`; xhtml ends with the stylesheet joined as written |
| PseudoBuilders.CleanupFormatExtras | pseudo_builders.py:235-267 | chunked adds the listing of `t/*`; epub with keep the `.epub.d` directory and its listing; htmlhelp with keep `.hhc`, `.htmlhelp` and its listing; text with keep `t.html`; xhtml the as-written stylesheet; nothing else is added |
| PseudoBuilders.CssFile | pseudo_builders.py:266 | the stylesheet joined as written, characterised by `CssFileBesideTarget` |
| PseudoBuilders.CssFileJoined | pseudo_builders.py:266 | the stylesheet with the corrected join, characterised by `CssFileJoinedBesideTarget` |
| PseudoBuilders.CssFileBesideTarget | pseudo_builders.py:266 | as written the stylesheet is `docbook-xsl.css` in the target's directory, or in the root for a target in the current directory |
| PseudoBuilders.CssFileJoinedBesideTarget | pseudo_builders.py:266 | with the corrected join the stylesheet lies in the target's own directory |
| PseudoBuilders.CssFileAtRoot | pseudo_builders.py:266 | for a target in the current directory the stylesheet is `/docbook-xsl.css` as written and `docbook-xsl.css` corrected |
| PseudoBuilders.CssFor | pseudo_builders.py:264-268 | the stylesheet appended to the targets, for xhtml only (`A2xBuilderCleans`) |
| PseudoBuilders.A2xCleanup | pseudo_builders.py:226-268 | the imperative cleanup list, and the as-written stylesheet appended to the targets for xhtml |
| PseudoBuilders.A2xRegisterPairs | pseudo_builders.py:217-270 | the imperative `izip` loop, with its `break`, the growing target list and the failure on an appended string, computes the specification loop |
| PseudoBuilders.A2xLoop | pseudo_builders.py:217-270 | the `izip` loop over the growing targets, failing on an appended string after its dependency lookup; characterised by `A2xLoopShape`, `A2xLoopDeps` (the registrations exactly), `A2xLoopOk` and `A2xLoopReachesAppended` |
| PseudoBuilders.A2xBuilderSpec | pseudo_builders.py:190-272 | the validation error, or the loop's result, characterised by `A2xBuilderCleans`, `A2xDepsExist` (the registrations exactly) and `A2xBuilderErrors` |
| PseudoBuilders.A2xBuilder | pseudo_builders.py:190-272 | the validation error, or the registrations or error of the specification loop |
| PseudoBuilders.A2xLoopShape | pseudo_builders.py:217-270 | the loop keeps its start targets, gives each handled target one clean entry with its cleanup list, and when it succeeds has handled as many pairs as the shorter of the builder's targets and the sources |
| PseudoBuilders.A2xDocbookRegistersNothing | pseudo_builders.py:219-221 | docbook registers no dependency and no clean entry |
| PseudoBuilders.A2xBuilderCleans | pseudo_builders.py:217-270 | on success: one clean entry per pair of builder target and source, with that target's cleanup list; non-xhtml targets are unchanged; xhtml appends each handled target's stylesheet, in order |
| PseudoBuilders.A2xLoopDeps | pseudo_builders.py:217-224 | on success the registrations are each handled pair's target on each of that pair's extra dependencies, pair by pair, as many pairs as the shorter of the builder's targets and the lookups, or none for docbook |
| PseudoBuilders.A2xLoopDepsFrom | pseudo_builders.py:217-224 | the induction behind `A2xLoopDeps` for a format other than docbook: from any pair on, a successful loop registers the pairs up to the shorter of the builder's targets and the lookups |
| PseudoBuilders.A2xDepsExist | pseudo_builders.py:217-224 | on success, target `t` depends on `p` exactly when the format is not docbook, `t` is the target of an `izip` pair and `p` is one of that pair's source's extra dependencies; each such `p` exists |
| PseudoBuilders.A2xLoopOk | pseudo_builders.py:217-224 | the loop does not fail when no lookup fails and it cannot reach an appended stylesheet |
| PseudoBuilders.A2xLoopReachesAppended | pseudo_builders.py:217-268 | with xhtml and more sources than builder targets the loop reaches the stylesheet of the first target and fails there (`AttributeError` at `t.path`) |
| PseudoBuilders.A2xBuilderErrors | pseudo_builders.py:140-268 | after validation the builder fails iff it handles a pair and either the named manifest cannot be read (that error) or xhtml has more sources than targets (the `AttributeError` on the first stylesheet) |
| Tool.OptionStringWords | __init__.py:41-56 | the joined options are the joined flag/value words |
| Tool.Items | __init__.py:41-56 | one option per element: flag, space and the element wrapped verbatim, in order |
| Tool.OptionString | __init__.py:41-56 | the options joined by single spaces, characterised by `OptionStringEmpty`, `OptionStringAppend`, `OptionStringSingle` and `OptionStringSplit` |
| Tool.OptionStringSplit | __init__.py:41-56 | without spaces in the parts, splitting the string at spaces gives back flag and wrapped element, in order |
| Tool.OptionStringEmpty | __init__.py:41-56 | the string is empty iff the list is |
| Tool.OptionStringAppend | __init__.py:41-56 | the options of two lists are the options of each, separated by one space |
| Tool.OptionStringSingle | __init__.py:41-56 | a single element is wrapped verbatim, spaces and quotes included |
| Tool.WordsSpec | __init__.py:41-56 | two words per element: the flag, then the wrapped element |
| Tool.GenAdConfStr | __init__.py:41-42 | empty iff AD_CONFFILES is empty |
| Tool.GenAdAttrStr | __init__.py:44-45 | empty iff AD_ATTRIBUTES is empty |
| Tool.GenA2xConfStr | __init__.py:47-50 | empty iff A2X_CONFFILE is empty, otherwise `--conf-file=` followed by the file |
| Tool.GenA2xAttrStr | __init__.py:52-53 | empty iff A2X_ATTRIBUTES is empty |
| Tool.GenA2xResStr | __init__.py:55-56 | empty iff A2X_RESOURCES is empty |
| Tool.GenA2xResmanStr | __init__.py:58-62 | empty iff A2X_RESOURCEMANIFEST is empty, otherwise `-m ` followed by the path |
| Tool.AdConfStrWords | __init__.py:41-42 | the command line holds `-f` and each configuration file, in order |
| Tool.AdAttrStrWords | __init__.py:44-45 | the command line holds `-a` and each attribute in double quotes, in order |
| Tool.A2xAttrStrWords | __init__.py:52-53 | the command line holds `-a` and each a2x attribute in double quotes, in order |
| Tool.A2xResStrWords | __init__.py:55-56 | the command line holds `-r` and each resource in double quotes, in order |
| Tool.DefaultsAreValid | __init__.py:133-150 | the defaults DEFAULTS pass both validators |
| Tool.DefaultsGiveEmptyOptions | __init__.py:136-150 | under the defaults every signature fragment is empty |
| Tool.DefaultSuffixes | __init__.py:136-144 | under the defaults the targets get `.html` and `.pdf` |

## Left out

- SCons plumbing is not modelled: the `Builder` and `Scanner` objects, `env.Clone`, and the action templates interpreted by SCons. `env.Depends` and `env.Clean` calls are returned as `Dep` and `CleanEntry` values. `env.Glob` is a function parameter.
- The recursion of the scanner (`recursive = True`) belongs to SCons and is not modelled.
- `os.path.isfile` and `os.path.exists` are lookups in a `FileSystem` value, false for the empty path as in Python; a node's contents are the file's text.
- Paths are literal keys of the `FileSystem` and are not normalised: `//x` and `/x`, or `images` and `images/`, are different paths there, although the operating system treats each pair as one.
- `AD_FLAGS` and `A2X_FLAGS` are passed to the command line without being scanned for file paths, so no dependency comes from them.
- Reading the resource manifest is replaced by its lines, or None when it cannot be opened. The lines are given as read, terminators included. The same lines are used for every pair.
- When the builder raises part-way through its loop, the source has already made some registrations, and the model returns only the error. If the manifest cannot be opened, the earlier pairs' registrations and the current pair's configuration-file dependencies (pseudo_builders.py:132-134) are already made. If the loop reaches an appended stylesheet, the earlier pairs' registrations and all of that pair's extra dependencies (pseudo_builders.py:224) are already made.
- Error messages are not modelled: `ValueError`, `UserError` and `IOError` become `BuildError` values without their text, and a failed table lookup (`KeyError`) becomes None.
- `_get_prog_path`, the version probing with `subprocess`, the `BUILDERS` registration and `exists` in `__init__.py` are I/O and are not modelled. Only the constant defaults of `generate` are.
- `SCons.Util.splitext` is written out following SCons' rule: a suffix of digits and dots is not an extension. POSIX paths with `/` are assumed throughout.
- A target node's `path` and its `str()` are the same string in the model. The stylesheet the xhtml case appends to the targets is a plain string. It has no `path`, so the loop fails when it reaches one (`TargetNotANode`, the `AttributeError` of pseudo_builders.py:226).
- Tool.OptionStringSplit: the round trip is stated only for parts without spaces, because the space-joined string cannot be split back otherwise (the source does no quoting or escaping). The same holds for Tool.AdConfStrWords, Tool.AdAttrStrWords, Tool.A2xAttrStrWords and Tool.A2xResStrWords.

## Findings

| source | as written | input that shows it | evidently intended | confidence | as-written member | corrected member |
|---|---|---|---|---|---|---|
| pseudo_builders.py:68 | `os.sep.join([d, c])` joins the AsciiDoc configuration names to the source's directory | a source `doc.txt` in the current directory: `d` is empty and the first candidate becomes `/asciidoc.conf`, a file in the file-system root | `os.path.join(d, c)`, which gives `asciidoc.conf` beside the source | not executed | PseudoBuilders.AdCandidatesAsWrittenAtRoot | PseudoBuilders.AdConfCandidatesJoinedInSourceDir |
| pseudo_builders.py:86 | `os.sep.join([dir, res])` is the alternative place of a resource | the resource `img.png` of a source in the current directory, with no `img.png` there: `/img.png` in the root is looked up and becomes a dependency if it exists | `os.path.join(dir, res)`, which for an empty `dir` is the name itself | not executed | PseudoBuilders.GetResEntryAtRoot | PseudoBuilders.GetResEntryJoinedBeside |
| pseudo_builders.py:129 | `os.sep.join([d, c])` joins the a2x configuration names to the source's directory | a source `doc.txt` in the current directory: the first candidate becomes `/asciidoc.conf` | `os.path.join(d, c)`, giving `asciidoc.conf` | not executed | PseudoBuilders.A2xCandidatesAsWrittenAtRoot | PseudoBuilders.A2xConfCandidatesJoinedInSourceDir |
| pseudo_builders.py:266 | `os.sep.join([fpath, 'docbook-xsl.css'])` is the xhtml stylesheet, cleaned with the target and appended to the targets | a target `doc.html` in the current directory: the stylesheet becomes `/docbook-xsl.css` | `os.path.join(fpath, 'docbook-xsl.css')`, giving `docbook-xsl.css` beside the target | not executed | PseudoBuilders.CssFileAtRoot | PseudoBuilders.CssFileJoinedBesideTarget |

The builder-level members (`AdConfCandidates`, `A2xConfCandidates`, `GetResEntry`, `CssFile` and everything built on them) compute what the code as written computes. The corrected definitions (`AdConfCandidatesJoined`, `A2xConfCandidatesJoined`, `GetResEntryJoined`, `CssFileJoined`, all built on `Paths.JoinPath`) stand beside them with their intended properties proved. `AdCandidatesAsWrittenAgree` shows that both agree for any source whose directory part is neither empty nor the root.
