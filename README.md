# Repository analyser core, modelled in Dafny

The system is a small web back end. It receives a GitHub URL, clones the
repository and analyses its code. This project models the parts that
decide something:

- **The folder tree and its text.** `build_folder_tree` builds the tree
  (`folder_tree.dfy`) and `folder_tree_to_text` renders it as indented
  text.
- **The language tables.** These are `CODE_EXTENSIONS` and
  `detect_language_by_ext` (`language.dfy`).
- **Two dependency extractors.**
  - `get_python_imports` works on Python's syntax tree
    (`python_imports.dfy`).
  - `get_js_imports` is pattern-based. It uses the regular expression
    `JS_IMPORT_RE` (`js_imports.dfy`).
- **The analyser** `analyze_repo_dir`. It walks the repository with
  `os.walk` and prunes `.git`, `__pycache__`, `.venv` and `venv`
  (`walker.dfy`). For each readable code file it fills three
  dictionaries, keyed by path relative to the repository, and appends
  one dependency edge per import (`analysis.dfy`).
- **The request handling of `app.py`.** This is the API-key guard, the
  `repo_url` check, and the repository name taken from the URL
  (`http_api.dfy`).

The filesystem is a value (`FolderTree.FsNode`). A directory lists named
entries in the order the operating system gives them. Anything else is a
non-directory, whose read yields its text or fails.

The language-model prompts and Python's own parser are not modelled.
The analyser receives them as functions (`Analysis.Oracles`), so every
statement about the analyser holds whatever those functions answer.

The regular expression is modelled as a backtracking matcher written
for this one pattern:

- The greedy `\s+` after `import` is tried from its longest run down.
- Each lazy `.*?` is tried from its shortest span up.
- An alternative is tried before the next one.
- `finditer` resumes each search where the previous match ended.

The lemmas in `js_imports.dfy` prove two things about this matcher. It
reports a match exactly when the pattern has a parse there. The parse it
reports is the one a backtracking engine prefers.

Where the code is imperative (loops that append to lists and
dictionaries, the recursive `build_node`, the walk), it is modelled by
methods with loops. Each method is proved equal to a specification
function, and the properties are proved about those functions.

## Model

| member | source | states |
|---|---|---|
| FolderTree.SortByName | GIT-BE/fs_service.py:18 | `sorted(os.listdir(path))`: the result is ordered by code-point comparison of names and is a permutation of the listing |
| FolderTree.SortKeepsDistinct | GIT-BE/fs_service.py:18 | sorting a listing whose names are distinct keeps them distinct |
| FolderTree.InsertKeepsSorted | GIT-BE/fs_service.py:18 | inserting a name into a sorted listing keeps it sorted |
| FolderTree.RootName | GIT-BE/fs_service.py:14 | `basename(path) or path`: the whole path when it is empty or ends in `/`; otherwise the non-empty text after its last `/` (the whole path when it has none) |
| FolderTree.BuildNode | GIT-BE/fs_service.py:13-28 | the loop over the sorted listing that skips excluded names and recurses into each entry builds exactly the specification tree `TreeOf(name, fs)` |
| FolderTree.BuildChildren | GIT-BE/fs_service.py:17-24 | the loop over the sorted entries builds exactly the specification children: excluded names skipped, every other entry built in turn |
| FolderTree.BuildFolderTree | GIT-BE/fs_service.py:9-30 | the tree is `TreeOf` of the root's own name |
| FolderTree.NoExcludedNames | GIT-BE/fs_service.py:21-22 | no node below the root, at any depth, is named `.git`, `__pycache__`, `.venv` or `venv`; the root keeps its own name |
| FolderTree.ChildrenAreSortedListing | GIT-BE/fs_service.py:16-26 | a folder's children carry exactly the non-excluded names of its listing (as a multiset), in sorted order, and in strictly ascending order when the listing's names are distinct |
| FolderTree.TreeStrictlySorted | GIT-BE/fs_service.py:18-24 | on a filesystem where every directory lists each name once, every folder at every depth has strictly ascending child names |
| FolderTree.LinesShape | GIT-BE/fs_service.py:34-42 | a node's first line is two spaces per level, its name, and `/` exactly for folders; every later line (a descendant) is indented at least one level deeper |
| FolderTree.LinesIndented | GIT-BE/fs_service.py:34-42 | every line of a node rendered at depth d starts with 2·d spaces |
| FolderTree.RenderedLines | GIT-BE/fs_service.py:33-44 | when no name contains a newline, splitting the text on newlines gives back the lines, one per node of the tree |
| FolderTree.FolderTreeToText | GIT-BE/fs_service.py:33-44 | the recursive renderer, which appends each child's whole text as one line, yields the text of the depth-first line list |
| FolderTree.RenderChildren | GIT-BE/fs_service.py:39-40 | each child's whole text, rendered one level deeper, in order |
| Language.DetectLanguage | GIT-BE/fs_service.py:47-57 | the tag is one of the eight language tags or `code`, and it is `code` exactly when the lower-cased extension is not in the table |
| Language.DetectIgnoresCase | GIT-BE/fs_service.py:57 | extensions that differ only in ASCII case get the same tag |
| Language.CodeExtensionsAreTagged | GIT-BE/fs_service.py:6 | an extension passes the `CODE_EXTENSIONS` filter exactly when it gets a tag other than `code`; every listed extension is in the tag table |
| PythonImports.GetPythonImports | GIT-BE/fs_service.py:62-76 | a failed parse gives `[]`; otherwise the loop over the walked nodes yields `PythonImports(parsed)` |
| PythonImports.ImportsOfMembers | GIT-BE/fs_service.py:69-74 | a name is extracted exactly when some node is an `Import` naming it, or an `ImportFrom` whose module is that non-empty name |
| PythonImports.OnlyImportNodesContribute | GIT-BE/fs_service.py:70-74 | removing every node that is neither an `Import` nor an `ImportFrom` with a module leaves the result unchanged |
| PythonImports.ImportsCount | GIT-BE/fs_service.py:69-74 | the number of names extracted is the number of imported names plus the number of `from` statements that name a module |
| JsImports.MatchAt | GIT-BE/fs_service.py:79-81 | a match at p starts at p, its capture lies inside it and holds no newline, and an `import … from` capture holds no quote |
| JsImports.NextMatch | GIT-BE/fs_service.py:79-81 | `search` from pos: the reported match starts at the leftmost position at or after pos that has one, and no earlier position has a match |
| JsImports.MatchesFrom | GIT-BE/fs_service.py:86 | `finditer` from pos: every reported match starts at or after pos and is exactly the match the pattern has at its start position |
| JsImports.ImportFromReportsFirstParse | GIT-BE/fs_service.py:80 | whenever `import\s+.*?\s+from\s+['"](.*?)['"]` has a parse at p, the matcher reports one, and it is the parse a backtracking engine tries first (longest first `\s+`, then shortest `.*?`, then shortest capture) |
| JsImports.RequireReportsShortestCapture | GIT-BE/fs_service.py:80 | whenever `require\(['"](.*?)['"]\)` has a parse at p, the matcher reports one whose capture is no longer than that parse's |
| JsImports.MatchAtComplete | GIT-BE/fs_service.py:79-81 | a match is reported at p exactly when one of the two alternatives has a parse at p |
| JsImports.MatchesInOrder | GIT-BE/fs_service.py:86 | `finditer`'s matches are in order and do not overlap |
| JsImports.UncoveredHasNoMatch | GIT-BE/fs_service.py:86 | a position that no reported match covers has no match of its own |
| JsImports.GetJsImports | GIT-BE/fs_service.py:84-90 | the loop over the matches yields `JsImports(code)`: the non-empty captures, in order |
| JsImports.CollectModules | GIT-BE/fs_service.py:86-90 | the loop over the matches keeps each non-empty capture, in match order |
| JsImports.ExtractedModules | GIT-BE/fs_service.py:84-90 | every extracted module is non-empty, holds no newline, is the capture of a reported match, and holds no quote when it came from `import … from` |
| JsImports.RequireExample | GIT-BE/fs_service.py:79-90 | `require('a')` yields `["a"]` |
| JsImports.ImportFromBacktracks | GIT-BE/fs_service.py:79-90 | `import  from "x"` (two spaces) yields `["x"]`: the greedy `\s+` gives back one space |
| JsImports.SingleSpaceNotMatched | GIT-BE/fs_service.py:79-90 | `import from "x"` (one space) yields `[]` |
| RepoWalk.FilesIn | GIT-BE/analysis_service.py:29-32 | the files `os.walk` yields with a directory are exactly its non-directory entries |
| RepoWalk.DirsIn | GIT-BE/analysis_service.py:29 | the `dirs` `os.walk` yields are exactly the directory entries |
| RepoWalk.Prune | GIT-BE/analysis_service.py:30 | an entry survives the pruning exactly when it was in `dirs` and its name is not excluded |
| RepoWalk.WalkSound | GIT-BE/analysis_service.py:29-32 | every file the loop body sees exists in the repository at the visited path, and no directory on that path is pruned |
| RepoWalk.WalkComplete | GIT-BE/analysis_service.py:29-32 | every file of the repository whose path crosses no pruned directory is seen |
| RepoWalk.WalkReachesExactly | GIT-BE/analysis_service.py:29-32 | from the root, the walk sees a file exactly when it exists and its path crosses no pruned directory |
| Analysis.ExtShape | GIT-BE/analysis_service.py:35 | `splitext`: a non-empty extension is the part of the name from its last dot on, with some non-dot character before that dot; it is empty only when there is no such dot |
| Analysis.ToSlashes | GIT-BE/analysis_service.py:34 | the key has the path's length, every backslash becomes `/`, and every other character is kept, so no backslash remains |
| Analysis.ImportsOfFile | GIT-BE/analysis_service.py:52-57 | the extractor is chosen by the exact extension: `.py` to the Python extractor, `.js` and `.ts` to the JavaScript one, any other to none |
| Analysis.AppendEdges | GIT-BE/analysis_service.py:59-60 | one edge from the file per import, in import order, appended after the existing edges, which stay as they were |
| Analysis.ProcessFile | GIT-BE/analysis_service.py:33-60 | the loop body (filter, read, three dictionary entries, dispatch, edge loop) produces `Step(tables, v)` |
| Analysis.ProcessFiles | GIT-BE/analysis_service.py:32-60 | the loop over one directory's files runs the loop body on each file in turn |
| Analysis.WalkFrom | GIT-BE/analysis_service.py:29-60 | `os.walk` with pruning, running the loop body on every file, folds `Step` over `Walk(dir, node)` |
| Analysis.AnalyzeRepoDir | GIT-BE/analysis_service.py:20-73 | the report holds the repository name, the built tree, its text, the three dictionaries and the edge list of the fold over the walk, and the architecture text asked for with the tree text |
| Analysis.KeysAgree | GIT-BE/analysis_service.py:47-49 | the summary, security and test dictionaries always have the same keys |
| Analysis.KeysAreAnalysedFiles | GIT-BE/analysis_service.py:32-49 | a path is a key exactly when some visited file with that relative path has a code extension and could be read |
| Analysis.LastAnalysisWins | GIT-BE/analysis_service.py:47-49 | each entry for a path holds the answers for the last analysed file with that path |
| Analysis.DependenciesInVisitOrder | GIT-BE/analysis_service.py:52-60 | the edge list is each analysed file's edges in turn, file after file, each file's edges in extractor order |
| Analysis.EdgeSourcesAreKeys | GIT-BE/analysis_service.py:47-60 | every edge starts at a path that is a key of the dictionaries |
| Analysis.UnreadableFileSkipped | GIT-BE/analysis_service.py:40-43 | a file whose read fails changes nothing: leaving it out of the walk gives the same tables |
| Analysis.DispatchIsCaseSensitive | GIT-BE/analysis_service.py:52-57 | a file whose extension is not exactly `.py`, `.js` or `.ts` adds no edge |
| Analysis.UpperCasePythonFileHasNoEdges | GIT-BE/analysis_service.py:37-57 | a readable `.PY` file passes the case-insensitive filter and gets its three entries, but adds no edge |
| Analysis.KeysHaveNoBackslash | GIT-BE/analysis_service.py:34 | no dictionary key and no edge source contains a backslash |
| Analysis.AnalysedFilesOfRepository | GIT-BE/analysis_service.py:29-49 | the keys are exactly the relative paths of the repository's readable code files whose path crosses no pruned directory |
| HttpApi.RepoName | app.py:67 | the repository name taken from the URL holds no slash and is no longer than the URL |
| HttpApi.TrailingSlashIgnored | app.py:67 | a trailing slash does not change the name |
| HttpApi.CloneUrlName | app.py:67 | for `<base>/<n>.git`, with or without a trailing slash, the name is n when n holds no slash and no `.git` |
| HttpApi.GitHubUrlExample | app.py:67 | `https://github.com/user/proj.git/` names `proj` |
| HttpApi.VerifyApiKey | app.py:30-35 | the guard either lets the request through or answers 401 |
| HttpApi.GuardRejectsOnlyPostsWithOtherKey | app.py:30-35 | whether or not a key is configured, only POST requests are turned away, and a POST is turned away exactly when its header differs from the configured key (an absent header and an absent key count as equal) |
| HttpApi.UnsetKeyAdmitsOnlyKeylessPosts | app.py:19-35 | with no key configured, a POST that sends no key is admitted and one that sends any key is turned away |
| HttpApi.AnalyzeRequest | app.py:43-51 | a clone is attempted only for a request whose key matches and whose body is an object with a truthy `repo_url`; every other outcome is 400, 401 or 500 |
| HttpApi.GuardBeforeBody | app.py:30-51 | a request gets 401 exactly when its key differs from the configured one, whatever its body |
| HttpApi.MissingRepoUrlRejected | app.py:47-51 | an admitted request gets 400 exactly when `repo_url` is missing or falsy, and reaches the clone exactly when it is truthy |
| HttpApi.NonObjectBodyFails | app.py:47-48 | an admitted request whose JSON body is not an object gets 500 |

## Left out

- The language-model calls (`explain_code`, `security_scan`,
  `generate_tests`, `generate_architecture_diagram`) are parameters of
  the analyser. llm_service.py is not part of this model, and neither
  are the exceptions those calls may raise.
- `ast.parse` and `ast.walk` are a parameter that yields the walked nodes,
  or nothing when parsing fails. The model distinguishes only `Import`,
  `ImportFrom` and every other node, and it takes the walk order as
  given.
- Real filesystem access is not modelled. The order in which `os.listdir`
  and `os.walk` list a directory is taken as given. So are symbolic
  links, permission errors and `os.walk`'s silent skipping of unreadable
  directories.
- Decoding with `errors="ignore"` is not modelled: a readable file's text
  is given as a string.
- Language.Lower: this lowers ASCII letters only, while Python's
  `str.lower` also lowers other letters. The only non-ASCII characters
  whose lower case holds an ASCII letter are U+212A KELVIN SIGN (to `k`)
  and U+0130 (to `i` followed by a combining dot). Neither `k` nor `i`
  occurs in a code extension, so the filter and the tags are unaffected.
- JsImports: the matcher is written for this one pattern, not as a
  general regular-expression engine. Python's `\s` is modelled by its
  Unicode whitespace set.
- The Flask application, CORS, the `/` route, the clone, the temporary
  directory and its removal, the log prints, and the JSON encoding of
  the answer are not modelled. The 500 answers after a failed clone or a
  failed analysis are not modelled either.
- HttpApi.AnalyzeRequest: a request body that is not JSON at all is
  Flask's own error path and is not modelled; a JSON body's numbers are
  integers. Using the repository name requires `repo_url` to be a
  string, which the handler does not check; the model stops at the clone
  decision.
- HttpApi.VerifyApiKey: `request.headers.get` matches header names
  without regard to case. The model receives the header's value
  directly.
- `os.path.join` and `os.path.relpath` are modelled for the paths the
  walk produces: the directory names below the root joined by `/`.
  Windows separators are not modelled, except for the backslash
  replacement itself.
