/** The language classifier (GIT-BE/fs_service.py, `CODE_EXTENSIONS` and
    `detect_language_by_ext`). */
module Language {

  /** The extensions whose files are analysed. */
  const CodeExtensions: seq<string> := [".py", ".js", ".ts", ".go", ".java", ".cpp", ".c", ".cs"]

  /** The extension-to-tag table of `detect_language_by_ext`. */
  const LanguageTags: map<string, string> := map[
    ".py" := "python",
    ".js" := "javascript",
    ".ts" := "typescript",
    ".java" := "java",
    ".go" := "go",
    ".cpp" := "cpp",
    ".c" := "c",
    ".cs" := "csharp"
  ]

  /** Python's `str.lower` on the ASCII letters; other characters are kept. */
  function LowerChar(c: char): char
  {
    if 'A' <= c <= 'Z' then (c as int + 32) as char else c
  }

  function Lower(s: string): (r: string)
    ensures |r| == |s|
    ensures forall i :: 0 <= i < |s| ==> r[i] == LowerChar(s[i])
  {
    if s == [] then [] else [LowerChar(s[0])] + Lower(s[1..])
  }

  lemma {:induction false} LowerIdempotent(s: string)
    ensures Lower(Lower(s)) == Lower(s)
  {
    if s != [] {
      LowerIdempotent(s[1..]);
      assert Lower(s)[1..] == Lower(s[1..]);
    }
  }

  /** `ext.lower() in CODE_EXTENSIONS`: the walker's filter. */
  predicate IsCodeExtension(ext: string)
  {
    Lower(ext) in CodeExtensions
  }

  /** `detect_language_by_ext`: the tag of the lower-cased extension, or
      `"code"` for every extension outside the table. */
  function DetectLanguage(ext: string): (tag: string)
    ensures tag in {"python", "javascript", "typescript", "java", "go", "cpp", "c", "csharp", "code"}
    ensures tag == "code" <==> Lower(ext) !in LanguageTags
  {
    var e := Lower(ext);
    if e in LanguageTags then LanguageTags[e] else "code"
  }

  /** The classifier ignores case: an extension and its lower-case form
      get the same tag, and so do any two that differ only in case. */
  lemma DetectIgnoresCase(ext: string, other: string)
    ensures DetectLanguage(ext) == DetectLanguage(Lower(ext))
    ensures Lower(ext) == Lower(other) ==> DetectLanguage(ext) == DetectLanguage(other)
  {
    LowerIdempotent(ext);
  }

  /** The allow-list and the table agree: an extension passes the walker's
      filter exactly when it gets a tag other than `"code"`. */
  lemma CodeExtensionsAreTagged(ext: string)
    ensures IsCodeExtension(ext) <==> DetectLanguage(ext) != "code"
    ensures forall e :: e in CodeExtensions ==> e in LanguageTags && LanguageTags[e] != "code"
  {
    assert LanguageTags.Keys == set e | e in CodeExtensions;
  }
}
