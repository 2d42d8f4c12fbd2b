/** The request handling of app.py that decides something: the API-key
    guard run before every request, the `repo_url` check of `/analyze`,
    and the repository name derived from the URL. Cloning, the analysis
    call, clean-up and the JSON encoding of the answer are not part of
    this model. */
module HttpApi {
  import opened Wrappers
  import FolderTree

  // ---------------------------------------------------------------------
  // The repository name: `repo_url.rstrip("/").split("/")[-1].replace(".git", "")`.
  // `split("/")[-1]` is the text after the last slash, `FolderTree.BaseName`.

  /** `rstrip("/")` */
  function RStripSlash(s: string): (r: string)
    ensures |r| <= |s| && r == s[..|r|]
    ensures r == "" || r[|r| - 1] != '/'
    ensures forall k :: |r| <= k < |s| ==> s[k] == '/'
  {
    if s != [] && s[|s| - 1] == '/' then RStripSlash(s[..|s| - 1]) else s
  }

  /** `.git` starts at position i of s. */
  predicate GitAt(s: string, i: nat)
    requires i + 4 <= |s|
  {
    s[i] == '.' && s[i + 1] == 'g' && s[i + 2] == 'i' && s[i + 3] == 't'
  }

  /** `replace(".git", "")`: every occurrence found scanning left to right,
      each scan resuming after the occurrence removed. */
  function RemoveGit(s: string): (r: string)
    ensures |r| <= |s|
    ensures forall c :: c in r ==> c in s
  {
    if |s| < 4 then s
    else if GitAt(s, 0) then RemoveGit(s[4..])
    else [s[0]] + RemoveGit(s[1..])
  }

  /** The repository name `analyze_repo` passes on: it never contains a
      slash, and it is never longer than the URL. */
  function RepoName(url: string): (name: string)
    ensures '/' !in name
    ensures |name| <= |url|
  {
    RemoveGit(FolderTree.BaseName(RStripSlash(url)))
  }

  /** Trailing slashes do not change the name. */
  lemma TrailingSlashIgnored(url: string)
    ensures RepoName(url + "/") == RepoName(url)
  {
    assert (url + "/")[..|url + "/"| - 1] == url;
  }

  /** No `.git` starts anywhere in s. */
  predicate NoGitIn(s: string)
  {
    forall i :: 0 <= i && i + 4 <= |s| ==> !GitAt(s, i)
  }

  /** Removing from `n.git` gives n back when n holds no `.git` of its own:
      no occurrence can straddle the end of n, since no proper prefix of
      `.git` is also a suffix of it. */
  lemma {:induction false} GitSuffixRemoved(n: string)
    requires NoGitIn(n)
    ensures RemoveGit(n + ".git") == n
    decreases |n|
  {
    var s := n + ".git";
    if n == [] {
      assert s == ".git";
    } else {
      assert !GitAt(s, 0) by {
        if |n| >= 4 {
          assert !GitAt(n, 0);
          assert s[0] == n[0] && s[1] == n[1] && s[2] == n[2] && s[3] == n[3];
        } else if |n| == 1 {
          assert s[1] == '.';
        } else if |n| == 2 {
          assert s[2] == '.';
        } else {
          assert s[3] == '.';
        }
      }
      assert NoGitIn(n[1..]) by {
        forall i | 0 <= i && i + 4 <= |n[1..]| ensures !GitAt(n[1..], i) {
          assert !GitAt(n, i + 1);
        }
      }
      GitSuffixRemoved(n[1..]);
      assert s[1..] == n[1..] + ".git";
      assert [s[0]] + n[1..] == n;
    }
  }

  /** The URL of a clone, `<base>/<n>.git` with or without a final slash,
      yields n when n holds neither a slash nor a `.git`. */
  lemma CloneUrlName(base: string, n: string)
    requires '/' !in n && NoGitIn(n)
    ensures RepoName(base + "/" + n + ".git") == n
    ensures RepoName(base + "/" + n + ".git/") == n
  {
    var url := base + "/" + n + ".git";
    assert url[|url| - 1] == 't';
    assert RStripSlash(url) == url;
    BaseNameAfterSlash(base, n + ".git");
    assert url == base + "/" + (n + ".git");
    GitSuffixRemoved(n);
    assert url + "/" == base + "/" + n + ".git/";
    TrailingSlashIgnored(url);
  }

  lemma {:induction false} BaseNameAfterSlash(base: string, tail: string)
    requires '/' !in tail
    ensures FolderTree.BaseName(base + "/" + tail) == tail
    decreases |tail|
  {
    var s := base + "/" + tail;
    if tail == [] {
      assert s[|s| - 1] == '/';
    } else {
      var init := tail[..|tail| - 1];
      assert s[..|s| - 1] == base + "/" + init;
      assert s[|s| - 1] == tail[|tail| - 1];
      BaseNameAfterSlash(base, init);
      assert init + [tail[|tail| - 1]] == tail;
    }
  }

  lemma ExampleUrlParts()
    ensures "https://github.com/user/proj.git/" == "https://github.com/user" + "/" + "proj" + ".git/"
  {
    var url := "https://github.com/user/proj.git/";
    var base := "https://github.com/user";
    assert |url| == |base| + 10;
    forall i | 0 <= i < |url| ensures url[i] == (base + "/" + "proj" + ".git/")[i] {
    }
  }

  /** `"https://github.com/user/proj.git/"` names the repository `proj`. */
  lemma GitHubUrlExample()
    ensures RepoName("https://github.com/user/proj.git/") == "proj"
  {
    assert NoGitIn("proj");
    CloneUrlName("https://github.com/user", "proj");
    ExampleUrlParts();
  }

  // ---------------------------------------------------------------------
  // The request guards.

  /** A JSON value as `request.get_json()` decodes it; numbers are integers. */
  datatype Json =
    | JNull
    | JBool(b: bool)
    | JNumber(n: int)
    | JString(s: string)
    | JArray(items: seq<Json>)
    | JObject(fields: map<string, Json>)

  /** Python truthiness of a decoded JSON value. */
  predicate Truthy(j: Json)
  {
    match j
    case JNull => false
    case JBool(b) => b
    case JNumber(n) => n != 0
    case JString(s) => s != ""
    case JArray(items) => items != []
    case JObject(fields) => fields != map[]
  }

  /** `verify_api_key`: the status it answers with, or None when the request
      goes on to its route. `header` is the `x-api-key` header and `apiKey`
      the `API_KEY` environment variable, each None when absent. */
  function VerifyApiKey(requestMethod: string, header: Option<string>, apiKey: Option<string>): (status: Option<int>)
    ensures status == None || status == Some(401)
  {
    if requestMethod == "POST" && header != apiKey then Some(401) else None
  }

  /** Only POST requests are ever turned away, and a POST is turned away
      exactly when its header differs from the configured key. */
  lemma GuardRejectsOnlyPostsWithOtherKey(requestMethod: string, header: Option<string>, apiKey: Option<string>)
    ensures requestMethod != "POST" ==> VerifyApiKey(requestMethod, header, apiKey) == None
    ensures requestMethod == "POST" ==>
              (VerifyApiKey(requestMethod, header, apiKey) == Some(401) <==> header != apiKey)
  {
  }

  /** With no `API_KEY` set, a POST that sends no key is let through (the
      two absent values compare equal), while one that sends any key is
      turned away. */
  lemma UnsetKeyAdmitsOnlyKeylessPosts(header: Option<string>)
    ensures VerifyApiKey("POST", header, None) == None <==> header == None
  {
  }

  /** A POST to `/analyze`, up to the clone: the guard's status, a 500 when
      the body is not a JSON object (`data.get` raises), a 400 when
      `repo_url` is missing or falsy, otherwise the URL to clone. The route
      accepts POST only, so no other method reaches the handler. */
  datatype Outcome = Status(code: int) | Clone(repoUrl: Json)

  function AnalyzeRequest(header: Option<string>, apiKey: Option<string>, body: Json): (r: Outcome)
    ensures r.Clone? ==> header == apiKey
    ensures r.Clone? ==> body.JObject? && "repo_url" in body.fields && r.repoUrl == body.fields["repo_url"] &&
                         Truthy(r.repoUrl)
    ensures r.Status? ==> r.code in {400, 401, 500}
  {
    match VerifyApiKey("POST", header, apiKey)
    case Some(code) => Status(code)
    case None =>
      if !body.JObject? then Status(500)
      else
        var url := if "repo_url" in body.fields then body.fields["repo_url"] else JNull;
        if !Truthy(url) then Status(400) else Clone(url)
  }

  /** The guard comes first: a request whose key differs from the
      configured one gets 401 whatever its body. */
  lemma GuardBeforeBody(header: Option<string>, apiKey: Option<string>, body: Json)
    ensures header != apiKey <==> AnalyzeRequest(header, apiKey, body) == Status(401)
  {
  }

  /** An admitted request whose `repo_url` is missing, null, empty or
      otherwise falsy gets 400, and no clone is attempted; a clone is
      attempted only with a truthy `repo_url`. */
  lemma MissingRepoUrlRejected(header: Option<string>, apiKey: Option<string>, fields: map<string, Json>)
    requires header == apiKey
    ensures var r := AnalyzeRequest(header, apiKey, JObject(fields));
      (r == Status(400) <==> "repo_url" !in fields || !Truthy(fields["repo_url"])) &&
      (r.Clone? <==> "repo_url" in fields && Truthy(fields["repo_url"]))
  {
  }

  /** An admitted request whose body is JSON but not an object (an array,
      a string, `null`, ...) gets 500. */
  lemma NonObjectBodyFails(header: Option<string>, apiKey: Option<string>, body: Json)
    requires header == apiKey && !body.JObject?
    ensures AnalyzeRequest(header, apiKey, body) == Status(500)
  {
  }
}
