/** The static-file side of handlers.go: MaybeGzip serves `<path>.gz` in
    place of a file when the client accepts gzip and the compressed file
    exists. The request path is first rooted and cleaned as Go's
    `path.Clean` does. */
module HttpPaths {
  import opened Common

  /** Position of the first `/` in a string that has one. */
  function FirstSlash(p: string): (i: nat)
    requires '/' in p
    ensures i < |p| && p[i] == '/'
    ensures forall k :: 0 <= k < i ==> p[k] != '/'
  {
    if p[0] == '/' then 0 else 1 + FirstSlash(p[1..])
  }

  /** `strings.Split(p, "/")`: the pieces between slashes, none of which holds one. */
  function Split(p: string): (r: seq<string>)
    ensures |r| >= 1
    ensures forall i :: 0 <= i < |r| ==> '/' !in r[i]
    decreases |p|
  {
    if '/' !in p then [p]
    else
      var i := FirstSlash(p);
      assert '/' !in p[..i];
      [p[..i]] + Split(p[i + 1..])
  }

  /** A name `path.Clean` keeps: not empty, not `.` or `..`, and without a slash. */
  predicate Normal(e: string) {
    e != "" && e != "." && e != ".." && '/' !in e
  }

  predicate AllNormal(st: seq<string>) {
    forall i :: 0 <= i < |st| ==> Normal(st[i])
  }

  /** One element of a rooted path: empty names and `.` vanish, `..` removes
      the name before it (and nothing at the root), and a name is kept. */
  function Step(stack: seq<string>, e: string): (r: seq<string>)
    ensures AllNormal(stack) && '/' !in e ==> AllNormal(r)
  {
    if e == "" || e == "." then stack
    else if e == ".." then (if stack == [] then [] else stack[..|stack| - 1])
    else stack + [e]
  }

  function Resolve(elems: seq<string>, stack: seq<string>): seq<string>
    decreases |elems|
  {
    if elems == [] then stack else Resolve(elems[1..], Step(stack, elems[0]))
  }

  /** The names of a rooted path, each preceded by `/`. */
  function Join(st: seq<string>): string {
    if st == [] then "" else "/" + st[0] + Join(st[1..])
  }

  /** `path.Clean` of a path that begins with `/`. */
  function Clean(p: string): (r: string)
    requires p != [] && p[0] == '/'
    ensures r != [] && r[0] == '/'
  {
    var st := Resolve(Split(p), []);
    if st == [] then "/" else Join(st)
  }

  lemma {:induction false} ResolveNormal(elems: seq<string>, stack: seq<string>)
    requires AllNormal(stack) && forall i :: 0 <= i < |elems| ==> '/' !in elems[i]
    ensures AllNormal(Resolve(elems, stack))
    decreases |elems|
  {
    if elems != [] {
      ResolveNormal(elems[1..], Step(stack, elems[0]));
    }
  }

  /** Names that are already clean are kept as they are. */
  lemma {:induction false} ResolveKeeps(st: seq<string>, stack: seq<string>)
    requires AllNormal(st)
    ensures Resolve(st, stack) == stack + st
    decreases |st|
  {
    if st != [] {
      ResolveKeeps(st[1..], stack + [st[0]]);
      assert stack + [st[0]] + st[1..] == stack + st;
    }
  }

  lemma SplitAt(a: string, b: string)
    requires '/' !in a
    ensures Split(a + "/" + b) == [a] + Split(b)
  {
    var p := a + "/" + b;
    assert p[|a|] == '/';
    var i := FirstSlash(p);
    assert i == |a|;
    assert p[..i] == a && p[i + 1..] == b;
  }

  /** A joined path of two or more names, without its leading `/`, is the
      first name, a `/` and the rest of the joined names after their `/`. */
  lemma JoinTail(st: seq<string>)
    requires |st| >= 2
    requires Join(st[1..]) != [] && Join(st[1..])[0] == '/'
    ensures Join(st)[1..] == st[0] + "/" + Join(st[1..])[1..]
  {
    var rest := Join(st[1..]);
    var x := st[0] + "/" + rest[1..];
    assert rest == "/" + rest[1..];
    assert Join(st) == "/" + x;
    DropFirst('/', x);
  }

  lemma DropFirst<T>(h: T, x: seq<T>)
    ensures ([h] + x)[1..] == x
  {
  }

  /** Splitting the text after the leading `/` of a joined path gives the names back. */
  lemma {:induction false} SplitJoinTail(st: seq<string>)
    requires st != [] && AllNormal(st)
    ensures Join(st) != [] && Join(st)[0] == '/' && Split(Join(st)[1..]) == st
  {
    if |st| == 1 {
      assert Join(st[1..]) == "";
      assert Join(st)[1..] == st[0];
      assert Normal(st[0]);
      assert st == [st[0]];
    } else {
      SplitJoinTail(st[1..]);
      JoinTail(st);
      assert Normal(st[0]);
      SplitAt(st[0], Join(st[1..])[1..]);
      assert st == [st[0]] + st[1..];
    }
  }

  lemma SplitJoin(st: seq<string>)
    requires st != [] && AllNormal(st)
    ensures Split(Join(st)) == [""] + st
  {
    SplitJoinTail(st);
    var p := Join(st);
    assert p == "" + "/" + p[1..];
    SplitAt("", p[1..]);
  }

  /** What Clean returns: `/`, or a `/` before each of some clean names. */
  lemma CleanShape(p: string)
    requires p != [] && p[0] == '/'
    ensures var st := Resolve(Split(p), []);
      && AllNormal(st)
      && Clean(p) == (if st == [] then "/" else Join(st))
      && Clean(p) != [] && Clean(p)[0] == '/'
  {
    ResolveNormal(Split(p), []);
    var st := Resolve(Split(p), []);
    if st != [] {
      SplitJoinTail(st);
    }
  }

  /** A path made of clean names is its own cleaning. */
  lemma CleanOfJoin(st: seq<string>)
    requires st != [] && AllNormal(st)
    ensures Join(st) != [] && Join(st)[0] == '/' && Clean(Join(st)) == Join(st)
  {
    SplitJoin(st);
    SplitJoinTail(st);
    ResolveKeeps(st, []);
    assert ([""] + st)[1..] == st;
    assert Resolve([""] + st, []) == Resolve(st, Step([], ""));
    assert Resolve(Split(Join(st)), []) == st;
  }

  lemma CleanRoot()
    ensures Clean("/") == "/"
  {
    assert "/" == "" + "/" + "";
    SplitAt("", "");
    assert Split("/") == ["", ""];
  }

  /** Cleaning twice is cleaning once. */
  lemma CleanIdempotent(p: string)
    requires p != [] && p[0] == '/'
    ensures Clean(Clean(p)) == Clean(p)
  {
    CleanShape(p);
    var st := Resolve(Split(p), []);
    if st == [] {
      CleanRoot();
    } else {
      CleanOfJoin(st);
    }
  }

  lemma {:induction false} JoinSuffix(st: seq<string>, suffix: string)
    requires st != []
    ensures Join(st) + suffix == Join(st[..|st| - 1] + [st[|st| - 1] + suffix])
  {
    if |st| > 1 {
      JoinSuffix(st[1..], suffix);
      assert st[1..][..|st| - 2] == st[1..|st| - 1];
      var st' := st[..|st| - 1] + [st[|st| - 1] + suffix];
      assert st'[0] == st[0] && st'[1..] == st[1..][..|st[1..]| - 1] + [st[1..][|st[1..]| - 1] + suffix];
    } else {
      assert Join([st[0] + suffix][1..]) == "";
      assert Join(st[1..]) == "";
    }
  }

  /** A suffix without `/` added to a clean path other than `/` keeps it clean. */
  lemma CleanWithSuffix(p: string, suffix: string)
    requires p != [] && p[0] == '/' && Clean(p) != "/"
    requires suffix != "" && '/' !in suffix && suffix[0] == '.'
    ensures Clean(Clean(p) + suffix) == Clean(p) + suffix
  {
    CleanShape(p);
    var st := Resolve(Split(p), []);
    var last := st[|st| - 1] + suffix;
    var st' := st[..|st| - 1] + [last];
    var e := st[|st| - 1];
    assert Normal(e);
    assert last[0] == e[0];
    assert |e| == 1 ==> e == [e[0]];
    assert last != "." && last != "..";
    assert '/' !in last by {
      forall k | 0 <= k < |last| ensures last[k] != '/' {
        if k < |st[|st| - 1]| {
          assert last[k] == st[|st| - 1][k];
        } else {
          assert last[k] == suffix[k - |st[|st| - 1]|];
        }
      }
    }
    assert AllNormal(st');
    JoinSuffix(st, suffix);
    CleanOfJoin(st');
  }

  /** `filepath.Ext`: from the last `.` of the final name to the end, or "". */
  function Ext(p: string): (e: string)
    ensures |e| <= |p| && e == p[|p| - |e|..]
    ensures e != "" ==> e[0] == '.' && forall k :: 1 <= k < |e| ==> e[k] != '.' && e[k] != '/'
    decreases |p|
  {
    if p == [] || p[|p| - 1] == '/' then ""
    else if p[|p| - 1] == '.' then p[|p| - 1..]
    else
      var e := Ext(p[..|p| - 1]);
      if e == "" then "" else e + [p[|p| - 1]]
  }

  /** The final name of a path has no `.` when Ext finds none. */
  lemma {:induction false} NoExt(p: string, k: nat)
    requires Ext(p) == "" && k < |p| && forall j :: k <= j < |p| ==> p[j] != '/'
    ensures p[k] != '.'
    decreases |p|
  {
    var q := p[..|p| - 1];
    assert p[|p| - 1] != '/';
    if k < |p| - 1 {
      assert p[|p| - 1] != '.';
      assert Ext(q) == "";
      forall j | k <= j < |q| ensures q[j] != '/' {
        assert q[j] == p[j];
      }
      NoExt(q, k);
      assert q[k] == p[k];
    }
  }

  /** What MaybeGzip hands to the file server: the path to serve and the
      headers it set. */
  datatype Served = Served(path: string, headers: map<string, string>)

  const DefaultContentType: string := "text/html; charset=utf-8"

  /** The request path MaybeGzip looks up: rooted with `/`, then cleaned. */
  function RequestPath(urlPath: string): string {
    Clean(if "/" <= urlPath then urlPath else "/" + urlPath)
  }

  /** The compressed file for a cleaned request path; `/` stands for `/index.html`. */
  function GzPath(requestPath: string): string {
    if requestPath == "/" then "/index.html.gz" else requestPath + ".gz"
  }

  /** The Content-Type of a compressed response: `mime.TypeByExtension` of the
      request path's extension, or HTML when the type is unknown. */
  function GzContentType(requestPath: string, typeByExtension: string -> string): string {
    var contentType := typeByExtension(Ext(requestPath));
    if contentType == "" then DefaultContentType else contentType
  }

  /** MaybeGzip. `files` are the paths `root.Open` finds; `typeByExtension`
      is `mime.TypeByExtension`, "" for an unknown extension. */
  function MaybeGzip(acceptEncoding: string, urlPath: string, files: set<string>,
                     typeByExtension: string -> string): (r: Served)
    ensures r.path == urlPath || r.path in files
    ensures r.headers == map[] || (r.path in files && "Content-Encoding" in r.headers && r.headers["Content-Encoding"] == "gzip")
    ensures r.headers != map[] ==> Contains(acceptEncoding, "gzip")
  {
    if Contains(acceptEncoding, "gzip") then
      var requestPath := RequestPath(urlPath);
      var gzPath := GzPath(requestPath);
      if gzPath in files then
        Served(gzPath, map["Content-Type" := GzContentType(requestPath, typeByExtension),
                           "Content-Encoding" := "gzip"])
      else Served(urlPath, map[])
    else Served(urlPath, map[])
  }

  /** The compressed file is served exactly to clients that accept gzip and
      exactly when it exists. It is then the cleaned request path plus `.gz`
      (for `/`, `/index.html.gz`), itself a clean path, and the response is
      marked gzip-encoded with the request path's content type, HTML when
      that type is unknown. In every other case the request goes on
      unchanged. */
  lemma GzipRewrite(acceptEncoding: string, urlPath: string, files: set<string>,
                    typeByExtension: string -> string)
    ensures var r := MaybeGzip(acceptEncoding, urlPath, files, typeByExtension);
      var gz := GzPath(RequestPath(urlPath));
      && (Contains(acceptEncoding, "gzip") && gz in files ==>
            && r.path == gz && r.path != [] && r.path[0] == '/' && Clean(r.path) == r.path
            && r.headers.Keys == {"Content-Type", "Content-Encoding"}
            && r.headers["Content-Encoding"] == "gzip"
            && r.headers["Content-Type"] != ""
            && (typeByExtension(Ext(RequestPath(urlPath))) != "" ==>
                  r.headers["Content-Type"] == typeByExtension(Ext(RequestPath(urlPath))))
            && (typeByExtension(Ext(RequestPath(urlPath))) == "" ==>
                  r.headers["Content-Type"] == "text/html; charset=utf-8"))
      && (Contains(acceptEncoding, "gzip") && gz !in files ==> r == Served(urlPath, map[]))
      && (!Contains(acceptEncoding, "gzip") ==> r == Served(urlPath, map[]))
  {
    GzPathClean(urlPath);
  }

  /** The compressed path is a clean rooted path. */
  lemma GzPathClean(urlPath: string)
    ensures var gz := GzPath(RequestPath(urlPath));
      gz != [] && gz[0] == '/' && Clean(gz) == gz
  {
    var rooted := if "/" <= urlPath then urlPath else "/" + urlPath;
    assert rooted != [] && rooted[0] == '/';
    CleanShape(rooted);
    if Clean(rooted) == "/" {
      IndexGzClean();
    } else {
      CleanWithSuffix(rooted, ".gz");
    }
  }

  /** The site root is served from its compressed index page, which gets the
      content type of a path without an extension. */
  lemma GzipRoot(acceptEncoding: string, files: set<string>, typeByExtension: string -> string)
    requires Contains(acceptEncoding, "gzip") && "/index.html.gz" in files
    ensures var r := MaybeGzip(acceptEncoding, "/", files, typeByExtension);
      && r.path == "/index.html.gz"
      && r.headers["Content-Type"] == (if typeByExtension("") == "" then "text/html; charset=utf-8" else typeByExtension(""))
  {
    CleanRoot();
    assert RequestPath("/") == "/";
    assert Ext("/") == "";
  }

  lemma IndexGzClean()
    ensures Clean("/index.html.gz") == "/index.html.gz"
  {
    var st := ["index.html.gz"];
    assert AllNormal(st);
    assert Join(st) == "/index.html.gz";
    CleanOfJoin(st);
  }
}
