/** Service paths "/service/method" (utils/addr_parse.go). */
module ServicePath {
  import opened Wrappers

  /** `strings.LastIndex(path, "/")`. */
  function LastSlash(path: string): (i: int)
    ensures -1 <= i < |path|
    ensures i >= 0 ==> path[i] == '/'
    ensures forall j | i < j < |path| :: path[j] != '/'
  {
    if path == [] then -1
    else if path[|path| - 1] == '/' then |path| - 1
    else LastSlash(path[..|path| - 1])
  }

  datatype InvalidPath = InvalidPath

  function Parse(path: string): Result<(string, string), InvalidPath> {
    var index := LastSlash(path);
    if index == 0 || index == -1 || path[0] != '/' then Err(InvalidPath)
    else Ok((path[1..index], path[index + 1..]))
  }

  function Render(service: string, method': string): string {
    "/" + service + "/" + method'
  }

  /** A slash first, and another one somewhere. */
  predicate IsServicePath(path: string) {
    |path| > 0 && path[0] == '/' && '/' in path[1..]
  }

  /** Parsing succeeds exactly on paths that start with a slash and contain another one. */
  lemma ParsesIff(path: string)
    ensures Parse(path).Ok? <==> IsServicePath(path)
  {
    var i := LastSlash(path);
    if Parse(path).Ok? {
      assert path[1..][i - 1] == '/';
    }
  }

  /** A parsed path renders back to itself, and its method has no slash. */
  lemma RenderParsed(path: string)
    requires Parse(path).Ok?
    ensures Render(Parse(path).value.0, Parse(path).value.1) == path
    ensures '/' !in Parse(path).value.1
  {
    var i := LastSlash(path);
    assert path == path[..1] + path[1..i] + path[i..i + 1] + path[i + 1..];
  }

  /** A rendered pair parses back if and only if the method has no slash; the service may have any. */
  lemma ParseRenderedIff(service: string, method': string)
    ensures Parse(Render(service, method')) == Ok((service, method')) <==> '/' !in method'
  {
    var path, at := Render(service, method'), |service| + 1;
    assert path[at] == '/' && path[at + 1..] == method' && path[1..at] == service;
    if '/' !in method' {
      assert forall j | at < j < |path| :: path[j] == method'[j - at - 1];
      assert LastSlash(path) == at;
    } else if Parse(path) == Ok((service, method')) {
      RenderParsed(path);
      assert false;
    }
  }

  /** The method the server dispatches on is the one the client split off the path. */
  lemma ClientAndServerAgree(path: string)
    requires Parse(path).Ok?
    ensures var (service, method') := Parse(path).value;
            Parse(Render(service, method')) == Ok((service, method'))
  {
    RenderParsed(path);
  }
}
