/**
 * The output paths of the static build in vite-rsc/src/framework/plugin.ts:
 * each generated route is written as an HTML file and an RSC payload under the
 * client output directory, and a progress counter is reported after each route.
 * `path.join` and the RSC file suffix are parameters.
 */
module SsgPlugin {
  import opened Strings

  /** `normalizeHtmlFilePath`: a directory route gets "index.html", any other
      route gets ".html" appended. */
  function HtmlFilePath(p: string): (r: string)
    ensures EndsWith(p, "/") ==> r == p + "index.html"
    ensures !EndsWith(p, "/") ==> r == p + ".html"
  {
    if EndsWith(p, "/") then p + "index.html" else p + ".html"
  }

  /** The route is a prefix of its HTML path, which ends in ".html". */
  lemma HtmlFilePathShape(p: string)
    ensures StartsWith(HtmlFilePath(p), p)
    ensures EndsWith(HtmlFilePath(p), ".html")
  {
    var r := HtmlFilePath(p);
    assert r[..|p|] == p;
    if EndsWith(p, "/") {
      assert r[|r| - 5..] == "index.html"[5..];
    } else {
      assert r[|r| - 5..] == ".html";
    }
  }

  /** Two routes that agree on ending in "/" have the same HTML path only when
      they are the same route. */
  lemma HtmlFilePathInjective(p: string, q: string)
    requires EndsWith(p, "/") == EndsWith(q, "/")
    requires HtmlFilePath(p) == HtmlFilePath(q)
    ensures p == q
  {
    assert HtmlFilePath(p)[..|p|] == p;
    assert HtmlFilePath(q)[..|q|] == q;
  }

  /** A directory route and the same route's "index" page share an HTML path:
      "docs/" and "docs/index" both give "docs/index.html". */
  lemma HtmlFilePathShared(d: string)
    requires EndsWith(d, "/")
    ensures HtmlFilePath(d) == HtmlFilePath(d + "index")
  {
    var p := d + "index";
    assert p[|p| - 1] == 'x';
    assert !EndsWith(p, "/");
    assert d + "index.html" == p + ".html";
  }

  /** The files written for one route: its HTML page and its RSC payload. */
  datatype Output = Output(html: string, rsc: string)

  /** Where a route's files go: under `baseDir`, at its HTML path and at the
      route followed by the RSC suffix. */
  function OutputOf(baseDir: string, route: string, rscPostfix: string, join: (string, string) -> string): (r: Output)
    ensures r.html == join(baseDir, route + (if EndsWith(route, "/") then "index.html" else ".html"))
    ensures r.rsc == join(baseDir, route + rscPostfix)
  {
    Output(join(baseDir, HtmlFilePath(route)), join(baseDir, route + rscPostfix))
  }

  /** A route's two files never share a relative path when the RSC suffix does
      not end in ".html", so writing them side by side loses nothing. */
  lemma OutputPathsDiffer(route: string, rscPostfix: string)
    requires !EndsWith(rscPostfix, ".html")
    ensures HtmlFilePath(route) != route + rscPostfix
  {
    var h := HtmlFilePath(route);
    var tail := if EndsWith(route, "/") then "index.html" else ".html";
    assert h[|route|..] == tail;
    assert tail[|tail| - 5..] == ".html";
    assert (route + rscPostfix)[|route|..] == rscPostfix;
  }

  /** The render loop with the concurrency taken out: the routes are rendered one
      after the other, the files of each route recorded and the counter
      incremented and reported with the total once the route is done. */
  method RenderStatic(generated: seq<string>, baseDir: string, rscPostfix: string, join: (string, string) -> string)
    returns (outputs: seq<Output>, reports: seq<(int, int)>, renderCount: int)
    ensures renderCount == |generated|
    ensures |outputs| == |generated| && |reports| == |generated|
    ensures forall i :: 0 <= i < |generated| ==> outputs[i] == OutputOf(baseDir, generated[i], rscPostfix, join)
    ensures forall i :: 0 <= i < |generated| ==> reports[i] == (i + 1, |generated|)
    ensures forall i :: 0 <= i < |reports| ==> 1 <= reports[i].0 <= reports[i].1
  {
    renderCount := 0;
    outputs := [];
    reports := [];
    for i := 0 to |generated|
      invariant renderCount == i
      invariant |outputs| == i && |reports| == i
      invariant forall j :: 0 <= j < i ==> outputs[j] == OutputOf(baseDir, generated[j], rscPostfix, join)
      invariant forall j :: 0 <= j < i ==> reports[j] == (j + 1, |generated|)
    {
      var staticPatch := generated[i];
      var htmlPath := join(baseDir, HtmlFilePath(staticPatch));
      var rscPath := join(baseDir, staticPatch + rscPostfix);
      outputs := outputs + [Output(htmlPath, rscPath)];
      renderCount := renderCount + 1;
      reports := reports + [(renderCount, |generated|)];
    }
  }
}
