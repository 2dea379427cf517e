/**
  The pieces of src/http_server.cpp that are logic rather than ESP-IDF
  plumbing: the content type chosen for a served path, and the
  running/start/stop logic around the server handle.
 */
module HttpServer {
  import opened Base
  import opened Text

  // ---------------------------------------------------------------------------
  // Content types
  // ---------------------------------------------------------------------------

  /** The patterns `mime_from_path` tests, in its order, with the type each selects. */
  const Patterns: seq<(string, string)> := [
    (".html", "text/html"),
    (".css", "text/css"),
    (".js", "application/javascript"),
    (".json", "application/json"),
    (".png", "image/png"),
    (".jpg", "image/jpeg"),
    (".ico", "image/x-icon"),
    (".svg", "image/svg+xml")
  ]

  const Fallback := "application/octet-stream"

  /** Pattern k is the first of `table` found anywhere in the path. */
  predicate FirstHit(path: string, table: seq<(string, string)>, k: nat)
  {
    k < |table| && Contains(path, table[k].0) && forall j | 0 <= j < k :: !Contains(path, table[j].0)
  }

  predicate NoHit(path: string, table: seq<(string, string)>)
  {
    forall j | 0 <= j < |table| :: !Contains(path, table[j].0)
  }

  /** The type of the first pattern of `table` that occurs in the path, else the fallback. */
  function Dispatch(path: string, table: seq<(string, string)>): (r: string)
    ensures NoHit(path, table) ==> r == Fallback
    ensures forall k: nat | k < |table| :: FirstHit(path, table, k) ==> r == table[k].1
  {
    if |table| == 0 then Fallback
    else if Contains(path, table[0].0) then table[0].1
    else
      var r := Dispatch(path, table[1..]);
      forall k: nat | k < |table| && FirstHit(path, table, k)
        ensures r == table[k].1
      {
        assert k != 0;
        assert FirstHit(path, table[1..], k - 1);
      }
      r
  }

  /**
    `mime_from_path`: the type of the first pattern that occurs anywhere in
    the path, else the octet-stream fallback.
   */
  function Mime(path: string): (r: string)
    ensures NoHit(path, Patterns) <==> r == Fallback
  {
    PatternNames();
    if Contains(path, ".html") then "text/html"
    else if Contains(path, ".css") then "text/css"
    else if Contains(path, ".js") then "application/javascript"
    else if Contains(path, ".json") then "application/json"
    else if Contains(path, ".png") then "image/png"
    else if Contains(path, ".jpg") then "image/jpeg"
    else if Contains(path, ".ico") then "image/x-icon"
    else if Contains(path, ".svg") then "image/svg+xml"
    else Fallback
  }

  lemma PatternNames()
    ensures Patterns[0].0 == ".html" && Patterns[1].0 == ".css" && Patterns[2].0 == ".js"
    ensures Patterns[3].0 == ".json" && Patterns[4].0 == ".png" && Patterns[5].0 == ".jpg"
    ensures Patterns[6].0 == ".ico" && Patterns[7].0 == ".svg" && |Patterns| == 8
    ensures |PatternsJsonFirst| == 8
    ensures PatternsJsonFirst[0] == Patterns[0] && PatternsJsonFirst[1] == Patterns[1]
    ensures PatternsJsonFirst[2] == Patterns[3] && PatternsJsonFirst[3] == Patterns[2]
    ensures PatternsJsonFirst[4] == Patterns[4] && PatternsJsonFirst[5] == Patterns[5]
    ensures PatternsJsonFirst[6] == Patterns[6] && PatternsJsonFirst[7] == Patterns[7]
  {
  }

  /** One step of the dispatch: test the head pattern, else go on with the rest. */
  lemma DispatchCons(path: string, p: (string, string), rest: seq<(string, string)>)
    ensures Dispatch(path, [p] + rest) == if Contains(path, p.0) then p.1 else Dispatch(path, rest)
  {
    assert ([p] + rest)[1..] == rest;
  }

  /** Dispatch over a table given as its eight entries, unfolded. */
  lemma {:induction false} DispatchEight(path: string, t: seq<(string, string)>)
    requires |t| == 8
    ensures Dispatch(path, t) ==
      if Contains(path, t[0].0) then t[0].1
      else if Contains(path, t[1].0) then t[1].1
      else if Contains(path, t[2].0) then t[2].1
      else if Contains(path, t[3].0) then t[3].1
      else if Contains(path, t[4].0) then t[4].1
      else if Contains(path, t[5].0) then t[5].1
      else if Contains(path, t[6].0) then t[6].1
      else if Contains(path, t[7].0) then t[7].1
      else Fallback
  {
    assert forall i | 0 <= i < 8 :: t[i..] == [t[i]] + t[i + 1..];
    DispatchCons(path, t[7], t[8..]);
    DispatchCons(path, t[6], t[7..]);
    DispatchCons(path, t[5], t[6..]);
    DispatchCons(path, t[4], t[5..]);
    DispatchCons(path, t[3], t[4..]);
    DispatchCons(path, t[2], t[3..]);
    DispatchCons(path, t[1], t[2..]);
    DispatchCons(path, t[0], t[1..]);
  }

  /** `mime_from_path` is first-hit dispatch over its pattern table. */
  lemma MimeIsFirstHit(path: string)
    ensures Mime(path) == Dispatch(path, Patterns)
    ensures forall k: nat | k < |Patterns| :: FirstHit(path, Patterns, k) ==> Mime(path) == Patterns[k].1
  {
    PatternNames();
    DispatchEight(path, Patterns);
  }

  /** Matching is by substring, not by extension: a compressed page is still served as HTML. */
  lemma SubstringNotSuffix()
    ensures Mime("a.html.gz") == "text/html"
  {
    assert OccursAt("a.html.gz", ".html", 1);
  }

  /** Wherever ".json" occurs, ".js" occurs at the same place. */
  lemma JsonContainsJs(path: string)
    requires Contains(path, ".json")
    ensures Contains(path, ".js")
  {
    var i: nat :| i <= |path| && OccursAt(path, ".json", i);
    assert path[i..i + 3] == path[i..i + 5][..3];
    assert OccursAt(path, ".js", i);
  }

  /** The JSON branch can never be taken: no path is served as "application/json". */
  lemma {:induction false} JsonUnreachable(path: string)
    ensures Mime(path) != "application/json"
  {
    if Contains(path, ".json") {
      JsonContainsJs(path);
    }
  }

  /** The only dot in "data.json" is at index 4, so a dotted pattern occurs there or nowhere. */
  lemma DataJsonHits(t: string)
    requires 1 <= |t| && t[0] == '.'
    ensures Contains("data.json", t) <==> |t| <= 5 && t == ".json"[..|t|]
  {
    var s := "data.json";
    if Contains(s, t) {
      var i: nat :| i <= |s| && OccursAt(s, t, i);
      assert s[i] == t[0];
      assert i == 4;
    }
    if |t| <= 5 && t == ".json"[..|t|] {
      assert OccursAt(s, t, 4);
    }
  }

  /** A concrete instance: a JSON file goes out as JavaScript. */
  lemma JsonServedAsJavascript()
    ensures Mime("data.json") == "application/javascript"
  {
    DataJsonHits(".html");
    DataJsonHits(".css");
    assert ".html"[1] != ".json"[1] && ".css"[1] != ".json"[..4][1];
    assert !Contains("data.json", ".html") && !Contains("data.json", ".css");
    assert OccursAt("data.json", ".js", 4);
  }

  /** The evidently intended order: the longer ".json" is tested before its prefix ".js". */
  const PatternsJsonFirst: seq<(string, string)> :=
    Patterns[..2] + [Patterns[3], Patterns[2]] + Patterns[4..]

  /** `mime_from_path` with ".json" tested before ".js". */
  function MimeJsonFirst(path: string): (r: string)
    ensures NoHit(path, PatternsJsonFirst) <==> r == Fallback
  {
    PatternNames();
    if Contains(path, ".html") then "text/html"
    else if Contains(path, ".css") then "text/css"
    else if Contains(path, ".json") then "application/json"
    else if Contains(path, ".js") then "application/javascript"
    else if Contains(path, ".png") then "image/png"
    else if Contains(path, ".jpg") then "image/jpeg"
    else if Contains(path, ".ico") then "image/x-icon"
    else if Contains(path, ".svg") then "image/svg+xml"
    else Fallback
  }

  /** The corrected order is first-hit dispatch over the reordered table. */
  lemma MimeJsonFirstIsFirstHit(path: string)
    ensures MimeJsonFirst(path) == Dispatch(path, PatternsJsonFirst)
  {
    PatternNames();
    DispatchEight(path, PatternsJsonFirst);
  }

  /**
    With the corrected order a JSON file is served as JSON, and every path
    without ".json" in it gets the same type as before.
   */
  lemma JsonFirstServesJson(path: string)
    ensures Contains(path, ".json") && !Contains(path, ".html") && !Contains(path, ".css") ==>
              MimeJsonFirst(path) == "application/json"
    ensures !Contains(path, ".json") ==> MimeJsonFirst(path) == Mime(path)
    ensures MimeJsonFirst("data.json") == "application/json"
  {
    DataJsonHits(".html");
    DataJsonHits(".css");
    DataJsonHits(".json");
    assert ".json"[..5] == ".json" && ".html"[1] != ".json"[1];
    assert ".css"[1] != ".json"[..4][1];
    assert Contains("data.json", ".json");
  }

  // ---------------------------------------------------------------------------
  // Server handle
  // ---------------------------------------------------------------------------

  /** The module's server handle; `None` is the null handle. */
  datatype Server = Server(handle: Option<nat>)

  /** `is_webserver_running`: true exactly when the handle is not null. */
  function Running(s: Server): (r: bool)
    ensures r <==> s != Server(None)
  {
    s.handle.Some?
  }

  /**
    `start_webserver_if_not_running`: a running server is left alone;
    otherwise `started` is what `httpd_start` produced, a handle on success
    and nothing on failure.
   */
  function Start(s: Server, started: Option<nat>): (r: Server)
    ensures Running(s) ==> r == s
    ensures !Running(s) ==> (Running(r) <==> started.Some?) && r.handle == started
  {
    if Running(s) then s else Server(started)
  }

  /** `stop_webserver`: the handle is dropped if there is one. */
  function Stop(s: Server): (r: Server)
    ensures !Running(r)
    ensures !Running(s) ==> r == s
  {
    if Running(s) then Server(None) else s
  }

  /** Stopping twice is stopping once, and a second start is a no-op. */
  lemma StartStopIdempotent(s: Server, a: Option<nat>, b: Option<nat>)
    ensures Stop(Stop(s)) == Stop(s)
    ensures Running(Start(s, a)) ==> Start(Start(s, a), b) == Start(s, a)
  {
  }

  /** After a stop, a start with a successful `httpd_start` runs the new handle. */
  lemma RestartAfterStop(s: Server, h: nat)
    ensures Start(Stop(s), Some(h)) == Server(Some(h))
  {
  }
}
