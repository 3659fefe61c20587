/** The loopback redirect receiver of `GetAuthorizationCodeAsync` (the redirect of
    section 7.3 of RFC 8252, carrying the authorization response of section 4.1.2 of
    RFC 6749): the request line and the header lines of the one accepted
    connection are its input; the `AuthResult` and whether the fixed
    `HTTP/1.1 200 OK` page was written are its output. */
module Callback {
  import opened Optional
  import opened Text
  import AR = AuthResults

  /** A query parameter that splits on `=` into exactly two parts, as a key and a value;
      any other piece is ignored. */
  function Pair(param: string): (r: Option<(string, string)>)
    ensures r.Some? ==> param == r.value.0 + "=" + r.value.1
    ensures r.Some? ==> '=' !in r.value.0 && '=' !in r.value.1
  {
    var p := Split(param, '=');
    if |p| == 2 then
      JoinSplit(param, '=');
      assert Join(p, '=') == p[0] + "=" + p[1] by {
        assert p[1..] == [p[1]];
      }
      Some((p[0], p[1]))
    else None
  }

  predicate HasKey(param: string, key: string)
  {
    Pair(param).Some? && Pair(param).value.0 == key
  }

  /** The value the parameter loop leaves for `key`: the value of the last pair with
      that key, or `None` when no pair has it. */
  function LastValue(params: seq<string>, key: string): Option<string>
  {
    if |params| == 0 then None
    else if HasKey(params[|params| - 1], key) then Some(Pair(params[|params| - 1]).value.1)
    else LastValue(params[..|params| - 1], key)
  }

  /** A key with no `=` written as `key=value` is a pair with that key and value. */
  lemma PairOf(key: string, value: string)
    requires '=' !in key && '=' !in value
    ensures Pair(key + "=" + value) == Some((key, value))
  {
    assert Join([key, value], '=') == key + "=" + value by {
      assert [key, value][1..] == [value];
    }
    SplitJoin([key, value], '=');
  }

  /** `LastValue` is the value of the pair for `key` that no later pair for `key` follows. */
  lemma LastValueIsLastPair(params: seq<string>, key: string, v: string)
    ensures LastValue(params, key) == Some(v) <==>
      exists i :: 0 <= i < |params| && Pair(params[i]) == Some((key, v)) &&
        forall j :: i < j < |params| ==> !HasKey(params[j], key)
  {
    if LastValue(params, key) == Some(v) {
      LastValueHasWitness(params, key, v);
      var i :| LastPairAt(params, key, v, i);
    } else {
      forall i | 0 <= i < |params| && Pair(params[i]) == Some((key, v)) &&
          forall j :: i < j < |params| ==> !HasKey(params[j], key)
        ensures false
      {
        WitnessGivesLastValue(params, key, v, i);
      }
    }
  }

  /** Index `i` holds the pair `key=v` and no later parameter has `key`. */
  predicate LastPairAt(params: seq<string>, key: string, v: string, i: int)
  {
    0 <= i < |params| && Pair(params[i]) == Some((key, v)) &&
    forall j :: i < j < |params| ==> !HasKey(params[j], key)
  }

  lemma {:induction false} LastValueHasWitness(params: seq<string>, key: string, v: string)
    requires LastValue(params, key) == Some(v)
    ensures exists i :: LastPairAt(params, key, v, i)
  {
    var n := |params|;
    if HasKey(params[n - 1], key) {
      assert LastPairAt(params, key, v, n - 1);
    } else {
      LastValueHasWitness(params[..n - 1], key, v);
      var i :| LastPairAt(params[..n - 1], key, v, i);
      WitnessExtends(params, key, v, i);
    }
  }

  /** A parameter without `key` after the last pair for `key` keeps that pair the last. */
  lemma WitnessExtends(params: seq<string>, key: string, v: string, i: int)
    requires |params| > 0 && !HasKey(params[|params| - 1], key)
    requires LastPairAt(params[..|params| - 1], key, v, i)
    ensures LastPairAt(params, key, v, i)
  {
    var pre := params[..|params| - 1];
    assert forall j :: 0 <= j < |pre| ==> pre[j] == params[j];
  }

  lemma {:induction false} WitnessGivesLastValue(params: seq<string>, key: string, v: string, i: int)
    requires 0 <= i < |params| && Pair(params[i]) == Some((key, v))
    requires forall j :: i < j < |params| ==> !HasKey(params[j], key)
    ensures LastValue(params, key) == Some(v)
    decreases |params|
  {
    var n := |params|;
    if i < n - 1 {
      var pre := params[..n - 1];
      assert !HasKey(params[n - 1], key);
      assert pre[i] == params[i];
      forall j | i < j < |pre|
        ensures !HasKey(pre[j], key)
      {
        assert pre[j] == params[j];
      }
      WitnessGivesLastValue(pre, key, v, i);
    }
  }

  /** `LastValue` is absent exactly when no parameter is a pair for `key`. */
  lemma {:induction false} LastValueAbsent(params: seq<string>, key: string)
    ensures LastValue(params, key).None? <==> forall i :: 0 <= i < |params| ==> !HasKey(params[i], key)
  {
    if |params| > 0 {
      var pre := params[..|params| - 1];
      LastValueAbsent(pre, key);
      assert forall i :: 0 <= i < |pre| ==> pre[i] == params[i];
    }
  }

  /** A later occurrence of a key overrides every earlier one. */
  lemma LaterOccurrenceWins(params: seq<string>, key: string, value: string)
    requires '=' !in key && '=' !in value
    ensures LastValue(params + [key + "=" + value], key) == Some(value)
  {
    PairOf(key, value);
  }

  /** The query parameter loop: each `&`-separated piece that is a pair sets `code`
      or `state` when its key is exactly that, so the last such piece wins. */
  method ParseQuery(query: string) returns (code: Option<string>, incomingState: Option<string>)
    ensures code == LastValue(Split(query, '&'), "code")
    ensures incomingState == LastValue(Split(query, '&'), "state")
  {
    code, incomingState := None, None;
    var params := Split(query, '&');
    for i := 0 to |params|
      invariant code == LastValue(params[..i], "code")
      invariant incomingState == LastValue(params[..i], "state")
    {
      var pair := Split(params[i], '=');
      assert params[..i + 1][..i] == params[..i];
      if |pair| == 2 {
        if pair[0] == "code" {
          code := Some(pair[1]);
        }
        if pair[0] == "state" {
          incomingState := Some(pair[1]);
        }
      }
    }
    assert params[..|params|] == params;
  }

  /** `n` lines are what the header loop reads from `lines`: every line up to and
      including the first empty one, or all of them when none is empty. */
  predicate EndsHeaderBlock(lines: seq<string>, n: nat)
  {
    && n <= |lines|
    && (forall j :: 0 <= j < n - 1 ==> lines[j] != "")
    && (n < |lines| ==> 0 < n && lines[n - 1] == "")
    && (n == 0 ==> |lines| == 0)
  }

  /** The header loop: reads and discards lines until the stream ends or a line is empty. */
  method DrainHeaders(lines: seq<string>) returns (consumed: nat)
    ensures EndsHeaderBlock(lines, consumed)
  {
    consumed := 0;
    while consumed < |lines|
      invariant consumed <= |lines|
      invariant forall j :: 0 <= j < consumed ==> lines[j] != ""
    {
      var line := lines[consumed];
      consumed := consumed + 1;
      if line == "" {
        break;
      }
    }
  }

  /** The query of a request target: everything after its first `?`. */
  function QueryOf(url: string): (q: string)
    requires '?' in url
    ensures exists i :: 0 <= i < |url| && url == url[..i] + "?" + q && '?' !in url[..i]
  {
    var i := IndexOf(url, '?');
    assert url == url[..i] + "?" + url[i + 1..];
    url[i + 1..]
  }

  /** The checks after the page is written: the state first, then the code. */
  function Validate(code: Option<string>, incomingState: Option<string>, expectedState: string): (r: AR.AuthResult)
    ensures incomingState != Some(expectedState) ==> r == AR.Error("State Mismatch")
    ensures incomingState == Some(expectedState) && (code.None? || code.value == "") ==>
      r == AR.Error("Code not found")
    ensures !r.isError <==> incomingState == Some(expectedState) && code.Some? && code.value != ""
    ensures !r.isError ==> r == AR.Success(code.value)
  {
    if incomingState != Some(expectedState) then AR.Error("State Mismatch")
    else if code.None? || code.value == "" then AR.Error("Code not found")
    else AR.Success(code.value)
  }

  datatype Outcome = Outcome(result: AR.AuthResult, pageWritten: bool)

  /** What one callback connection produces, as a function of its request line (`None`
      when no line could be read) and the state sent in the authorize URL. */
  function Receive(requestLine: Option<string>, expectedState: string): Outcome
  {
    if requestLine.None? then Outcome(AR.Error("Could not read request"), false)
    else if requestLine.value == "" then Outcome(AR.Error("Empty request"), false)
    else
      var parts := Split(requestLine.value, ' ');
      if |parts| < 2 then Outcome(AR.Error("Invalid request"), false)
      else if '?' !in parts[1] then Outcome(AR.Error("No query parameters"), false)
      else
        var params := Split(QueryOf(parts[1]), '&');
        Outcome(Validate(LastValue(params, "code"), LastValue(params, "state"), expectedState), true)
  }

  /** The receiver as the client runs it: read the request line, drain the headers,
      check the request line, parse the query, write the page, validate. */
  method ReceiveCallback(requestLine: Option<string>, following: seq<string>, expectedState: string)
    returns (result: AR.AuthResult, pageWritten: bool, headerLines: nat)
    ensures Outcome(result, pageWritten) == Receive(requestLine, expectedState)
    ensures requestLine.None? ==> headerLines == 0
    ensures requestLine.Some? ==> EndsHeaderBlock(following, headerLines)
  {
    pageWritten, headerLines := false, 0;
    if requestLine.None? {
      result := AR.Error("Could not read request");
      return;
    }
    headerLines := DrainHeaders(following);
    var line := requestLine.value;
    if line == "" {
      result := AR.Error("Empty request");
      return;
    }
    var parts := Split(line, ' ');
    if |parts| < 2 {
      result := AR.Error("Invalid request");
      return;
    }
    var url := parts[1];
    if '?' !in url {
      result := AR.Error("No query parameters");
      return;
    }
    var queryString := url[IndexOf(url, '?') + 1..];
    var code, incomingState := ParseQuery(queryString);
    pageWritten := true;
    if incomingState != Some(expectedState) {
      result := AR.Error("State Mismatch");
      return;
    }
    if code.None? || code.value == "" {
      result := AR.Error("Code not found");
      return;
    }
    result := AR.Success(code.value);
  }

  /** The page is written exactly when a query was found, and a failure before that
      point is one of the four early errors. */
  lemma EarlyFailuresWriteNothing(requestLine: Option<string>, expectedState: string)
    ensures Receive(requestLine, expectedState).pageWritten <==>
      requestLine.Some? && |Split(requestLine.value, ' ')| >= 2 && '?' in Split(requestLine.value, ' ')[1]
    ensures !Receive(requestLine, expectedState).pageWritten ==>
      Receive(requestLine, expectedState).result.isError &&
      Receive(requestLine, expectedState).result.errorMessage in
        {"Could not read request", "Empty request", "Invalid request", "No query parameters"}
  {
    if requestLine.Some? && requestLine.value == "" {
      assert Split("", ' ') == [""];
    }
  }

  /** The early failures, each with its own message, in the order they are checked:
      no line, an empty line, fewer than two space-separated tokens, no `?` in the
      second token. None of them writes the page. */
  lemma EarlyFailures(requestLine: Option<string>, expectedState: string)
    ensures requestLine.None? ==>
      Receive(requestLine, expectedState) == Outcome(AR.Error("Could not read request"), false)
    ensures requestLine == Some("") ==>
      Receive(requestLine, expectedState) == Outcome(AR.Error("Empty request"), false)
    ensures requestLine.Some? && requestLine.value != "" && |Split(requestLine.value, ' ')| < 2 ==>
      Receive(requestLine, expectedState) == Outcome(AR.Error("Invalid request"), false)
    ensures requestLine.Some? && requestLine.value != "" && |Split(requestLine.value, ' ')| >= 2 &&
            '?' !in Split(requestLine.value, ' ')[1] ==>
      Receive(requestLine, expectedState) == Outcome(AR.Error("No query parameters"), false)
  {
  }

  predicate NoDelimiters(s: string)
  {
    ' ' !in s && '&' !in s && '=' !in s
  }

  /** The request line a browser sends: method, request target and version, separated by spaces. */
  function RequestLine(verb: string, target: string, version: string): string
  {
    verb + " " + target + " " + version
  }

  /** A request line whose target is `<path>?<query>` yields the parse of `<query>`,
      whatever the method and the version. */
  lemma RequestLineQuery(verb: string, path: string, query: string, version: string, expectedState: string)
    requires ' ' !in verb && ' ' !in path && '?' !in path && ' ' !in query && ' ' !in version
    ensures
      var params := Split(query, '&');
      Receive(Some(RequestLine(verb, path + "?" + query, version)), expectedState) ==
        Outcome(Validate(LastValue(params, "code"), LastValue(params, "state"), expectedState), true)
  {
    var url := path + "?" + query;
    TargetFacts(path, query);
    RequestLineParts(verb, url, version);
  }

  lemma RequestLineParts(verb: string, url: string, version: string)
    requires ' ' !in verb && ' ' !in url && ' ' !in version
    ensures RequestLine(verb, url, version) != ""
    ensures Split(RequestLine(verb, url, version), ' ') == [verb, url, version]
  {
    assert RequestLine(verb, url, version) == verb + [' '] + url + [' '] + version;
    SplitThree(verb, url, version, ' ');
  }

  lemma TargetFacts(path: string, query: string)
    requires ' ' !in path && '?' !in path && ' ' !in query
    ensures ' ' !in path + "?" + query
    ensures '?' in path + "?" + query && QueryOf(path + "?" + query) == query
  {
    QueryAfter(path, query);
  }

  /** The query of `<path>?<query>` is `query` when the path has no `?`. */
  lemma QueryAfter(path: string, query: string)
    requires '?' !in path
    ensures '?' in path + "?" + query && QueryOf(path + "?" + query) == query
  {
    var url := path + "?" + query;
    assert url[..|path|] == path && url[|path|] == '?';
    IndexOfAt(url, '?', |path|);
  }

  /** Parameters appended after others override them: the later list decides for
      every key it holds. */
  lemma {:induction false} LastValueConcat(p: seq<string>, q: seq<string>, key: string)
    ensures LastValue(p + q, key) == if LastValue(q, key).Some? then LastValue(q, key) else LastValue(p, key)
    decreases |q|
  {
    if |q| > 0 {
      var n := |q|;
      assert (p + q)[..|p + q| - 1] == p + q[..n - 1];
      assert (p + q)[|p + q| - 1] == q[n - 1];
      LastValueConcat(p, q[..n - 1], key);
    } else {
      assert p + q == p;
    }
  }

  /** Section 4.1.2 of RFC 6749: a callback echoing the state with a nonempty code
      succeeds with that code. */
  lemma EchoedStateAccepted(verb: string, path: string, version: string, code: string, state: string)
    requires ' ' !in verb && ' ' !in path && '?' !in path && ' ' !in version
    requires NoDelimiters(code) && NoDelimiters(state) && code != ""
    ensures Receive(Some(RequestLine(verb, path + "?" + CodeAndState(code, state), version)), state) ==
      Outcome(AR.Success(code), true)
  {
    CodeAndStateParses(code, state);
    RequestLineQuery(verb, path, CodeAndState(code, state), version, state);
  }

  /** Section 10.12 of RFC 6749: a callback whose state differs from the one sent
      fails with "State Mismatch", whatever its code. */
  lemma ForeignStateRejected(verb: string, path: string, version: string, code: string, state: string,
                             expectedState: string)
    requires ' ' !in verb && ' ' !in path && '?' !in path && ' ' !in version
    requires NoDelimiters(code) && NoDelimiters(state) && state != expectedState
    ensures Receive(Some(RequestLine(verb, path + "?" + CodeAndState(code, state), version)), expectedState) ==
      Outcome(AR.Error("State Mismatch"), true)
  {
    CodeAndStateParses(code, state);
    RequestLineQuery(verb, path, CodeAndState(code, state), version, expectedState);
  }

  /** A callback with the right state and no `code` key fails with "Code not found". */
  lemma MissingCodeRejected(verb: string, path: string, version: string, state: string)
    requires ' ' !in verb && ' ' !in path && '?' !in path && ' ' !in version && NoDelimiters(state)
    ensures Receive(Some(RequestLine(verb, path + "?" + Param("state", state), version)), state) ==
      Outcome(AR.Error("Code not found"), true)
  {
    var query := Param("state", state);
    PairOf("state", state);
    ParamFacts("state", state);
    SplitJoin([query], '&');
    RequestLineQuery(verb, path, query, version, state);
  }

  /** One query parameter, `<key>=<value>`. */
  function Param(key: string, value: string): string
  {
    key + "=" + value
  }

  lemma ParamFacts(key: string, value: string)
    requires NoDelimiters(key) && NoDelimiters(value)
    ensures ' ' !in Param(key, value) && '&' !in Param(key, value)
  {
  }

  /** The query `code=<code>&state=<state>`. */
  function CodeAndState(code: string, state: string): string
  {
    Param("code", code) + ['&'] + Param("state", state)
  }

  lemma CodeAndStateParses(code: string, state: string)
    requires NoDelimiters(code) && NoDelimiters(state)
    ensures ' ' !in CodeAndState(code, state)
    ensures LastValue(Split(CodeAndState(code, state), '&'), "code") == Some(code)
    ensures LastValue(Split(CodeAndState(code, state), '&'), "state") == Some(state)
  {
    var a, b := Param("code", code), Param("state", state);
    ParamFacts("code", code);
    ParamFacts("state", state);
    NoSpaceJoined(a, b, '&');
    SplitTwo(a, b, '&');
    PairOf("code", code);
    PairOf("state", state);
    LastValueOfTwo(a, b, "code");
    LastValueOfTwo(a, b, "state");
  }

  lemma NoSpaceJoined(a: string, b: string, sep: char)
    requires sep != ' ' && ' ' !in a && ' ' !in b
    ensures ' ' !in a + [sep] + b
  {
  }

  lemma LastValueOfTwo(a: string, b: string, key: string)
    ensures LastValue([a, b], key) ==
      if HasKey(b, key) then Some(Pair(b).value.1)
      else if HasKey(a, key) then Some(Pair(a).value.1)
      else None
  {
    LastValueOfOne(a, key);
    LastValueOfOne(b, key);
    LastValueConcat([a], [b], key);
    assert [a] + [b] == [a, b];
  }

  lemma LastValueOfOne(a: string, key: string)
    ensures LastValue([a], key) == if HasKey(a, key) then Some(Pair(a).value.1) else None
  {
    assert [a][..0] == [];
  }

  lemma SplitTwo(a: string, b: string, sep: char)
    requires sep !in a && sep !in b
    ensures Split(a + [sep] + b, sep) == [a, b]
  {
    SplitAppend(a, b, sep);
    SplitJoin([a], sep);
    SplitJoin([b], sep);
  }

  lemma SplitThree(a: string, b: string, c: string, sep: char)
    requires sep !in a && sep !in b && sep !in c
    ensures Split(a + [sep] + b + [sep] + c, sep) == [a, b, c]
  {
    SplitTwo(b, c, sep);
    assert a + [sep] + b + [sep] + c == a + [sep] + (b + [sep] + c);
    SplitAppend(a, b + [sep] + c, sep);
    SplitJoin([a], sep);
  }
}
