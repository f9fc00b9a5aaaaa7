/**
 * The hash router of app.js: `parseHash` (app.js:218-243) reads
 * `location.hash`, `setHashFromState` (app.js:245-267) writes the current
 * view into it, and `handleRouteChange` (app.js:269-291) copies a parsed hash
 * back into the view state. The view key is `route`; a `dua` parameter
 * without `route` selects the `dua` view; the filter parameters are written
 * whenever they are non-empty, also on the `dua` view.
 */
module Router {
  import opened Wrappers
  import opened UrlEncoded
  import Location
  import Text

  /** JavaScript truthiness of a value that is a string or `null`. */
  predicate Truthy(o: Option<string>) {
    o.Some? && o.value != ""
  }

  /** `a || b` where `a` is a string or `null` and `b` a string. */
  function OrElse(a: Option<string>, b: string): (r: string)
    ensures Truthy(a) ==> r == a.value
    ensures !Truthy(a) ==> r == b
  {
    if Truthy(a) then a.value else b
  }

  /** The object `parseHash` returns; `None` stands for a missing key
      (`undefined`) or `null`, which app.js treats alike. */
  datatype Parsed = Parsed(
    route: string,
    dua: Option<string>,
    q: Option<string>,
    prophet: Option<string>,
    topic: Option<string>,
    source: Option<string>)

  /** `parseHash()` applied to the value of `location.hash`. */
  function ParseHash(hash: string): (p: Parsed)
    ensures p.route != ""
    // the filter keys are present exactly in the query-string form
    ensures var h := if hash == [] then "home" else if hash[0] == '#' then hash[1..] else hash;
      && (p.q.Some? <==> '=' in h)
      && (p.q.Some? <==> p.prophet.Some?)
      && (p.q.Some? <==> p.topic.Some?)
      && (p.q.Some? <==> p.source.Some?)
  {
    var h := if hash == [] then "home" else if hash[0] == '#' then hash[1..] else hash;
    if h == [] then Parsed("home", None, None, None, None, None)
    else if '=' in h then
      var params := Parse(h);
      var dua := Get(params, "dua");
      Parsed(
        OrElse(Get(params, "route"), if Truthy(dua) then "dua" else "home"),
        dua,
        Some(Get(params, "q").GetOr("")),
        Some(Get(params, "prophet").GetOr("")),
        Some(Get(params, "topic").GetOr("")),
        Some(Get(params, "source").GetOr("")))
    else Parsed(h, None, None, None, None, None)
  }

  /** The three shapes of hash `parseHash` accepts. */
  lemma {:induction false} ParseHashCases(hash: string)
    // an empty hash (or a lone `#`) is the home view
    ensures hash == [] || hash == "#" ==> ParseHash(hash) == Parsed("home", None, None, None, None, None)
    // a hash without `=` names the route literally
    ensures hash != [] && hash != "#" && '=' !in hash ==>
      ParseHash(hash) == Parsed(if hash[0] == '#' then hash[1..] else hash, None, None, None, None, None)
    // in the query-string form, `route` wins, then `dua` implies the dua view,
    // else home; absent filters read as ""
    ensures hash != [] && hash[0] == '#' && '=' in hash[1..] ==>
      var params := Parse(hash[1..]);
      var p := ParseHash(hash);
      && (Truthy(Get(params, "route")) ==> p.route == Get(params, "route").value)
      && (!Truthy(Get(params, "route")) && Truthy(Get(params, "dua")) ==> p.route == "dua")
      && (!Truthy(Get(params, "route")) && !Truthy(Get(params, "dua")) ==> p.route == "home")
      && p.dua == Get(params, "dua")
      && (!HasName(params, "q") ==> p.q == Some(""))
      && (!HasName(params, "prophet") ==> p.prophet == Some(""))
      && (!HasName(params, "topic") ==> p.topic == Some(""))
      && (!HasName(params, "source") ==> p.source == Some(""))
  {
    if hash != [] && hash != "#" && '=' !in hash {
      if hash[0] == '#' {
        assert forall i :: 0 <= i < |hash[1..]| ==> hash[1..][i] == hash[i + 1];
      }
    }
  }

  /** The fields of `state` the router reads and writes. */
  datatype ViewState = ViewState(
    route: string,
    routeParam: Option<string>,
    q: string,
    prophet: string,
    topic: string,
    source: string)

  /** The `extra` argument of `setHashFromState`; `None` is a missing key. */
  datatype Extra = Extra(
    route: Option<string>,
    dua: Option<string>,
    q: Option<string>,
    prophet: Option<string>,
    topic: Option<string>,
    source: Option<string>)

  /** `extra.route ?? state.route` */
  function TargetRoute(v: ViewState, e: Extra): string {
    e.route.GetOr(v.route)
  }

  /** `extra.dua || state.routeParam`, kept only when it is truthy. */
  function TargetDua(v: ViewState, e: Extra): (r: Option<string>)
    ensures r.Some? ==> r.value != ""
    ensures r.Some? <==> Truthy(e.dua) || Truthy(v.routeParam)
  {
    if Truthy(e.dua) then e.dua else if Truthy(v.routeParam) then v.routeParam else None
  }

  /** `if (value) params.set(name, value)` */
  function SetIfTruthy(ps: Pairs, name: string, value: string): Pairs {
    if value != "" then Set(ps, name, value) else ps
  }

  /** The parameters `setHashFromState(extra)` builds: `get` on them gives
      the target route and the dua id on the dua view. */
  function HashParams(v: ViewState, e: Extra): (ps: Pairs)
    ensures Get(ps, "route") == Some(TargetRoute(v, e))
    ensures Get(ps, "dua") == if TargetRoute(v, e) == "dua" then TargetDua(v, e) else None
  {
    var route := TargetRoute(v, e);
    var base := RouteParams(route, TargetDua(v, e));
    var q, prophet, topic, source :=
      e.q.GetOr(v.q), e.prophet.GetOr(v.prophet), e.topic.GetOr(v.topic), e.source.GetOr(v.source);
    GetAfterSets(base, q, prophet, topic, source, "route");
    GetAfterSets(base, q, prophet, topic, source, "dua");
    SetIfTruthy(SetIfTruthy(SetIfTruthy(SetIfTruthy(base, "q", q), "prophet", prophet), "topic", topic), "source", source)
  }

  /** Each filter is in the parameters exactly when it is non-empty. */
  lemma HashParamsFilters(v: ViewState, e: Extra)
    ensures var ps := HashParams(v, e);
      && Get(ps, "q") == (var x := e.q.GetOr(v.q); if x != "" then Some(x) else None)
      && Get(ps, "prophet") == (var x := e.prophet.GetOr(v.prophet); if x != "" then Some(x) else None)
      && Get(ps, "topic") == (var x := e.topic.GetOr(v.topic); if x != "" then Some(x) else None)
      && Get(ps, "source") == (var x := e.source.GetOr(v.source); if x != "" then Some(x) else None)
  {
    var base := RouteParams(TargetRoute(v, e), TargetDua(v, e));
    var q, prophet, topic, source :=
      e.q.GetOr(v.q), e.prophet.GetOr(v.prophet), e.topic.GetOr(v.topic), e.source.GetOr(v.source);
    GetAfterSets(base, q, prophet, topic, source, "q");
    GetAfterSets(base, q, prophet, topic, source, "prophet");
    GetAfterSets(base, q, prophet, topic, source, "topic");
    GetAfterSets(base, q, prophet, topic, source, "source");
  }

  /** The `route` (and `dua`) parameters: `dua` is written only on the dua
      view with a truthy id. */
  function RouteParams(route: string, dua: Option<string>): (ps: Pairs)
    ensures Get(ps, "route") == Some(route)
    ensures Get(ps, "dua") == if route == "dua" then dua else None
    ensures forall m :: m != "route" && m != "dua" ==> Get(ps, m) == None
  {
    if route == "dua" && dua.Some? then
      GetSetAll([], "route", "dua");
      GetSetAll(Set([], "route", "dua"), "dua", dua.value);
      Set(Set([], "route", "dua"), "dua", dua.value)
    else
      GetSetAll([], "route", route);
      Set([], "route", route)
  }

  /** `get` after `set`, for every name at once. */
  lemma GetSetAll(ps: Pairs, name: string, value: string)
    ensures forall m :: Get(Set(ps, name, value), m) == if m == name then Some(value) else Get(ps, m)
  {
    forall m ensures Get(Set(ps, name, value), m) == if m == name then Some(value) else Get(ps, m) {
      GetSet(ps, name, value, m);
    }
  }

  lemma GetSetIfTruthy(ps: Pairs, name: string, value: string, m: string)
    ensures Get(SetIfTruthy(ps, name, value), m) == if m == name && value != "" then Some(value) else Get(ps, m)
  {
    if value != "" {
      GetSet(ps, name, value, m);
    }
  }

  /** `get(m)` after the four conditional filter `set`s of `setHashFromState`. */
  lemma GetAfterSets(base: Pairs, q: string, prophet: string, topic: string, source: string, m: string)
    ensures Get(SetIfTruthy(SetIfTruthy(SetIfTruthy(SetIfTruthy(base, "q", q), "prophet", prophet), "topic", topic), "source", source), m) ==
      if m == "source" && source != "" then Some(source)
      else if m == "topic" && topic != "" then Some(topic)
      else if m == "prophet" && prophet != "" then Some(prophet)
      else if m == "q" && q != "" then Some(q)
      else Get(base, m)
  {
    var p1 := SetIfTruthy(base, "q", q);
    var p2 := SetIfTruthy(p1, "prophet", prophet);
    var p3 := SetIfTruthy(p2, "topic", topic);
    GetSetIfTruthy(base, "q", q, m);
    GetSetIfTruthy(p1, "prophet", prophet, m);
    GetSetIfTruthy(p2, "topic", topic, m);
    GetSetIfTruthy(p3, "source", source, m);
  }

  /** The string `setHashFromState(extra)` assigns to `location.hash`. The
      parameters always hold `route`, so it holds a `=`, does not start with
      `#` or `?`, and needs no fragment escaping. */
  function HashString(v: ViewState, e: Extra): (s: string)
    ensures s != [] && s[0] != '#' && s[0] != '?' && '=' in s
    ensures Location.AllInert(s)
  {
    var ps := HashParams(v, e);
    assert ps != [];
    SerializedInert(ps);
    Serialize(ps)
  }

  /** What `handleRouteChange` does to the view state with a parsed hash:
      the route falls back to home, a falsy dua id becomes `null`, and the
      filters are overwritten only when the hash carries them. */
  function Resync(v: ViewState, p: Parsed): (r: ViewState)
    ensures r.route != ""
    ensures p.route != "" ==> r.route == p.route
    ensures p.route == "" ==> r.route == "home"
    ensures Truthy(p.dua) ==> r.routeParam == p.dua
    ensures !Truthy(p.dua) ==> r.routeParam == None
    ensures r.routeParam.Some? ==> r.routeParam.value != ""
    ensures p.q.Some? ==> r.q == p.q.value
    ensures p.q.None? ==> r.q == v.q
    ensures p.prophet.Some? ==> r.prophet == p.prophet.value
    ensures p.prophet.None? ==> r.prophet == v.prophet
    ensures p.topic.Some? ==> r.topic == p.topic.value
    ensures p.topic.None? ==> r.topic == v.topic
    ensures p.source.Some? ==> r.source == p.source.value
    ensures p.source.None? ==> r.source == v.source
  {
    ViewState(
      Text.Or(p.route, "home"),
      if Truthy(p.dua) then p.dua else None,
      p.q.GetOr(v.q),
      p.prophet.GetOr(v.prophet),
      p.topic.GetOr(v.topic),
      p.source.GetOr(v.source))
  }

  /** A serialized character needs no fragment escaping and is neither `#` nor `?`. */
  lemma SerializedCharInert(c: char)
    requires IsSerializedChar(c)
    ensures Location.IsInert(c) && c != '#' && c != '?'
  {
  }

  /** A non-empty parameter list serializes to a string that holds a `=`,
      does not start with `#` or `?`, and needs no fragment escaping. */
  lemma SerializedInert(ps: Pairs)
    requires ps != []
    ensures var s := Serialize(ps);
      && s != [] && s[0] != '#' && s[0] != '?' && '=' in s
      && Location.AllInert(s)
  {
    SerializeShape(ps);
    var s := Serialize(ps);
    forall i | 0 <= i < |s| ensures Location.IsInert(s[i]) && s[i] != '#' && s[i] != '?' {
      SerializedCharInert(s[i]);
    }
  }

  /** Assigning a serialized non-empty list to `location.hash` reads back as
      `#` and the same string, which parses back to the list. */
  lemma AssignSerialized(ps: Pairs)
    requires ps != []
    ensures var hash := Location.HashAfterAssign(Serialize(ps));
      hash != [] && hash[0] == '#' && '=' in hash[1..] && Parse(hash[1..]) == ps
  {
    var s := Serialize(ps);
    SerializedInert(ps);
    Location.AssignInert(s);
    assert ("#" + s)[1..] == s;
    ParseSerialize(ps);
  }

  /** `parseHash` on the query-string form, written out. */
  lemma ParseHashQuery(hash: string)
    requires hash != [] && hash[0] == '#' && '=' in hash[1..]
    ensures var params := Parse(hash[1..]); var dua := Get(params, "dua");
      ParseHash(hash) == Parsed(
        OrElse(Get(params, "route"), if Truthy(dua) then "dua" else "home"),
        dua,
        Some(Get(params, "q").GetOr("")),
        Some(Get(params, "prophet").GetOr("")),
        Some(Get(params, "topic").GetOr("")),
        Some(Get(params, "source").GetOr("")))
  {
  }

  /** After `location.hash = params.toString()` the hash is `#` and a query
      string that parses back to the parameters `setHashFromState` built. */
  lemma AssignHashString(v: ViewState, e: Extra)
    ensures var hash := Location.HashAfterAssign(HashString(v, e));
      hash != [] && hash[0] == '#' && '=' in hash[1..] && Parse(hash[1..]) == HashParams(v, e)
  {
    var ps := HashParams(v, e);
    assert ps != [];
    AssignSerialized(ps);
  }

  /** `parseHash` on a query-string hash whose parameters hold the route,
      the dua id on the dua view only, and the non-empty filters. */
  lemma ParseHashOf(hash: string, route: string, dua: Option<string>,
                    q: string, prophet: string, topic: string, source: string)
    requires hash != [] && hash[0] == '#' && '=' in hash[1..]
    requires var ps := Parse(hash[1..]);
      && Get(ps, "route") == Some(route)
      && Get(ps, "dua") == (if route == "dua" then dua else None)
      && Get(ps, "q") == (if q != "" then Some(q) else None)
      && Get(ps, "prophet") == (if prophet != "" then Some(prophet) else None)
      && Get(ps, "topic") == (if topic != "" then Some(topic) else None)
      && Get(ps, "source") == (if source != "" then Some(source) else None)
    ensures ParseHash(hash) ==
      Parsed(Text.Or(route, "home"), if route == "dua" then dua else None,
        Some(q), Some(prophet), Some(topic), Some(source))
  {
    ParseHashQuery(hash);
  }

  /** Round trip of the hash router: after `setHashFromState(extra)` the
      browser's `location.hash` parses back to the target route (home for an
      empty one), the dua id on the dua view, and every filter, an empty filter
      (which is not written) reading back as "". */
  lemma {:induction false} HashRoundTrip(v: ViewState, e: Extra)
    ensures ParseHash(Location.HashAfterAssign(HashString(v, e))) ==
      Parsed(
        Text.Or(TargetRoute(v, e), "home"),
        if TargetRoute(v, e) == "dua" then TargetDua(v, e) else None,
        Some(e.q.GetOr(v.q)),
        Some(e.prophet.GetOr(v.prophet)),
        Some(e.topic.GetOr(v.topic)),
        Some(e.source.GetOr(v.source)))
  {
    AssignHashString(v, e);
    HashParamsFilters(v, e);
    var hash := Location.HashAfterAssign(HashString(v, e));
    ParseHashOf(hash, TargetRoute(v, e), TargetDua(v, e),
      e.q.GetOr(v.q), e.prophet.GetOr(v.prophet), e.topic.GetOr(v.topic), e.source.GetOr(v.source));
  }

  /** The route part of the round trip. */
  lemma HashRoundTripRoute(v: ViewState, e: Extra)
    ensures ParseHash(Location.HashAfterAssign(HashString(v, e))).route == Text.Or(TargetRoute(v, e), "home")
  {
    HashRoundTrip(v, e);
  }

  /** Navigating with `setHashFromState(extra)` and then handling the
      resulting hash change leaves the view on the target route (home for an
      empty one), with the dua id only on the dua view, and with exactly the
      filters that were written. */
  lemma NavigateRoundTrip(v: ViewState, e: Extra)
    ensures Resync(v, ParseHash(Location.HashAfterAssign(HashString(v, e)))) ==
      ViewState(
        Text.Or(TargetRoute(v, e), "home"),
        if TargetRoute(v, e) == "dua" then TargetDua(v, e) else None,
        e.q.GetOr(v.q),
        e.prophet.GetOr(v.prophet),
        e.topic.GetOr(v.topic),
        e.source.GetOr(v.source))
  {
    HashRoundTrip(v, e);
  }

  /** The router fields of the global `state` object together with the
      browser's `location.hash`. */
  class RouterState {
    var route: string
    var routeParam: Option<string>
    var q: string
    var prophet: string
    var topic: string
    var source: string
    var hash: string

    /** The initial `state` before any hash has been read. */
    constructor (initialHash: string)
      ensures route == "home" && routeParam == None
      ensures q == "" && prophet == "" && topic == "" && source == ""
      ensures hash == initialHash
    {
      route, routeParam := "home", None;
      q, prophet, topic, source := "", "", "", "";
      hash := initialHash;
    }

    function View(): ViewState
      reads this
    {
      ViewState(route, routeParam, q, prophet, topic, source)
    }

    /** `setHashFromState(extra)` */
    method SetHashFromState(e: Extra)
      modifies this`hash
      ensures hash == Location.HashAfterAssign(HashString(old(View()), e))
      ensures ParseHash(hash).route == Text.Or(TargetRoute(old(View()), e), "home")
    {
      var v := View();
      var h := Location.HashAfterAssign(HashString(v, e));
      HashRoundTripRoute(v, e);
      hash := h;
    }

    /** The state update of `handleRouteChange()`. */
    method HandleRouteChange()
      modifies this`route, this`routeParam, this`q, this`prophet, this`topic, this`source
      ensures View() == Resync(old(View()), ParseHash(hash))
    {
      var parsed := ParseHash(hash);
      ApplyParsed(parsed);
    }

    /** The assignments `handleRouteChange()` makes from a parsed hash. */
    method ApplyParsed(parsed: Parsed)
      modifies this`route, this`routeParam, this`q, this`prophet, this`topic, this`source
      ensures View() == Resync(old(View()), parsed)
    {
      route := Text.Or(parsed.route, "home");
      routeParam := if Truthy(parsed.dua) then parsed.dua else None;
      if parsed.q.Some? { q := parsed.q.value; }
      if parsed.prophet.Some? { prophet := parsed.prophet.value; }
      if parsed.topic.Some? { topic := parsed.topic.value; }
      if parsed.source.Some? { source := parsed.source.value; }
    }

    /** Setting the hash and then handling the `hashchange` event, which
        the browser fires only when the fragment actually changes. */
    method Navigate(e: Extra)
      modifies this
      ensures hash == Location.HashAfterAssign(HashString(old(View()), e))
      ensures hash != old(hash) ==> View() == ViewState(
        Text.Or(TargetRoute(old(View()), e), "home"),
        if TargetRoute(old(View()), e) == "dua" then TargetDua(old(View()), e) else None,
        e.q.GetOr(old(View()).q),
        e.prophet.GetOr(old(View()).prophet),
        e.topic.GetOr(old(View()).topic),
        e.source.GetOr(old(View()).source))
      ensures hash == old(hash) ==> View() == old(View())
    {
      ghost var v := View();
      var before := hash;
      NavigateRoundTrip(v, e);
      SetHashFromState(e);
      assert View() == v;
      if hash != before {
        HandleRouteChange();
      }
    }
  }
}
