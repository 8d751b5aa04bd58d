/** `apiCall` of server.js: the endpoint table, the three-way choice between
    a known endpoint, the listing and a 404, and the answer of each
    endpoint. The database and the clock it reads are one parameter, a
    function from the query an endpoint runs to the row it returns. */
module Api {
  import opened Wrappers
  import opened Strings
  import opened Readings
  import opened Http
  import JsObject
  import OutsideCache

  datatype Endpoint = Latest | Yesterday | LastMonth | LastYear | Outside | Max | Min | Avg
  {
    /** The key of the endpoint in the `endpoints` object. */
    function Key(): string
    {
      match this
      case Latest => "/latest"
      case Yesterday => "/yesterday"
      case LastMonth => "/lastmonth"
      case LastYear => "/lastyear"
      case Outside => "/outside"
      case Max => "/max"
      case Min => "/min"
      case Avg => "/avg"
    }
  }

  /** The `endpoints` object, in source order. */
  const Table: seq<(string, Endpoint)> := [
    ("/latest", Latest), ("/yesterday", Yesterday), ("/lastmonth", LastMonth),
    ("/lastyear", LastYear), ("/outside", Outside), ("/max", Max), ("/min", Min),
    ("/avg", Avg)
  ]

  /** The period an endpoint looks back over before taking the newest row. */
  datatype Period = Day | Month | Year

  /** The aggregate an endpoint takes over all rows. */
  datatype Aggregate = Maximum | Minimum | Average

  /** The database query an endpoint runs. */
  datatype Query =
    | Newest
    | NewestBefore(period: Period)
    | Over(aggregate: Aggregate)

  /** The query of a database endpoint; `/outside` runs none. `/avg`
      computes the date a year back but its query does not use it, so it
      averages over every row. */
  function QueryOf(e: Endpoint): (q: Option<Query>)
    ensures q.None? <==> e == Outside
  {
    match e
    case Latest => Some(Newest)
    case Yesterday => Some(NewestBefore(Day))
    case LastMonth => Some(NewestBefore(Month))
    case LastYear => Some(NewestBefore(Year))
    case Outside => None
    case Max => Some(Over(Maximum))
    case Min => Some(Over(Minimum))
    case Avg => Some(Over(Average))
  }

  /** The endpoint a key names, decoded case by case. */
  function FromKey(name: string): Option<Endpoint>
  {
    if name == "/latest" then Some(Latest)
    else if name == "/yesterday" then Some(Yesterday)
    else if name == "/lastmonth" then Some(LastMonth)
    else if name == "/lastyear" then Some(LastYear)
    else if name == "/outside" then Some(Outside)
    else if name == "/max" then Some(Max)
    else if name == "/min" then Some(Min)
    else if name == "/avg" then Some(Avg)
    else None
  }

  /** Decoding a key gives back its endpoint, so no two endpoints share a key. */
  lemma KeyRoundTrip(e: Endpoint)
    ensures FromKey(e.Key()) == Some(e)
  {
  }

  /** The position of an endpoint in the table. */
  function Position(e: Endpoint): nat
  {
    match e
    case Latest => 0
    case Yesterday => 1
    case LastMonth => 2
    case LastYear => 3
    case Outside => 4
    case Max => 5
    case Min => 6
    case Avg => 7
  }

  /** Each entry is an endpoint under its own key, at its own position. */
  lemma TableEntries()
    ensures forall i :: 0 <= i < |Table| ==> Table[i].0 == Table[i].1.Key() && Position(Table[i].1) == i
  {
  }

  /** The table lists every endpoint once, under its key. */
  lemma TableKeys()
    ensures forall i :: 0 <= i < |Table| ==> Table[i].0 == Table[i].1.Key()
    ensures forall i, j :: 0 <= i < j < |Table| ==> Table[i].0 != Table[j].0
    ensures forall e: Endpoint :: Position(e) < |Table| && Table[Position(e)].1 == e
  {
    TableEntries();
    forall i, j | 0 <= i < j < |Table|
      ensures Table[i].0 != Table[j].0
    {
      KeyRoundTrip(Table[i].1);
      KeyRoundTrip(Table[j].1);
    }
  }

  /** The endpoint whose own key is `name`. */
  function Lookup(name: string): (r: Option<Endpoint>)
    ensures r.Some? ==> r.value.Key() == name
    ensures r.None? <==> name !in JsObject.Keys(Table)
  {
    TableKeys();
    JsObject.OwnProperty(Table, name)
  }

  /** Looking an endpoint's key up finds that endpoint. */
  lemma LookupKey(e: Endpoint)
    ensures Lookup(e.Key()) == Some(e)
  {
    TableKeys();
    JsObject.OwnPropertyAt(Table, Position(e));
  }

  /** Looking a name up in the object finds what decoding it case by case
      finds. */
  lemma LookupIsDecoding(name: string)
    ensures Lookup(name) == FromKey(name)
  {
    match FromKey(name)
    case Some(e) =>
      assert e.Key() == name;
      LookupKey(e);
    case None =>
      if Lookup(name).Some? {
        KeyRoundTrip(Lookup(name).value);
      }
  }

  /** The three outcomes of `apiCall`. */
  datatype Outcome = Known(endpoint: Endpoint) | Listing | Unknown

  /** The choice `apiCall` makes, on the object's own keys. */
  function Classify(name: string): (o: Outcome)
    ensures o.Known? <==> name in JsObject.Keys(Table)
    ensures o.Known? ==> o.endpoint.Key() == name
    ensures o.Listing? <==> name !in JsObject.Keys(Table) && (name == "/" || name == "")
  {
    match Lookup(name)
    case Some(e) => Known(e)
    case None => if name == "/" || name == "" then Listing else Unknown
  }

  /** The endpoint keys in source order, as `Object.keys` lists them. */
  function EndpointKeys(): (keys: seq<string>)
    ensures |keys| == |Table|
    ensures forall i :: 0 <= i < |keys| ==> keys[i] == Table[i].1.Key()
  {
    TableKeys();
    JsObject.Keys(Table)
  }

  const ListingHeader := "available endpoints:"

  /** The header of the listing is one line. */
  lemma HeaderIsOneLine(header: string)
    requires header == ListingHeader
    ensures '\n' !in header
  {
    assert forall i :: 0 <= i < |header| ==> header[i] != '\n';
  }

  /** Lines after a header free of newlines are the joined lines. */
  lemma HeaderThenLines(header: string, lines: seq<string>)
    requires '\n' !in header && |lines| >= 1
    requires forall i :: 0 <= i < |lines| ==> '\n' !in lines[i]
    ensures Split(header + ['\n'] + Join(lines, '\n'), '\n') == [header] + lines
  {
    SplitAround(header, Join(lines, '\n'), '\n');
    SplitJoin(lines, '\n');
    SplitPlain(header, '\n');
  }

  /** No endpoint key spans lines. */
  lemma KeysAreSingleLines()
    ensures forall i :: 0 <= i < |EndpointKeys()| ==> '\n' !in EndpointKeys()[i]
  {
    forall e: Endpoint
      ensures '\n' !in e.Key()
    {
    }
  }

  /** The body of the listing: the header line, then exactly the endpoint
      keys, one per line, in source order. */
  function ListingBody(): (b: string)
    ensures Split(b, '\n') == [ListingHeader] + EndpointKeys()
  {
    KeysAreSingleLines();
    var header: string := ListingHeader;
    HeaderIsOneLine(header);
    HeaderThenLines(header, EndpointKeys());
    header + ['\n'] + Join(EndpointKeys(), '\n')
  }

  /** The body of the 404 reply. */
  function NotFoundBody(name: string): (b: string)
    ensures |b| == |name| + 21
    ensures StartsWith(b, "endpoint \"") && EndsWith(b, "\" not found")
    ensures b[10..|b| - 11] == name
  {
    "endpoint \"" + name + "\" not found"
  }

  /** What `apiCall(endpoint)` answers and the cache after it. `db` answers
      the queries; `fetched` and `refreshedAt` are the outcome and time of a
      weather fetch, should `/outside` need one. */
  function ApiCall(name: string, cache: OutsideCache.Cache, now: int, db: Query -> Option<Reading>,
                   fetched: Option<Reading>, refreshedAt: int): (r: (Response, OutsideCache.Cache))
    ensures r.1 != cache ==> name == Outside.Key()
    ensures r.0.Reply? ==> (r.0.status == 200 <==> !Classify(name).Unknown?)
    ensures r.0.NoReply? ==> name == Outside.Key()
    ensures Classify(name).Known? && r.0.Reply? ==> r.0.contentType == ApplicationJson
    ensures Classify(name).Listing? ==> r.0 == Reply(200, TextPlain, Text(ListingBody()))
    ensures Classify(name).Unknown? ==> r.0 == Reply(404, TextPlain, Text(NotFoundBody(name)))
    ensures r.0.Reply? ==> !r.0.body.File?
  {
    match Classify(name)
    case Known(e) =>
      (match QueryOf(e)
       case Some(q) => (Reply(200, ApplicationJson, Json(db(q))), cache)
       case None =>
         match OutsideCache.Step(cache, now, fetched, refreshedAt)
         case Answered(value, next) => (Reply(200, ApplicationJson, Json(value)), next)
         case Waiting(next) => (NoReply, next))
    case Listing => (Reply(200, TextPlain, Text(ListingBody())), cache)
    case Unknown => (Reply(404, TextPlain, Text(NotFoundBody(name))), cache)
  }

  /** A database endpoint answers afresh on every call with what the
      database returns, and leaves the cache alone. */
  lemma DatabaseEndpointsAreNotCached(e: Endpoint, cache: OutsideCache.Cache, now: int,
                                      db: Query -> Option<Reading>, fetched: Option<Reading>, refreshedAt: int)
    requires e != Outside
    ensures ApiCall(e.Key(), cache, now, db, fetched, refreshedAt)
            == (Reply(200, ApplicationJson, Json(db(QueryOf(e).value))), cache)
  {
    LookupKey(e);
  }

  /** `/outside` answers through the cache. */
  lemma OutsideGoesThroughCache(cache: OutsideCache.Cache, now: int, db: Query -> Option<Reading>,
                                fetched: Option<Reading>, refreshedAt: int)
    ensures var s := OutsideCache.Step(cache, now, fetched, refreshedAt);
            var r := ApiCall(Outside.Key(), cache, now, db, fetched, refreshedAt);
            && r.1 == s.next
            && (s.Answered? ==> r.0 == Reply(200, ApplicationJson, Json(s.value)))
            && (s.Waiting? ==> r.0 == NoReply)
  {
    LookupKey(Outside);
  }

  // ----- The code as written -----

  /** The choice as written: `endpoints[endpoint]` is also truthy for the
      names the object inherits, and such a name is called as if it were a
      handler and answered with 200. */
  datatype OutcomeAsWritten = KnownAsWritten(endpoint: Endpoint) | InheritedMember(member: string)
                            | ListingAsWritten | UnknownAsWritten

  function ClassifyAsWritten(name: string): (o: OutcomeAsWritten)
    ensures o.InheritedMember? <==> name !in JsObject.Keys(Table) && name in JsObject.PrototypeMembers
  {
    match JsObject.Get(Table, name)
    case Own(e) => KnownAsWritten(e)
    case Inherited(member) => InheritedMember(member)
    case Absent => if name == "/" || name == "" then ListingAsWritten else UnknownAsWritten
  }

  /** The inherited members whose call as a handler throws before any
      reply is sent: `constructor` hands back the response object itself,
      which `JSON.stringify` cannot serialise because it is circular;
      `__proto__` is `Object.prototype`, which is not a function; and
      `__defineGetter__` and `__defineSetter__` refuse a missing accessor.
      The other eight members return a value that is serialised and sent. */
  const ThrowingMembers: set<string> := {"constructor", "__proto__", "__defineGetter__", "__defineSetter__"}

  /** Every throwing member is an inherited one. */
  lemma ThrowingMembersAreInherited()
    ensures ThrowingMembers <= JsObject.PrototypeMembers
  {
  }

  /** A throwing member is no declared key: it is an inherited member as
      written and an unknown endpoint once corrected. */
  lemma ThrowingMemberIsUnknown(name: string)
    requires name in ThrowingMembers
    ensures ClassifyAsWritten(name).InheritedMember?
    ensures Classify(name).Unknown?
  {
    ThrowingMembersAreInherited();
    TableKeys();
    assert name[0] != '/';
    assert forall i :: 0 <= i < |Table| ==> Table[i].0 != name;
  }

  /** The status `apiCall` sets as written. */
  function StatusAsWritten(name: string): (s: int)
    ensures s == 200 || s == 404
  {
    match ClassifyAsWritten(name)
    case UnknownAsWritten => 404
    case _ => 200
  }

  /** The status of the corrected choice. */
  function Status(name: string): (s: int)
    ensures s == 404 <==> Classify(name).Unknown?
    ensures s == 200 || s == 404
  {
    if Classify(name).Unknown? then 404 else 200
  }

  /** The two choices differ exactly on inherited names: those get 200 as
      written and 404 once the lookup is limited to own keys. */
  lemma InheritedNamesAnsweredAsWritten(name: string)
    ensures StatusAsWritten(name) != Status(name) <==>
              name !in JsObject.Keys(Table) && name in JsObject.PrototypeMembers
    ensures StatusAsWritten(name) != Status(name) ==> StatusAsWritten(name) == 200 && Status(name) == 404
  {
    var k := JsObject.Keys(Table);
    if name in JsObject.PrototypeMembers {
      assert name != "/" && name != "";
    }
  }

  /** `apiCall(endpoint)` exactly as written: an inherited member name is
      called like a handler and answered with 200 and JSON, unless the call
      or the serialisation throws, and then no reply is sent. */
  function ApiCallAsWritten(name: string, cache: OutsideCache.Cache, now: int, db: Query -> Option<Reading>,
                            fetched: Option<Reading>, refreshedAt: int): (r: (Response, OutsideCache.Cache))
    ensures r.0.Reply? ==> r.0.status == StatusAsWritten(name)
    ensures ClassifyAsWritten(name).InheritedMember? && name !in ThrowingMembers ==>
              r == (Reply(200, ApplicationJson, MemberResult(name)), cache)
    ensures ClassifyAsWritten(name).InheritedMember? && name in ThrowingMembers ==> r == (NoReply, cache)
    ensures !ClassifyAsWritten(name).InheritedMember? ==>
              r == ApiCall(name, cache, now, db, fetched, refreshedAt)
  {
    match ClassifyAsWritten(name)
    case KnownAsWritten(e) =>
      (match QueryOf(e)
       case Some(q) => (Reply(200, ApplicationJson, Json(db(q))), cache)
       case None =>
         match OutsideCache.Step(cache, now, fetched, refreshedAt)
         case Answered(value, next) => (Reply(200, ApplicationJson, Json(value)), next)
         case Waiting(next) => (NoReply, next))
    case InheritedMember(member) =>
      if member in ThrowingMembers then (NoReply, cache)
      else (Reply(200, ApplicationJson, MemberResult(member)), cache)
    case ListingAsWritten => (Reply(200, TextPlain, Text(ListingBody())), cache)
    case UnknownAsWritten => (Reply(404, TextPlain, Text(NotFoundBody(name))), cache)
  }

  /** For instance `/api/v1toString`, whose endpoint is `toString`. */
  lemma ToStringExample()
    ensures StatusAsWritten("toString") == 200
    ensures Status("toString") == 404
  {
    var name: string := "toString";
    assert name in JsObject.PrototypeMembers;
    TableKeys();
    assert forall i :: 0 <= i < |Table| ==> Table[i].0 != name;
    InheritedNamesAnsweredAsWritten(name);
  }
}
