/** The dashboard of public/main.js: the colour of a carbon dioxide level,
    the HTML card of one reading, and the page of five cards. How a number
    is shown (`toLocaleString`) is a parameter. */
module Dashboard {
  import opened Wrappers
  import opened Strings
  import opened Readings
  import Api
  import Outdoor

  datatype Color = Green | DarkOrange | Red
  {
    /** The CSS colour name. */
    function Name(): string
    {
      match this
      case Green => "green"
      case DarkOrange => "darkorange"
      case Red => "red"
    }

    /** How alarming the colour is. */
    function Severity(): nat
    {
      match this
      case Green => 0
      case DarkOrange => 1
      case Red => 2
    }
  }

  const WarnPpm: real := 1000.0
  const AlarmPpm: real := 1400.0

  /** `co2Color(co2)` */
  function Co2Color(co2: real): (c: Color)
    ensures c == Red <==> co2 >= AlarmPpm
    ensures c == DarkOrange <==> WarnPpm <= co2 < AlarmPpm
    ensures c == Green <==> co2 < WarnPpm
  {
    if co2 >= AlarmPpm then Red
    else if co2 >= WarnPpm then DarkOrange
    else Green
  }

  /** A higher level is never shown in a milder colour. */
  lemma Co2ColorMonotone(a: real, b: real)
    requires a <= b
    ensures Co2Color(a).Severity() <= Co2Color(b).Severity()
  {
  }

  /** The text shown for the value of `key`, unit and colour included. */
  function FieldText(key: string, value: real, display: real -> string): (t: string)
    ensures key == "co2" ==>
              t == "<span style=\"color: " + Co2Color(value).Name() + "\">" + display(value) + "</span> ppm co2"
    ensures key == "temperature" ==> t == display(value) + "°F"
    ensures key == "humidity" ==> t == display(value) + "% humidity"
    ensures key == "pressure" ==> t == display(value) + " hPa"
    ensures key !in {"co2", "temperature", "humidity", "pressure"} ==> t == display(value)
  {
    var d := display(value);
    if key == "co2" then "<span style=\"color: " + Co2Color(value).Name() + "\">" + d + "</span> ppm co2"
    else if key == "temperature" then d + "°F"
    else if key == "humidity" then d + "% humidity"
    else if key == "pressure" then d + " hPa"
    else d
  }

  /** The span of one entry, with the id `title-key`. */
  function FieldSpan(title: string, e: Entry, display: real -> string): string
  {
    "<span id=\"" + title + "-" + e.key + "\">" + FieldText(e.key, e.value, display) + "</span>"
  }

  /** What the `forEach` callback adds for one entry: nothing for `date`,
      whose callback returns early, and the field's span otherwise. */
  function EntryHtml(title: string, e: Entry, display: real -> string): string
  {
    if e.key == "date" then "" else FieldSpan(title, e, display)
  }

  /** The spans of the entries, in entry order. */
  function Fields(title: string, entries: seq<Entry>, display: real -> string): string
    decreases |entries|
  {
    if |entries| == 0 then ""
    else Fields(title, entries[..|entries| - 1], display) + EntryHtml(title, entries[|entries| - 1], display)
  }

  const CardOpen := "<div class=\"reading\">"
  const CardClose := "</div>"

  /** The title span of a card. */
  function TitleSpan(title: string): string
  {
    "<span id=\"" + title + "\">" + title + "</span>"
  }

  /** `formatReading(title, reading)` */
  function FormatReading(title: string, reading: Reading, display: real -> string): string
  {
    CardOpen + TitleSpan(title) + Fields(title, reading, display) + CardClose
  }

  /** A card holds the title span and then one span per entry other than
      `date`, in entry order. */
  lemma FormatReadingShowsEntries(title: string, reading: Reading, display: real -> string)
    ensures FormatReading(title, reading, display)
              == CardOpen + TitleSpan(title) + Spans(title, Shown(reading), display) + CardClose
  {
    FieldsAreShownSpans(title, reading, display);
  }

  /** Every card opens with the card `div` and its title span, and closes
      the `div`, whatever the reading holds. */
  lemma CardFrame(title: string, reading: Reading, display: real -> string)
    ensures StartsWith(FormatReading(title, reading, display), CardOpen + TitleSpan(title))
    ensures EndsWith(FormatReading(title, reading, display), CardClose)
  {
    var head := CardOpen + TitleSpan(title);
    var html := FormatReading(title, reading, display);
    assert html[..|head|] == head;
    assert html[|html| - |CardClose|..] == CardClose;
  }

  /** The fields of two runs of entries are the fields of each, in order. */
  lemma {:induction false} FieldsAppend(title: string, a: seq<Entry>, b: seq<Entry>, display: real -> string)
    ensures Fields(title, a + b, display) == Fields(title, a, display) + Fields(title, b, display)
    decreases |b|
  {
    if |b| > 0 {
      var b' := b[..|b| - 1];
      assert (a + b)[..|a + b| - 1] == a + b';
      FieldsAppend(title, a, b', display);
    } else {
      assert a + b == a;
    }
  }

  /** A lone `date` entry makes no HTML. */
  lemma DateAlone(title: string, date: real, display: real -> string)
    ensures Fields(title, [Entry("date", date)], display) == ""
  {
    assert [Entry("date", date)][..0] == [];
  }

  /** A `date` entry adds nothing to a card. */
  lemma DateSkipped(title: string, a: seq<Entry>, date: real, b: seq<Entry>, display: real -> string)
    ensures Fields(title, a + [Entry("date", date)] + b, display) == Fields(title, a + b, display)
  {
    var d := [Entry("date", date)];
    var fa := Fields(title, a, display);
    var fb := Fields(title, b, display);
    FieldsAppend(title, a + d, b, display);
    FieldsAppend(title, a, d, display);
    FieldsAppend(title, a, b, display);
    DateAlone(title, date, display);
    assert fa + "" == fa;
  }

  /** The entries that are shown: all but `date`, in order. */
  function Shown(entries: seq<Entry>): (shown: seq<Entry>)
    ensures |shown| <= |entries|
    ensures forall i :: 0 <= i < |shown| ==> shown[i].key != "date"
    decreases |entries|
  {
    if |entries| == 0 then []
    else if entries[0].key == "date" then Shown(entries[1..])
    else [entries[0]] + Shown(entries[1..])
  }

  /** The spans of a list of entries, one per entry, no `date` check. */
  function Spans(title: string, entries: seq<Entry>, display: real -> string): string
    decreases |entries|
  {
    if |entries| == 0 then "" else FieldSpan(title, entries[0], display) + Spans(title, entries[1..], display)
  }

  /** A card holds exactly one span per entry that is not `date`, in entry
      order. */
  lemma {:induction false} FieldsAreShownSpans(title: string, entries: seq<Entry>, display: real -> string)
    ensures Fields(title, entries, display) == Spans(title, Shown(entries), display)
    decreases |entries|
  {
    if |entries| > 0 {
      var rest := entries[1..];
      FieldsAreShownSpans(title, rest, display);
      FieldsAppend(title, [entries[0]], rest, display);
      assert [entries[0]] + rest == entries;
      assert Fields(title, [entries[0]], display) == EntryHtml(title, entries[0], display) by {
        assert [entries[0]][..0] == [];
      }
      if entries[0].key != "date" {
        var s := [entries[0]] + Shown(rest);
        assert s[1..] == Shown(rest);
      }
    }
  }

  /** One more entry adds its callback's HTML. */
  lemma FieldsStep(title: string, reading: Reading, i: nat, display: real -> string)
    requires i < |reading|
    ensures Fields(title, reading[..i + 1], display) == Fields(title, reading[..i], display) + EntryHtml(title, reading[i], display)
  {
    assert reading[..i + 1][..i] == reading[..i];
  }

  /** `formatReading` as written: the card head, then each entry in turn
      through the `forEach` callback, then the closing tag. */
  method FormatReadingLoop(title: string, reading: Reading, display: real -> string) returns (result: string)
    ensures result == FormatReading(title, reading, display)
  {
    var head := CardOpen + TitleSpan(title);
    var fields := "";
    var i := 0;
    while i < |reading|
      invariant 0 <= i <= |reading|
      invariant fields == Fields(title, reading[..i], display)
    {
      FieldsStep(title, reading, i, display);
      fields := fields + EntryHtml(title, reading[i], display);
      i := i + 1;
    }
    assert reading[..|reading|] == reading;
    result := head + fields + CardClose;
  }

  /** The cards of the page, in order: a title and the endpoint it shows. */
  const Cards: seq<(string, Api.Endpoint)> := [
    ("right now", Api.Endpoint.Latest),
    ("outside right now", Api.Endpoint.Outside),
    ("yesterday", Api.Endpoint.Yesterday),
    ("one month ago", Api.Endpoint.LastMonth),
    ("one year ago", Api.Endpoint.LastYear)
  ]

  /** Every card asks the server for an endpoint it knows. */
  lemma CardsUseKnownEndpoints()
    ensures forall i :: 0 <= i < |Cards| ==> Api.Classify(Cards[i].1.Key()) == Api.Known(Cards[i].1)
  {
    forall i | 0 <= i < |Cards|
      ensures Api.Classify(Cards[i].1.Key()) == Api.Known(Cards[i].1)
    {
      Api.LookupKey(Cards[i].1);
    }
  }

  /** The HTML of a run of cards, or nothing when a card has no reading: a
      missing reading makes `update` fail before it writes the page. */
  function CardsHtml(cards: seq<(string, Api.Endpoint)>, fetch: Api.Endpoint -> Option<Reading>,
                     display: real -> string): (html: Option<string>)
    ensures html.Some? <==> forall i :: 0 <= i < |cards| ==> fetch(cards[i].1).Some?
    decreases |cards|
  {
    if |cards| == 0 then Some("")
    else
      var last := cards[|cards| - 1];
      var init := cards[..|cards| - 1];
      assert forall i :: 0 <= i < |init| ==> init[i] == cards[i];
      match (CardsHtml(init, fetch, display), fetch(last.1))
      case (Some(h), Some(r)) => Some(h + FormatReading(last.0, r, display))
      case _ => None
  }

  /** The page `update` writes, given what each endpoint answers. */
  function Page(fetch: Api.Endpoint -> Option<Reading>, display: real -> string): Option<string>
  {
    CardsHtml(Cards, fetch, display)
  }

  /** One more card appends its HTML when it has a reading. */
  lemma CardsSnoc(cards: seq<(string, Api.Endpoint)>, k: nat, h: string, reading: Reading,
                  fetch: Api.Endpoint -> Option<Reading>, display: real -> string)
    requires k < |cards| && fetch(cards[k].1) == Some(reading)
    requires CardsHtml(cards[..k], fetch, display) == Some(h)
    ensures CardsHtml(cards[..k + 1], fetch, display) == Some(h + FormatReading(cards[k].0, reading, display))
  {
    assert cards[..k + 1][..k] == cards[..k];
  }

  /** Five cards that all have readings make their five cards' HTML, in
      order. */
  lemma FiveCards(cards: seq<(string, Api.Endpoint)>, fetch: Api.Endpoint -> Option<Reading>,
                  display: real -> string)
    requires |cards| == 5 && forall i :: 0 <= i < 5 ==> fetch(cards[i].1).Some?
    ensures CardsHtml(cards, fetch, display) == Some(
      FormatReading(cards[0].0, fetch(cards[0].1).value, display)
      + FormatReading(cards[1].0, fetch(cards[1].1).value, display)
      + FormatReading(cards[2].0, fetch(cards[2].1).value, display)
      + FormatReading(cards[3].0, fetch(cards[3].1).value, display)
      + FormatReading(cards[4].0, fetch(cards[4].1).value, display))
  {
    var r0, r1, r2, r3, r4 := fetch(cards[0].1).value, fetch(cards[1].1).value, fetch(cards[2].1).value,
                              fetch(cards[3].1).value, fetch(cards[4].1).value;
    var c0 := FormatReading(cards[0].0, r0, display);
    var c1 := FormatReading(cards[1].0, r1, display);
    var c2 := FormatReading(cards[2].0, r2, display);
    var c3 := FormatReading(cards[3].0, r3, display);
    assert CardsHtml(cards[..0], fetch, display) == Some("");
    CardsSnoc(cards, 0, "", r0, fetch, display);
    assert "" + c0 == c0;
    CardsSnoc(cards, 1, c0, r1, fetch, display);
    CardsSnoc(cards, 2, c0 + c1, r2, fetch, display);
    CardsSnoc(cards, 3, c0 + c1 + c2, r3, fetch, display);
    CardsSnoc(cards, 4, c0 + c1 + c2 + c3, r4, fetch, display);
    assert cards[..5] == cards;
  }

  /** The page is the five cards in their fixed order. */
  lemma PageIsFiveCards(fetch: Api.Endpoint -> Option<Reading>, display: real -> string,
                        latest: Reading, outside: Reading, yesterday: Reading, month: Reading, year: Reading)
    requires fetch(Api.Endpoint.Latest) == Some(latest)
    requires fetch(Api.Endpoint.Outside) == Some(outside)
    requires fetch(Api.Endpoint.Yesterday) == Some(yesterday)
    requires fetch(Api.Endpoint.LastMonth) == Some(month)
    requires fetch(Api.Endpoint.LastYear) == Some(year)
    ensures Page(fetch, display) == Some(
      FormatReading("right now", latest, display)
      + FormatReading("outside right now", outside, display)
      + FormatReading("yesterday", yesterday, display)
      + FormatReading("one month ago", month, display)
      + FormatReading("one year ago", year, display))
  {
    assert Cards[0] == ("right now", Api.Endpoint.Latest);
    assert Cards[1] == ("outside right now", Api.Endpoint.Outside);
    assert Cards[2] == ("yesterday", Api.Endpoint.Yesterday);
    assert Cards[3] == ("one month ago", Api.Endpoint.LastMonth);
    assert Cards[4] == ("one year ago", Api.Endpoint.LastYear);
    FiveCards(Cards, fetch, display);
  }

  /** `update()`: fetch each card's reading in order and append its HTML. */
  method Update(fetch: Api.Endpoint -> Option<Reading>, display: real -> string) returns (page: Option<string>)
    ensures page == Page(fetch, display)
  {
    var html := "";
    var i := 0;
    while i < |Cards|
      invariant 0 <= i <= |Cards|
      invariant CardsHtml(Cards[..i], fetch, display) == Some(html)
    {
      var (title, endpoint) := Cards[i];
      assert Cards[..i + 1][..i] == Cards[..i];
      match fetch(endpoint)
      case None =>
        assert CardsHtml(Cards[..i + 1], fetch, display).None?;
        CardsFailFrom(fetch, display, i + 1);
        return None;
      case Some(reading) =>
        CardsSnoc(Cards, i, html, reading, fetch, display);
        html := html + FormatReading(title, reading, display);
      i := i + 1;
    }
    assert Cards[..i] == Cards;
    page := Some(html);
  }

  /** Once a run of cards fails, every longer run does too. */
  lemma CardsFailFrom(fetch: Api.Endpoint -> Option<Reading>, display: real -> string, k: nat)
    requires k <= |Cards| && CardsHtml(Cards[..k], fetch, display).None?
    ensures Page(fetch, display).None?
  {
    assert !(forall i :: 0 <= i < k ==> fetch(Cards[..k][i].1).Some?);
    var i :| 0 <= i < k && fetch(Cards[..k][i].1).None?;
    assert Cards[..k][i] == Cards[i];
  }

  /** A reading of a date and four fields shows the four fields' spans. */
  lemma FieldsAfterDate(title: string, r: Reading, display: real -> string)
    requires |r| == 5 && r[0].key == "date"
    requires r[1].key != "date" && r[2].key != "date" && r[3].key != "date" && r[4].key != "date"
    ensures Fields(title, r, display)
            == FieldSpan(title, r[1], display) + FieldSpan(title, r[2], display)
               + FieldSpan(title, r[3], display) + FieldSpan(title, r[4], display)
  {
    var h1 := EntryHtml(title, r[1], display);
    var h2 := EntryHtml(title, r[2], display);
    var h3 := EntryHtml(title, r[3], display);
    var h4 := EntryHtml(title, r[4], display);
    assert |r[..0]| == 0;
    FieldsStep(title, r, 0, display);
    assert Fields(title, r[..1], display) == "";
    FieldsStep(title, r, 1, display);
    assert Fields(title, r[..2], display) == h1;
    FieldsStep(title, r, 2, display);
    FieldsStep(title, r, 3, display);
    FieldsStep(title, r, 4, display);
    assert r[..5] == r;
  }

  /** The outdoor card shows the fixed outdoor level in green, then the
      temperature, pressure and humidity, and no date. */
  lemma OutdoorCard(title: string, p: Outdoor.WeatherPayload, display: real -> string)
    ensures Co2Color(Outdoor.OutdoorCo2) == Green
    ensures Fields(title, Outdoor.OutdoorReading(p), display)
            == FieldSpan(title, Entry("co2", Outdoor.OutdoorCo2), display)
               + FieldSpan(title, Entry("temperature", p.temp), display)
               + FieldSpan(title, Entry("pressure", p.pressure), display)
               + FieldSpan(title, Entry("humidity", p.humidity), display)
  {
    var r := Outdoor.OutdoorReading(p);
    assert r[1] == Entry("co2", Outdoor.OutdoorCo2) && r[2] == Entry("temperature", p.temp);
    assert r[3] == Entry("pressure", p.pressure) && r[4] == Entry("humidity", p.humidity);
    FieldsAfterDate(title, r, display);
  }
}
