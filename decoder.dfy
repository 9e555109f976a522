/**
 * The `/decode` handler: from the `vin` query parameter and what the browser
 * does, the JSON body and HTTP status of the answer.
 *
 * The browser is given as data: whether starting the Chrome driver works or
 * raises, and, for each URL, whether loading and parsing the page raises or
 * yields the equipment table (`None` when the page has no table with the
 * equipment class signature).
 */
module Decoder {
  import opened Wrappers
  import opened Equipment
  import Text

  const LookupPrefix: string := "https://www.vindecoderz.com/EN/check-lookup/"
  const MissingVinMessage: string := "VIN parameter is required"
  const TableMissingMessage: string := "Equipment table not found"

  /**
   * Starting the driver: `setup_driver` returns it, or raises with a message.
   * `started` says whether Chrome was already running when it raised (the
   * `stealth` call failed after the driver was created).
   */
  datatype Launch = Launched | LaunchFailed(message: string, started: bool)

  /** Loading the lookup page and finding its table: the table's rows, no table, or an exception. */
  datatype Fetch = Loaded(table: Option<seq<Row>>) | Raised(message: string)

  datatype Browser = Browser(launch: Launch, load: string -> Fetch)

  /** The JSON body: `{"error": ...}` or the list of equipment records. */
  datatype Body = ErrorBody(error: string) | EquipmentBody(equipment: seq<Record>)

  datatype Response = Response(body: Body, status: nat)

  /** What happens to the Chrome driver, in order. */
  datatype DriverEvent = DriverStarted | PageRequested(url: string) | DriverQuit

  /**
   * The opposite of the guard `not vin`: only an absent parameter and the
   * empty string are refused. The 400 rule it decides is stated on `Decide`.
   */
  predicate VinGiven(vin: Option<string>)
  {
    vin.Some? && vin.value != ""
  }

  /**
   * The page looked up for a VIN: the fixed prefix, then the VIN as given,
   * whatever its length or content; the VIN can be read back from the URL.
   */
  function LookupUrl(vin: string): (url: string)
    ensures VinOfUrl(url) == Some(vin)
  {
    var url := LookupPrefix + vin;
    assert url[..|LookupPrefix|] == LookupPrefix && url[|LookupPrefix|..] == vin;
    url
  }

  /** The VIN a lookup URL asks about, if it is one. */
  function VinOfUrl(url: string): (vin: Option<string>)
  {
    if |LookupPrefix| <= |url| && url[..|LookupPrefix|] == LookupPrefix then Some(url[|LookupPrefix|..])
    else None
  }

  /** Different VINs are looked up at different pages. */
  lemma LookupUrlInjective(v: string, w: string)
    requires LookupUrl(v) == LookupUrl(w)
    ensures v == w
  {
    assert VinOfUrl(LookupUrl(v)) == Some(v);
  }

  /** The answer of `decode_vin`, branch by branch. */
  function Decide(vin: Option<string>, browser: Browser): (r: Response)
    ensures r.status in {200, 400, 404, 500}
    ensures r.status == 400 <==> vin == None || vin == Some("")
    ensures r.status == 400 ==> r.body == ErrorBody(MissingVinMessage)
    ensures r.status == 404 ==> r.body == ErrorBody(TableMissingMessage)
    ensures r.status == 200 <==> r.body.EquipmentBody?
  {
    if !VinGiven(vin) then Response(ErrorBody(MissingVinMessage), 400)
    else
      match browser.launch
      case LaunchFailed(message, _) => Response(ErrorBody(message), 500)
      case Launched =>
        match browser.load(LookupUrl(vin.value))
        case Raised(message) => Response(ErrorBody(message), 500)
        case Loaded(None) => Response(ErrorBody(TableMissingMessage), 404)
        case Loaded(Some(rows)) => Response(EquipmentBody(Extract(rows)), 200)
  }

  /** A missing or empty VIN is refused the same way whatever the browser would have done. */
  lemma MissingVinIgnoresBrowser(vin: Option<string>, b: Browser, c: Browser)
    requires !VinGiven(vin)
    ensures Decide(vin, b) == Decide(vin, c) == Response(ErrorBody(MissingVinMessage), 400)
  {
  }

  /** Any exception, from starting the driver or from loading the page, becomes a 500 carrying its message. */
  lemma ExceptionIs500(vin: string, browser: Browser, message: string)
    requires vin != ""
    requires (browser.launch.LaunchFailed? && browser.launch.message == message)
          || (browser.launch == Launched && browser.load(LookupUrl(vin)) == Raised(message))
    ensures Decide(Some(vin), browser) == Response(ErrorBody(message), 500)
  {
  }

  /** A page without the equipment table is a 404 and yields no records. */
  lemma MissingTableIs404(vin: string, browser: Browser)
    requires vin != "" && browser.launch == Launched
    requires browser.load(LookupUrl(vin)) == Loaded(None)
    ensures Decide(Some(vin), browser) == Response(ErrorBody(TableMissingMessage), 404)
  {
  }

  /**
   * A page with the table is a 200 whose body is the extracted list: one
   * record per row with two cells or more, in table order, never more records
   * than rows.
   */
  lemma TableIs200(vin: string, browser: Browser, rows: seq<Row>)
    requires vin != "" && browser.launch == Launched
    requires browser.load(LookupUrl(vin)) == Loaded(Some(rows))
    ensures Decide(Some(vin), browser) == Response(EquipmentBody(Extract(rows)), 200)
    ensures |Decide(Some(vin), browser).body.equipment| <= |rows|
  {
  }

  /** A worked lookup: a page whose table has a header row and two equipment rows. */
  lemma ExampleLookup()
    ensures var rows: seq<Row> := [[], ["101", "Power Steering"], ["202", "Air Conditioning"]];
      Decide(Some("1HGCM82633A004352"), Browser(Launched, url => Loaded(Some(rows))))
      == Response(EquipmentBody([Record("101", "Power Steering"), Record("202", "Air Conditioning")]), 200)
  {
    var rows: seq<Row> := [[], ["101", "Power Steering"], ["202", "Air Conditioning"]];
    Text.StripKeepsTrimmed("101");
    Text.StripKeepsTrimmed("Power Steering");
    Text.StripKeepsTrimmed("202");
    Text.StripKeepsTrimmed("Air Conditioning");
    assert Extract(rows[..1]) == [] by { assert rows[..1][..0] == []; }
    assert Extract(rows[..2]) == [Record("101", "Power Steering")] by { assert rows[..2][..1] == rows[..1]; }
    assert rows[..2] == rows[..|rows| - 1];
  }

  /**
   * One driver event, from a driver that is open or not: `None` when it is out
   * of place (a page requested or a driver quit with no driver open, a second
   * driver started), otherwise whether a driver is open afterwards.
   */
  function Step(event: DriverEvent, open: bool): (next: Option<bool>)
  {
    match event
    case DriverStarted => if open then None else Some(true)
    case PageRequested(_) => if open then Some(true) else None
    case DriverQuit => if open then Some(false) else None
  }

  /** The driver events of a call, replayed one `Step` at a time from the first. */
  function Replay(events: seq<DriverEvent>, open: bool): (final: Option<bool>)
  {
    if events == [] then Some(open)
    else
      match Step(events[0], open)
      case None => None
      case Some(next) => Replay(events[1..], next)
  }

  /** Replaying one more event continues from where the replay of the others stopped. */
  lemma {:induction false} ReplayExtend(events: seq<DriverEvent>, event: DriverEvent, open: bool)
    ensures Replay(events + [event], open)
         == match Replay(events, open) case None => None case Some(now) => Step(event, now)
  {
    if events == [] {
      assert [] + [event] == [event] && [event][1..] == [];
    } else {
      assert (events + [event])[1..] == events[1..] + [event];
      match Step(events[0], open)
      case None =>
      case Some(next) => ReplayExtend(events[1..], event, next);
    }
  }

  /**
   * `decode_vin`: the VIN check before any driver exists, then the `try`
   * (driver, lookup page, table, extraction loop) whose exceptions become a
   * 500, then the `finally` that quits the driver `setup_driver` returned.
   * A Chrome that `setup_driver` started and then raised about is never
   * returned, so neither `decode_vin` nor `setup_driver` ever quits it: it is
   * the one driver left open.
   */
  method DecodeVin(vin: Option<string>, browser: Browser) returns (response: Response, ghost events: seq<DriverEvent>)
    ensures response == Decide(vin, browser)
    ensures Replay(events, false) == Some(VinGiven(vin) && browser.launch.LaunchFailed? && browser.launch.started)
    ensures events != [] <==> VinGiven(vin) && (browser.launch.Launched? || browser.launch.started)
    ensures forall e :: e in events && e.PageRequested? ==> VinOfUrl(e.url) == vin
  {
    events := [];
    if !VinGiven(vin) {
      return Response(ErrorBody(MissingVinMessage), 400), events;
    }
    ghost var driverOpen := false;  // `driver` is not None
    match browser.launch {
      case LaunchFailed(message, started) =>
        if started {
          ReplayExtend(events, DriverStarted, false);
          events := events + [DriverStarted];
        }
        response := Response(ErrorBody(message), 500);
      case Launched =>
        ReplayExtend(events, DriverStarted, false);
        events, driverOpen := events + [DriverStarted], true;
        var url := LookupUrl(vin.value);
        ReplayExtend(events, PageRequested(url), false);
        events := events + [PageRequested(url)];
        match browser.load(url) {
          case Raised(message) =>
            response := Response(ErrorBody(message), 500);
          case Loaded(None) =>
            response := Response(ErrorBody(TableMissingMessage), 404);
          case Loaded(Some(rows)) =>
            var equipment := CollectEquipment(rows);
            response := Response(EquipmentBody(equipment), 200);
        }
    }
    if driverOpen {
      ReplayExtend(events, DriverQuit, false);
      events, driverOpen := events + [DriverQuit], false;
    }
  }
}
