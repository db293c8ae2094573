/** The scrape of `scraper.py`: for each chamber's listing of upcoming meetings, every
    meeting page is read into records (chamber, day, committee, bill number, author,
    caption), and the whole table then gets a last pass over its captions.

    HTTP and HTML parsing are not modelled: a listing is the sequence of `href` values of
    its links, and a meeting page is the text of its `<p>` elements with its `<td>` cells
    (see `Bills.Cell`). Both come in as functions of the requested URL. */
module Scraper {
  import opened Wrappers
  import opened Seqs
  import opened Text
  import opened DateText
  import opened Calendar
  import opened Bills

  const BaseUrl := "https://capitol.texas.gov"
  const CommitteeMarker := "COMMITTEE:"
  const DateMarker := "TIME & DATE:"
  const UnknownCommittee := "Unknown Committee"
  const MeetingSuffix := ".HTM"

  datatype Chamber = House | Senate

  /** The chambers in the order the scrape visits them. */
  const Chambers: seq<Chamber> := [House, Senate]

  function ChamberName(c: Chamber): string
  {
    match c
    case House => "House"
    case Senate => "Senate"
  }

  /** Where the chamber lists its upcoming committee meetings: the `Chamber` query
      parameter is the initial of the chamber's name, so the two listings differ. */
  function ListingUrl(c: Chamber): (url: string)
    ensures url == BaseUrl + "/Committees/MeetingsUpcoming.aspx?Chamber=" + [ChamberName(c)[0]]
  {
    BaseUrl + "/Committees/MeetingsUpcoming.aspx?Chamber=" + (match c case House => "H" case Senate => "S")
  }

  /** The two chambers' listings are different pages. */
  lemma ListingUrlsDiffer(c: Chamber, d: Chamber)
    requires c != d
    ensures ListingUrl(c) != ListingUrl(d)
  {
    var p := BaseUrl + "/Committees/MeetingsUpcoming.aspx?Chamber=";
    assert ListingUrl(c)[|p|] == ChamberName(c)[0];
    assert ListingUrl(d)[|p|] == ChamberName(d)[0];
  }

  /** A meeting page: the texts of its paragraphs and its table cells, in document order. */
  datatype Page = Page(paragraphs: seq<string>, cells: seq<Cell>)

  /** One row of the scraped table. */
  datatype Record = Record(chamber: string, day: string, committee: string,
                           number: string, author: string, caption: string)

  predicate EndsWith(s: string, suffix: string)
  {
    |suffix| <= |s| && s[|s| - |suffix|..] == suffix
  }

  // ---------------------------------------------------------------- meeting links (34)

  /** The meeting pages a listing links to: each `href` ending in ".HTM", made absolute. */
  function MeetingLinks(hrefs: seq<string>): (links: seq<string>)
    ensures |links| <= |hrefs|
  {
    if hrefs == [] then []
    else (if EndsWith(hrefs[0], MeetingSuffix) then [BaseUrl + hrefs[0]] else [])
         + MeetingLinks(hrefs[1..])
  }

  /** A link is followed exactly when some `href` of the listing ends in ".HTM" and the
      link is that `href` after the site's address. */
  lemma {:induction false} MeetingLinksMembership(hrefs: seq<string>, link: string)
    ensures link in MeetingLinks(hrefs) <==>
            exists h :: h in hrefs && EndsWith(h, MeetingSuffix) && link == BaseUrl + h
  {
    if hrefs != [] {
      MeetingLinksMembership(hrefs[1..], link);
      assert forall h :: h in hrefs <==> h == hrefs[0] || h in hrefs[1..];
    }
  }

  /** The test the link filter applies to one `href`. */
  predicate IsMeetingHref(h: string)
  {
    EndsWith(h, MeetingSuffix)
  }

  /** The links are the ".HTM" `href`s of the listing, in the listing's order and with its
      repetitions, each after the site's address. */
  lemma {:induction false} MeetingLinksFilter(hrefs: seq<string>)
    ensures var f := Filter(hrefs, IsMeetingHref);
            |MeetingLinks(hrefs)| == |f| &&
            forall i :: 0 <= i < |f| ==> MeetingLinks(hrefs)[i] == BaseUrl + f[i]
  {
    if hrefs != [] {
      MeetingLinksFilter(hrefs[1..]);
    }
  }

  // ---------------------------------------------------------------- committee and day (40-43)

  /** The position of the first paragraph containing `marker`, as `next(...)` finds it. */
  function FirstWith(ps: seq<string>, marker: string): (r: Option<nat>)
    ensures r.Some? ==> r.value < |ps| && Contains(ps[r.value], marker)
                        && forall j :: 0 <= j < r.value ==> !Contains(ps[j], marker)
    ensures r.None? ==> forall j :: 0 <= j < |ps| ==> !Contains(ps[j], marker)
  {
    if ps == [] then None
    else if Contains(ps[0], marker) then Some(0)
    else
      match FirstWith(ps[1..], marker)
      case None => None
      case Some(k) => Some(k + 1)
  }

  /** The committee a meeting page names: the whitespace-normalised text after the last
      ':' of the first paragraph containing "COMMITTEE:", or "Unknown Committee". */
  function CommitteeName(ps: seq<string>): (name: string)
    ensures IsNormal(name)
  {
    var raw := match FirstWith(ps, CommitteeMarker)
               case None => UnknownCommittee
               case Some(k) => Strip(AfterLast(ps[k], ':'));
    Normalize(raw)
  }

  /** A text containing `x` contains each character of `x`. */
  lemma ContainsChar(s: string, x: string, j: nat)
    requires Contains(s, x) && j < |x|
    ensures x[j] in s
  {
    var i :| 0 <= i <= |s| && OccursAt(s, x, i);
    assert s[i..i + |x|][j] == s[i + j];
  }

  /** The committee is read from the first paragraph naming one, after that paragraph's
      last ':'; the name itself holds no ':'. */
  lemma CommitteeOfFirst(ps: seq<string>, k: nat) returns (front: string, after: string)
    requires k < |ps| && Contains(ps[k], CommitteeMarker)
    requires forall j :: 0 <= j < k ==> !Contains(ps[j], CommitteeMarker)
    ensures ps[k] == front + [':'] + after && ':' !in after
    ensures CommitteeName(ps) == Normalize(Strip(after))
  {
    FirstWithIs(ps, CommitteeMarker, k);
    ContainsChar(ps[k], CommitteeMarker, 9);
    front := AfterLastSplits(ps[k], ':');
    after := AfterLast(ps[k], ':');
  }

  /** The committee name is the words after that last ':', in order, joined by single
      spaces: normalising drops no word and adds none. */
  lemma CommitteeWords(ps: seq<string>, k: nat) returns (after: string)
    requires k < |ps| && Contains(ps[k], CommitteeMarker)
    requires forall j :: 0 <= j < k ==> !Contains(ps[j], CommitteeMarker)
    ensures after == AfterLast(ps[k], ':')
    ensures CommitteeName(ps) == Join(Tokens(after), " ")
  {
    FirstWithIs(ps, CommitteeMarker, k);
    after := AfterLast(ps[k], ':');
    var stripped := Strip(after);
    TokensStrip(after);
    NormalizeIsJoin(stripped);
    assert Normalize(stripped) == Join(Tokens(after), " ");
  }

  /** A page with no paragraph naming a committee is filed under "Unknown Committee". */
  lemma CommitteeUnknown(ps: seq<string>)
    requires forall j :: 0 <= j < |ps| ==> !Contains(ps[j], CommitteeMarker)
    ensures CommitteeName(ps) == UnknownCommittee
  {
    UnknownCommitteeNormal();
    NormalizeFixed(UnknownCommittee);
  }

  lemma UnknownCommitteeNormal()
    ensures IsNormal(UnknownCommittee)
  {
    assert UnknownCommittee[7] == ' ';
  }

  /** No committee name holds a ':'. */
  lemma CommitteeHasNoColon(ps: seq<string>)
    ensures ':' !in CommitteeName(ps)
  {
    match FirstWith(ps, CommitteeMarker)
    case None =>
      assert ':' !in UnknownCommittee;
      NormalizeKeepsOut(UnknownCommittee, ':');
    case Some(k) =>
      var after := AfterLast(ps[k], ':');
      StripKeepsOut(after, ':');
      NormalizeKeepsOut(Strip(after), ':');
  }

  /** The meeting day: the weekday of the first paragraph containing "TIME & DATE:", or
      "Unknown" when there is none. */
  function MeetingDay(ps: seq<string>): (day: string)
    ensures day == Unknown || day in WeekdayNames
  {
    match FirstWith(ps, DateMarker)
    case None => Unknown
    case Some(k) => ExtractWeekday(ps[k])
  }

  /** `next(...)` picks the first paragraph that contains the marker. */
  lemma FirstWithIs(ps: seq<string>, marker: string, k: nat)
    requires k < |ps| && Contains(ps[k], marker)
    requires forall j :: 0 <= j < k ==> !Contains(ps[j], marker)
    ensures FirstWith(ps, marker) == Some(k)
  {
  }

  /** Only the first paragraph containing "TIME & DATE:" decides the day. */
  lemma MeetingDayOfFirst(ps: seq<string>, k: nat)
    requires k < |ps| && Contains(ps[k], DateMarker)
    requires forall j :: 0 <= j < k ==> !Contains(ps[j], DateMarker)
    ensures MeetingDay(ps) == ExtractWeekday(ps[k])
  {
    FirstWithIs(ps, DateMarker, k);
  }

  lemma MeetingDayUnknown(ps: seq<string>)
    requires forall j :: 0 <= j < |ps| ==> !Contains(ps[j], DateMarker)
    ensures MeetingDay(ps) == Unknown
  {
  }

  // ---------------------------------------------------------------- records of a page (45-71)

  /** How a meeting page is read: its day and its committee from the paragraphs, and the
      bill of each cell. The folds below are stated for any reader; the scrape uses `Site`. */
  datatype Reader = Reader(day: seq<string> -> string, committee: seq<string> -> string,
                           bill: Cell -> Result<Option<Bill>, ScrapeError>)

  const Site := Reader(MeetingDay, CommitteeName, CellBill)

  /** The bill cells of a page, as the reader sees them. */
  predicate HoldsBill(rd: Reader, cell: Cell)
  {
    rd.bill(cell).Ok? && rd.bill(cell).value.Some?
  }

  function ToRecord(chamber: Chamber, day: string, committee: string, b: Bill): Record
  {
    Record(ChamberName(chamber), day, committee, b.number, b.author, b.caption)
  }

  /** `a` then `b`, failing with the first failure: what appending the records of the
      next piece of work to `data` comes to, when any failure stops the scrape. */
  function Then(a: Result<seq<Record>, ScrapeError>,
                b: Result<seq<Record>, ScrapeError>): (r: Result<seq<Record>, ScrapeError>)
    ensures r.Ok? <==> a.Ok? && b.Ok?
    ensures r.Ok? ==> r.value == a.value + b.value
    ensures a.Err? ==> r == a
    ensures a.Ok? && b.Err? ==> r == b
  {
    if a.Err? then a else if b.Err? then b else Ok(a.value + b.value)
  }

  lemma ThenAssociative(a: Result<seq<Record>, ScrapeError>, b: Result<seq<Record>, ScrapeError>,
                        c: Result<seq<Record>, ScrapeError>)
    ensures Then(Then(a, b), c) == Then(a, Then(b, c))
  {
    if a.Ok? && b.Ok? && c.Ok? {
      assert (a.value + b.value) + c.value == a.value + (b.value + c.value);
    }
  }

  lemma ThenUnit(a: Result<seq<Record>, ScrapeError>)
    ensures Then(Ok([]), a) == a && Then(a, Ok([])) == a
  {
    if a.Ok? {
      assert [] + a.value == a.value && a.value + [] == a.value;
    }
  }

  /** The records one cell contributes. */
  function CellRecords(rd: Reader, chamber: Chamber, day: string, committee: string,
                       cell: Cell): Result<seq<Record>, ScrapeError>
  {
    match rd.bill(cell)
    case Err(e) => Err(e)
    case Ok(None) => Ok([])
    case Ok(Some(b)) => Ok([ToRecord(chamber, day, committee, b)])
  }

  /** The records of a run of cells, all found on one meeting page. */
  function CellsRecords(rd: Reader, chamber: Chamber, day: string, committee: string,
                        cells: seq<Cell>): (r: Result<seq<Record>, ScrapeError>)
    ensures r.Ok? ==> |r.value| <= |cells|
  {
    if cells == [] then Ok([])
    else Then(CellRecords(rd, chamber, day, committee, cells[0]),
              CellsRecords(rd, chamber, day, committee, cells[1..]))
  }

  /** A page yields one record per bill cell, in the order of the cells, each tagged with
      the chamber, the meeting day and the committee, and holding that cell's bill. */
  lemma {:induction false} CellsRecordsOk(rd: Reader, chamber: Chamber, day: string,
                                          committee: string, cells: seq<Cell>)
    requires CellsRecords(rd, chamber, day, committee, cells).Ok?
    ensures var rs := CellsRecords(rd, chamber, day, committee, cells).value;
            var bc := Filter(cells, c => HoldsBill(rd, c));
            |rs| == |bc|
            && forall i :: 0 <= i < |rs| ==>
                 rs[i].chamber == ChamberName(chamber) && rs[i].day == day
                 && rs[i].committee == committee
                 && rd.bill(bc[i]) == Ok(Some(Bill(rs[i].number, rs[i].author, rs[i].caption)))
  {
    if cells != [] {
      CellsRecordsOk(rd, chamber, day, committee, cells[1..]);
    }
  }

  /** The scrape of a page stops exactly when one of its cells makes it stop, and then with
      the error of the first such cell. */
  lemma {:induction false} CellsRecordsErr(rd: Reader, chamber: Chamber, day: string,
                                           committee: string, cells: seq<Cell>)
    ensures CellsRecords(rd, chamber, day, committee, cells).Err? <==>
            exists i :: 0 <= i < |cells| && rd.bill(cells[i]).Err?
    ensures CellsRecords(rd, chamber, day, committee, cells).Err? ==>
            exists i :: 0 <= i < |cells| && rd.bill(cells[i]).Err?
                        && CellsRecords(rd, chamber, day, committee, cells).error == rd.bill(cells[i]).error
                        && forall j :: 0 <= j < i ==> rd.bill(cells[j]).Ok?
  {
    if cells != [] {
      var tail := cells[1..];
      CellsRecordsErr(rd, chamber, day, committee, tail);
      if rd.bill(cells[0]).Ok? && CellsRecords(rd, chamber, day, committee, tail).Err? {
        var i :| 0 <= i < |tail| && rd.bill(tail[i]).Err?
                 && CellsRecords(rd, chamber, day, committee, tail).error == rd.bill(tail[i]).error
                 && forall j :: 0 <= j < i ==> rd.bill(tail[j]).Ok?;
        assert cells[i + 1] == tail[i];
        forall j | 0 <= j < i + 1 ensures rd.bill(cells[j]).Ok? {
          if j > 0 { assert cells[j] == tail[j - 1]; }
        }
      }
      if exists i :: 0 <= i < |cells| && rd.bill(cells[i]).Err? {
        var i :| 0 <= i < |cells| && rd.bill(cells[i]).Err?;
        if i > 0 { assert cells[i] == tail[i - 1]; }
      }
    }
  }

  /** The records of one meeting page. */
  function PageRecords(rd: Reader, chamber: Chamber, page: Page): (r: Result<seq<Record>, ScrapeError>)
    ensures r.Ok? ==> |r.value| <= |page.cells|
  {
    CellsRecords(rd, chamber, rd.day(page.paragraphs), rd.committee(page.paragraphs), page.cells)
  }

  /** The records of the meeting pages behind `links`, in order. */
  function LinksRecords(rd: Reader, chamber: Chamber, links: seq<string>,
                        fetch: string -> Page): Result<seq<Record>, ScrapeError>
  {
    if links == [] then Ok([])
    else Then(PageRecords(rd, chamber, fetch(links[0])), LinksRecords(rd, chamber, links[1..], fetch))
  }

  /** The meeting pages a chamber's listing links to. */
  function ChamberLinks(chamber: Chamber, listing: string -> seq<string>): seq<string>
  {
    MeetingLinks(listing(ListingUrl(chamber)))
  }

  /** The records of the chambers in `cs`, in order. */
  function ChambersRecords(rd: Reader, cs: seq<Chamber>, listing: string -> seq<string>,
                           fetch: string -> Page): Result<seq<Record>, ScrapeError>
  {
    if cs == [] then Ok([])
    else Then(LinksRecords(rd, cs[0], ChamberLinks(cs[0], listing), fetch),
              ChambersRecords(rd, cs[1..], listing, fetch))
  }

  /** The table the scrape collects before its final pass. */
  function ScrapeAll(rd: Reader, listing: string -> seq<string>,
                     fetch: string -> Page): Result<seq<Record>, ScrapeError>
  {
    ChambersRecords(rd, Chambers, listing, fetch)
  }

  /** A meeting page fails exactly when one of its cells stops the scrape. */
  lemma PageRecordsErr(rd: Reader, chamber: Chamber, page: Page)
    ensures PageRecords(rd, chamber, page).Err? <==>
            exists i :: 0 <= i < |page.cells| && rd.bill(page.cells[i]).Err?
  {
    CellsRecordsErr(rd, chamber, rd.day(page.paragraphs), rd.committee(page.paragraphs), page.cells);
  }

  /** A chamber's meetings are read through exactly when every one of its pages is. */
  lemma {:induction false} LinksRecordsOkIff(rd: Reader, chamber: Chamber, links: seq<string>,
                                             fetch: string -> Page)
    ensures LinksRecords(rd, chamber, links, fetch).Ok? <==>
            forall k :: 0 <= k < |links| ==> PageRecords(rd, chamber, fetch(links[k])).Ok?
  {
    if links != [] {
      LinksRecordsOkIff(rd, chamber, links[1..], fetch);
      assert forall k :: 0 < k < |links| ==> links[1..][k - 1] == links[k];
    }
  }

  /** The chambers' meetings are read through exactly when every chamber's are. */
  lemma {:induction false} ChambersRecordsOkIff(rd: Reader, cs: seq<Chamber>,
                                                listing: string -> seq<string>, fetch: string -> Page)
    ensures ChambersRecords(rd, cs, listing, fetch).Ok? <==>
            forall k :: 0 <= k < |cs| ==> LinksRecords(rd, cs[k], ChamberLinks(cs[k], listing), fetch).Ok?
  {
    if cs != [] {
      ChambersRecordsOkIff(rd, cs[1..], listing, fetch);
      assert forall k :: 0 < k < |cs| ==> cs[1..][k - 1] == cs[k];
    }
  }

  /** The scrape gets through exactly when both chambers' meetings do. */
  lemma ScrapeAllOk(rd: Reader, listing: string -> seq<string>, fetch: string -> Page)
    ensures ScrapeAll(rd, listing, fetch).Ok? <==>
            LinksRecords(rd, House, ChamberLinks(House, listing), fetch).Ok?
            && LinksRecords(rd, Senate, ChamberLinks(Senate, listing), fetch).Ok?
  {
    ScrapeAllSplit(rd, listing, fetch);
  }

  /** Each record of a run of cells holds the bill of one of those cells. */
  lemma {:induction false} CellsRecordsFrom(rd: Reader, chamber: Chamber, day: string,
                                            committee: string, cells: seq<Cell>, i: nat)
    requires CellsRecords(rd, chamber, day, committee, cells).Ok?
    requires i < |CellsRecords(rd, chamber, day, committee, cells).value|
    ensures var r := CellsRecords(rd, chamber, day, committee, cells).value[i];
            r.chamber == ChamberName(chamber) && r.day == day && r.committee == committee
            && exists cell :: cell in cells && rd.bill(cell) == Ok(Some(Bill(r.number, r.author, r.caption)))
  {
    var head := CellRecords(rd, chamber, day, committee, cells[0]).value;
    var tail := CellsRecords(rd, chamber, day, committee, cells[1..]);
    if i >= |head| {
      CellsRecordsFrom(rd, chamber, day, committee, cells[1..], i - |head|);
      var r := tail.value[i - |head|];
      var cell :| cell in cells[1..] && rd.bill(cell) == Ok(Some(Bill(r.number, r.author, r.caption)));
      assert cell in cells;
    }
  }

  /** `r` was read from `page`: its day and committee are the page's, its bill one of the
      page's cells. */
  predicate FromPage(rd: Reader, r: Record, page: Page)
  {
    r.day == rd.day(page.paragraphs) && r.committee == rd.committee(page.paragraphs)
    && exists cell :: cell in page.cells && rd.bill(cell) == Ok(Some(Bill(r.number, r.author, r.caption)))
  }

  /** Every record of a chamber's meetings is tagged with that chamber and was read from one
      of the pages its listing links to. */
  lemma {:induction false} LinksRecordsOrigin(rd: Reader, chamber: Chamber, links: seq<string>,
                                              fetch: string -> Page, i: nat)
    requires LinksRecords(rd, chamber, links, fetch).Ok?
    requires i < |LinksRecords(rd, chamber, links, fetch).value|
    ensures var r := LinksRecords(rd, chamber, links, fetch).value[i];
            r.chamber == ChamberName(chamber)
            && exists k :: 0 <= k < |links| && FromPage(rd, r, fetch(links[k]))
  {
    var page := fetch(links[0]);
    var head := PageRecords(rd, chamber, page).value;
    var rest := LinksRecords(rd, chamber, links[1..], fetch);
    if i < |head| {
      CellsRecordsFrom(rd, chamber, rd.day(page.paragraphs), rd.committee(page.paragraphs), page.cells, i);
      assert LinksRecords(rd, chamber, links, fetch).value[i] == head[i];
      assert FromPage(rd, head[i], fetch(links[0]));
    } else {
      LinksRecordsOrigin(rd, chamber, links[1..], fetch, i - |head|);
      assert LinksRecords(rd, chamber, links, fetch).value[i] == rest.value[i - |head|];
      var r := rest.value[i - |head|];
      var k :| 0 <= k < |links[1..]| && FromPage(rd, r, fetch(links[1..][k]));
      assert links[1..][k] == links[k + 1];
    }
  }

  /** Every record of a chamber's meetings is tagged with that chamber. */
  lemma LinksRecordsChamber(rd: Reader, chamber: Chamber, links: seq<string>, fetch: string -> Page)
    requires LinksRecords(rd, chamber, links, fetch).Ok?
    ensures forall i :: 0 <= i < |LinksRecords(rd, chamber, links, fetch).value| ==>
              LinksRecords(rd, chamber, links, fetch).value[i].chamber == ChamberName(chamber)
  {
    forall i | 0 <= i < |LinksRecords(rd, chamber, links, fetch).value|
      ensures LinksRecords(rd, chamber, links, fetch).value[i].chamber == ChamberName(chamber)
    {
      LinksRecordsOrigin(rd, chamber, links, fetch, i);
    }
  }

  /** The table is the House's records followed by the Senate's. */
  lemma ScrapeAllSplit(rd: Reader, listing: string -> seq<string>, fetch: string -> Page)
    ensures ScrapeAll(rd, listing, fetch)
            == Then(LinksRecords(rd, House, ChamberLinks(House, listing), fetch),
                    LinksRecords(rd, Senate, ChamberLinks(Senate, listing), fetch))
  {
    var senate := LinksRecords(rd, Senate, ChamberLinks(Senate, listing), fetch);
    assert Chambers[1..] == [Senate];
    assert [Senate][1..] == [];
    ThenUnit(senate);
    assert ChambersRecords(rd, [Senate], listing, fetch) == senate;
  }

  /** The scraped table lists the House's meetings before the Senate's: the first `n` records
      are the House's and the rest the Senate's. */
  lemma HouseBeforeSenate(rd: Reader, listing: string -> seq<string>, fetch: string -> Page)
    returns (n: nat)
    requires ScrapeAll(rd, listing, fetch).Ok?
    ensures var rs := ScrapeAll(rd, listing, fetch).value;
            n <= |rs|
            && (forall i :: 0 <= i < n ==> rs[i].chamber == "House")
            && (forall i :: n <= i < |rs| ==> rs[i].chamber == "Senate")
  {
    ScrapeAllSplit(rd, listing, fetch);
    LinksRecordsChamber(rd, House, ChamberLinks(House, listing), fetch);
    LinksRecordsChamber(rd, Senate, ChamberLinks(Senate, listing), fetch);
    n := |LinksRecords(rd, House, ChamberLinks(House, listing), fetch).value|;
  }

  /** Every scraped record was read from a meeting page that its chamber's listing links to. */
  lemma ScrapedRecordOrigin(rd: Reader, listing: string -> seq<string>, fetch: string -> Page, i: nat)
    returns (c: Chamber, k: nat)
    requires ScrapeAll(rd, listing, fetch).Ok? && i < |ScrapeAll(rd, listing, fetch).value|
    ensures var r := ScrapeAll(rd, listing, fetch).value[i];
            k < |ChamberLinks(c, listing)| && r.chamber == ChamberName(c)
            && FromPage(rd, r, fetch(ChamberLinks(c, listing)[k]))
  {
    ScrapeAllSplit(rd, listing, fetch);
    var house := LinksRecords(rd, House, ChamberLinks(House, listing), fetch).value;
    if i < |house| {
      c := House;
      LinksRecordsOrigin(rd, House, ChamberLinks(House, listing), fetch, i);
      k :| 0 <= k < |ChamberLinks(House, listing)| && FromPage(rd, house[i], fetch(ChamberLinks(House, listing)[k]));
    } else {
      c := Senate;
      var senate := LinksRecords(rd, Senate, ChamberLinks(Senate, listing), fetch).value;
      LinksRecordsOrigin(rd, Senate, ChamberLinks(Senate, listing), fetch, i - |house|);
      k :| 0 <= k < |ChamberLinks(Senate, listing)|
           && FromPage(rd, senate[i - |house|], fetch(ChamberLinks(Senate, listing)[k]));
    }
  }

  /** With the site's own readers every field of a record is as the scrape cleans it: the
      day a weekday name or "Unknown", the committee, author and caption free of stray
      whitespace, and the committee without ':'. */
  lemma SiteRecordsClean(listing: string -> seq<string>, fetch: string -> Page, i: nat)
    requires ScrapeAll(Site, listing, fetch).Ok? && i < |ScrapeAll(Site, listing, fetch).value|
    ensures var r := ScrapeAll(Site, listing, fetch).value[i];
            (r.chamber == "House" || r.chamber == "Senate")
            && (r.day == Unknown || r.day in WeekdayNames)
            && IsNormal(r.committee) && ':' !in r.committee
            && IsNormal(r.author) && IsNormal(r.caption)
  {
    var c, k := ScrapedRecordOrigin(Site, listing, fetch, i);
    var r := ScrapeAll(Site, listing, fetch).value[i];
    var page := fetch(ChamberLinks(c, listing)[k]);
    var cell :| cell in page.cells && CellBill(cell) == Ok(Some(Bill(r.number, r.author, r.caption)));
    CommitteeHasNoColon(page.paragraphs);
  }

  // ---------------------------------------------------------------- the scrape loop (29-71)

  /** The loop over a page's cells, appending to the records collected so far. */
  method AppendPage(rd: Reader, data: seq<Record>, chamber: Chamber, page: Page)
    returns (r: Result<seq<Record>, ScrapeError>)
    ensures r == Then(Ok(data), PageRecords(rd, chamber, page))
  {
    var committee := rd.committee(page.paragraphs);
    var day := rd.day(page.paragraphs);
    var cells := page.cells;
    var acc := data;
    for t := 0 to |cells|
      invariant Then(Ok(data), PageRecords(rd, chamber, page))
                == Then(Ok(acc), CellsRecords(rd, chamber, day, committee, cells[t..]))
    {
      assert cells[t..][1..] == cells[t + 1..];
      ThenAssociative(Ok(acc), CellRecords(rd, chamber, day, committee, cells[t]),
                      CellsRecords(rd, chamber, day, committee, cells[t + 1..]));
      match rd.bill(cells[t])
      case Err(e) =>
        return Err(e);
      case Ok(None) =>
        ThenUnit(CellsRecords(rd, chamber, day, committee, cells[t + 1..]));
      case Ok(Some(b)) =>
        acc := acc + [ToRecord(chamber, day, committee, b)];
    }
    ThenUnit(Ok(acc));
    return Ok(acc);
  }

  /** The scrape: both chambers, every meeting page their listings link to, every cell. */
  method Scrape(rd: Reader, listing: string -> seq<string>, fetch: string -> Page)
    returns (r: Result<seq<Record>, ScrapeError>)
    ensures r == ScrapeAll(rd, listing, fetch)
  {
    var data: seq<Record> := [];
    ThenUnit(ScrapeAll(rd, listing, fetch));
    for c := 0 to |Chambers|
      invariant ScrapeAll(rd, listing, fetch) == Then(Ok(data), ChambersRecords(rd, Chambers[c..], listing, fetch))
    {
      var chamber := Chambers[c];
      var links := ChamberLinks(chamber, listing);
      var later := ChambersRecords(rd, Chambers[c + 1..], listing, fetch);
      assert Chambers[c..][1..] == Chambers[c + 1..];
      ThenAssociative(Ok(data), LinksRecords(rd, chamber, links, fetch), later);
      for l := 0 to |links|
        invariant ScrapeAll(rd, listing, fetch)
                  == Then(Ok(data), Then(LinksRecords(rd, chamber, links[l..], fetch), later))
      {
        assert links[l..][1..] == links[l + 1..];
        var rest := LinksRecords(rd, chamber, links[l + 1..], fetch);
        var page := fetch(links[l]);
        ThenAssociative(PageRecords(rd, chamber, page), rest, later);
        ThenAssociative(Ok(data), PageRecords(rd, chamber, page), Then(rest, later));
        var next := AppendPage(rd, data, chamber, page);
        if next.Err? {
          return Err(next.error);
        }
        data := next.value;
      }
      ThenUnit(later);
    }
    ThenUnit(Ok(data));
    return Ok(data);
  }

  // ---------------------------------------------------------------- the saved table (74-84)

  /** A row of the saved table: a record and the two columns left for the reader to fill. */
  datatype Row = Row(chamber: string, day: string, committee: string, number: string,
                     author: string, caption: string, stance: string, action: string)

  function ToRow(r: Record): Row
  {
    Row(r.chamber, r.day, r.committee, r.number, r.author, r.caption, "", "")
  }

  /** One step of the pass: a caption containing `x` has every occurrence of `x` replaced
      by a space and is stripped; any other caption stays as it is. */
  function StripToken(caption: string, x: string): (r: string)
    requires x != []
    ensures NoSpace(x) ==> !Contains(r, x)
    ensures Contains(caption, x) ==> Trimmed(r)
  {
    if Contains(caption, x) then
      StripReplaceRemoves(caption, x);
      Strip(ReplaceAll(caption, x, " "))
    else caption
  }

  lemma StripReplaceRemoves(caption: string, x: string)
    requires x != []
    ensures NoSpace(x) ==> !Contains(Strip(ReplaceAll(caption, x, " ")), x)
  {
    if NoSpace(x) {
      var t := ReplaceAll(caption, x, " ");
      SpaceIsBlank();
      ReplaceAllRemoves(caption, x, " ");
      if Contains(Strip(t), x) {
        ContainsStrip(t, x);
      }
    }
  }

  /** Where `x` first occurs after `a`, the step keeps `a`, puts a space for `x` and goes on
      replacing in the rest, then strips the ends. */
  lemma StripTokenFirst(a: string, x: string, b: string)
    requires x != [] && !Contains(a + x[..|x| - 1], x)
    ensures StripToken(a + x + b, x) == Strip(a + " " + ReplaceAll(b, x, " "))
  {
    assert OccursAt(a + x + b, x, |a|) by {
      assert (a + x + b)[|a|..|a| + |x|] == x;
    }
    ReplaceAllFirst(a, x, b, " ");
  }

  /** The caption after the steps for `xs`, taken in order. */
  function StripTokens(caption: string, xs: seq<string>): string
    requires forall k :: 0 <= k < |xs| ==> xs[k] != []
  {
    if xs == [] then caption
    else StripToken(StripTokens(caption, xs[..|xs| - 1]), xs[|xs| - 1])
  }

  /** The words of an author holding a space, after the first; nothing for other authors. */
  function LaterNames(author: string): (xs: seq<string>)
    ensures forall k :: 0 <= k < |xs| ==> xs[k] != [] && NoSpace(xs[k])
  {
    if Contains(author, " ") then Drop(Tokens(author), 1) else []
  }

  lemma SpaceIsBlank()
    ensures AllSpace(" ") && " " != []
  {
    assert IsSpace(" "[0]);
  }

  /** After the steps for `xs`, none of the words in `xs` occurs in the caption. */
  lemma {:induction false} StripTokensRemoves(caption: string, xs: seq<string>)
    requires forall k :: 0 <= k < |xs| ==> xs[k] != [] && NoSpace(xs[k])
    ensures forall k :: 0 <= k < |xs| ==> !Contains(StripTokens(caption, xs), xs[k])
  {
    if xs != [] {
      var n := |xs| - 1;
      var before := StripTokens(caption, xs[..n]);
      StripTokensRemoves(caption, xs[..n]);
      forall k | 0 <= k < |xs| ensures !Contains(StripToken(before, xs[n]), xs[k]) {
        if k < n {
          assert xs[..n][k] == xs[k];
        }
        StripTokenKeepsOut(before, xs[n], xs[k]);
      }
    }
  }

  /** One step removes its own word and brings back no missing word. */
  lemma StripTokenKeepsOut(before: string, x: string, y: string)
    requires x != [] && NoSpace(x) && y != [] && NoSpace(y)
    requires y == x || !Contains(before, y)
    ensures !Contains(StripToken(before, x), y)
  {
    if Contains(before, x) {
      var t := ReplaceAll(before, x, " ");
      SpaceIsBlank();
      if y == x {
        ReplaceAllRemoves(before, x, " ");
      } else {
        ReplaceAllKeepsAbsent(before, x, " ", y);
      }
      if Contains(Strip(t), y) {
        ContainsStrip(t, y);
      }
    }
  }

  /** A caption holding none of the words is left as it is. */
  lemma {:induction false} StripTokensAbsent(caption: string, xs: seq<string>)
    requires forall k :: 0 <= k < |xs| ==> xs[k] != [] && !Contains(caption, xs[k])
    ensures StripTokens(caption, xs) == caption
  {
    if xs != [] {
      var n := |xs| - 1;
      forall k | 0 <= k < n ensures xs[..n][k] != [] && !Contains(caption, xs[..n][k]) {
        assert xs[..n][k] == xs[k];
      }
      StripTokensAbsent(caption, xs[..n]);
    }
  }

  /** The pass on one row. */
  function CleanRow(row: Row): (r: Row)
    ensures r == row.(caption := r.caption)
    ensures !Contains(row.author, " ") ==> r == row
  {
    row.(caption := StripTokens(row.caption, LaterNames(row.author)))
  }

  /** After the pass, none of the author's later words occurs in the row's caption, and the
      other columns are as they were. */
  lemma CleanRowRemoves(row: Row)
    ensures var r := CleanRow(row);
            r.chamber == row.chamber && r.day == row.day && r.committee == row.committee
            && r.number == row.number && r.author == row.author
            && r.stance == row.stance && r.action == row.action
            && forall k :: 0 <= k < |LaterNames(row.author)| ==>
                 !Contains(r.caption, LaterNames(row.author)[k])
  {
    StripTokensRemoves(row.caption, LaterNames(row.author));
  }

  /** A caption that holds none of the author's later words comes through the pass as is. */
  lemma CleanRowKeeps(row: Row)
    requires forall k :: 0 <= k < |LaterNames(row.author)| ==>
               !Contains(row.caption, LaterNames(row.author)[k])
    ensures CleanRow(row) == row
  {
    StripTokensAbsent(row.caption, LaterNames(row.author));
  }

  /** For an author of two words, the caption keeps what comes before the first occurrence
      of the second word, has a space in its place and every later occurrence replaced,
      and is stripped. */
  lemma CleanRowSecondName(row: Row, a: string, x: string, b: string)
    requires x != [] && LaterNames(row.author) == [x] && row.caption == a + x + b
    requires !Contains(a + x[..|x| - 1], x)
    ensures CleanRow(row).caption == Strip(a + " " + ReplaceAll(b, x, " "))
  {
    var xs := LaterNames(row.author);
    assert xs[..|xs| - 1] == [];
    assert StripTokens(row.caption, xs) == StripToken(row.caption, x);
    StripTokenFirst(a, x, b);
  }

  /** The inner loop of the pass: strike the author's later words out of one caption. */
  method StripNames(author: string, caption: string) returns (c: string)
    ensures c == StripTokens(caption, LaterNames(author))
  {
    c := caption;
    if Contains(author, " ") {
      var name := Drop(Tokens(author), 1);
      for j := 0 to |name|
        invariant c == StripTokens(caption, name[..j])
      {
        var x := name[j];
        assert name[..j + 1][..j] == name[..j];
        if Contains(c, x) {
          c := Strip(ReplaceAll(c, x, " "));
        }
      }
      assert name[..|name|] == name;
    }
  }

  /** The pass over the whole table, rewriting each caption in place. */
  method CleanCaptions(rows: array<Row>)
    modifies rows
    ensures forall i :: 0 <= i < rows.Length ==> rows[i] == CleanRow(old(rows[i]))
  {
    for i := 0 to rows.Length
      invariant forall k :: 0 <= k < i ==> rows[k] == CleanRow(old(rows[k]))
      invariant forall k :: i <= k < rows.Length ==> rows[k] == old(rows[k])
    {
      var c := StripNames(rows[i].author, rows[i].caption);
      rows[i] := rows[i].(caption := c);
    }
  }

  /** The saved table, when the scrape gets through. */
  function FinalTable(scraped: Result<seq<Record>, ScrapeError>): (r: Result<seq<Row>, ScrapeError>)
    ensures r.Ok? <==> scraped.Ok?
    ensures r.Ok? ==> |r.value| == |scraped.value|
                      && forall i :: 0 <= i < |r.value| ==> r.value[i] == CleanRow(ToRow(scraped.value[i]))
  {
    match scraped
    case Err(e) => Err(e)
    case Ok(rs) => Ok(seq(|rs|, i requires 0 <= i < |rs| => CleanRow(ToRow(rs[i]))))
  }

  /** The whole script: the scrape, the two added columns, the pass over the captions.
      The script itself reads its pages with `Site`. */
  method Run(rd: Reader, listing: string -> seq<string>, fetch: string -> Page)
    returns (r: Result<seq<Row>, ScrapeError>)
    ensures r == FinalTable(ScrapeAll(rd, listing, fetch))
  {
    var scraped := Scrape(rd, listing, fetch);
    if scraped.Err? {
      return Err(scraped.error);
    }
    var rs := scraped.value;
    var rows := new Row[|rs|](i requires 0 <= i < |rs| => ToRow(rs[i]));
    assert forall i :: 0 <= i < |rs| ==> rows[i] == ToRow(rs[i]);
    CleanCaptions(rows);
    assert rows[..] == FinalTable(scraped).value;
    return Ok(rows[..]);
  }
}
