/** How the two programs meet: the table `scraper.py` saves is the table `app.py` loads. */
module Pipeline {
  import opened Wrappers
  import opened Calendar
  import DateText
  import Scraper
  import Dashboard

  /** The header the scraper writes: the six scraped columns, then "Stance" and "Action". */
  const SavedColumns: seq<string> :=
    ["Chamber", "Day", "Committee Name", "Bill Number", "Bill Author", "Caption", "Stance", "Action"]

  function SavedRow(r: Scraper.Row): (m: Dashboard.Row)
    ensures "Chamber" in m && m["Chamber"] == r.chamber
    ensures "Day" in m && m["Day"] == r.day
    ensures "Committee Name" in m && m["Committee Name"] == r.committee
  {
    map["Chamber" := r.chamber, "Day" := r.day, "Committee Name" := r.committee,
        "Bill Number" := r.number, "Bill Author" := r.author, "Caption" := r.caption,
        "Stance" := r.stance, "Action" := r.action]
  }

  function SavedTable(rows: seq<Scraper.Row>): (t: Dashboard.Table)
    ensures t.columns == SavedColumns && |t.rows| == |rows|
    ensures forall i :: 0 <= i < |rows| ==> t.rows[i] == SavedRow(rows[i])
  {
    Dashboard.Table(SavedColumns, seq(|rows|, i requires 0 <= i < |rows| => SavedRow(rows[i])))
  }

  /** The dashboard takes the saved table as it is: its header has every required column. */
  lemma SavedTableLoads(rows: seq<Scraper.Row>)
    ensures Dashboard.LoadData(Some(SavedTable(rows))) == SavedTable(rows)
  {
    var t := SavedTable(rows);
    forall c | c in Dashboard.RequiredColumns ensures c in t.columns {
      var k :| 0 <= k < |Dashboard.RequiredColumns| && Dashboard.RequiredColumns[k] == c;
      assert t.columns[k] == c;
    }
  }

  /** After a scrape of the site that gets through, the chamber dropdown offers only "House"
      and "Senate", and the day dropdown only weekday names and "Unknown". */
  lemma ScriptOptions(listing: string -> seq<string>, fetch: string -> Scraper.Page,
                      o: Dashboard.DropdownOption, p: Dashboard.DropdownOption)
    requires Scraper.ScrapeAll(Scraper.Site, listing, fetch).Ok?
    ensures var t := SavedTable(Scraper.FinalTable(Scraper.ScrapeAll(Scraper.Site, listing, fetch)).value);
            (o in Dashboard.Options(t, "Chamber") ==> o.value == "House" || o.value == "Senate")
            && (p in Dashboard.Options(t, "Day") ==> p.value == DateText.Unknown || p.value in WeekdayNames)
  {
    var rs := Scraper.ScrapeAll(Scraper.Site, listing, fetch).value;
    var rows := Scraper.FinalTable(Scraper.ScrapeAll(Scraper.Site, listing, fetch)).value;
    var t := SavedTable(rows);
    if !Dashboard.Empty(t) {
      if o in Dashboard.Options(t, "Chamber") {
        var i := OptionRow(t, "Chamber", o);
        assert rows[i].chamber == rs[i].chamber;
        Scraper.SiteRecordsClean(listing, fetch, i);
      }
      if p in Dashboard.Options(t, "Day") {
        var i := OptionRow(t, "Day", p);
        assert rows[i].day == rs[i].day;
        Scraper.SiteRecordsClean(listing, fetch, i);
      }
    }
  }

  /** Each option of a non-empty table comes from some row's cell of the column. */
  lemma OptionRow(t: Dashboard.Table, col: string, o: Dashboard.DropdownOption) returns (i: nat)
    requires !Dashboard.Empty(t) && o in Dashboard.Options(t, col)
    ensures i < |t.rows| && col in t.rows[i] && t.rows[i][col] == o.value
  {
    var opts := Dashboard.Options(t, col);
    var k :| 0 <= k < |opts| && opts[k] == o;
    Dashboard.OptionsDistinct(t, col, o.value);
    i :| 0 <= i < |t.rows| && col in t.rows[i] && t.rows[i][col] == o.value;
  }
}
