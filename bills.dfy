/** What the scraper reads out of one table cell of a meeting page: the cell's text
    lines, the author and caption it guesses from them, and the bill number of the
    cell's first link (scraper.py, lines 45 to 70). */
module Bills {
  import opened Wrappers
  import opened Seqs
  import opened Text

  const UnknownAuthor := "Unknown"
  const RelatingTo := "Relating to"
  const DoubledRelatingTo := "Relating to Relating to"
  const BillMarker := "Bill="
  const NoBreakSpace := "\U{00A0}"

  /** Why the whole scrape stops: a first link without `href` (a `KeyError`), or an
      author with no word in it to take the first of (an `IndexError`). */
  datatype ScrapeError = MissingHref | AuthorWithoutName

  /** The first `<a>` of a cell: its `href` attribute, if it has one, and its text. */
  datatype Anchor = Anchor(href: Option<string>, text: string)

  /** A `<td>`: its first link, if any, and `td.get_text("\n")`. */
  datatype Cell = Cell(firstAnchor: Option<Anchor>, text: string)

  /** What one bill cell contributes to a record. */
  datatype Bill = Bill(number: string, author: string, caption: string)

  predicate NonEmpty(s: string)
  {
    s != []
  }

  // ---------------------------------------------------------------- lines (49-50)

  /** `list(filter(None, full_text.strip().split("\n")))` */
  function TextParts(text: string): (parts: seq<string>)
    ensures forall i :: 0 <= i < |parts| ==> parts[i] != []
  {
    Filter(SplitOn(Strip(text), '\n'), NonEmpty)
  }

  /** The parts are the non-empty lines: none holds a line break. */
  lemma TextPartsAreLines(text: string)
    ensures forall i :: 0 <= i < |TextParts(text)| ==> '\n' !in TextParts(text)[i]
  {
    var pieces := SplitOn(Strip(text), '\n');
    forall i | 0 <= i < |TextParts(text)|
      ensures '\n' !in TextParts(text)[i]
    {
      FilterMembership(pieces, NonEmpty, TextParts(text)[i]);
    }
  }

  /** Lines that are non-empty, free of line breaks and trimmed as a block are read back
      exactly: the lines are the inverse of joining with line breaks. */
  lemma TextPartsOfLines(lines: seq<string>)
    requires |lines| >= 1
    requires forall i :: 0 <= i < |lines| ==> lines[i] != [] && '\n' !in lines[i]
    requires Trimmed(Join(lines, "\n"))
    ensures TextParts(Join(lines, "\n")) == lines
  {
    StripTrimmed(Join(lines, "\n"));
    SplitOnJoin(lines, '\n');
    FilterAllPass(lines, NonEmpty);
  }

  // ---------------------------------------------------------------- author (52-55)

  /** The second line, followed by the third unless that one starts the caption with
      "Relating to"; whitespace-normalised. "Unknown" when there is no second line. */
  function Author(parts: seq<string>): (author: string)
    ensures IsNormal(author)
    ensures |parts| < 2 ==> author == UnknownAuthor
  {
    var base := if |parts| > 1 then Strip(parts[1]) else UnknownAuthor;
    var full := if |parts| > 2 && !StartsWith(parts[2], RelatingTo) then base + " " + Strip(parts[2]) else base;
    if |parts| < 2 then NormalizeFixed(UnknownAuthor); Normalize(full) else Normalize(full)
  }

  /** The third line joins the author exactly when it does not start with "Relating to". */
  predicate TakesSecondLine(parts: seq<string>)
  {
    |parts| > 2 && !StartsWith(parts[2], RelatingTo)
  }

  /** The author keeps the words of line 2, followed by those of line 3 when that line
      joins it, and nothing else: they are joined by single spaces. */
  lemma AuthorWords(parts: seq<string>)
    requires |parts| >= 2
    ensures Author(parts) == Join(Tokens(parts[1]) + (if TakesSecondLine(parts) then Tokens(parts[2]) else []), " ")
  {
    var full, words := AuthorLine(parts);
    NormalizeIsJoin(full);
  }

  /** The line the author is normalised from, and its words. */
  lemma AuthorLine(parts: seq<string>) returns (full: string, words: seq<string>)
    requires |parts| >= 2
    ensures Author(parts) == Normalize(full) && Tokens(full) == words
    ensures words == Tokens(parts[1]) + (if TakesSecondLine(parts) then Tokens(parts[2]) else [])
  {
    var base := Strip(parts[1]);
    if TakesSecondLine(parts) {
      full := base + " " + Strip(parts[2]);
      LinesWords(parts[1], parts[2]);
      words := Tokens(parts[1]) + Tokens(parts[2]);
    } else {
      full := base;
      TokensStrip(parts[1]);
      words := Tokens(parts[1]);
      assert words + [] == words;
    }
  }

  /** Two stripped lines joined by a space hold the words of both, in order. */
  lemma LinesWords(a: string, b: string)
    ensures Tokens(Strip(a) + " " + Strip(b)) == Tokens(a) + Tokens(b)
  {
    var sa := StrippedWords(a);
    var sb := StrippedWords(b);
    var sep := SingleSpace();
    TokensAround(sa, sep, sb);
  }

  lemma StrippedWords(a: string) returns (sa: string)
    ensures sa == Strip(a) && Tokens(sa) == Tokens(a)
  {
    sa := Strip(a);
    TokensStrip(a);
  }

  lemma SingleSpace() returns (sep: string)
    ensures sep == " " && AllSpace(sep) && sep != []
  {
    sep := " ";
    assert IsSpace(sep[0]);
  }

  /** The author is empty exactly when the lines it is made of are blank. */
  lemma AuthorEmptyIff(parts: seq<string>)
    requires |parts| >= 2
    ensures Author(parts) == [] <==>
            AllSpace(parts[1]) && (TakesSecondLine(parts) ==> AllSpace(parts[2]))
  {
    var base := Strip(parts[1]);
    StripAllSpace(parts[1]);
    if TakesSecondLine(parts) {
      var third := Strip(parts[2]);
      StripAllSpace(parts[2]);
      BlankAround(base, third);
      assert Author(parts) == Normalize(base + " " + third);
    } else {
      assert Author(parts) == Normalize(base);
    }
  }

  lemma StripAllSpace(s: string)
    ensures AllSpace(Strip(s)) <==> AllSpace(s)
  {
    StripEmptyIffAllSpace(s);
    if Strip(s) != [] {
      assert !IsSpace(Strip(s)[0]);
    }
  }

  /** Two texts joined by a space are blank exactly when both are. */
  lemma BlankAround(a: string, b: string)
    ensures AllSpace(a + " " + b) <==> AllSpace(a) && AllSpace(b)
  {
    AllSpaceConcat(a + " ", b);
    AllSpaceConcat(a, " ");
    assert AllSpace(" ") by { assert IsSpace(" "[0]); }
  }

  lemma AllSpaceConcat(a: string, b: string)
    ensures AllSpace(a + b) <==> AllSpace(a) && AllSpace(b)
  {
    if AllSpace(a + b) {
      assert forall i :: 0 <= i < |a| ==> a[i] == (a + b)[i];
      assert forall i :: 0 <= i < |b| ==> b[i] == (a + b)[|a| + i];
    }
  }

  /** A normalised text is blank only when it is empty. */
  lemma NormalBlankIsEmpty(s: string)
    requires IsNormal(s)
    ensures AllSpace(s) <==> s == []
  {
  }

  // ---------------------------------------------------------------- caption (57-69)

  /** `re.sub(rf"^\s*{re.escape(x)}\s*", "", c).strip()`: when `c` starts with `x` after
      its leading whitespace, that one occurrence and the whitespace after it go. The
      pattern is anchored, so at most one occurrence is removed; `x` never starts with
      whitespace where the scraper uses it. */
  function StripLeading(c: string, x: string): (r: string)
    requires x == [] || !IsSpace(x[0])
    ensures Trimmed(r) && |r| <= |c|
  {
    var t := TrimLeft(c);
    if StartsWith(t, x) then Strip(TrimLeft(t[|x|..])) else Strip(c)
  }

  /** Exactly one leading `x` goes, with the whitespace after it. */
  lemma StripLeadingOnce(x: string, sep: string, rest: string)
    requires x != [] && !IsSpace(x[0]) && AllSpace(sep) && Trimmed(rest)
    ensures StripLeading(x + sep + rest, x) == rest
  {
    var c := x + sep + rest;
    assert TrimLeft(c) == c;
    assert c[..|x|] == x;
    assert c[|x|..] == sep + rest;
    TrimLeftSpaces(sep, rest);
    if rest != [] {
      assert TrimLeft(rest) == rest;
    }
    StripTrimmed(rest);
  }

  /** Text that does not start with `x` is only stripped. */
  lemma StripLeadingAbsent(c: string, x: string)
    requires x == [] || !IsSpace(x[0])
    requires !StartsWith(TrimLeft(c), x)
    ensures StripLeading(c, x) == Strip(c)
  {
  }

  lemma {:induction false} TrimLeftSpaces(sep: string, rest: string)
    requires AllSpace(sep)
    ensures TrimLeft(sep + rest) == TrimLeft(rest)
    decreases |sep|
  {
    if sep != [] {
      assert (sep + rest)[1..] == sep[1..] + rest;
      TrimLeftSpaces(sep[1..], rest);
    } else {
      assert sep + rest == rest;
    }
  }

  /** Lines 57 and 58: the lines after the author (after the first line alone when the
      author came out "Unknown"), joined by spaces and stripped. */
  function CaptionLines(parts: seq<string>, author: string): (c: string)
    ensures Trimmed(c)
    ensures |parts| <= (if author != UnknownAuthor then 2 else 1) ==> c == []
  {
    var start := if author != UnknownAuthor then 2 else 1;
    Strip(Join(Drop(parts, start), " "))
  }

  /** Lines 66 and 67: whitespace runs become one space, then the no-break spaces (none
      are left) become spaces, and the ends are stripped. */
  function TidySpaces(c: string): (r: string)
    ensures IsNormal(r)
  {
    var collapsed := CollapseSpaces(c);
    NoBreakSpaceAbsent(collapsed);
    CollapsedStrip(collapsed);
    Strip(ReplaceAll(collapsed, NoBreakSpace, " "))
  }

  /** Lines 66 to 69: after `TidySpaces`, each doubled "Relating to", found left to
      right, is made single. */
  function Tidy(c: string): (r: string)
    ensures IsNormal(r)
  {
    var spaced := TidySpaces(c);
    RelatingToPlain();
    ReplaceAllKeepsCollapsed(spaced, DoubledRelatingTo, RelatingTo);
    CollapsedStrip(ReplaceAll(spaced, DoubledRelatingTo, RelatingTo));
    Strip(ReplaceAll(spaced, DoubledRelatingTo, RelatingTo))
  }

  lemma RelatingToPlain()
    ensures IsNormal(RelatingTo) && !IsSpace(RelatingTo[0]) && !IsSpace(RelatingTo[|RelatingTo| - 1])
  {
    assert forall i :: 0 <= i < |RelatingTo| && i != 8 ==> !IsSpace(RelatingTo[i]);
  }

  /** Lines 57 to 69: the caption lines less one leading comma-free author and then one
      leading first word of the author, tidied. An author with no word stops the scrape. */
  function Caption(parts: seq<string>, author: string): (r: Result<string, ScrapeError>)
    ensures r.Err? <==> Tokens(author) == []
    ensures r.Err? ==> r.error == AuthorWithoutName
    ensures r.Ok? ==> IsNormal(r.value)
  {
    var bare := Strip(ReplaceAll(author, ",", ""));
    LeadsWithNonSpace(bare);
    var c1 := StripLeading(CaptionLines(parts, author), bare);
    var words := Tokens(author);
    if words == [] then Err(AuthorWithoutName)
    else
      FirstWordLeads(words);
      Ok(Tidy(StripLeading(c1, words[0])))
  }

  lemma LeadsWithNonSpace(x: string)
    requires Trimmed(x)
    ensures x == [] || !IsSpace(x[0])
  {
  }

  lemma FirstWordLeads(words: seq<string>)
    requires words != [] && forall i :: 0 <= i < |words| ==> words[i] != [] && NoSpace(words[i])
    ensures !IsSpace(words[0][0])
  {
  }

  /** Line 67 changes nothing: after `\s+` has become " ", no no-break space is left. */
  lemma NoBreakSpaceAbsent(s: string)
    requires Collapsed(s)
    ensures ReplaceAll(s, NoBreakSpace, " ") == s
  {
    forall i | 0 <= i <= |s|
      ensures !OccursAt(s, NoBreakSpace, i)
    {
      if i < |s| {
        assert IsSpace(NoBreakSpace[0]) && NoBreakSpace[0] != ' ';
        assert s[i..i + 1][0] == s[i];
      }
    }
    ReplaceAllAbsent(s, NoBreakSpace, " ");
  }

  /** Text already tidy is left as it is. */
  lemma TidyFixed(c: string)
    requires IsNormal(c) && !Contains(c, DoubledRelatingTo)
    ensures Tidy(c) == c
  {
    TidySpacesFixed(c);
    ReplaceAllAbsent(c, DoubledRelatingTo, RelatingTo);
    StripTrimmed(c);
  }

  /** Lines 66 and 67 together are `Normalize`: the no-break space step changes nothing. */
  lemma TidySpacesIsNormalize(c: string)
    ensures TidySpaces(c) == Normalize(c)
  {
    NoBreakSpaceAbsent(CollapseSpaces(c));
  }

  /** Line 68 on a tidied caption: the first doubled "Relating to" is made single, the text
      around it is kept, and a rest without another doubled phrase is left alone. */
  lemma TidyDoubled(a: string, rest: string)
    requires IsNormal(a + DoubledRelatingTo + rest) && !Contains(rest, DoubledRelatingTo)
    requires !Contains(a + DoubledRelatingTo[..|DoubledRelatingTo| - 1], DoubledRelatingTo)
    ensures Tidy(a + DoubledRelatingTo + rest) == a + RelatingTo + rest
  {
    var c := a + DoubledRelatingTo + rest;
    TidySpacesFixed(c);
    ReplaceAllFirst(a, DoubledRelatingTo, rest, RelatingTo);
    ReplaceAllAbsent(rest, DoubledRelatingTo, RelatingTo);
    var r := a + RelatingTo + rest;
    assert Trimmed(r) by {
      RelatingToPlain();
      if a != [] {
        assert r[0] == c[0];
      }
      if rest != [] {
        assert r[|r| - 1] == c[|c| - 1];
      }
    }
    StripTrimmed(r);
  }

  lemma TidySpacesFixed(c: string)
    requires IsNormal(c)
    ensures TidySpaces(c) == c
  {
    CollapseFromFixed(c, false);
    NoBreakSpaceAbsent(c);
    StripTrimmed(c);
  }

  /** The doubled-phrase fix runs once, left to right: a tripled phrase comes out doubled. */
  lemma RelatingToTripled()
    ensures ReplaceAll("Relating to Relating to Relating to", DoubledRelatingTo, RelatingTo)
            == DoubledRelatingTo
  {
    var s := "Relating to Relating to Relating to";
    assert s[..23] == DoubledRelatingTo;
    var t := s[23..];
    assert t == " Relating to";
    assert |t| < |DoubledRelatingTo|;
  }

  // ---------------------------------------------------------------- one cell (45-70)

  /** A cell is a bill cell when its first link's `href` holds "Bill=". */
  predicate IsBillCell(cell: Cell)
  {
    cell.firstAnchor.Some? && cell.firstAnchor.value.href.Some?
    && Contains(cell.firstAnchor.value.href.value, BillMarker)
  }

  /** The bill a cell holds, nothing for a cell that holds none, or why the scrape stops. */
  function CellBill(cell: Cell): (r: Result<Option<Bill>, ScrapeError>)
    ensures r.Ok? ==> (r.value.Some? <==> IsBillCell(cell))
    ensures r.Err? && r.error == MissingHref <==>
            cell.firstAnchor.Some? && cell.firstAnchor.value.href.None?
    ensures r.Ok? && r.value.Some? ==>
            r.value.value.number == Strip(cell.firstAnchor.value.text)
            && IsNormal(r.value.value.author) && IsNormal(r.value.value.caption)
  {
    match cell.firstAnchor
    case None => Ok(None)
    case Some(a) =>
      match a.href
      case None => Err(MissingHref)
      case Some(h) =>
        if !Contains(h, BillMarker) then Ok(None)
        else
          var parts := TextParts(cell.text);
          var author := Author(parts);
          match Caption(parts, author)
          case Err(e) => Err(e)
          case Ok(caption) => Ok(Some(Bill(Strip(a.text), author, caption)))
  }

  /** A bill cell makes the scrape stop exactly when its author is blank. */
  lemma CellBillFails(cell: Cell)
    requires IsBillCell(cell)
    ensures CellBill(cell).Err? <==> Author(TextParts(cell.text)) == []
  {
    var author := Author(TextParts(cell.text));
    NormalBlankIsEmpty(author);
  }

  /** The example of a cell "SB12 / Smith / Relating to / education funding": the
      author is "Smith" and the caption keeps its "Relating to". */
  lemma SmithExample()
    ensures Author(["SB12", "Smith", "Relating to", "education funding"]) == "Smith"
    ensures Caption(["SB12", "Smith", "Relating to", "education funding"], "Smith")
            == Ok("Relating to education funding")
  {
    var parts := ["SB12", "Smith", "Relating to", "education funding"];
    SmithAuthor(parts);
    SmithCaption(parts);
  }

  /** A normal second line followed by a "Relating to" line is the author as it is. */
  lemma AuthorIsSecondLine(parts: seq<string>)
    requires |parts| > 2 && StartsWith(parts[2], RelatingTo) && IsNormal(parts[1])
    ensures Author(parts) == parts[1]
  {
    StripTrimmed(parts[1]);
    NormalizeFixed(parts[1]);
  }

  lemma SmithAuthor(parts: seq<string>)
    requires parts == ["SB12", "Smith", "Relating to", "education funding"]
    ensures Author(parts) == "Smith"
  {
    var name := "Smith";
    assert forall i :: 0 <= i < |name| ==> !IsSpace(name[i]);
    assert parts[2][..|RelatingTo|] == RelatingTo;
    AuthorIsSecondLine(parts);
  }

  lemma SmithCaption(parts: seq<string>)
    requires parts == ["SB12", "Smith", "Relating to", "education funding"]
    ensures Caption(parts, "Smith") == Ok("Relating to education funding")
  {
    var c := "Relating to education funding";
    SmithLines(parts);
    SmithCleaned();
    SmithTokens();
    SmithCaptionNormal();
    NotDoubled(c);
    assert TrimLeft(c) == c;
    CaptionUnchanged(parts, "Smith", c);
  }

  /** A caption that starts with neither form of the author and is already tidy comes
      through unchanged. */
  lemma CaptionUnchanged(parts: seq<string>, author: string, c: string)
    requires CaptionLines(parts, author) == c && Tokens(author) != []
    requires !StartsWith(TrimLeft(c), Strip(ReplaceAll(author, ",", "")))
    requires !StartsWith(TrimLeft(c), Tokens(author)[0])
    requires IsNormal(c) && !Contains(c, DoubledRelatingTo)
    ensures Caption(parts, author) == Ok(c)
  {
    var cleaned := Strip(ReplaceAll(author, ",", ""));
    StripLeadingAbsent(c, cleaned);
    StripTrimmed(c);
    StripLeadingAbsent(c, Tokens(author)[0]);
    TidyFixed(c);
  }

  /** A cell of one line, the bill number alone, has the placeholder author and an empty
      caption. */
  lemma OneLineCell(parts: seq<string>)
    requires |parts| <= 1
    ensures Author(parts) == UnknownAuthor && Caption(parts, Author(parts)) == Ok("")
  {
    assert !IsSpace(UnknownAuthor[0]);
    var words := Tokens(UnknownAuthor);
    assert words != [];
    var bare := Strip(ReplaceAll(UnknownAuthor, ",", ""));
    LeadsWithNonSpace(bare);
    assert StripLeading([], bare) == [];
    FirstWordLeads(words);
    assert StripLeading([], words[0]) == [];
    TidyFixed([]);
  }

  lemma SmithLines(parts: seq<string>)
    requires parts == ["SB12", "Smith", "Relating to", "education funding"]
    ensures CaptionLines(parts, "Smith") == "Relating to education funding"
  {
    SmithJoined(parts);
    SmithCaptionNormal();
    CaptionLinesTrimmed(parts, "Smith", "Relating to education funding");
  }

  lemma SmithJoined(parts: seq<string>)
    requires parts == ["SB12", "Smith", "Relating to", "education funding"]
    ensures Join(Drop(parts, 2), " ") == "Relating to education funding"
  {
    JoinLastTwo(parts, " ");
  }

  lemma JoinLastTwo(parts: seq<string>, sep: string)
    requires |parts| == 4
    ensures Join(Drop(parts, 2), sep) == parts[2] + sep + parts[3]
  {
    var d := Drop(parts, 2);
    assert d[1..] == [parts[3]];
  }

  /** Lines that join into trimmed text give that text as they are. */
  lemma CaptionLinesTrimmed(parts: seq<string>, author: string, j: string)
    requires author != UnknownAuthor && Join(Drop(parts, 2), " ") == j && Trimmed(j)
    ensures CaptionLines(parts, author) == j
  {
    StripTrimmed(j);
  }

  lemma SmithCaptionNormal()
    ensures IsNormal("Relating to education funding")
  {
    var c := "Relating to education funding";
    assert forall i :: 0 <= i < |c| && i != 8 && i != 11 && i != 21 ==> !IsSpace(c[i]);
  }

  lemma SmithCleaned()
    ensures Strip(ReplaceAll("Smith", ",", "")) == "Smith"
  {
    assert !Contains("Smith", ",") by {
      forall i | 0 <= i <= 5
        ensures !OccursAt("Smith", ",", i)
      {
        if i < 5 {
          assert "Smith"[i..i + 1][0] == "Smith"[i];
        }
      }
    }
    ReplaceAllAbsent("Smith", ",", "");
    StripTrimmed("Smith");
  }

  lemma SmithTokens()
    ensures Tokens("Smith") == ["Smith"]
  {
    var s := "Smith";
    assert WordLength(s) == 5;
    assert s[..5] == s && s[5..] == [];
  }

  lemma NotDoubled(c: string)
    requires c == "Relating to education funding"
    ensures !Contains(c, DoubledRelatingTo)
  {
    forall i | 0 <= i <= |c|
      ensures !OccursAt(c, DoubledRelatingTo, i)
    {
      if i + |DoubledRelatingTo| <= |c| {
        assert c[i..i + |DoubledRelatingTo|][12] == c[i + 12];
        assert c[i + 12] != DoubledRelatingTo[12];
      }
    }
  }
}
