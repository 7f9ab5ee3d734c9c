/** The current CV generator (generate_cv.py): the filters and field rules
    that turn the text BeautifulSoup extracts from the homepage into the
    CV's records, and the renderer of the CV page. The parsed page is an
    input; the model starts from the text, lines and list items. */
module Cv {
  import opened Wrappers
  import opened Text
  import opened Patterns
  import ArchiveCv

  // ---------------------------------------------------------------------
  // What BeautifulSoup hands over, and what comes out
  // ---------------------------------------------------------------------

  /** One `<li>` of the publications list: its inner HTML and its text
      (`get_text(" ", strip=True)`). */
  datatype PubItem = PubItem(content: string, text: string)

  /** One `h2`/`h3` header in document order: its text and the texts of
      the items of the next `<ul>`, if there is one. */
  datatype Header = Header(text: string, nextList: Option<seq<string>>)

  /** The parsed homepage: the text of the paragraphs holding "Education:"
      and "Appointments:" (`get_text("\n")`), the publications list and
      the headers. */
  datatype Soup = Soup(educationText: Option<string>, appointmentsText: Option<string>,
                       publicationsList: Option<seq<PubItem>>, headers: seq<Header>)

  datatype Contact = Contact(email: string, phone: string, office: string, location: string, website: string)
  datatype CvPublication = CvPublication(year: string, content: string, text: string)
  datatype CvAward = CvAward(year: string, text: string)
  datatype Info = Info(name: string, title: string, contact: Contact,
                       education: seq<string>, appointments: seq<string>,
                       publications: seq<CvPublication>, awards: seq<CvAward>)

  const DefaultName := "Yalin Yang"
  const DefaultTitle := "Research Associate & GIS Programmer"
  const DefaultContact := Contact("yy00021@mail.wvu.edu", "+1-607-374-9844", "330 Brooks Hall",
                                  "Morgantown, WV 26506", "https://gisyaliny.github.io/")

  // ---------------------------------------------------------------------
  // Line filters
  // ---------------------------------------------------------------------

  /** `\d{4}.*\d{4}` matching with its digit runs at `i` and `j`. */
  predicate YearRangeAt(s: string, i: int, j: int)
  {
    0 <= i && i + 4 <= j && j + 4 <= |s|
    && DigitsIn(s, i, i + 4) && DigitsIn(s, j, j + 4) && Avoids(s, i + 4, j, '\n')
  }

  /** `\d{4}.*Present` matching with its digit run at `i` and the word at `j`. */
  predicate YearToPresentAt(s: string, i: int, j: int)
  {
    0 <= i && i + 4 <= j && j + 7 <= |s|
    && DigitsIn(s, i, i + 4) && s[j..j + 7] == "Present" && Avoids(s, i + 4, j, '\n')
  }

  /** `re.search(r'\d{4}.*\d{4}', s)` succeeds. */
  predicate HasYearRange(s: string)
  {
    exists i, j | 0 <= i < |s| && 0 <= j < |s| :: YearRangeAt(s, i, j)
  }

  /** `re.search(r'\d{4}.*Present', s)` succeeds. */
  predicate HasYearToPresent(s: string)
  {
    exists i, j | 0 <= i < |s| && 0 <= j < |s| :: YearToPresentAt(s, i, j)
  }

  /** The test a line passes to be kept, after stripping: a year range, or
      for appointments also a year followed by "Present". */
  predicate Accepts(line: string, present: bool)
  {
    var t := Strip(line);
    HasYearRange(t) || (present && HasYearToPresent(t))
  }

  /** A kept line with the bullet glyph and its entity removed, stripped
      again. */
  function Clean(line: string): (e: string)
    ensures '•' !in e && Strip(e) == e
  {
    var t := ReplaceAll(line, "•", "");
    DeleteChar(line, '•');
    ReplaceKeepsAbsent(t, "&bull;", "", '•');
    var u := ReplaceAll(t, "&bull;", "");
    StripInside(u);
    MissingFromPiece(u, Strip(u), '•');
    StripIdempotent(u);
    Strip(u)
  }

  /** The education test. */
  predicate EducationLine(line: string)
  {
    Accepts(line, false)
  }

  /** The appointments test. */
  predicate AppointmentLine(line: string)
  {
    Accepts(line, true)
  }

  /** The entry an accepted line gives. */
  function Entry(line: string): string
  {
    Clean(Strip(line))
  }

  /** The entries a section's lines give, in line order: one cleaned entry
      per accepted line and nothing for the others. */
  function Kept(lines: seq<string>, present: bool): seq<string>
  {
    FilterMap(lines, if present then AppointmentLine else EducationLine, Entry)
  }

  /** No more entries than lines; each entry is the cleaned form of an
      accepted line, free of the bullet glyph and stripped; and each
      accepted line gives its entry. */
  lemma KeptEntries(lines: seq<string>, present: bool)
    ensures |Kept(lines, present)| <= |lines|
    ensures forall e | e in Kept(lines, present) ::
      && '•' !in e && Strip(e) == e
      && exists k | 0 <= k < |lines| :: Accepts(lines[k], present) && e == Entry(lines[k])
    ensures forall k | 0 <= k < |lines| && Accepts(lines[k], present) :: Entry(lines[k]) in Kept(lines, present)
  {
    var keep := if present then AppointmentLine else EducationLine;
    FilterMapSound(lines, keep, Entry);
    forall k | 0 <= k < |lines| && Accepts(lines[k], present)
      ensures Entry(lines[k]) in Kept(lines, present)
    {
      FilterMapComplete(lines, keep, Entry, k);
    }
  }

  /** One more line extends what is kept by at most its own entry. */
  lemma KeptStep(lines: seq<string>, present: bool, k: nat)
    requires k < |lines|
    ensures Kept(lines[..k + 1], present)
      == Kept(lines[..k], present) + (if Accepts(lines[k], present) then [Entry(lines[k])] else [])
  {
    assert lines[..k + 1][..k] == lines[..k];
  }

  /** The lines of a paragraph's text, none when the landmark is missing. */
  function LinesOf(text: Option<string>): seq<string>
  {
    match text
    case None => []
    case Some(t) => Split(t, '\n')
  }

  /** One section's loop: each stripped line that passes the test is kept,
      cleaned. */
  method FilterLines(text: Option<string>, present: bool) returns (entries: seq<string>)
    ensures entries == Kept(LinesOf(text), present)
  {
    entries := [];
    var lines := LinesOf(text);
    for k := 0 to |lines|
      invariant entries == Kept(lines[..k], present)
    {
      KeptStep(lines, present, k);
      var line := Strip(lines[k]);
      if HasYearRange(line) || (present && HasYearToPresent(line)) {
        entries := entries + [Clean(line)];
      }
    }
    assert lines[..|lines|] == lines;
  }

  // ---------------------------------------------------------------------
  // Publications and awards
  // ---------------------------------------------------------------------

  /** One publication: its text with whitespace runs collapsed, the first
      parenthesised year of that text or "Unknown", and its inner HTML. */
  function PublicationOf(item: PubItem): (p: CvPublication)
    ensures p.text == CollapseSpaces(item.text)
    ensures Collapsed(p.text) && NonSpace(p.text) == NonSpace(item.text)
    ensures p.content == item.content
    ensures p.year != "Unknown" ==> |p.year| == 4 && AllDigits(p.year) && Contains(p.text, "(" + p.year + ")")
    ensures p.year != "Unknown" ==> exists i | 0 <= i <= |p.text| - 6 ::
      && YearInParens(p.text, i) && p.year == p.text[i + 1..i + 5]
      && forall q | 0 <= q < i :: !YearInParens(p.text, q)
    ensures p.year == "Unknown" <==>
      forall i | 0 <= i <= |p.text| - 6 :: !(p.text[i] == '(' && DigitsIn(p.text, i + 1, i + 5) && p.text[i + 5] == ')')
  {
    var text := CollapseSpaces(item.text);
    CollapseKeepsText(item.text);
    CvPublication(ArchiveCv.PublicationYear(text), item.content, text)
  }

  /** `^(\d{4})`: the four digits a text starts with. */
  function LeadingYear(t: string): (y: Option<string>)
    ensures y.Some? <==> |t| >= 4 && DigitsIn(t, 0, 4)
    ensures y.Some? ==> AllDigits(y.value) && t == y.value + t[4..]
  {
    if |t| >= 4 && DigitsIn(t, 0, 4) then Some(t[..4]) else None
  }

  /** One award: its text with whitespace runs collapsed and the year it
      starts with, else "Unknown". */
  function AwardOf(text: string): (w: CvAward)
    ensures w.text == CollapseSpaces(text)
    ensures Collapsed(w.text) && NonSpace(w.text) == NonSpace(text)
    ensures w.year != "Unknown" <==> |w.text| >= 4 && DigitsIn(w.text, 0, 4)
    ensures w.year != "Unknown" ==> AllDigits(w.year) && w.text == w.year + w.text[4..]
  {
    var t := CollapseSpaces(text);
    CollapseKeepsText(text);
    CvAward(LeadingYear(t).GetOr("Unknown"), t)
  }

  /** The index of the first header whose text holds "Grants & Awards". */
  function FirstAwardsHeader(headers: seq<Header>): (r: Option<nat>)
    ensures r.Some? ==> r.value < |headers| && Contains(headers[r.value].text, "Grants & Awards")
    ensures forall k | 0 <= k < |headers| && (r.None? || k < r.value) :: !Contains(headers[k].text, "Grants & Awards")
  {
    if headers == [] then None
    else if Contains(headers[0].text, "Grants & Awards") then Some(0)
    else
      match FirstAwardsHeader(headers[1..])
      case None => None
      case Some(k) => Some(k + 1)
  }

  /** The award item texts: those of the list after the first awards
      header; none when there is no such header or it has no list. */
  function AwardTexts(headers: seq<Header>): seq<string>
  {
    match FirstAwardsHeader(headers)
    case None => []
    case Some(k) => headers[k].nextList.GetOr([])
  }

  /** The loop over the headers: at the first awards header, one award per
      item of its list, then stop. */
  method ExtractAwards(headers: seq<Header>) returns (awards: seq<CvAward>)
    ensures |awards| == |AwardTexts(headers)|
    ensures forall k | 0 <= k < |awards| :: awards[k] == AwardOf(AwardTexts(headers)[k])
  {
    awards := [];
    var n := 0;
    while n < |headers|
      invariant n <= |headers|
      invariant forall k | 0 <= k < n :: !Contains(headers[k].text, "Grants & Awards")
      decreases |headers| - n
    {
      if Contains(headers[n].text, "Grants & Awards") {
        assert FirstAwardsHeader(headers) == Some(n) by {
          FirstAwardsHeaderAt(headers, n);
        }
        if headers[n].nextList.Some? {
          var items := headers[n].nextList.value;
          for k := 0 to |items|
            invariant |awards| == k
            invariant forall q | 0 <= q < k :: awards[q] == AwardOf(items[q])
          {
            awards := awards + [AwardOf(items[k])];
          }
        }
        return;
      }
      n := n + 1;
    }
    assert FirstAwardsHeader(headers).None?;
  }

  /** The first header passing the test is the one found. */
  lemma {:induction false} FirstAwardsHeaderAt(headers: seq<Header>, n: nat)
    requires n < |headers| && Contains(headers[n].text, "Grants & Awards")
    requires forall k | 0 <= k < n :: !Contains(headers[k].text, "Grants & Awards")
    ensures FirstAwardsHeader(headers) == Some(n)
    decreases n
  {
    if n > 0 {
      FirstAwardsHeaderAt(headers[1..], n - 1);
    }
  }

  /** One publication per item of the list, in order; none without it. */
  method ExtractPublications(list: Option<seq<PubItem>>) returns (pubs: seq<CvPublication>)
    ensures |pubs| == |list.GetOr([])|
    ensures forall k | 0 <= k < |pubs| :: pubs[k] == PublicationOf(list.GetOr([])[k])
  {
    pubs := AppendEach(list.GetOr([]), PublicationOf);
  }

  /** `extract_info_from_html` from the parsed page onward: the name, title
      and contact details are the fixed defaults, never taken from the
      page; the four lists come from the filters above. */
  method ExtractInfoFromHtml(soup: Soup) returns (info: Info)
    ensures info.name == DefaultName && info.title == DefaultTitle && info.contact == DefaultContact
    ensures info.education == Kept(LinesOf(soup.educationText), false)
    ensures info.appointments == Kept(LinesOf(soup.appointmentsText), true)
    ensures |info.publications| == |soup.publicationsList.GetOr([])|
    ensures forall k | 0 <= k < |info.publications| ::
      info.publications[k] == PublicationOf(soup.publicationsList.GetOr([])[k])
    ensures |info.awards| == |AwardTexts(soup.headers)|
    ensures forall k | 0 <= k < |info.awards| :: info.awards[k] == AwardOf(AwardTexts(soup.headers)[k])
  {
    var education := FilterLines(soup.educationText, false);
    var appointments := FilterLines(soup.appointmentsText, true);
    var publications := ExtractPublications(soup.publicationsList);
    var awards := ExtractAwards(soup.headers);
    info := Info(DefaultName, DefaultTitle, DefaultContact, education, appointments, publications, awards);
  }

  // ---------------------------------------------------------------------
  // Splitting entries for display
  // ---------------------------------------------------------------------

  /** The two columns of an item: year and description. */
  datatype Columns = Columns(year: string, desc: string)

  /** `entry.split(':', 1)`: with a colon, the stripped text before the
      first colon and the stripped text after it; without, no year and the
      entry unchanged. */
  function SplitAtColon(entry: string): (c: Columns)
    ensures ':' !in entry ==> c == Columns("", entry)
    ensures ':' in entry ==> exists i | 0 <= i < |entry| ::
      && entry[i] == ':' && Avoids(entry, 0, i, ':')
      && c == Columns(Strip(entry[..i]), Strip(entry[i + 1..]))
    ensures ':' !in c.year
  {
    match IndexOf(entry, ':')
    case None => Columns("", entry)
    case Some(i) =>
      assert Avoids(entry, 0, i, ':') by {
        forall m | 0 <= m < i ensures entry[m] != ':' {
          assert entry[m] == entry[..i][m];
        }
      }
      StripInside(entry[..i]);
      MissingFromPiece(entry[..i], Strip(entry[..i]), ':');
      Columns(Strip(entry[..i]), Strip(entry[i + 1..]))
  }

  /** The text up to the first line break (`.*`). */
  function LineHead(s: string): (r: string)
    ensures '\n' !in r && |r| <= |s| && r == s[..|r|] && (|r| < |s| ==> s[|r|] == '\n')
  {
    match IndexOf(s, '\n')
    case None => s
    case Some(i) => s[..i]
  }

  /** `re.match(r'^(\d{4})\s*(.*)', text)`: the leading year, then what
      follows the whitespace after it (line breaks included) up to the next
      line break; no year and the whole text when it does not start with
      four digits. For a one-line text, such as a collapsed award text, the
      description is everything after the year but the leading whitespace. */
  function SplitAwardText(text: string): (c: Columns)
    ensures LeadingYear(text).None? ==> c == Columns("", text)
    ensures LeadingYear(text).Some? ==>
      && c.year == LeadingYear(text).value
      && '\n' !in c.desc && (c.desc == [] || !IsSpace(c.desc[0]))
      && Contains(text[4..], c.desc)
      && ('\n' !in text ==> c.desc == LStrip(text[4..]))
    ensures LeadingYear(text).Some? ==>
      var r := LStrip(text[4..]);
      && |c.desc| <= |r| && c.desc == r[..|c.desc|]
      && (|c.desc| < |r| ==> r[|c.desc|] == '\n')
  {
    match LeadingYear(text)
    case None => Columns("", text)
    case Some(y) =>
      var rest := LStrip(text[4..]);
      AwardRest(text);
      Columns(y, LineHead(rest))
  }

  /** The first line of the stripped remainder is a piece of the
      remainder, and all of it when there is no line break. */
  lemma AwardRest(text: string)
    requires |text| >= 4
    ensures var d := LineHead(LStrip(text[4..]));
      && Contains(text[4..], d) && (d == [] || !IsSpace(d[0]))
      && ('\n' !in text ==> d == LStrip(text[4..]))
  {
    var rest := LStrip(text[4..]);
    LStripInside(text[4..]);
    PrefixInside(rest, |LineHead(rest)|);
    ContainsTrans(text[4..], rest, LineHead(rest));
    if '\n' !in text {
      ContainsAt(text, text[4..], 4);
      MissingFromPiece(text, text[4..], '\n');
      MissingFromPiece(text[4..], rest, '\n');
    }
  }

  /** An extracted award renders its year, when it has one, and the rest
      of its text less the leading whitespace; otherwise no year and the
      whole text. */
  lemma AwardColumns(text: string)
    ensures var w := AwardOf(text);
      SplitAwardText(w.text) == (if w.year == "Unknown" then Columns("", w.text) else Columns(w.year, LStrip(w.text[4..])))
  {
    var w := AwardOf(text);
    CollapsedOneLine(w.text);
  }

  /** Collapsed text has no line break. */
  lemma CollapsedOneLine(t: string)
    requires Collapsed(t)
    ensures '\n' !in t
  {
    assert IsSpace('\n');
  }

  // ---------------------------------------------------------------------
  // The page
  // ---------------------------------------------------------------------

  /** The style sheet text. Its rules are not modelled: it is an opaque
      constant here. */
  const Css: string

  /** The page up to and including the Education heading. */
  function HeadTop(info: Info): string
  {
    "<!DOCTYPE html>\n"
    + "<html lang=\"en\">\n"
    + "<head>\n"
    + "    <meta charset=\"UTF-8\">\n"
    + "    <meta name=\"viewport\" content=\"width=device-width, initial-scale=1.0\">\n"
    + "    <title>" + info.name + " - Curriculum Vitae</title>\n"
    + "    " + Css + "\n"
    + "</head>\n"
    + "<body>\n"
    + "\n"
    + "<div class=\"cv-container\">\n"
    + "    <header>\n"
    + "        <div>\n"
    + "            <h1>" + info.name + "</h1>\n"
    + "            <h3 class=\"title\">" + info.title + "</h3>\n"
    + "            <p>West Virginia GIS Technical Center<br>West Virginia University</p>\n"
    + "        </div>\n"
    + "        <div class=\"contact-info\">\n"
    + "            <p>" + info.contact.email + "</p>\n"
    + "            <p>" + info.contact.phone + "</p>\n"
    + "            <p>" + info.contact.office + "</p>\n"
    + "            <p>" + info.contact.location + "</p>\n"
    + "            <p><a href=\"" + info.contact.website + "\">" + info.contact.website + "</a></p>\n"
    + "        </div>\n"
    + "    </header>\n"
    + "\n"
  }

  const EducationOpen := "    <section>\n" + "        <h2>Education</h2>\n"
  const AppointmentsOpen := "\n    </section>\n" + "\n" + "    <section>\n" + "        <h2>Academic Appointments</h2>\n"
  const PublicationsOpen := "\n    </section>\n" + "\n" + "    <section>\n" + "        <h2>Publications</h2>\n"
  const AwardsOpen := "\n    </section>\n" + "    \n" + "    <section>\n" + "        <h2>Grants & Awards</h2>\n"

  /** The closing section, the footer with the date and the closing tags. */
  function Footer(lastUpdated: string): string
  {
    "\n    </section>\n"
    + "    \n"
    + "    <footer>\n"
    + "        <p style=\"text-align: center; color: #999; font-size: 12px; margin-top: 50px;\">\n"
    + "            Last updated: " + lastUpdated + "\n"
    + "        </p>\n"
    + "    </footer>\n"
    + "\n"
    + "</div>\n"
    + "\n"
    + "</body>\n"
    + "</html>\n"
  }

  /** One item: the year column and the description column. */
  function ItemBlock(c: Columns): string
  {
    "\n"
    + "        <div class=\"item\">\n"
    + "            <div class=\"item-year\">" + c.year + "</div>\n"
    + "            <div class=\"item-content\">" + c.desc + "</div>\n"
    + "        </div>\n"
    + "        "
  }

  /** An education or appointment entry, split at its first colon. */
  function EntryBlock(entry: string): string
  {
    ItemBlock(SplitAtColon(entry))
  }

  /** A publication: its year and its inner HTML. */
  function PublicationBlock(p: CvPublication): string
  {
    "\n"
    + "        <div class=\"item\">\n"
    + "            <div class=\"item-year\">" + p.year + "</div>\n"
    + "            <div class=\"item-content publication-item\">\n"
    + "                " + p.content + "\n"
    + "            </div>\n"
    + "        </div>\n"
    + "        "
  }

  /** An award, split at its leading year. */
  function AwardBlock(w: CvAward): string
  {
    ItemBlock(SplitAwardText(w.text))
  }

  /** The whole page: the header, then Education, Academic Appointments,
      Publications and Grants & Awards, one item per record in list order,
      then the footer with the date. */
  function CvHtml(info: Info, lastUpdated: string): string
  {
    HeadTop(info) + EducationOpen + ConcatMap(info.education, EntryBlock)
    + AppointmentsOpen + ConcatMap(info.appointments, EntryBlock)
    + PublicationsOpen + ConcatMap(info.publications, PublicationBlock)
    + AwardsOpen + ConcatMap(info.awards, AwardBlock)
    + Footer(lastUpdated)
  }

  /** `generate_cv_html`, the date of `datetime.now()` given as a
      parameter. */
  method GenerateCvHtml(info: Info, lastUpdated: string) returns (html: string)
    ensures html == CvHtml(info, lastUpdated)
  {
    html := HeadTop(info) + EducationOpen;
    html := AppendBlocks(html, info.education, EntryBlock);
    html := AppendBlocks(html + AppointmentsOpen, info.appointments, EntryBlock);
    html := AppendBlocks(html + PublicationsOpen, info.publications, PublicationBlock);
    html := AppendBlocks(html + AwardsOpen, info.awards, AwardBlock);
    html := html + Footer(lastUpdated);
  }

  /** Every section's rendering occurs in the page; with `BlocksHold`,
      every record's item does. */
  lemma RecordsInPage(info: Info, lastUpdated: string)
    ensures var page := CvHtml(info, lastUpdated);
      && Contains(page, ConcatMap(info.education, EntryBlock))
      && Contains(page, ConcatMap(info.appointments, EntryBlock))
      && Contains(page, ConcatMap(info.publications, PublicationBlock))
      && Contains(page, ConcatMap(info.awards, AwardBlock))
  {
    PiecesHold(HeadTop(info), EducationOpen, ConcatMap(info.education, EntryBlock),
               AppointmentsOpen, ConcatMap(info.appointments, EntryBlock),
               PublicationsOpen, ConcatMap(info.publications, PublicationBlock),
               AwardsOpen, ConcatMap(info.awards, AwardBlock), Footer(lastUpdated));
  }
}
