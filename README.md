# Homepage content scripts, modelled in Dafny

This project models the Python scripts that keep Yalin Yang's academic
homepage (gisyaliny.github.io) and its companion documents in step:

- the archived CV generator `archive/generate_cv.py`. It pulls the personal
  details, education, appointments, publications and grants out of the
  homepage HTML with regular expressions. It checks which sections an
  existing CV already has, and it renders a new CV page;
- the current CV generator `generate_cv.py`. It filters the education and
  appointment lines, reads the publication and award fields out of the text
  BeautifulSoup produces, and renders the two-column CV page;
- `update_readme.py`. It takes the e-mail address, the website and the
  profile links from the homepage, then writes the repository README from
  them and from its curated lists;
- `scripts/update_from_scholar.py`. It turns each Google Scholar record into
  a publication entry, then orders the entries newest year first, in place,
  before they are saved.

The modules are:

- `Wrappers`: the `Option` and `Result` types.
- `Text`: the Python string operations the scripts use. These are `in`,
  `find`, `strip`/`lstrip`, `split`, `replace`, `re.sub(r'\s+', ' ', …)`,
  `int`/`str` on digit strings and string `<`. It also holds list
  comprehensions and the "append one block per record" loop.
- `Patterns`: the HTML patterns of `archive/generate_cv.py` and the
  `mailto:` pattern of `update_readme.py`, each written as a scanner, with
  `re.search` (the leftmost match) and `re.findall` (successive
  non-overlapping matches). A predicate `MatchShape` states what a match of
  each pattern is, and the scanner is proved to return exactly those
  matches. The other regular expressions are anchored or trivial, so they
  are modelled where they are used:
  - `\d{4}.*\d{4}` and `\d{4}.*Present` by `Cv.YearRangeAt` and
    `Cv.YearToPresentAt`;
  - `^(\d{4})` by `Cv.LeadingYear` and `ArchiveCv.AwardYear`;
  - `^(\d{4})\s*(.*)` by `Cv.SplitAwardText`;
  - `^([^(]+)` by `ArchiveCv.PublicationAuthors`;
  - `^,\s*` and `^\s+` by `ArchiveCv.DropLeadingComma`;
  - `https://gisyaliny\.github\.io/` by `Readme.Website`;
  - `\s+` replaced by one space by `Text.CollapseSpaces`.
- `ArchiveCv` and `ArchiveCvPage`: `archive/generate_cv.py`.
- `Cv`: `generate_cv.py`.
- `Readme`: `update_readme.py`.
- `Scholar`: `scripts/update_from_scholar.py`.

Several results are proved for every input:

- The archived CV page is always recognised by `check_existing_cv_content`
  as holding all four sections. Its style sheet names every item class, and
  every heading is written even when a section is empty.
- The README renders every profile link, or `#` when there is none.
- The README build fails exactly when there are no appointments (Python's
  `IndexError`).
- The in-place insertion sort of the Scholar entries produces exactly the
  stable descending order by `str(year)`. That order is sorted, is a
  permutation of the input, and keeps records with equal keys in their
  input order.

## Model

| member | source | states |
|---|---|---|
| Patterns.MatchAt | archive/generate_cv.py:17-218 | a match of any of the scripts' patterns starts where it is tried and ends inside the text |
| Patterns.MatchAtShape | archive/generate_cv.py:17-219 | what the scanner returns is a match of the pattern: the literal pieces sit where the regex puts them, a `[^<]+`-style group is a maximal run free of its stop character, a lazy `.*?` group runs to the first closing tag, and the group start is fixed (after the opening tag's `>`, after `\s*`) |
| Patterns.MatchAtComplete | archive/generate_cv.py:17-219 | the converse: every match of the pattern at a position is exactly what the scanner returns there |
| Patterns.SearchComplete | archive/generate_cv.py:18 | a match anywhere in the text makes `re.search` succeed, at or before it |
| Patterns.SearchFound | archive/generate_cv.py:18-44 | `re.search` succeeds exactly when the text holds a match of the pattern somewhere |
| Patterns.FindAllCovers | archive/generate_cv.py:157-158 | `re.findall` misses no match: every match after the start is listed or overlaps a listed one |
| Patterns.SearchFrom | archive/generate_cv.py:18 | `re.search`: the result is a genuine match at or after the start, and no match starts before it |
| Patterns.FindAllFrom | archive/generate_cv.py:157-158 | `re.findall`: the matches are genuine, in order and non-overlapping; the list is empty exactly when `re.search` finds nothing, and otherwise starts with its match |
| Patterns.FindAllNext | archive/generate_cv.py:157-158 | each listed match after the first is the leftmost match after its predecessor, so none is skipped |
| Patterns.FindAllLast | archive/generate_cv.py:157-158 | no match remains after the last listed one |
| Patterns.FindAll | archive/generate_cv.py:103 | the groups of `re.findall` are the groups of the listed matches, one each, in order |
| Patterns.MailtoHrefVerbatim | archive/generate_cv.py:29-32 | the e-mail is the whole non-empty, quote-free text between `href="mailto:` and the next quote |
| Patterns.MailtoMatch | update_readme.py:27 | `mailto:([^"]+)` matches at a position exactly when `mailto:` is there and is followed by a character other than a quote |
| Patterns.MailtoSearch | update_readme.py:27-28 | there is a match exactly when some position qualifies; the match is at the first such position, and its group is the whole non-empty quote-free run after `mailto:`, ended by a quote or the end of the text |
| Patterns.ParenYearDigits | archive/generate_cv.py:162-164 | a found year is four digits that occur in parentheses in the text |
| Patterns.ParenYearComplete | archive/generate_cv.py:162-164 | any parenthesised four-digit year in the text is found, at or before its position |
| Patterns.ParenYearFirst | archive/generate_cv.py:162-164 | the match is the first parenthesised four-digit year and captures its four digits |
| Patterns.ParenYearAbsent | archive/generate_cv.py:162-164 | when nothing is found, the text holds no parenthesised four-digit year |
| Patterns.TextGroup | archive/generate_cv.py:17-41 | the captured text of the tag, caption, bullet, anchor and emphasis patterns is non-empty, holds no `<` and occurs in the text |
| Patterns.AfterAnchorGroup | archive/generate_cv.py:218-219 | the text after `</a>` is non-empty, `<`-free and occurs in the item |
| ArchiveCv.PersonalInfoOf | archive/generate_cv.py:14-46 | the dictionary has only the five keys; each key is present exactly when its pattern matched, and holds the stripped group (the e-mail unstripped) |
| ArchiveCv.PersonalName | archive/generate_cv.py:16-20 | the name is present exactly when `<h4>…</h4>` matches, and is then its stripped group |
| ArchiveCv.PersonalTitle | archive/generate_cv.py:22-26 | the title is present exactly when an `<h4>` holding "Research Associate" occurs anywhere in the page, and is then the stripped group of the first one |
| ArchiveCv.PersonalEmail | archive/generate_cv.py:28-32 | the e-mail is present exactly when a mailto link matches, and is then the link target verbatim |
| ArchiveCv.PersonalContact | archive/generate_cv.py:34-44 | phone and office are present exactly when their captions match, hold the stripped text after the caption, and no other key is ever set |
| ArchiveCv.NameTagFree | archive/generate_cv.py:17-20 | the extracted name holds no `<` |
| ArchiveCv.TitleKeepsPhrase | archive/generate_cv.py:23-26 | the stripped title still holds "Research Associate" |
| ArchiveCv.ExtractEducation | archive/generate_cv.py:48-88 | at most the three known degrees, in Ph.D., M.A., B.S. order, each present exactly when its abbreviation occurs in the section; none without the section |
| ArchiveCv.FirstFiring | archive/generate_cv.py:105-140 | the record is that of the first branch whose phrases all occur in the item; none when no branch fires |
| ArchiveCv.TeachingAssistantBothCampuses | archive/generate_cv.py:127-140 | an item naming both UT Dallas and Binghamton is classed as the UT Dallas assistantship |
| ArchiveCv.Classified | archive/generate_cv.py:103-140 | at most one record per item, and each record comes from some item |
| ArchiveCv.ClassifiedAppend | archive/generate_cv.py:105-140 | the records of two runs of items are the records of the first run followed by those of the second |
| ArchiveCv.UnmatchedItemIgnored | archive/generate_cv.py:105-140 | an item that fires no branch adds nothing |
| ArchiveCv.ExtractAppointments | archive/generate_cv.py:90-142 | the records are the classified bullet items of the section, in order |
| ArchiveCv.ClassifyAll | archive/generate_cv.py:105-140 | the loop over the items yields exactly the classified records |
| ArchiveCv.PublicationYear | archive/generate_cv.py:161-164 | the four digits of the first parenthesised four-digit year in the item (no such year starts earlier), else "Unknown" exactly when the item holds no such year |
| ArchiveCv.PublicationTitle | archive/generate_cv.py:166-169 | "Unknown Title" exactly when the item holds no `<a[^>]*>([^<]+)</a>` match; otherwise the group of the leftmost one, unstripped: non-empty, `<`-free and taken from the item |
| ArchiveCv.PublicationJournal | archive/generate_cv.py:171-174 | "Unknown Journal" exactly when the item holds no `<em>([^<]+)</em>` match; otherwise the group of the leftmost one, unstripped: non-empty, `<`-free and taken from the item |
| ArchiveCv.PublicationAuthors | archive/generate_cv.py:176-179 | the stripped non-empty prefix of the stripped item that runs up to its first `(` or its end; `(`-free, already stripped and part of the item; "Unknown Authors" when the item is empty or starts with `(` |
| ArchiveCv.AuthorsInside | archive/generate_cv.py:177-179 | the authors text is `(`-free, already stripped and a piece of the item |
| ArchiveCv.ExtractPublications | archive/generate_cv.py:144-188 | exactly one record per `<li>` item of the list, in item order; none when the page holds no publications list anywhere |
| ArchiveCv.AwardYear | archive/generate_cv.py:207-210 | the four digits the stripped item starts with, else "Unknown" |
| ArchiveCv.AwardName | archive/generate_cv.py:212-215 | "Unknown Award" exactly when the item holds no anchor match; otherwise the stripped group of the leftmost one, `<`-free |
| ArchiveCv.AwardOrganization | archive/generate_cv.py:217-226 | with g the stripped group of the leftmost `</a>\s*([^<]+)` match: g itself when it does not open with a comma, otherwise g less its comma and the whitespace after it; `<`-free, trimmed and taken from the item; "Unknown Organization" when the item holds no such match |
| ArchiveCv.CommaDropped | archive/generate_cv.py:223-225 | on stripped text the two `re.sub` calls change nothing unless it opens with a comma, and then remove exactly that comma and the whitespace after it |
| ArchiveCv.OrganizationInside | archive/generate_cv.py:218-224 | cleaning the text after the link keeps it `<`-free and a piece of the item |
| ArchiveCv.CleanedInside | archive/generate_cv.py:223-224 | dropping the leading comma and left-stripping gives a piece of the text |
| ArchiveCv.ExtractGrantsAwards | archive/generate_cv.py:190-234 | exactly one record per item of the list after the "Grants & Awards" heading, in order; none when the page holds no such list anywhere |
| ArchiveCvPage.CheckExistingCvContent | archive/generate_cv.py:236-265 | `None` exactly when there is no file; otherwise a section is marked, with `True`, exactly when both its `<h2>` heading and its item class occur |
| ArchiveCvPage.GenerateCvHtml | archive/generate_cv.py:267-384 | the page built section by section equals the full page; the existing sections play no part |
| ArchiveCvPage.MissingDetailsDefault | archive/generate_cv.py:279-326 | each personal detail falls back on its own: a page whose details lack one of the five keys is the page with that key set to its default, whatever the other keys hold |
| ArchiveCvPage.GeneratedPageRecognised | archive/generate_cv.py:250-263 | every generated page, whatever the records, is recognised as holding all four sections |
| ArchiveCvPage.PageHasTitles | archive/generate_cv.py:331-370 | each of the four `<h2>` headings occurs in every page |
| ArchiveCvPage.PageHasClasses | archive/generate_cv.py:303 | each of the four item class names occurs in every page, in the style sheet |
| ArchiveCvPage.HeadHasRule | archive/generate_cv.py:274-328 | the head of every page holds the style rule naming the item classes |
| ArchiveCvPage.RecordsInPage | archive/generate_cv.py:334-377 | the rendering of every section's records occurs in the page |
| Cv.Clean | generate_cv.py:59 | a kept entry holds no bullet glyph and is already stripped |
| Cv.KeptEntries | generate_cv.py:55-59 | no more entries than lines; each entry is the cleaned form of a line that passes the test, and every such line yields its entry |
| Cv.KeptStep | generate_cv.py:67-70 | one more line adds its cleaned entry exactly when it passes the test |
| Cv.FilterLines | generate_cv.py:53-70 | the loop keeps exactly the cleaned lines that pass the year test (or year-to-"Present" test for appointments); none without the paragraph |
| Cv.PublicationOf | generate_cv.py:81-103 | the text is the item text with each whitespace run replaced by one space (so single-spaced, with the same visible characters); the content is the inner HTML; the year is the first parenthesised four-digit year of the text, and "Unknown" exactly when there is none |
| Cv.LeadingYear | generate_cv.py:116 | a year exactly when the text starts with four digits, and then those digits |
| Cv.AwardOf | generate_cv.py:112-123 | the text is the item text with each whitespace run replaced by one space (so single-spaced, with the same visible characters); the year is the four digits it starts with, else "Unknown" |
| Cv.FirstAwardsHeader | generate_cv.py:107-108 | the first header whose text holds "Grants & Awards"; no earlier header does |
| Cv.ExtractAwards | generate_cv.py:107-124 | one award per item of the list after the first awards header, in order; the loop stops at that header |
| Cv.FirstAwardsHeaderAt | generate_cv.py:107-124 | the first header passing the test is the one found |
| Cv.ExtractPublications | generate_cv.py:73-103 | one publication per list item, in order; none without the list |
| Cv.ExtractInfoFromHtml | generate_cv.py:11-126 | name, title and contact are the fixed defaults; the four lists come from the filters and extractors |
| Cv.SplitAtColon | generate_cv.py:298-304 | with a colon, the stripped text before the first colon and the stripped text after it; without, no year and the entry unchanged; the year holds no colon |
| Cv.SplitAwardText | generate_cv.py:361-367 | with a leading year, that year, and as description the first line of what follows it once left-stripped (a prefix that is the whole rest or ends at a line break); otherwise no year and the whole text |
| Cv.AwardColumns | generate_cv.py:361-367 | an extracted award shows its year, when it has one, and the rest of its text less the leading whitespace |
| Text.CollapseRun | generate_cv.py:83 | `re.sub(r'\s+', ' ', …)`: a whitespace run between non-space text becomes exactly one space, and the text on each side is collapsed on its own |
| Text.CollapseNoSpace | generate_cv.py:83 | text without whitespace is left unchanged |
| Text.CollapseSplit | generate_cv.py:113 | collapsing works piece by piece after any non-space character |
| Cv.CollapsedOneLine | generate_cv.py:113 | a collapsed text has no line break |
| Cv.GenerateCvHtml | generate_cv.py:128-390 | the page built section by section equals the full page |
| Cv.RecordsInPage | generate_cv.py:291-374 | the rendering of every section's records occurs in the page |
| Readme.SocialLinks | update_readme.py:35-43 | only the three profile keys are ever set |
| Readme.SocialLinksHas | update_readme.py:36-43 | a profile's key is present exactly when some href belongs to that profile |
| Readme.SocialLinksLast | update_readme.py:36-43 | a present key holds the last href that belongs to its profile |
| Readme.OtherKeys | update_readme.py:38-43 | storing one profile's link leaves every other profile's entry alone |
| Readme.Email | update_readme.py:27-28 | the first `mailto:` target up to the next quote, verbatim and non-empty; the fallback address exactly when no position qualifies |
| Readme.Website | update_readme.py:30-32 | the website is the fixed address whatever the page says |
| Readme.ExtractInfoFromHtml | update_readme.py:12-107 | the fixed name, title, institution and center, the extracted e-mail, website and links, and the curated lists |
| Readme.Leading | update_readme.py:163-172 | `xs[:n]`: a prefix of the list, of length n or the whole list |
| Readme.LinkOr | update_readme.py:219-221 | `get(key, '#')`: the stored link, or `#` when absent |
| Readme.ReadmeText | update_readme.py:109-232 | the README exists exactly when there is at least one appointment, and otherwise fails with "list index out of range" |
| Readme.GenerateReadme | update_readme.py:109-232 | the text built section by section equals the full README |
| Readme.ReadmeSections | update_readme.py:143-172 | the page holds the education bullets, the current position, the remaining appointments, the first four publications and the first six awards |
| Readme.ContactLinks | update_readme.py:215-221 | the page holds the e-mail and website links and a link line for each of the three profiles, with `#` for a missing one |
| Scholar.Venue | scripts/update_from_scholar.py:44 | the first present and non-empty of journal, conference and publisher, else "Preprint"; never empty |
| Scholar.JournalFull | scripts/update_from_scholar.py:49-55 | the venue, then `, volume(number)` when there are both, `, volume` with a volume alone and nothing without a volume, then `, pages` whenever there are pages |
| Scholar.NumberNeedsVolume | scripts/update_from_scholar.py:50-53 | without a volume the issue number is ignored |
| Scholar.PagesAlwaysAppended | scripts/update_from_scholar.py:54-55 | pages are appended whether or not there is a volume |
| Scholar.YearOf | scripts/update_from_scholar.py:62 | an integer exactly when the text is a non-empty digit string; the text itself otherwise |
| Scholar.YearRoundTrip | scripts/update_from_scholar.py:62-72 | `str(int(y)) == y` exactly when y is not a digit string with a leading zero; an integer year reads back as its own value |
| Scholar.BoldAbsent | scripts/update_from_scholar.py:41 | an author list without either name is unchanged |
| Scholar.BoldNames | scripts/update_from_scholar.py:41 | "Yalin Yang" becomes "**Yalin Yang**" (the second replacement does not touch it) and "Y Yang" becomes "**Y Yang**" |
| Scholar.BoldAround | scripts/update_from_scholar.py:41 | bolding works piece by piece around any character in neither name, such as the comma between authors |
| Scholar.EntryOf | scripts/update_from_scholar.py:31-65 | title, authors and year default independently; the journal line is the full venue line of the record's venue, volume, number and pages; the link is the record's URL |
| Scholar.UnknownYearIsText | scripts/update_from_scholar.py:35-62 | a record without a year gets the text year "Unknown" |
| Scholar.FetchPublications | scripts/update_from_scholar.py:29-66 | one entry per record, in order |
| Scholar.InsertPermutation | scripts/update_from_scholar.py:72 | insertion adds exactly the new element |
| Scholar.InsertSorted | scripts/update_from_scholar.py:72 | inserting into a descending list keeps it descending |
| Scholar.SortSorted | scripts/update_from_scholar.py:72 | the sorted list is in descending order of `str(year)` |
| Scholar.SortPermutation | scripts/update_from_scholar.py:72 | the sorted list is a permutation of the input |
| Scholar.WithKeyAppend | scripts/update_from_scholar.py:72 | the entries with a given key in a concatenation are those of each part, in order |
| Scholar.InsertWithKey | scripts/update_from_scholar.py:72 | insertion puts the new element after every element with an equal key |
| Scholar.SortStable | scripts/update_from_scholar.py:72 | entries with equal keys keep their input order |
| Scholar.UnknownFirst | scripts/update_from_scholar.py:62-72 | in the sorted list, an "Unknown" year comes before every integer year |
| Scholar.InsertAt | scripts/update_from_scholar.py:72 | the insertion point is where the scan from the right stops |
| Scholar.ShiftSmaller | scripts/update_from_scholar.py:72 | the entries with a smaller key than the one being placed move one place right, and nothing else changes |
| Scholar.InsertInPlace | scripts/update_from_scholar.py:72 | one pass in place equals inserting into the sorted prefix; the rest of the array is untouched |
| Scholar.SortPublications | scripts/update_from_scholar.py:70-72 | the array afterwards is the stable descending sort of its old contents |

## Left out

- File and network I/O are not modelled. That covers reading `index.html`,
  writing `cv.html`, `README.md` and the YAML data file, the `scholarly`
  client and `_config.yml`. Each script's `main` only wires these together.
- BeautifulSoup is not modelled. `generate_cv.py` receives what it returns
  as input: the paragraph texts from `get_text("\n")`, the publication
  items (inner HTML and `get_text(" ", strip=True)`) and the headers with
  their next list. `update_readme.py` receives the hrefs of the page's
  anchors in document order.
- The clock is a parameter. `datetime.now()` appears in the README's
  copyright year and timestamp and in the CV footer, which take the year
  or the formatted text as given.
- The hand-written lists in `update_readme.py` (research interests,
  education, appointments, publications, awards) are an input (`Curated`),
  not copied text.
- The long static prose and style sheets of `generate_cv.py` and
  `update_readme.py` are declared constants without a value: the current
  CV's CSS and the README's fixed paragraphs. The model proves nothing
  that depends on their wording. The archived CV's style sheet, the
  headings and every piece that holds extracted data are spelled out.
- Digits are ASCII digits. Python's `\d` and `str.isdigit()` also accept
  other Unicode digits.
- Whitespace is the set `str.isspace()` accepts, written out character by
  character.
- `re.DOTALL` section patterns are modelled for text as given. BeautifulSoup
  entity decoding is out of scope, so in `Cv.Clean` the `&bull;` removal
  works on the literal text.
- The README keeps the copyright sign as the script writes it (`¬©`, a
  mis-decoded `©`).
- Scholar bibliography values are modelled as strings. `bib` is a map from
  field names to text.
- Scholar.SortPublications: Python's `list.sort` (Timsort) is modelled as
  an in-place insertion sort. Both are stable sorts on the same key, and a
  stable sort's result is unique, so the order is the same; the number of
  comparisons is not modelled.
- `run_readme_update.py` is not part of this model. It is a driver that
  calls the README update.
