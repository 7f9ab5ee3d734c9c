/** The archived CV generator (archive/generate_cv.py): extractors that
    pull the personal details, education, appointments, publications and
    grants out of the homepage HTML with regular expressions, the check for
    sections of an existing CV, and the renderer of the CV page. */
module ArchiveCv {
  import opened Wrappers
  import opened Text
  import opened Patterns

  datatype Education = Education(degree: string, institution: string, period: string, location: string)
  datatype Appointment = Appointment(position: string, institution: string, period: string, location: string)
  datatype Publication = Publication(year: string, title: string, journal: string, authors: string)
  datatype Award = Award(year: string, award: string, organization: string)

  // ---------------------------------------------------------------------
  // Personal information
  // ---------------------------------------------------------------------

  /** The dictionary built from the five groups, when found: name, title,
      phone and office stripped, the e-mail verbatim. */
  function PersonalInfoOf(name: Option<string>, title: Option<string>, email: Option<string>,
                          phone: Option<string>, office: Option<string>): (info: map<string, string>)
    ensures info.Keys <= {"name", "title", "email", "phone", "office"}
    ensures ("name" in info <==> name.Some?) && ("name" in info ==> info["name"] == Strip(name.value))
    ensures ("title" in info <==> title.Some?) && ("title" in info ==> info["title"] == Strip(title.value))
    ensures ("email" in info <==> email.Some?) && ("email" in info ==> info["email"] == email.value)
    ensures ("phone" in info <==> phone.Some?) && ("phone" in info ==> info["phone"] == Strip(phone.value))
    ensures ("office" in info <==> office.Some?) && ("office" in info ==> info["office"] == Strip(office.value))
  {
    var info := map[];
    var info := if name.Some? then info["name" := Strip(name.value)] else info;
    var info := if title.Some? then info["title" := Strip(title.value)] else info;
    var info := if email.Some? then info["email" := email.value] else info;
    var info := if phone.Some? then info["phone" := Strip(phone.value)] else info;
    if office.Some? then info["office" := Strip(office.value)] else info
  }

  /** `extract_personal_info`: the five fields, each set only when its
      pattern matches. */
  function ExtractPersonalInfo(html: string): map<string, string>
  {
    PersonalInfoOf(SearchGroup(html, Header4), SearchGroup(html, Header4With("Research Associate")),
                   SearchGroup(html, MailtoHref), SearchGroup(html, Labelled("Phone: ")),
                   SearchGroup(html, Labelled("Office: ")))
  }

  /** The name is present exactly when `<h4>…</h4>` matches, and is then
      its stripped, '<'-free text. */
  lemma PersonalName(html: string)
    ensures var info := ExtractPersonalInfo(html);
      && ("name" in info <==> SearchGroup(html, Header4).Some?)
      && ("name" in info ==> info["name"] == Strip(SearchGroup(html, Header4).value) && '<' !in info["name"])
  {
    if SearchGroup(html, Header4).Some? {
      NameTagFree(html);
    }
  }

  /** The title is present exactly when an `<h4>` holding "Research
      Associate" occurs anywhere, and is then the stripped text of the
      first one, which still holds that phrase. */
  lemma PersonalTitle(html: string)
    ensures var info := ExtractPersonalInfo(html);
      && ("title" in info <==> Found(html, Header4With("Research Associate")))
      && ("title" in info <==> SearchGroup(html, Header4With("Research Associate")).Some?)
      && ("title" in info ==>
            && info["title"] == Strip(SearchGroup(html, Header4With("Research Associate")).value)
            && Contains(info["title"], "Research Associate"))
  {
    SearchFound(html, Header4With("Research Associate"));
    if SearchGroup(html, Header4With("Research Associate")).Some? {
      TitleKeepsPhrase(html);
    }
  }

  /** The e-mail is present exactly when a mailto link matches, and is then
      the link target verbatim: non-empty, quote-free, unstripped. */
  lemma PersonalEmail(html: string)
    ensures var info := ExtractPersonalInfo(html);
      && ("email" in info <==> SearchGroup(html, MailtoHref).Some?)
      && ("email" in info ==>
            && info["email"] == SearchGroup(html, MailtoHref).value
            && info["email"] != [] && '"' !in info["email"]
            && Contains(html, "href=\"mailto:" + info["email"] + "\""))
  {
    if SearchGroup(html, MailtoHref).Some? {
      MailtoHrefVerbatim(html);
    }
  }

  /** Phone and office are present exactly when their captions match, and
      are then the stripped text after the caption; no other field is
      ever set, and a missing one is absent rather than defaulted. */
  lemma PersonalContact(html: string)
    ensures var info := ExtractPersonalInfo(html);
      && info.Keys <= {"name", "title", "email", "phone", "office"}
      && ("phone" in info <==> SearchGroup(html, Labelled("Phone: ")).Some?)
      && ("phone" in info ==> info["phone"] == Strip(SearchGroup(html, Labelled("Phone: ")).value))
      && ("office" in info <==> SearchGroup(html, Labelled("Office: ")).Some?)
      && ("office" in info ==> info["office"] == Strip(SearchGroup(html, Labelled("Office: ")).value))
  {
  }

  /** The stripped name holds no '<'. */
  lemma NameTagFree(html: string)
    requires SearchGroup(html, Header4).Some?
    ensures '<' !in Strip(SearchGroup(html, Header4).value)
  {
    var g := SearchGroup(html, Header4).value;
    TextGroup(html, Header4);
    StripInside(g);
    MissingFromPiece(g, Strip(g), '<');
  }

  /** The stripped title still holds "Research Associate". */
  lemma TitleKeepsPhrase(html: string)
    requires SearchGroup(html, Header4With("Research Associate")).Some?
    ensures Contains(Strip(SearchGroup(html, Header4With("Research Associate")).value), "Research Associate")
  {
    var m := Search(html, Header4With("Research Associate")).value;
    assert TagRunShape(html, m.start, "<h4", "Research Associate", "</h4>", m);
    StripKeeps(m.group, "Research Associate");
  }

  // ---------------------------------------------------------------------
  // Education: a lookup table keyed by degree abbreviations
  // ---------------------------------------------------------------------

  const PhD := Education("Ph.D. in Geospatial Information Sciences", "University of Texas at Dallas", "2019–2024", "Texas, USA")
  const MA := Education("M.A. in Geography", "Binghamton University (SUNY)", "2017–2019", "New York, USA")
  const BS := Education("B.S. in Geographic Information Science", "Yunnan University", "2013–2017", "Yunnan, China")

  /** The degrees in the order they are looked for, and the abbreviation
      whose presence in the section selects each. */
  const Degrees: seq<Education> := [PhD, MA, BS]
  const DegreeKeys: seq<string> := ["Ph.D.", "M.A.", "B.S."]

  /** A degree's place in `Degrees`. */
  function DegreeRank(e: Education): nat
  {
    if e == PhD then 0 else if e == MA then 1 else 2
  }

  /** The captured text of the "Education:" paragraph, if present. */
  function EducationText(html: string): Option<string>
  {
    SearchGroup(html, Section("Education:"))
  }

  /** `extract_education`: at most the three known degrees, in the order
      Ph.D., M.A., B.S., each present exactly when its abbreviation occurs
      in the section; nothing without the "Education:" landmark. */
  method ExtractEducation(html: string) returns (education: seq<Education>)
    ensures |education| <= 3
    ensures forall e | e in education :: e in Degrees
    ensures forall i, j | 0 <= i < j < |education| :: DegreeRank(education[i]) < DegreeRank(education[j])
    ensures forall k | 0 <= k < 3 ::
      Degrees[k] in education <==> EducationText(html).Some? && Contains(EducationText(html).value, DegreeKeys[k])
    ensures EducationText(html).None? ==> education == []
  {
    education := [];
    var found := EducationText(html);
    if found.Some? {
      var text := found.value;
      if Contains(text, "Ph.D.") {
        education := education + [PhD];
      }
      if Contains(text, "M.A.") {
        education := education + [MA];
      }
      if Contains(text, "B.S.") {
        education := education + [BS];
      }
    }
  }

  // ---------------------------------------------------------------------
  // Appointments: an if/elif chain over bullet items
  // ---------------------------------------------------------------------

  /** One branch of the chain: every needle must occur in the item. */
  datatype Rule = Rule(needles: seq<string>, record: Appointment)

  predicate Fires(rule: Rule, item: string)
  {
    forall n | n in rule.needles :: Contains(item, n)
  }

  const ResearchAssociate := Appointment("Research Associate, GIS Programmer", "West Virginia GIS Technical Center", "2024–Present", "West Virginia University")
  const SeniorAnalyst := Appointment("Senior GIS Analyst", "City of Dallas", "2024", "Dallas, TX")
  const Administrator := Appointment("GIS Administrator", "GAIA Lab, UT Dallas", "2021–2024", "University of Texas at Dallas")
  const AssistantDallas := Appointment("Teaching Assistant", "Department of GIScience, UT Dallas", "2019–2024", "University of Texas at Dallas")
  const AssistantBinghamton := Appointment("Teaching Assistant", "Department of Geography, Binghamton University (SUNY)", "2018–2019", "Binghamton University")

  /** The branches of the chain, in the order they are tried. */
  const AppointmentRules: seq<Rule> := [
    Rule(["Research Associate"], ResearchAssociate),
    Rule(["Senior GIS Analyst"], SeniorAnalyst),
    Rule(["GIS Administrator"], Administrator),
    Rule(["Teaching Assistant", "UT Dallas"], AssistantDallas),
    Rule(["Teaching Assistant", "Binghamton"], AssistantBinghamton)
  ]

  /** The record of the first rule that fires, if any. */
  function FirstFiring(rules: seq<Rule>, item: string): (r: Option<Appointment>)
    ensures r.None? <==> forall k | 0 <= k < |rules| :: !Fires(rules[k], item)
    ensures r.Some? ==> exists k | 0 <= k < |rules| ::
      && Fires(rules[k], item) && r.value == rules[k].record
      && forall j | 0 <= j < k :: !Fires(rules[j], item)
  {
    if rules == [] then None
    else if Fires(rules[0], item) then Some(rules[0].record)
    else
      var r := FirstFiring(rules[1..], item);
      assert forall k | 1 <= k < |rules| :: rules[k] == rules[1..][k - 1];
      r
  }

  /** The appointment one bullet item maps to. */
  function Classify(item: string): Option<Appointment>
  {
    FirstFiring(AppointmentRules, item)
  }

  /** A teaching-assistant item naming both universities, and no earlier
      branch, maps to the UT Dallas record: the first branch wins. */
  lemma TeachingAssistantBothCampuses(item: string)
    requires Contains(item, "Teaching Assistant") && Contains(item, "UT Dallas") && Contains(item, "Binghamton")
    requires !Contains(item, "Research Associate") && !Contains(item, "Senior GIS Analyst")
    requires !Contains(item, "GIS Administrator")
    ensures Classify(item) == Some(AssistantDallas)
  {
    assert Fires(AppointmentRules[3], item);
    assert !Fires(AppointmentRules[0], item);
    assert !Fires(AppointmentRules[1], item);
    assert !Fires(AppointmentRules[2], item);
  }

  /** The records of the items that match some rule, in item order. */
  function Classified(rules: seq<Rule>, items: seq<string>): (r: seq<Appointment>)
    ensures |r| <= |items|
    ensures forall a | a in r :: exists k | 0 <= k < |items| :: FirstFiring(rules, items[k]) == Some(a)
  {
    if items == [] then []
    else
      var front := Classified(rules, items[..|items| - 1]);
      assert forall k | 0 <= k < |items| - 1 :: items[..|items| - 1][k] == items[k];
      match FirstFiring(rules, items[|items| - 1])
      case Some(a) => front + [a]
      case None => front
  }

  /** Classifying two runs of items one after the other keeps their records
      in that order. */
  lemma {:induction false} ClassifiedAppend(rules: seq<Rule>, a: seq<string>, b: seq<string>)
    ensures Classified(rules, a + b) == Classified(rules, a) + Classified(rules, b)
    decreases |b|
  {
    if b == [] {
      assert a + b == a;
    } else {
      var front, last := b[..|b| - 1], b[|b| - 1];
      assert (a + b)[..|a + b| - 1] == a + front;
      assert (a + b)[|a + b| - 1] == last;
      ClassifiedAppend(rules, a, front);
      match FirstFiring(rules, last)
      case Some(x) => AppendAssoc(Classified(rules, a), Classified(rules, front), [x]);
      case None =>
    }
  }

  /** An item that matches no rule contributes nothing. */
  lemma UnmatchedItemIgnored(rules: seq<Rule>, items: seq<string>, item: string)
    requires FirstFiring(rules, item).None?
    ensures Classified(rules, items + [item]) == Classified(rules, items)
  {
    assert (items + [item])[..|items|] == items;
  }

  /** The bullet items of the "Appointments:" paragraph. */
  function AppointmentItems(html: string): seq<string>
  {
    match SearchGroup(html, Section("Appointments:"))
    case None => []
    case Some(text) => FindAll(text, Bullet)
  }

  /** `extract_appointments`: the records of the bullet items, in item
      order, at most one per item. */
  method ExtractAppointments(html: string) returns (appointments: seq<Appointment>)
    ensures appointments == Classified(AppointmentRules, AppointmentItems(html))
  {
    appointments := ClassifyAll(AppointmentRules, AppointmentItems(html));
  }

  /** The loop of `extract_appointments`: each item's record, when a rule
      fires, is appended in turn. */
  method ClassifyAll(rules: seq<Rule>, items: seq<string>) returns (appointments: seq<Appointment>)
    ensures appointments == Classified(rules, items)
  {
    appointments := [];
    for k := 0 to |items|
      invariant appointments == Classified(rules, items[..k])
    {
      assert items[..k + 1][..k] == items[..k];
      var c := FirstFiring(rules, items[k]);
      if c.Some? {
        appointments := appointments + [c.value];
      }
    }
    assert items[..|items|] == items;
  }

  // ---------------------------------------------------------------------
  // Publications
  // ---------------------------------------------------------------------

  /** The first parenthesised four-digit year, else "Unknown". */
  function PublicationYear(li: string): (y: string)
    ensures y != "Unknown" ==> |y| == 4 && AllDigits(y) && Contains(li, "(" + y + ")")
    ensures y != "Unknown" ==> exists i | 0 <= i <= |li| - 6 ::
      && YearInParens(li, i) && y == li[i + 1..i + 5]
      && forall q | 0 <= q < i :: !YearInParens(li, q)
    ensures y == "Unknown" <==>
      forall i | 0 <= i <= |li| - 6 :: !(li[i] == '(' && DigitsIn(li, i + 1, i + 5) && li[i + 5] == ')')
  {
    match SearchGroup(li, ParenYear)
    case Some(y) =>
      ParenYearDigits(li);
      ParenYearFirst(li);
      var i := Search(li, ParenYear).value.start;
      assert YearInParens(li, i) && y == li[i + 1..i + 5];
      y
    case None =>
      ParenYearAbsent(li);
      "Unknown"
  }

  /** The first anchor text, unstripped, else "Unknown Title". */
  function PublicationTitle(li: string): (t: string)
    ensures !Found(li, AnchorText) ==> t == "Unknown Title"
    ensures Found(li, AnchorText) ==>
      && SearchGroup(li, AnchorText).Some?
      && t == SearchGroup(li, AnchorText).value && t != [] && '<' !in t && Contains(li, t)
  {
    SearchFound(li, AnchorText);
    match SearchGroup(li, AnchorText)
    case Some(t) => TextGroup(li, AnchorText); t
    case None => "Unknown Title"
  }

  /** The first `<em>` text, unstripped, else "Unknown Journal". */
  function PublicationJournal(li: string): (j: string)
    ensures !Found(li, Emphasis) ==> j == "Unknown Journal"
    ensures Found(li, Emphasis) ==>
      && SearchGroup(li, Emphasis).Some?
      && j == SearchGroup(li, Emphasis).value && j != [] && '<' !in j && Contains(li, j)
  {
    SearchFound(li, Emphasis);
    match SearchGroup(li, Emphasis)
    case Some(j) => TextGroup(li, Emphasis); j
    case None => "Unknown Journal"
  }

  /** `^([^(]+)` on the stripped item, stripped again: the text before the
      first '(', or "Unknown Authors" when the item is blank or opens with
      '('. */
  function PublicationAuthors(li: string): (a: string)
    ensures var t := Strip(li);
      && (t == [] || t[0] == '(' ==> a == "Unknown Authors")
      && (t != [] && t[0] != '(' ==> '(' !in a && Strip(a) == a && Contains(li, a))
      && (t != [] && t[0] != '(' ==> exists p | 0 < p <= |t| ::
            '(' !in t[..p] && (p == |t| || t[p] == '(') && a == Strip(t[..p]))
  {
    var t := Strip(li);
    if t == [] || t[0] == '(' then "Unknown Authors"
    else
      var p := match IndexOf(t, '(') case Some(p) => p case None => |t|;
      AuthorsInside(li, p);
      assert '(' !in t[..p] && (p == |t| || t[p] == '(');
      Strip(t[..p])
  }

  /** The stripped text before the first '(' is '('-free, already stripped
      and part of the item. */
  lemma AuthorsInside(li: string, p: nat)
    requires p <= |Strip(li)| && '(' !in Strip(li)[..p]
    ensures var a := Strip(Strip(li)[..p]);
      '(' !in a && Strip(a) == a && Contains(li, a)
  {
    var t := Strip(li);
    var head := t[..p];
    var a := Strip(head);
    StripIdempotent(head);
    StripInside(head);
    MissingFromPiece(head, a, '(');
    PrefixInside(t, p);
    StripInside(li);
    ContainsTrans(t, head, a);
    ContainsTrans(li, t, a);
  }

  /** One `<li>` item as a record; every field falls back on its own. */
  function PublicationOf(li: string): Publication
  {
    Publication(PublicationYear(li), PublicationTitle(li), PublicationJournal(li), PublicationAuthors(li))
  }

  /** The `<li>` items of the publications list. */
  function PublicationItems(html: string): seq<string>
  {
    match SearchGroup(html, PublicationsList)
    case None => []
    case Some(list) => FindAll(list, ListItem)
  }

  /** `extract_publications`: exactly one record per item, in item order;
      nothing when the list is absent. */
  method ExtractPublications(html: string) returns (publications: seq<Publication>)
    ensures |publications| == |PublicationItems(html)|
    ensures forall k | 0 <= k < |publications| :: publications[k] == PublicationOf(PublicationItems(html)[k])
    ensures !Found(html, PublicationsList) ==> publications == []
  {
    var items := PublicationItems(html);
    SearchFound(html, PublicationsList);
    assert !Found(html, PublicationsList) ==> items == [];
    publications := AppendEach(items, PublicationOf);
  }

  // ---------------------------------------------------------------------
  // Grants and awards
  // ---------------------------------------------------------------------

  /** `^(\d{4})` on the stripped item, else "Unknown". */
  function AwardYear(li: string): (y: string)
    ensures var t := Strip(li);
      && (y != "Unknown" <==> |t| >= 4 && DigitsIn(t, 0, 4))
      && (y != "Unknown" ==> AllDigits(y) && t == y + t[4..])
  {
    var t := Strip(li);
    if |t| >= 4 && DigitsIn(t, 0, 4) then t[..4] else "Unknown"
  }

  /** The first anchor text, stripped, else "Unknown Award". */
  function AwardName(li: string): (a: string)
    ensures !Found(li, AnchorText) ==> a == "Unknown Award"
    ensures Found(li, AnchorText) ==>
      && SearchGroup(li, AnchorText).Some?
      && a == Strip(SearchGroup(li, AnchorText).value) && '<' !in a && Strip(a) == a
  {
    SearchFound(li, AnchorText);
    match SearchGroup(li, AnchorText)
    case Some(g) =>
      TextGroup(li, AnchorText);
      StripIdempotent(g);
      StripInside(g);
      Strip(g)
    case None => "Unknown Award"
  }

  /** `re.sub(r'^,\s*', '', o)`: one leading comma and the whitespace after
      it go. */
  function DropLeadingComma(o: string): string
  {
    if o != [] && o[0] == ',' then LStrip(o[1..]) else o
  }

  /** The organisation: the text after the first "</a>" that is followed by
      some text, stripped, less a leading comma and the spaces after it
      (the second `re.sub(r'^\s+', '', …)` is the final left strip); else
      "Unknown Organization". */
  function AwardOrganization(li: string): (o: string)
    ensures !Found(li, AfterAnchor) ==> o == "Unknown Organization"
    ensures Found(li, AfterAnchor) ==> SearchGroup(li, AfterAnchor).Some?
    ensures SearchGroup(li, AfterAnchor).Some? ==>
      && '<' !in o && (o == [] || (!IsSpace(o[0]) && !IsSpace(o[|o| - 1])))
      && Contains(li, o)
    ensures SearchGroup(li, AfterAnchor).Some? ==> CleanedFrom(Strip(SearchGroup(li, AfterAnchor).value), o)
  {
    SearchFound(li, AfterAnchor);
    match SearchGroup(li, AfterAnchor)
    case Some(g) =>
      AfterAnchorGroup(li);
      OrganizationInside(li, g);
      CommaDropped(Strip(g));
      LStrip(DropLeadingComma(Strip(g)))
    case None => "Unknown Organization"
  }

  /** `o` is `g` itself unless `g` opens with a comma, and otherwise what
      follows that comma and the whitespace after it. */
  predicate CleanedFrom(g: string, o: string)
  {
    && ((g == [] || g[0] != ',') ==> o == g)
    && (g != [] && g[0] == ',' ==> CommaThen(g, o))
  }

  /** `t` is a comma, then only whitespace, then `o`, which does not start
      with whitespace. */
  predicate CommaThen(t: string, o: string)
  {
    var n := |t| - |o|;
    && 1 <= n && t[0] == ',' && SpacesIn(t, 1, n) && t[n..] == o
    && (o == [] || !IsSpace(o[0]))
  }

  /** Cleaning stripped text leaves it alone unless it opens with a comma,
      and then removes exactly that comma and the whitespace after it. */
  lemma CommaDropped(g: string)
    requires g == [] || (!IsSpace(g[0]) && !IsSpace(g[|g| - 1]))
    ensures CleanedFrom(g, LStrip(DropLeadingComma(g)))
  {
    var o := LStrip(DropLeadingComma(g));
    if g == [] || g[0] != ',' {
      assert SpaceEnd(g, 0) == 0;
    } else {
      var d := LStrip(g[1..]);
      assert SpaceEnd(d, 0) == 0;
      assert o == d;
      var n := |g| - |o|;
      assert g[n..] == g[1..][|g[1..]| - |d|..];
      forall m | 1 <= m < n
        ensures IsSpace(g[m])
      {
        assert g[m] == g[1..][m - 1];
      }
    }
  }

  /** Cleaning '<'-free text of the item gives '<'-free text of the item
      with no whitespace at either end. */
  lemma OrganizationInside(li: string, g: string)
    requires Contains(li, g) && '<' !in g
    ensures var o := LStrip(DropLeadingComma(Strip(g)));
      && '<' !in o && (o == [] || (!IsSpace(o[0]) && !IsSpace(o[|o| - 1])))
      && Contains(li, o)
  {
    var t := Strip(g);
    StripInside(g);
    var o := LStrip(DropLeadingComma(t));
    CleanedInside(t);
    ContainsTrans(g, t, o);
    MissingFromPiece(g, o, '<');
    ContainsTrans(li, g, o);
  }

  /** Dropping a leading comma and left-stripping gives a piece of the
      text that keeps its last character. */
  lemma CleanedInside(t: string)
    ensures var o := LStrip(DropLeadingComma(t));
      && Contains(t, o) && (o != [] ==> o[|o| - 1] == t[|t| - 1])
  {
    var d := DropLeadingComma(t);
    DropCommaInside(t);
    LStripInside(d);
    ContainsTrans(t, d, LStrip(d));
  }

  /** Dropping a leading comma gives a piece of the text that keeps its
      last character. */
  lemma DropCommaInside(t: string)
    ensures var d := DropLeadingComma(t);
      && Contains(t, d) && (d != [] ==> d[|d| - 1] == t[|t| - 1])
  {
    if t != [] && t[0] == ',' {
      LStripInside(t[1..]);
      ContainsShift(t, DropLeadingComma(t));
    } else {
      ContainsAt(t, t, 0);
    }
  }

  /** One grant or award item as a record. */
  function AwardOf(li: string): Award
  {
    Award(AwardYear(li), AwardName(li), AwardOrganization(li))
  }

  /** The `<li>` items of the list after the "Grants & Awards" heading. */
  function AwardItems(html: string): seq<string>
  {
    match SearchGroup(html, GrantsList)
    case None => []
    case Some(list) => FindAll(list, ListItem)
  }

  /** `extract_grants_awards`: exactly one record per item, in item order. */
  method ExtractGrantsAwards(html: string) returns (awards: seq<Award>)
    ensures |awards| == |AwardItems(html)|
    ensures forall k | 0 <= k < |awards| :: awards[k] == AwardOf(AwardItems(html)[k])
    ensures !Found(html, GrantsList) ==> awards == []
  {
    var items := AwardItems(html);
    SearchFound(html, GrantsList);
    assert !Found(html, GrantsList) ==> items == [];
    awards := AppendEach(items, AwardOf);
  }
}
