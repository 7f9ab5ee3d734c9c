/** The page side of the archived CV generator (archive/generate_cv.py):
    the check for the sections of an existing CV and the renderer of the
    CV page. The headings and item class names that the check looks for
    are the constants the renderer writes. */
module ArchiveCvPage {
  import opened Wrappers
  import opened Text
  import opened ArchiveCv

  const EducationTitle := "<h2>Education</h2>"
  const AppointmentsTitle := "<h2>Appointments</h2>"
  const PublicationsTitle := "<h2>Publications</h2>"
  const AwardsTitle := "<h2>Grants & Awards</h2>"

  const EducationClass := "education-item"
  const AppointmentClass := "appointment-item"
  const PublicationClass := "publication-item"
  const AwardClass := "award-item"

  // ---------------------------------------------------------------------
  // Sections of an existing CV
  // ---------------------------------------------------------------------

  /** `check_existing_cv_content` over the content of the CV file, `None`
      when there is no file: a section is marked only when both its `<h2>`
      heading and its item class name occur. */
  function CheckExistingCvContent(existing: Option<string>): (r: Option<map<string, bool>>)
    ensures existing.None? <==> r.None?
    ensures r.Some? ==> r.value.Keys <= {"publications", "education", "appointments", "grants_awards"}
    ensures r.Some? ==> forall key | key in r.value :: r.value[key]
    ensures r.Some? ==> var c := existing.value;
      && ("publications" in r.value <==> Contains(c, PublicationsTitle) && Contains(c, PublicationClass))
      && ("education" in r.value <==> Contains(c, EducationTitle) && Contains(c, EducationClass))
      && ("appointments" in r.value <==> Contains(c, AppointmentsTitle) && Contains(c, AppointmentClass))
      && ("grants_awards" in r.value <==> Contains(c, AwardsTitle) && Contains(c, AwardClass))
  {
    match existing
    case None => None
    case Some(c) =>
      var found := map[];
      var found := if Contains(c, PublicationsTitle) && Contains(c, PublicationClass)
        then found["publications" := true] else found;
      var found := if Contains(c, EducationTitle) && Contains(c, EducationClass)
        then found["education" := true] else found;
      var found := if Contains(c, AppointmentsTitle) && Contains(c, AppointmentClass)
        then found["appointments" := true] else found;
      var found := if Contains(c, AwardsTitle) && Contains(c, AwardClass)
        then found["grants_awards" := true] else found;
      Some(found)
  }

  // ---------------------------------------------------------------------
  // The CV page
  // ---------------------------------------------------------------------

  const DefaultName := "Yalin Yang"
  const DefaultEmail := "yy00021@mail.wvu.edu"
  const DefaultPhone := "+1-607-374-9844"
  const DefaultOffice := "330 Brooks Hall"
  const DefaultTitle := "Research Associate & GIS Programmer"

  /** `personal_info.get(key, default)`. */
  function Get(info: map<string, string>, key: string, default: string): string
  {
    if key in info then info[key] else default
  }

  /** The style sheet, split around the rule that names the four item
      classes. */
  const StyleTop :=
    "        body {\n"
    + "            font-family: Arial, sans-serif;\n"
    + "            line-height: 1.6;\n"
    + "            max-width: 800px;\n"
    + "            margin: 0 auto;\n"
    + "            padding: 20px;\n"
    + "        }\n"
    + "        h1 {\n"
    + "            color: #333;\n"
    + "            border-bottom: 2px solid #333;\n"
    + "            padding-bottom: 10px;\n"
    + "        }\n"
    + "        h2 {\n"
    + "            color: #666;\n"
    + "            margin-top: 30px;\n"
    + "            border-bottom: 1px solid #ccc;\n"
    + "            padding-bottom: 5px;\n"
    + "        }\n"
    + "        .contact-info {\n"
    + "            margin-bottom: 20px;\n"
    + "        }\n"
  const ItemRule := "        ." + PublicationClass + ", ." + EducationClass + ", ." + AppointmentClass
    + ", ." + AwardClass + " {\n"
  const StyleBottom :=
    "            margin-bottom: 10px;\n"
    + "            padding-left: 10px;\n"
    + "        }\n"
    + "        .year {\n"
    + "            font-weight: bold;\n"
    + "            color: #333;\n"
    + "        }\n"
    + "        .journal {\n"
    + "            font-style: italic;\n"
    + "        }\n"
    + "        .organization {\n"
    + "            font-weight: bold;\n"
    + "        }\n"

  /** The page up to the style rule for the item classes. */
  function HeadStart(name: string): string
  {
    "<!DOCTYPE html>\n<html lang=\"en\">\n<head>\n    <meta charset=\"UTF-8\">\n"
    + "    <meta name=\"viewport\" content=\"width=device-width, initial-scale=1.0\">\n"
    + "    <title>CV - " + name + "</title>\n"
    + "    <link rel=\"icon\" type=\"image/x-icon\" href=\"/img/YalinYang.ico\">\n"
    + "    <style>\n" + StyleTop
  }

  /** The page from after that rule to the end of the contact details. */
  function HeadEnd(name: string, email: string, phone: string, office: string, title: string): string
  {
    StyleBottom + "    </style>\n</head>\n<body>\n"
    + "    <h1>" + name + "</h1>\n    \n"
    + "    <div class=\"contact-info\">\n"
    + "        <p><strong>Email:</strong> " + email + "</p>\n"
    + "        <p><strong>Phone:</strong> " + phone + "</p>\n"
    + "        <p><strong>Office:</strong> " + office + "</p>\n"
    + "        <p><strong>Position:</strong> " + title + "</p>\n"
    + "    </div>\n"
  }

  /** The head of the page, each personal detail taken from `info` or its
      default. */
  function Head(info: map<string, string>): string
  {
    var name := Get(info, "name", DefaultName);
    HeadStart(name) + ItemRule
    + HeadEnd(name, Get(info, "email", DefaultEmail), Get(info, "phone", DefaultPhone),
              Get(info, "office", DefaultOffice), Get(info, "title", DefaultTitle))
  }

  const EducationHeading := "\n    " + EducationTitle + "\n"
  const AppointmentsHeading := "\n    " + AppointmentsTitle + "\n"
  const PublicationsHeading := "\n    " + PublicationsTitle + "\n"
  const AwardsHeading := "\n    " + AwardsTitle + "\n"
  const PageEnd := "\n</body>\n</html>\n"

  function EducationBlock(e: Education): string
  {
    "\n    <div class=\"" + EducationClass + "\">\n        <span class=\"year\">" + e.period + "</span> - "
    + e.degree + "<br>\n        " + e.institution + ", " + e.location + "\n    </div>\n"
  }

  function AppointmentBlock(a: Appointment): string
  {
    "\n    <div class=\"" + AppointmentClass + "\">\n        <span class=\"year\">" + a.period + "</span> - "
    + a.position + "<br>\n        " + a.institution + ", " + a.location + "\n    </div>\n"
  }

  function PublicationBlock(p: Publication): string
  {
    "\n    <div class=\"" + PublicationClass + "\">\n        <span class=\"year\">" + p.year + "</span> - "
    + p.authors + "<br>\n        " + p.title + "<br>\n        <span class=\"journal\">" + p.journal
    + "</span>\n    </div>\n"
  }

  function AwardBlock(w: Award): string
  {
    "\n    <div class=\"" + AwardClass + "\">\n        <span class=\"year\">" + w.year + "</span> - "
    + w.award + "<br>\n        <span class=\"organization\">" + w.organization + "</span>\n    </div>\n"
  }

  /** The whole page: head, then Education, Appointments, Publications
      and Grants & Awards, each a heading and one block per record in
      input order, then the closing tags. */
  function CvPage(info: map<string, string>, education: seq<Education>, appointments: seq<Appointment>,
                  publications: seq<Publication>, awards: seq<Award>): string
  {
    Head(info)
    + EducationHeading + ConcatMap(education, EducationBlock)
    + AppointmentsHeading + ConcatMap(appointments, AppointmentBlock)
    + PublicationsHeading + ConcatMap(publications, PublicationBlock)
    + AwardsHeading + ConcatMap(awards, AwardBlock)
    + PageEnd
  }

  /** `generate_cv_html`: the page grown section by section, one block per
      record. The sections found in an existing CV are accepted and play
      no part in the result. */
  method GenerateCvHtml(info: map<string, string>, education: seq<Education>, appointments: seq<Appointment>,
                        publications: seq<Publication>, awards: seq<Award>,
                        existingSections: Option<map<string, bool>>) returns (html: string)
    ensures html == CvPage(info, education, appointments, publications, awards)
  {
    html := Head(info);
    html := AppendBlocks(html + EducationHeading, education, EducationBlock);
    html := AppendBlocks(html + AppointmentsHeading, appointments, AppointmentBlock);
    html := AppendBlocks(html + PublicationsHeading, publications, PublicationBlock);
    html := AppendBlocks(html + AwardsHeading, awards, AwardBlock);
    html := html + PageEnd;
  }

  /** The default each personal detail falls back on. */
  const Defaults := map["name" := DefaultName, "title" := DefaultTitle, "email" := DefaultEmail,
                        "phone" := DefaultPhone, "office" := DefaultOffice]

  /** Each personal detail falls back on its own: a page whose details lack
      one key renders exactly as the page with that key set to its default,
      whatever the other keys hold. */
  lemma MissingDetailsDefault(info: map<string, string>, key: string, education: seq<Education>,
                              appointments: seq<Appointment>, publications: seq<Publication>, awards: seq<Award>)
    requires key in Defaults && key !in info
    ensures CvPage(info, education, appointments, publications, awards)
         == CvPage(info[key := Defaults[key]], education, appointments, publications, awards)
  {
    var given := info[key := Defaults[key]];
    assert Get(info, "name", DefaultName) == Get(given, "name", DefaultName);
    assert Get(info, "email", DefaultEmail) == Get(given, "email", DefaultEmail);
    assert Get(info, "phone", DefaultPhone) == Get(given, "phone", DefaultPhone);
    assert Get(info, "office", DefaultOffice) == Get(given, "office", DefaultOffice);
    assert Get(info, "title", DefaultTitle) == Get(given, "title", DefaultTitle);
  }

  /** The style rule names the four classes. */
  lemma {:induction false} RuleHolds(a: string, c1: string, b: string, c2: string, c3: string, c4: string, z: string)
    ensures var rule := a + c1 + b + c2 + b + c3 + b + c4 + z;
      Contains(rule, c1) && Contains(rule, c2) && Contains(rule, c3) && Contains(rule, c4)
  {
    var p1 := a + c1;
    var p2 := p1 + b;
    var p3 := p2 + c2;
    var p4 := p3 + b;
    var p5 := p4 + c3;
    var p6 := p5 + b;
    var p7 := p6 + c4;
    var rule := p7 + z;
    ContainsLeft(p7, z);
    ContainsRight(p6, c4);   ContainsTrans(rule, p7, c4);
    ContainsLeft(p6, c4);    ContainsTrans(rule, p7, p6);
    ContainsLeft(p5, b);     ContainsTrans(rule, p6, p5);
    ContainsRight(p4, c3);   ContainsTrans(rule, p5, c3);
    ContainsLeft(p4, c3);    ContainsTrans(rule, p5, p4);
    ContainsLeft(p3, b);     ContainsTrans(rule, p4, p3);
    ContainsRight(p2, c2);   ContainsTrans(rule, p3, c2);
    ContainsLeft(p2, c2);    ContainsTrans(rule, p3, p2);
    ContainsLeft(p1, b);     ContainsTrans(rule, p2, p1);
    ContainsRight(a, c1);    ContainsTrans(rule, p1, c1);
  }

  /** Every generated page, whatever the records, is recognised as already
      holding all four sections: each heading is always written and the
      style sheet names every item class. */
  lemma GeneratedPageRecognised(info: map<string, string>, education: seq<Education>, appointments: seq<Appointment>,
                                publications: seq<Publication>, awards: seq<Award>)
    ensures CheckExistingCvContent(Some(CvPage(info, education, appointments, publications, awards)))
         == Some(map["publications" := true, "education" := true, "appointments" := true, "grants_awards" := true])
  {
    PageHasTitles(info, education, appointments, publications, awards);
    PageHasClasses(info, education, appointments, publications, awards);
  }

  /** Each of the four `<h2>` headings occurs in every page. */
  lemma PageHasTitles(info: map<string, string>, education: seq<Education>, appointments: seq<Appointment>,
                      publications: seq<Publication>, awards: seq<Award>)
    ensures var page := CvPage(info, education, appointments, publications, awards);
      && Contains(page, EducationTitle) && Contains(page, AppointmentsTitle)
      && Contains(page, PublicationsTitle) && Contains(page, AwardsTitle)
  {
    TitlesHold(Head(info), ConcatMap(education, EducationBlock), ConcatMap(appointments, AppointmentBlock),
               ConcatMap(publications, PublicationBlock), ConcatMap(awards, AwardBlock));
  }

  /** The headings hold their titles whatever the head and the sections. */
  lemma TitlesHold(head: string, b1: string, b2: string, b3: string, b4: string)
    ensures var page := head + EducationHeading + b1 + AppointmentsHeading + b2
                        + PublicationsHeading + b3 + AwardsHeading + b4 + PageEnd;
      && Contains(page, EducationTitle) && Contains(page, AppointmentsTitle)
      && Contains(page, PublicationsTitle) && Contains(page, AwardsTitle)
  {
    var page := head + EducationHeading + b1 + AppointmentsHeading + b2
                + PublicationsHeading + b3 + AwardsHeading + b4 + PageEnd;
    PiecesHold(head, EducationHeading, b1, AppointmentsHeading, b2, PublicationsHeading, b3, AwardsHeading, b4, PageEnd);
    HeadingHolds(page, "\n    ", EducationTitle, "\n");
    HeadingHolds(page, "\n    ", AppointmentsTitle, "\n");
    HeadingHolds(page, "\n    ", PublicationsTitle, "\n");
    HeadingHolds(page, "\n    ", AwardsTitle, "\n");
  }

  /** Each of the four item class names occurs in every page, in the style
      sheet. */
  lemma PageHasClasses(info: map<string, string>, education: seq<Education>, appointments: seq<Appointment>,
                       publications: seq<Publication>, awards: seq<Award>)
    ensures var page := CvPage(info, education, appointments, publications, awards);
      && Contains(page, EducationClass) && Contains(page, AppointmentClass)
      && Contains(page, PublicationClass) && Contains(page, AwardClass)
  {
    HeadHasRule(info);
    ClassesHold(Head(info), ConcatMap(education, EducationBlock), ConcatMap(appointments, AppointmentBlock),
                ConcatMap(publications, PublicationBlock), ConcatMap(awards, AwardBlock));
  }

  /** A page whose head holds the style rule names every item class. */
  lemma ClassesHold(head: string, b1: string, b2: string, b3: string, b4: string)
    requires Contains(head, ItemRule)
    ensures var page := head + EducationHeading + b1 + AppointmentsHeading + b2
                        + PublicationsHeading + b3 + AwardsHeading + b4 + PageEnd;
      && Contains(page, EducationClass) && Contains(page, AppointmentClass)
      && Contains(page, PublicationClass) && Contains(page, AwardClass)
  {
    var page := head + EducationHeading + b1 + AppointmentsHeading + b2
                + PublicationsHeading + b3 + AwardsHeading + b4 + PageEnd;
    PiecesHold(head, EducationHeading, b1, AppointmentsHeading, b2, PublicationsHeading, b3, AwardsHeading, b4, PageEnd);
    ContainsTrans(page, head, ItemRule);
    RuleHolds("        .", PublicationClass, ", .", EducationClass, AppointmentClass, AwardClass, " {\n");
    ContainsTrans(page, ItemRule, PublicationClass);
    ContainsTrans(page, ItemRule, EducationClass);
    ContainsTrans(page, ItemRule, AppointmentClass);
    ContainsTrans(page, ItemRule, AwardClass);
  }

  /** The head of every page holds the style rule for the item classes. */
  lemma HeadHasRule(info: map<string, string>)
    ensures Contains(Head(info), ItemRule)
  {
    var name := Get(info, "name", DefaultName);
    var tail := HeadEnd(name, Get(info, "email", DefaultEmail), Get(info, "phone", DefaultPhone),
                        Get(info, "office", DefaultOffice), Get(info, "title", DefaultTitle));
    ContainsLeft(HeadStart(name) + ItemRule, tail);
    ContainsRight(HeadStart(name), ItemRule);
    ContainsTrans(Head(info), HeadStart(name) + ItemRule, ItemRule);
  }

  /** A heading placed in a page brings its `<h2>` element with it. */
  lemma HeadingHolds(page: string, indent: string, title: string, newline: string)
    requires Contains(page, indent + title + newline)
    ensures Contains(page, title)
  {
    ContainsLeft(indent + title, newline);
    ContainsRight(indent, title);
    ContainsTrans(indent + title + newline, indent + title, title);
    ContainsTrans(page, indent + title + newline, title);
  }

  /** Every section's rendering occurs in the page. */
  lemma RecordsInPage(info: map<string, string>, education: seq<Education>, appointments: seq<Appointment>,
                      publications: seq<Publication>, awards: seq<Award>)
    ensures var page := CvPage(info, education, appointments, publications, awards);
      && Contains(page, ConcatMap(education, EducationBlock))
      && Contains(page, ConcatMap(appointments, AppointmentBlock))
      && Contains(page, ConcatMap(publications, PublicationBlock))
      && Contains(page, ConcatMap(awards, AwardBlock))
  {
    PiecesHold(Head(info), EducationHeading, ConcatMap(education, EducationBlock),
              AppointmentsHeading, ConcatMap(appointments, AppointmentBlock),
              PublicationsHeading, ConcatMap(publications, PublicationBlock),
              AwardsHeading, ConcatMap(awards, AwardBlock), PageEnd);
  }

}
