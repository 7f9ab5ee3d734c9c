/** update_readme.py: the facts taken from the homepage (e-mail address,
    website, profile links) and the Markdown README assembled from them and
    from the curated lists. */
module Readme {
  import opened Wrappers
  import opened Text
  import opened Patterns

  // ---------------------------------------------------------------------
  // Extracted information
  // ---------------------------------------------------------------------

  /** The lists the script writes out by hand (research interests,
      education, appointments, publications, awards). */
  datatype Curated = Curated(
    researchInterests: seq<string>,
    education: seq<string>,
    appointments: seq<string>,
    publications: seq<string>,
    awards: seq<string>)

  /** The dictionary returned by extract_info_from_html. */
  datatype ReadmeInfo = ReadmeInfo(
    name: string,
    title: string,
    institution: string,
    center: string,
    email: string,
    website: string,
    socialLinks: map<string, string>,
    researchInterests: seq<string>,
    education: seq<string>,
    appointments: seq<string>,
    publications: seq<string>,
    awards: seq<string>)

  const Name := "Yalin Yang"
  const Title := "Research Associate & GIS Programmer"
  const Institution := "West Virginia University"
  const Center := "West Virginia GIS Technical Center"
  const FallbackEmail := "yy00021@mail.wvu.edu"
  const SiteUrl := "https://gisyaliny.github.io/"

  /** The three profile sites, in the order they are tested. */
  datatype Profile = GoogleScholar | GitHub | LinkedIn

  /** The key a profile's link is stored under. */
  function KeyOf(p: Profile): string
  {
    match p
    case GoogleScholar => "Google Scholar"
    case GitHub => "GitHub"
    case LinkedIn => "LinkedIn"
  }

  /** The profile an href belongs to: the first of scholar.google.com,
      github.com and linkedin.com that it contains, if any. */
  function ProfileOf(href: string): Option<Profile>
  {
    if Contains(href, "scholar.google.com") then Some(GoogleScholar)
    else if Contains(href, "github.com") then Some(GitHub)
    else if Contains(href, "linkedin.com") then Some(LinkedIn)
    else None
  }

  /** The `social_links` dictionary after the loop over `hrefs`: each href
      of a profile overwrites that profile's entry; others are ignored. */
  function SocialLinks(hrefs: seq<string>): (links: map<string, string>)
    ensures forall k | k in links :: k in {"Google Scholar", "GitHub", "LinkedIn"}
  {
    if hrefs == [] then map[]
    else
      var links := SocialLinks(hrefs[..|hrefs| - 1]);
      match ProfileOf(hrefs[|hrefs| - 1])
      case None => links
      case Some(p) => links[KeyOf(p) := hrefs[|hrefs| - 1]]
  }

  /** No href after position `i` belongs to profile `p`. */
  predicate NoLater(hrefs: seq<string>, i: nat, p: Profile)
  {
    forall j | i < j < |hrefs| :: ProfileOf(hrefs[j]) != Some(p)
  }

  /** Links of other profiles leave a profile's entry alone. */
  lemma OtherKeys(links: map<string, string>, p: Profile, q: Profile, href: string)
    requires q != p
    ensures (KeyOf(p) in links[KeyOf(q) := href]) == (KeyOf(p) in links)
    ensures KeyOf(p) in links ==> links[KeyOf(q) := href][KeyOf(p)] == links[KeyOf(p)]
  {
    assert KeyOf(p) != KeyOf(q) by {
      if p.GoogleScholar? || q.GoogleScholar? {
        assert |KeyOf(p)| != |KeyOf(q)|;
      } else {
        assert KeyOf(p)[0] != KeyOf(q)[0];
      }
    }
  }

  /** A profile has an entry exactly when some href belongs to it. */
  lemma {:induction false} SocialLinksHas(hrefs: seq<string>, p: Profile)
    ensures KeyOf(p) in SocialLinks(hrefs) <==> exists i | 0 <= i < |hrefs| :: ProfileOf(hrefs[i]) == Some(p)
  {
    if hrefs != [] {
      var n := |hrefs| - 1;
      var front := hrefs[..n];
      SocialLinksHas(front, p);
      if ProfileOf(hrefs[n]) != Some(p) {
        if ProfileOf(hrefs[n]).Some? {
          OtherKeys(SocialLinks(front), p, ProfileOf(hrefs[n]).value, hrefs[n]);
        }
        if exists i | 0 <= i < |hrefs| :: ProfileOf(hrefs[i]) == Some(p) {
          var i :| 0 <= i < |hrefs| && ProfileOf(hrefs[i]) == Some(p);
          assert hrefs[i] == front[i];
        }
      }
    }
  }

  /** A profile's entry is the last href that belongs to it. */
  lemma {:induction false} SocialLinksLast(hrefs: seq<string>, p: Profile)
    requires KeyOf(p) in SocialLinks(hrefs)
    ensures exists i | 0 <= i < |hrefs| :: && ProfileOf(hrefs[i]) == Some(p) && NoLater(hrefs, i, p)
                                           && SocialLinks(hrefs)[KeyOf(p)] == hrefs[i]
  {
    var n := |hrefs| - 1;
    var front := hrefs[..n];
    if ProfileOf(hrefs[n]) == Some(p) {
      assert NoLater(hrefs, n, p);
    } else {
      if ProfileOf(hrefs[n]).Some? {
        OtherKeys(SocialLinks(front), p, ProfileOf(hrefs[n]).value, hrefs[n]);
      }
      SocialLinksLast(front, p);
      var i :| 0 <= i < n && ProfileOf(front[i]) == Some(p) && NoLater(front, i, p)
               && SocialLinks(front)[KeyOf(p)] == front[i];
      assert NoLater(hrefs, i, p) by {
        forall j | i < j < |hrefs|
          ensures ProfileOf(hrefs[j]) != Some(p)
        {
          if j < n {
            assert hrefs[j] == front[j];
          }
        }
      }
    }
  }

  /** The e-mail address: the first `mailto:` target, up to the next '"',
      taken verbatim; the fallback address when there is none. */
  function Email(content: string): (e: string)
    ensures match Search(content, Mailto)
      case None => e == FallbackEmail && forall i | 0 <= i <= |content| :: !MailtoAt(content, i)
      case Some(m) => MailtoTarget(content, m.start, e) && (forall q | 0 <= q < m.start :: !MailtoAt(content, q))
  {
    MailtoSearch(content);
    match Search(content, Mailto)
    case None => FallbackEmail
    case Some(m) => m.group
  }

  /** The website is the fixed address whether or not the page mentions it. */
  function Website(content: string): (w: string)
    ensures w == SiteUrl
  {
    if Contains(content, "https://gisyaliny.github.io/") then SiteUrl else SiteUrl
  }

  /** extract_info_from_html over the page text and the hrefs of its
      anchors, in document order. */
  method ExtractInfoFromHtml(content: string, hrefs: seq<string>, curated: Curated) returns (info: ReadmeInfo)
    ensures info.name == Name && info.title == Title
    ensures info.institution == Institution && info.center == Center
    ensures info.email == Email(content) && info.website == SiteUrl
    ensures info.socialLinks == SocialLinks(hrefs)
    ensures info.researchInterests == curated.researchInterests
    ensures info.education == curated.education && info.appointments == curated.appointments
    ensures info.publications == curated.publications && info.awards == curated.awards
  {
    var email := Email(content);
    var website := Website(content);
    var links: map<string, string> := map[];
    for k := 0 to |hrefs|
      invariant links == SocialLinks(hrefs[..k])
    {
      assert hrefs[..k + 1][..k] == hrefs[..k];
      var href := hrefs[k];
      if Contains(href, "scholar.google.com") {
        links := links["Google Scholar" := href];
      } else if Contains(href, "github.com") {
        links := links["GitHub" := href];
      } else if Contains(href, "linkedin.com") {
        links := links["LinkedIn" := href];
      }
    }
    assert hrefs[..|hrefs|] == hrefs;
    info := ReadmeInfo(Name, Title, Institution, Center, email, website, links,
                       curated.researchInterests, curated.education, curated.appointments,
                       curated.publications, curated.awards);
  }

  // ---------------------------------------------------------------------
  // The README
  // ---------------------------------------------------------------------

  /** The static research-topic and skills lists under "Research Interests". */
  const ResearchTopics: string
  /** The static sections from "Website Features" to the "Development" heading. */
  const SiteOverview: string
  /** The static "Local Development" instructions. */
  const LocalDevelopment: string
  /** The copyright sign, spelled as the script spells it. */
  const CopyrightSign := "¬©"

  /** `xs[:n]`: the leading elements, at most `n` of them. */
  function Leading<T>(xs: seq<T>, n: nat): (r: seq<T>)
    ensures |r| <= n && |r| <= |xs| && r == xs[..|r|]
    ensures |r| == n || r == xs
  {
    if |xs| <= n then xs else xs[..n]
  }

  /** One Markdown bullet. */
  function Bullet(item: string): string
  {
    "- " + item + "\n"
  }

  // The fixed text between the interpolated fields. The three prose
  // sentences are kept opaque, like the static sections above.
  const TitleTail := "'s Academic Website\n" + "\n"
  const OpeningLead := "This is the personal academic website of "
  /** The sentence on what the website showcases, and a blank line. */
  const OpeningClose: string
  const AboutHeading := "## About\n" + "\n"
  const CenterLink := "](https://wvgis.wvu.edu/) at "
  /** The sentence on the doctorate and specialisation, from " holds a
      Ph.D." on, and a blank line. */
  const DegreeSentence: string
  const InterestsHeading := "### Research Interests\n" + "\n"
  /** The sentence introducing the research topics, from " focuses on" on. */
  const FocusSentence: string

  /** The title, the introduction and the research interests, up to the
      Education heading. */
  function Intro(info: ReadmeInfo): string
  {
    "# " + info.name + TitleTail
    + OpeningLead + info.name + ", a " + info.title
    + " at the " + info.center + ", " + info.institution + ". " + OpeningClose
    + AboutHeading
    + info.name + " is a " + info.title + " at the [" + info.center + CenterLink + info.institution + ". "
    + info.name + DegreeSentence
    + InterestsHeading
    + info.name + FocusSentence
    + ResearchTopics
  }

  const EducationHeading := "## Education\n" + "\n"

  /** One bullet per education entry, in order. */
  function EducationBullets(info: ReadmeInfo): string
  {
    ConcatMap(info.education, Bullet)
  }

  /** The current position (the first appointment) and the heading of the
      remaining ones. */
  function PositionPart(info: ReadmeInfo): string
    requires info.appointments != []
  {
    "\n"
    + "## Current Position\n"
    + "\n"
    + info.appointments[0] + "\n"
    + "\n"
    + "## Professional Experience\n"
    + "\n"
  }

  /** One bullet per appointment after the first, in order. */
  function ExperienceBullets(info: ReadmeInfo): string
    requires info.appointments != []
  {
    ConcatMap(info.appointments[1..], Bullet)
  }

  /** One bullet for each of the first four publications. */
  function PublicationBullets(info: ReadmeInfo): string
  {
    ConcatMap(Leading(info.publications, 4), Bullet)
  }

  /** One bullet for each of the first six awards. */
  function AwardBullets(info: ReadmeInfo): string
  {
    ConcatMap(Leading(info.awards, 6), Bullet)
  }

  const PublicationsHeading := "\n" + "## Recent Publications\n" + "\n"
  const AwardsHeading := "\n" + "## Awards & Grants\n" + "\n"

  /** A contact line: a bold label and a Markdown link. */
  function LinkLine(caption: string, text: string, target: string): string
  {
    "- **" + caption + "**: [" + text + "](" + target + ")\n"
  }

  /** `social_links.get(key, '#')`. */
  function LinkOr(links: map<string, string>, key: string): (r: string)
    ensures key in links ==> r == links[key]
    ensures key !in links ==> r == "#"
  {
    if key in links then links[key] else "#"
  }

  /** The Contact section. */
  function Contact(info: ReadmeInfo): string
  {
    "## Contact\n"
    + "\n"
    + LinkLine("Email", info.email, "mailto:" + info.email)
    + LinkLine("Website", info.website, info.website)
    + LinkLine("Google Scholar", info.name, LinkOr(info.socialLinks, "Google Scholar"))
    + LinkLine("GitHub", "gisyaliny", LinkOr(info.socialLinks, "GitHub"))
    + LinkLine("LinkedIn", info.name, LinkOr(info.socialLinks, "LinkedIn"))
    + "\n"
  }

  const HostingLead := "The website is hosted on GitHub Pages and can be accessed at ["
  const LicenseLead := "## License\n" + "\n" + "All rights reserved. Copyright " + CopyrightSign + " "
  const StampLead := ".\n" + "\n" + "---\n" + "\n"
    + "*This README is automatically generated from the website content. "
    + "Last updated: "

  /** The static sections and the hosting line before the contact details. */
  function Hosting(info: ReadmeInfo): string
  {
    SiteOverview + HostingLead + info.website + "](" + info.website + ").\n" + LocalDevelopment
  }

  /** The licence line with the year, and the generation stamp. */
  function License(info: ReadmeInfo, currentYear: nat, lastUpdated: string): string
  {
    LicenseLead + NatToString(currentYear) + " " + info.name + StampLead + lastUpdated + "*\n"
  }

  /** Everything after the awards. */
  function Closing(info: ReadmeInfo, currentYear: nat, lastUpdated: string): string
  {
    Hosting(info) + Contact(info) + License(info, currentYear, lastUpdated)
  }

  /** The README text, for a non-empty list of appointments. */
  function ReadmePage(info: ReadmeInfo, currentYear: nat, lastUpdated: string): string
    requires info.appointments != []
  {
    Intro(info) + EducationHeading + EducationBullets(info)
    + PositionPart(info) + ExperienceBullets(info)
    + PublicationsHeading + PublicationBullets(info)
    + AwardsHeading + AwardBullets(info)
    + Closing(info, currentYear, lastUpdated)
  }

  /** What generate_readme returns: the README, or the index error that
      `appointments[0]` raises on an empty list. */
  function ReadmeText(info: ReadmeInfo, currentYear: nat, lastUpdated: string): (r: Result<string, string>)
    ensures r.Ok? <==> info.appointments != []
  {
    if info.appointments == [] then Err("list index out of range")
    else Ok(ReadmePage(info, currentYear, lastUpdated))
  }

  /** generate_readme: the README grown section by section. */
  method GenerateReadme(info: ReadmeInfo, currentYear: nat, lastUpdated: string) returns (r: Result<string, string>)
    ensures r == ReadmeText(info, currentYear, lastUpdated)
  {
    var content := Intro(info) + EducationHeading;
    content := AppendBlocks(content, info.education, Bullet);
    if info.appointments == [] {
      return Err("list index out of range");
    }
    assert content == Intro(info) + EducationHeading + EducationBullets(info);
    content := content + PositionPart(info);
    content := AppendBlocks(content, info.appointments[1..], Bullet);
    assert content == Intro(info) + EducationHeading + EducationBullets(info)
      + PositionPart(info) + ExperienceBullets(info);
    content := content + PublicationsHeading;
    content := AppendBlocks(content, Leading(info.publications, 4), Bullet);
    content := content + AwardsHeading;
    content := AppendBlocks(content, Leading(info.awards, 6), Bullet);
    content := content + Closing(info, currentYear, lastUpdated);
    r := Ok(content);
  }

  /** The README holds every education entry, the first appointment as
      the current position, every later appointment, and the leading four
      publications and six awards, each section's bullets in list order. */
  lemma ReadmeSections(info: ReadmeInfo, currentYear: nat, lastUpdated: string)
    requires info.appointments != []
    ensures var page := ReadmePage(info, currentYear, lastUpdated);
      && Contains(page, EducationBullets(info))
      && Contains(page, PositionPart(info))
      && Contains(page, ExperienceBullets(info))
      && Contains(page, PublicationBullets(info))
      && Contains(page, AwardBullets(info))
  {
    PiecesHold(Intro(info), EducationHeading, EducationBullets(info),
               PositionPart(info), ExperienceBullets(info),
               PublicationsHeading, PublicationBullets(info),
               AwardsHeading, AwardBullets(info),
               Closing(info, currentYear, lastUpdated));
  }

  /** The contact section links the e-mail address and the website, and
      each profile to its recorded link, or to '#' when none was found. */
  lemma ContactLinks(info: ReadmeInfo, currentYear: nat, lastUpdated: string)
    requires info.appointments != []
    ensures var page := ReadmePage(info, currentYear, lastUpdated);
      && Contains(page, LinkLine("Email", info.email, "mailto:" + info.email))
      && Contains(page, LinkLine("Website", info.website, info.website))
      && Contains(page, LinkLine("Google Scholar", info.name, LinkOr(info.socialLinks, "Google Scholar")))
      && Contains(page, LinkLine("GitHub", "gisyaliny", LinkOr(info.socialLinks, "GitHub")))
      && Contains(page, LinkLine("LinkedIn", info.name, LinkOr(info.socialLinks, "LinkedIn")))
  {
    var front := Intro(info) + EducationHeading + EducationBullets(info)
      + PositionPart(info) + ExperienceBullets(info)
      + PublicationsHeading + PublicationBullets(info)
      + AwardsHeading + AwardBullets(info);
    var page := ReadmePage(info, currentYear, lastUpdated);
    var closing := Closing(info, currentYear, lastUpdated);
    var upTo := Hosting(info) + Contact(info);
    ContainsRight(front, closing);
    ContainsLeft(upTo, License(info, currentYear, lastUpdated));
    ContainsTrans(page, closing, upTo);
    ContainsRight(Hosting(info), Contact(info));
    ContainsTrans(page, upTo, Contact(info));
    LinesHold(page, "## Contact\n" + "\n",
              LinkLine("Email", info.email, "mailto:" + info.email),
              LinkLine("Website", info.website, info.website),
              LinkLine("Google Scholar", info.name, LinkOr(info.socialLinks, "Google Scholar")),
              LinkLine("GitHub", "gisyaliny", LinkOr(info.socialLinks, "GitHub")),
              LinkLine("LinkedIn", info.name, LinkOr(info.socialLinks, "LinkedIn")), "\n");
  }

  /** Each of five lines between a head and a tail occurs in any page that
      holds the whole block. */
  lemma {:induction false} LinesHold(page: string, head: string, l1: string, l2: string, l3: string,
                                     l4: string, l5: string, tail: string)
    requires Contains(page, head + l1 + l2 + l3 + l4 + l5 + tail)
    ensures Contains(page, l1) && Contains(page, l2) && Contains(page, l3)
    ensures Contains(page, l4) && Contains(page, l5)
  {
    var p1 := head + l1;
    var p2 := p1 + l2;
    var p3 := p2 + l3;
    var p4 := p3 + l4;
    var p5 := p4 + l5;
    var block := p5 + tail;
    ContainsLeft(p5, tail);   ContainsTrans(page, block, p5);
    ContainsRight(p4, l5);    ContainsTrans(page, p5, l5);
    ContainsLeft(p4, l5);     ContainsTrans(page, p5, p4);
    ContainsRight(p3, l4);    ContainsTrans(page, p4, l4);
    ContainsLeft(p3, l4);     ContainsTrans(page, p4, p3);
    ContainsRight(p2, l3);    ContainsTrans(page, p3, l3);
    ContainsLeft(p2, l3);     ContainsTrans(page, p3, p2);
    ContainsRight(p1, l2);    ContainsTrans(page, p2, l2);
    ContainsLeft(p1, l2);     ContainsTrans(page, p2, p1);
    ContainsRight(head, l1);  ContainsTrans(page, p1, l1);
  }
}
