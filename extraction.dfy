/**
 The per-profile part of `run_extraction` in app.py, and the `company` value
 that `send_email_campaign` substitutes into the message template.

 For every profile found by the search, the display name is split into a
 first and a last name, the employer's domain is looked up, and when the
 domain and both names are present an address is guessed; a lead row is
 recorded only when an address came back. The domain lookup
 (`extract_company_domain`, page scraping and `tldextract`) is the parameter
 `domainOf`; an exception that escapes the body for the profile at position
 `i` before its row is recorded is `interrupted(i)`.
 */
module Extraction {
  import opened Wrappers
  import opened PyStr
  import opened EmailGuess
  import opened ProfileSearch

  /** One row of the leads table: Name, Email, LinkedIn, Company Domain,
      First Name, Last Name. */
  datatype Lead = Lead(name: string, email: string, linkedIn: string, companyDomain: string,
                       firstName: string, lastName: string)

  /** `name.split(" ", 1)`, each part stripped; the last name is empty when
      there is no space. */
  function SplitName(display: string): (names: (string, string)) {
    var parts := SplitOnce(display, ' ');
    (Strip(parts[0]), if |parts| > 1 then Strip(parts[1]) else "")
  }

  /** A name with a space splits at its first space. */
  lemma SplitNameAtFirstSpace(given: string, rest: string)
    requires ' ' !in given
    ensures SplitName(given + " " + rest) == (Strip(given), Strip(rest))
  {
    SplitOnceOfJoin(given, ' ', rest);
  }

  /** A name without a space is all first name. */
  lemma SplitNameWithoutSpace(display: string)
    requires ' ' !in display
    ensures SplitName(display) == (Strip(display), "")
  {
  }

  /** The condition under which `run_extraction` asks for an address: a
      truthy domain and non-empty first and last names. */
  predicate LookupAttempted(first: string, last: string, domain: Option<string>) {
    domain.Some? && domain.value != [] && first != [] && last != []
  }

  /** The row recorded for one profile, if any, given the domain found for it. */
  function LeadFor(p: Profile, domain: Option<string>, verify: string -> Verdict): Option<Lead> {
    var (first, last) := SplitName(p.name);
    if LookupAttempted(first, last, domain) then
      match GuessedEmail(Lower(first), Lower(last), domain.value, verify)
      case None => None
      case Some(email) => Some(Lead(p.name, email, p.url, domain.value, first, last))
    else None
  }

  /** A row is recorded exactly when the lookup was attempted and returned an
      address; the row copies the profile's name and URL, the domain and the
      original-case names, and its address is a pattern of the lower-cased
      names at that domain which the check accepted. */
  lemma LeadForMeaning(p: Profile, domain: Option<string>, verify: string -> Verdict)
    ensures
      var (first, last) := SplitName(p.name);
      LeadFor(p, domain, verify).Some? <==>
        LookupAttempted(first, last, domain) && GuessedEmail(Lower(first), Lower(last), domain.value, verify).Some?
    ensures LeadFor(p, domain, verify).Some? ==>
      var lead := LeadFor(p, domain, verify).value;
      && lead.name == p.name && lead.linkedIn == p.url
      && domain == Some(lead.companyDomain) && lead.companyDomain != []
      && (lead.firstName, lead.lastName) == SplitName(p.name)
      && lead.firstName != [] && lead.lastName != []
      && EndsWith(lead.email, "@" + lead.companyDomain)
      && lead.email in Candidates(Lower(lead.firstName), Lower(lead.lastName), lead.companyDomain)
      && verify(lead.email) == Accepted
    ensures LeadFor(p, domain, verify).Some? ==>
      LeadFor(p, domain, verify).value.email
        == GuessedEmail(Lower(SplitName(p.name).0), Lower(SplitName(p.name).1), domain.value, verify).value
  {
    var (first, last) := SplitName(p.name);
    if LookupAttempted(first, last, domain) {
      var guessed := GuessedEmail(Lower(first), Lower(last), domain.value, verify);
      if guessed.Some? {
        var lead := Lead(p.name, guessed.value, p.url, domain.value, first, last);
        assert LeadFor(p, domain, verify) == Some(lead);
        GuessedEmailSound(Lower(first), Lower(last), domain.value, verify);
      } else {
        assert LeadFor(p, domain, verify) == None;
      }
    } else {
      assert LeadFor(p, domain, verify) == None;
    }
  }

  /** A row carries the name and URL of the profile it was made from. */
  lemma LeadForKeepsProfile(p: Profile, domain: Option<string>, verify: string -> Verdict)
    ensures LeadFor(p, domain, verify).Some? ==>
      Profile(LeadFor(p, domain, verify).value.name, LeadFor(p, domain, verify).value.linkedIn) == p
  {
  }

  /** The values carried by a sequence of optional values, in order. */
  function Somes<T>(xs: seq<Option<T>>): seq<T> {
    if xs == [] then []
    else
      var prev := Somes(xs[..|xs| - 1]);
      match xs[|xs| - 1]
      case None => prev
      case Some(x) => prev + [x]
  }

  lemma {:induction false} SomesSound<T>(xs: seq<Option<T>>)
    ensures |Somes(xs)| <= |xs|
    ensures forall x :: x in Somes(xs) ==> exists i :: 0 <= i < |xs| && xs[i] == Some(x)
  {
    if xs != [] {
      var init := xs[..|xs| - 1];
      SomesSound(init);
      forall x | x in Somes(xs) ensures exists i :: 0 <= i < |xs| && xs[i] == Some(x) {
        if x in Somes(init) {
          var i :| 0 <= i < |init| && init[i] == Some(x);
          assert xs[i] == Some(x);
        }
      }
    }
  }

  lemma {:induction false} SomesComplete<T>(xs: seq<Option<T>>, i: nat)
    requires i < |xs| && xs[i].Some?
    ensures xs[i].value in Somes(xs)
  {
    var init := xs[..|xs| - 1];
    if i < |xs| - 1 {
      assert init[i] == xs[i];
      SomesComplete(init, i);
    }
  }

  lemma {:induction false} SomesPrefix<T>(xs: seq<Option<T>>, n: nat)
    requires n < |xs|
    ensures Somes(xs[..n + 1]) == Somes(xs[..n]) + (if xs[n].Some? then [xs[n].value] else [])
  {
    assert xs[..n + 1][..n] == xs[..n];
  }

  /** What the loop body leaves for each profile: nothing when it was
      interrupted, otherwise the row `LeadFor` describes, if any. */
  function Outcomes(profiles: seq<Profile>, domainOf: string -> Option<string>,
                    verify: string -> Verdict, interrupted: nat -> bool): (r: seq<Option<Lead>>)
    ensures |r| == |profiles|
  {
    seq(|profiles|, i requires 0 <= i < |profiles| =>
      if interrupted(i) then None else LeadFor(profiles[i], domainOf(profiles[i].url), verify))
  }

  /** The `leads` list `run_extraction` builds. */
  function Leads(profiles: seq<Profile>, domainOf: string -> Option<string>,
                 verify: string -> Verdict, interrupted: nat -> bool): seq<Lead> {
    Somes(Outcomes(profiles, domainOf, verify, interrupted))
  }

  /** Every row comes from a profile whose body was not interrupted, and
      there is at most one row per profile. */
  lemma LeadsSound(profiles: seq<Profile>, domainOf: string -> Option<string>,
                   verify: string -> Verdict, interrupted: nat -> bool)
    ensures |Leads(profiles, domainOf, verify, interrupted)| <= |profiles|
    ensures forall lead :: lead in Leads(profiles, domainOf, verify, interrupted) ==>
      exists i :: 0 <= i < |profiles| && !interrupted(i) && LeadFor(profiles[i], domainOf(profiles[i].url), verify) == Some(lead)
  {
    var xs := Outcomes(profiles, domainOf, verify, interrupted);
    SomesSound(xs);
    forall lead | lead in Leads(profiles, domainOf, verify, interrupted)
      ensures exists i :: 0 <= i < |profiles| && !interrupted(i) && LeadFor(profiles[i], domainOf(profiles[i].url), verify) == Some(lead)
    {
      var i :| 0 <= i < |xs| && xs[i] == Some(lead);
    }
  }

  /** A profile whose body was not interrupted and whose lookup found an
      address has its row, whatever happened to the other profiles. */
  lemma LeadsComplete(profiles: seq<Profile>, domainOf: string -> Option<string>,
                      verify: string -> Verdict, interrupted: nat -> bool, i: nat)
    requires i < |profiles| && !interrupted(i)
    ensures LeadFor(profiles[i], domainOf(profiles[i].url), verify).Some? ==>
      LeadFor(profiles[i], domainOf(profiles[i].url), verify).value in Leads(profiles, domainOf, verify, interrupted)
  {
    if LeadFor(profiles[i], domainOf(profiles[i].url), verify).Some? {
      SomesComplete(Outcomes(profiles, domainOf, verify, interrupted), i);
    }
  }

  /** Rows keep the order of their profiles. */
  lemma {:induction false} SomesOrdered<T>(xs: seq<Option<T>>, a: nat, b: nat)
    requires a < b < |Somes(xs)|
    ensures exists i, j :: 0 <= i < j < |xs| && xs[i] == Some(Somes(xs)[a]) && xs[j] == Some(Somes(xs)[b])
  {
    var init := xs[..|xs| - 1];
    if b < |Somes(init)| {
      SomesOrdered(init, a, b);
      var i, j :| 0 <= i < j < |init| && init[i] == Some(Somes(init)[a]) && init[j] == Some(Somes(init)[b]);
      assert xs[i] == init[i] && xs[j] == init[j];
    } else {
      assert Somes(xs)[a] in Somes(init);
      SomesSound(init);
      var i :| 0 <= i < |init| && init[i] == Some(Somes(xs)[a]);
      assert xs[i] == init[i];
      assert xs[|xs| - 1] == Some(Somes(xs)[b]);
    }
  }

  /** Profiles without a repeated `{name, url}` pair give rows without a
      repeated (Name, LinkedIn) pair. */
  lemma LeadsDistinct(profiles: seq<Profile>, domainOf: string -> Option<string>,
                      verify: string -> Verdict, interrupted: nat -> bool)
    requires NoDuplicates(profiles)
    ensures var leads := Leads(profiles, domainOf, verify, interrupted);
      forall a, b :: 0 <= a < b < |leads| ==> Profile(leads[a].name, leads[a].linkedIn) != Profile(leads[b].name, leads[b].linkedIn)
  {
    var xs := Outcomes(profiles, domainOf, verify, interrupted);
    var leads := Somes(xs);
    forall a, b | 0 <= a < b < |leads|
      ensures Profile(leads[a].name, leads[a].linkedIn) != Profile(leads[b].name, leads[b].linkedIn)
    {
      SomesOrdered(xs, a, b);
      var i, j :| 0 <= i < j < |xs| && xs[i] == Some(leads[a]) && xs[j] == Some(leads[b]);
      assert xs[i] == LeadFor(profiles[i], domainOf(profiles[i].url), verify);
      assert xs[j] == LeadFor(profiles[j], domainOf(profiles[j].url), verify);
      LeadForKeepsProfile(profiles[i], domainOf(profiles[i].url), verify);
      LeadForKeepsProfile(profiles[j], domainOf(profiles[j].url), verify);
      assert profiles[i] != profiles[j];
      assert Profile(leads[a].name, leads[a].linkedIn) == profiles[i];
      assert Profile(leads[b].name, leads[b].linkedIn) == profiles[j];
    }
  }

  /** The body of the loop for one profile that raised nothing. Besides the
      row it returns the addresses handed to the deliverability check: none
      unless the domain and both names are present, otherwise a prefix of the
      patterns of the lower-cased names, in order. */
  method LeadForProfile(profile: Profile, domainOf: string -> Option<string>, verify: string -> Verdict)
    returns (lead: Option<Lead>, consulted: seq<string>)
    ensures lead == LeadFor(profile, domainOf(profile.url), verify)
    ensures !LookupAttempted(SplitName(profile.name).0, SplitName(profile.name).1, domainOf(profile.url)) ==>
      consulted == []
    ensures LookupAttempted(SplitName(profile.name).0, SplitName(profile.name).1, domainOf(profile.url)) ==>
      var patterns := Candidates(Lower(SplitName(profile.name).0), Lower(SplitName(profile.name).1),
                                 domainOf(profile.url).value);
      |consulted| <= 7 && consulted == patterns[..|consulted|]
    ensures lead.Some? ==> consulted != [] && lead.value.email == consulted[|consulted| - 1]
    ensures LookupAttempted(SplitName(profile.name).0, SplitName(profile.name).1, domainOf(profile.url)) && lead.None? ==>
      consulted == Candidates(Lower(SplitName(profile.name).0), Lower(SplitName(profile.name).1),
                              domainOf(profile.url).value)
  {
    var names := SplitName(profile.name);
    var first, last := names.0, names.1;
    var domain := domainOf(profile.url);
    if domain.Some? && domain.value != [] && first != [] && last != [] {
      assert LookupAttempted(first, last, domain);
      var email;
      email, consulted := GetValidEmail(Lower(first), Lower(last), domain.value, verify);
      if email.Some? {
        lead := Some(Lead(profile.name, email.value, profile.url, domain.value, first, last));
        assert LeadFor(profile, domain, verify) == lead;
      } else {
        lead := None;
        assert LeadFor(profile, domain, verify) == None;
      }
    } else {
      assert !LookupAttempted(first, last, domain);
      lead, consulted := None, [];
    }
  }

  /** The `for i, profile in enumerate(profiles)` loop of `run_extraction`. */
  method RunExtraction(profiles: seq<Profile>, domainOf: string -> Option<string>,
                       verify: string -> Verdict, interrupted: nat -> bool) returns (leads: seq<Lead>)
    ensures leads == Leads(profiles, domainOf, verify, interrupted)
  {
    ghost var outcomes := Outcomes(profiles, domainOf, verify, interrupted);
    leads := [];
    for i := 0 to |profiles|
      invariant leads == Somes(outcomes[..i])
    {
      SomesPrefix(outcomes, i);
      if interrupted(i) {
        // the exception is reported and the loop goes on with the next profile
        continue;
      }
      var lead, _ := LeadForProfile(profiles[i], domainOf, verify);
      if lead.Some? {
        leads := leads + [lead.value];
      }
    }
    assert outcomes[..|profiles|] == outcomes;
  }

  /** The search followed by the extraction loop: at most `limit` rows, no
      repeated (Name, LinkedIn) pair, each row's LinkedIn URL a profile URL. */
  method Extract(keyword: string, limit: int, browse: string -> Page, domainOf: string -> Option<string>,
                 verify: string -> Verdict, interrupted: nat -> bool) returns (leads: seq<Lead>)
    ensures leads == Leads(SearchResult(browse(SearchUrl(keyword)), limit), domainOf, verify, interrupted)
    ensures |leads| <= if limit < 0 then 0 else limit
    ensures forall a, b :: 0 <= a < b < |leads| ==>
      Profile(leads[a].name, leads[a].linkedIn) != Profile(leads[b].name, leads[b].linkedIn)
    ensures forall lead :: lead in leads ==> Admissible(Profile(lead.name, lead.linkedIn))
    ensures forall lead :: lead in leads ==> EndsWith(lead.email, "@" + lead.companyDomain)
  {
    var profiles := SearchProfiles(keyword, limit, browse);
    leads := RunExtraction(profiles, domainOf, verify, interrupted);
    LeadsSound(profiles, domainOf, verify, interrupted);
    LeadsDistinct(profiles, domainOf, verify, interrupted);
    forall lead | lead in leads
      ensures Admissible(Profile(lead.name, lead.linkedIn))
      ensures EndsWith(lead.email, "@" + lead.companyDomain)
    {
      var i :| 0 <= i < |profiles| && !interrupted(i) && LeadFor(profiles[i], domainOf(profiles[i].url), verify) == Some(lead);
      LeadForMeaning(profiles[i], domainOf(profiles[i].url), verify);
      assert Profile(lead.name, lead.linkedIn) == profiles[i];
    }
  }

  /** The values `send_email_campaign` substitutes into the template. */
  datatype TemplateFields = TemplateFields(name: string, firstName: string, lastName: string, company: string)

  /** `company` is the company domain up to, not including, its first `.`. */
  function FieldsFor(lead: Lead): (fields: TemplateFields)
    ensures fields.name == lead.name
    ensures fields.firstName == lead.firstName && fields.lastName == lead.lastName
    ensures '.' !in fields.company
    ensures StartsWith(lead.companyDomain, fields.company)
    ensures fields.company == lead.companyDomain || lead.companyDomain[|fields.company|] == '.'
  {
    TemplateFields(lead.name, lead.firstName, lead.lastName, BeforeFirst(lead.companyDomain, '.'))
  }
}
