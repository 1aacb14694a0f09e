/** The signed-in recruitment wizard (src/app/recruit/page.tsx): five steps
    (Basic Info, Expertise, Teams & Commitment, Interview, Review & Submit),
    a Next that gates on the current step's fields, an unconditional
    Previous, a progress bar, the interview-date catalogue with past dates
    disabled, and the per-field rules given to react-hook-form. Whether a
    step's fields validate, the errors react-hook-form reports, today's date
    and the outcome of the submission request are inputs. */
module RecruitPage {
  import opened Form
  import RecruitApi

  /** The Review & Submit step: `steps.length - 1`. */
  const LastStep: int := 4

  // ---------------------------------------------------------------------
  // Catalogue and pure helpers

  const TeamNames: seq<string> :=
    ["Content Team", "Technical Team", "Outreach Team", "Sponsorship Team", "UI/UX"]

  /** `getTeamDescription`: the blurb shown under each team checkbox. */
  function TeamDescription(team: string): string
  {
    match team
    case "Content Team" => "Creating blogs, documentation, and educational content"
    case "Technical Team" => "Building and maintaining tech projects"
    case "Outreach Team" => "Managing community relations and partnerships"
    case "Sponsorship Team" => "Securing funding and sponsor relationships"
    case "UI/UX" => "Designing user interfaces and experiences"
    case _ => ""
  }

  /** Exactly the catalogued teams have a description. */
  lemma TeamDescriptionDefined(team: string)
    ensures TeamDescription(team) != "" <==> team in TeamNames
  {
  }

  /** `getFieldsToValidateForStep`: the fields Next validates on each step;
      the review step, and any other value, validates none. */
  function StepFields(step: int): (fs: seq<Field>)
  {
    if step == 0 then [Email, FullName, DegreeType, Year, House]
    else if step == 1 then [Domains, Experience]
    else if step == 2 then [Teams, TimeCommitment]
    else if step == 3 then [InterviewDates, InterviewTimes]
    else []
  }

  /** The step whose Next validates a field; -1 for the optional fields
      no step gates. */
  function GatingStep(f: Field): int
  {
    match f
    case Email => 0
    case FullName => 0
    case DegreeType => 0
    case Year => 0
    case House => 0
    case Domains => 1
    case Experience => 1
    case Teams => 2
    case TimeCommitment => 2
    case InterviewDates => 3
    case InterviewTimes => 3
    case _ => -1
  }

  /** The step lists are the fields grouped by their gating step: a field
      is gated on at most one step, the review step gates none, and every
      field the endpoint requires is gated before the review. */
  lemma StepFieldsByGatingStep()
    ensures forall s: int, f: Field :: f in StepFields(s) <==> 0 <= s && GatingStep(f) == s
    ensures StepFields(LastStep) == []
    ensures forall j | 0 <= j < |RecruitApi.RequiredFields| :: 0 <= GatingStep(RecruitApi.RequiredFields[j]) < LastStep
  {
    forall s: int, f: Field ensures f in StepFields(s) <==> 0 <= s && GatingStep(f) == s {
      if s == 0 {
        assert f in StepFields(s) <==> f in [Email, FullName, DegreeType, Year, House];
      } else if s == 1 {
        assert f in StepFields(s) <==> f in [Domains, Experience];
      } else if s == 2 {
        assert f in StepFields(s) <==> f in [Teams, TimeCommitment];
      } else if s == 3 {
        assert f in StepFields(s) <==> f in [InterviewDates, InterviewTimes];
      }
    }
  }

  // ---------------------------------------------------------------------
  // Field rules (the options passed to `register`)

  /** `[a-zA-Z0-9_-]`, the profile-handle class of the URL patterns. */
  predicate HandleChar(c: char)
  {
    ('a' <= c <= 'z') || ('A' <= c <= 'Z') || ('0' <= c <= '9') || c == '_' || c == '-'
  }

  predicate StartsWithIgnoreCase(s: string, prefix: string)
  {
    |s| >= |prefix| && RecruitApi.EqualsIgnoreCase(s[..|prefix|], prefix)
  }

  /** The length of the scheme `https?:\/\/` at the front of `s`, ignoring
      case, or 0 when there is none. */
  function SchemeLength(s: string): int
  {
    if StartsWithIgnoreCase(s, "https://") then 8
    else if StartsWithIgnoreCase(s, "http://") then 7 else 0
  }

  /** The length of a leading `www\.`, ignoring case, or 0. */
  function WwwLength(s: string): int
  {
    if StartsWithIgnoreCase(s, "www.") then 4 else 0
  }

  /** `[a-zA-Z0-9_-]+\/?$`: a non-empty handle, then at most one '/'. */
  predicate HandleTail(t: string)
  {
    var handle := if |t| > 0 && t[|t| - 1] == '/' then t[..|t| - 1] else t;
    |handle| > 0 && forall k | 0 <= k < |handle| :: HandleChar(handle[k])
  }

  /** The regex's tail after the optional groups: the site text, ignoring
      case, then the handle. */
  predicate SiteAndHandle(rest: string, site: string)
  {
    StartsWithIgnoreCase(rest, site) && HandleTail(rest[|site|..])
  }

  /** `^(https?:\/\/)?(www\.)?<site>[a-zA-Z0-9_-]+\/?$` with the i flag,
      taking each optional group when it is there. */
  predicate ProfileUrl(s: string, site: string)
  {
    var a := SchemeLength(s);
    var b := a + WwwLength(s[a..]);
    SiteAndHandle(s[b..], site)
  }

  ghost predicate SchemeGroup(x: string)
  {
    x == "" || RecruitApi.EqualsIgnoreCase(x, "https://") || RecruitApi.EqualsIgnoreCase(x, "http://")
  }

  ghost predicate WwwGroup(x: string)
  {
    x == "" || RecruitApi.EqualsIgnoreCase(x, "www.")
  }

  /** The pattern read as a language: some split of `s` into a scheme group
      (possibly empty), a www group (possibly empty), and the site with its
      handle. */
  ghost predicate MatchesProfilePattern(s: string, site: string)
  {
    exists a, b | 0 <= a <= b <= |s| :: SchemeGroup(s[..a]) && WwwGroup(s[a..b]) && SiteAndHandle(s[b..], site)
  }

  /** Where the site's first letter is neither h nor w, as for both profile
      sites, the only split the pattern allows is the one that takes each
      optional group when it is there. */
  predicate SiteStartsPlainly(site: string)
  {
    |site| > 0 && RecruitApi.Lower(site[0]) != 'h' && RecruitApi.Lower(site[0]) != 'w'
  }

  lemma SchemeLengthOfGroup(s: string, a: int)
    requires 0 <= a <= |s| && SchemeGroup(s[..a])
    requires a == 0 ==> |s| > 0 && RecruitApi.Lower(s[0]) != 'h'
    ensures SchemeLength(s) == a
  {
    if a == 8 {
      assert s[..|"https://"|] == s[..a];
    } else if a == 7 {
      assert s[..|"http://"|] == s[..a];
      assert RecruitApi.Lower(s[..a][4]) == RecruitApi.Lower(':');
      if |s| >= 8 {
        assert s[..8][4] == s[..a][4];
      }
    } else {
      assert a == 0;
      if |s| >= 8 { assert s[..8][0] == s[0]; }
      if |s| >= 7 { assert s[..7][0] == s[0]; }
    }
  }

  lemma WwwLengthOfGroup(s: string, b: int)
    requires 0 <= b <= |s| && WwwGroup(s[..b])
    requires b == 0 ==> |s| > 0 && RecruitApi.Lower(s[0]) != 'w'
    ensures WwwLength(s) == b
  {
    if b == 4 {
      assert s[..|"www."|] == s[..b];
    } else if |s| >= 4 {
      assert s[..4][0] == s[0];
    }
  }

  lemma GreedySplitMatches(s: string, site: string)
    requires ProfileUrl(s, site)
    ensures MatchesProfilePattern(s, site)
  {
    var a := SchemeLength(s);
    var b := a + WwwLength(s[a..]);
    assert s[a..][..b - a] == s[a..b];
    assert SchemeGroup(s[..a]);
    assert WwwGroup(s[a..b]);
  }

  lemma PatternSplitIsGreedy(s: string, site: string, a: int, b: int)
    requires SiteStartsPlainly(site)
    requires 0 <= a <= b <= |s| && SchemeGroup(s[..a]) && WwwGroup(s[a..b]) && SiteAndHandle(s[b..], site)
    ensures SchemeLength(s) == a && a + WwwLength(s[a..]) == b
  {
    var rest := s[b..];
    assert RecruitApi.Lower(rest[..|site|][0]) == RecruitApi.Lower(site[0]);
    assert rest[..|site|][0] == s[b];
    if b == a {
      assert s[a..][0] == s[b];
    } else {
      assert RecruitApi.Lower(s[a..b][0]) == 'w';
      assert s[a..b][0] == s[a];
    }
    SchemeLengthOfGroup(s, a);
    assert s[a..][..b - a] == s[a..b];
    WwwLengthOfGroup(s[a..], b - a);
  }

  /** The greedy reading and the pattern accept the same strings. */
  lemma ProfileUrlIsPattern(s: string, site: string)
    requires SiteStartsPlainly(site)
    ensures ProfileUrl(s, site) <==> MatchesProfilePattern(s, site)
  {
    if ProfileUrl(s, site) {
      GreedySplitMatches(s, site);
    }
    if MatchesProfilePattern(s, site) {
      var a, b :| 0 <= a <= b <= |s| && SchemeGroup(s[..a]) && WwwGroup(s[a..b]) && SiteAndHandle(s[b..], site);
      PatternSplitIsGreedy(s, site, a, b);
    }
  }

  /** Both profile sites start with a letter the scheme and www groups
      cannot, so the greedy reading is exact for them. */
  lemma ProfileSitesStartPlainly()
    ensures SiteStartsPlainly(LinkedinSite) && SiteStartsPlainly(GithubSite)
  {
  }

  const LinkedinSite: string := "linkedin.com/in/"
  const GithubSite: string := "github.com/"
  const ExperienceMin: int := 50

  /** The first error react-hook-form reports for a field: `required` is
      tried first, then `minLength`, then `pattern`; the last two only
      look at non-empty strings. None when the value passes. */
  function FieldError(f: Field, v: Value): Option<string>
  {
    match f
    case Email =>
      if IsEmpty(v) then Some("Email is required")
      else if v.Str? && !RecruitApi.InstitutionalEmail(v.s) then
        Some("Must be a valid IITM email (@ds.study.iitm.ac.in or @es.study.iitm.ac.in)")
      else None
    case FullName => if IsEmpty(v) then Some("Full name is required") else None
    case DegreeType => if IsEmpty(v) then Some("Please select your degree type") else None
    case Year => if IsEmpty(v) then Some("Please select your current level") else None
    case House => if IsEmpty(v) then Some("Please select your house") else None
    case Linkedin =>
      if v.Str? && v.s != "" && !ProfileUrl(v.s, LinkedinSite) then
        Some("Please enter a valid LinkedIn URL or leave it empty")
      else None
    case Github =>
      if v.Str? && v.s != "" && !ProfileUrl(v.s, GithubSite) then
        Some("Please enter a valid GitHub URL or leave it empty")
      else None
    case Domains => if IsEmpty(v) then Some("Select at least one domain of interest") else None
    case Experience =>
      if IsEmpty(v) then Some("Please describe your technical experience")
      else if v.Str? && |v.s| < ExperienceMin then Some("Please provide at least 50 characters")
      else None
    case Teams => if IsEmpty(v) then Some("Select at least one team you'd like to join") else None
    case TimeCommitment => if IsEmpty(v) then Some("Please estimate your time commitment") else None
    case InterviewDates => if IsEmpty(v) then Some("Select at least one available date") else None
    case InterviewTimes => if IsEmpty(v) then Some("Select at least one preferred time slot") else None
    case _ => None
  }

  /** The email rule is the endpoint's pattern, behind a required check. */
  lemma EmailRuleIsServerRule(s: string)
    ensures FieldError(Email, Str(s)).None? <==> s != "" && RecruitApi.InstitutionalEmail(s)
  {
    if s == "" {
      assert !RecruitApi.InstitutionalEmail(s);
    }
  }

  /** Experience is required and needs at least 50 characters. */
  lemma ExperienceRule(s: string)
    ensures FieldError(Experience, Str(s)).None? <==> |s| >= ExperienceMin
  {
  }

  /** The profile links are optional: empty always passes, and a non-empty
      value passes exactly when it matches its URL pattern. */
  lemma ProfileLinksOptional(s: string)
    ensures FieldError(Linkedin, Str("")).None? && FieldError(Github, Str("")).None?
    ensures FieldError(Linkedin, Str(s)).None? <==> s == "" || MatchesProfilePattern(s, LinkedinSite)
    ensures FieldError(Github, Str(s)).None? <==> s == "" || MatchesProfilePattern(s, GithubSite)
  {
    ProfileUrlIsPattern(s, LinkedinSite);
    ProfileUrlIsPattern(s, GithubSite);
  }

  /** The error messages of the fields of `fs` that fail their rules in `values`. */
  function RuleErrors(values: map<Field, Value>, fs: seq<Field>): (errs: map<Field, string>)
    ensures forall f :: f in errs <==> f in fs && FieldError(f, ValueOf(values, f)).Some?
    ensures forall f | f in errs :: errs[f] == FieldError(f, ValueOf(values, f)).value
  {
    map f | f in fs && FieldError(f, ValueOf(values, f)).Some? :: FieldError(f, ValueOf(values, f)).value
  }

  // ---------------------------------------------------------------------
  // The Next warning

  /** Index of the first field of `fs` that has an entry in `errors`, or |fs|. */
  function FirstWithError(fs: seq<Field>, errors: map<Field, string>): (i: nat)
    ensures i <= |fs|
    ensures forall j | 0 <= j < i :: fs[j] !in errors
    ensures i < |fs| ==> fs[i] in errors
  {
    if fs == [] then 0
    else if fs[0] in errors then 0
    else 1 + FirstWithError(fs[1..], errors)
  }

  const GenericStepMessage: string := "Please fill in all required fields."
  const FallbackMessage: string := "Validation error"

  /** The warning toast after a failed Next: the message of the first field
      of the step, in list order, that has an error; the generic line when
      none has; "Validation error" when that message is empty. */
  function StepWarning(step: int, errors: map<Field, string>): string
  {
    var fs := StepFields(step);
    var i := FirstWithError(fs, errors);
    var msg := if i < |fs| then errors[fs[i]] else GenericStepMessage;
    if msg != "" then msg else FallbackMessage
  }

  /** Every rule message is non-empty, so the "Validation error" fallback
      never replaces one. */
  lemma RuleMessagesNonEmpty(f: Field, v: Value)
    ensures FieldError(f, v).Some? ==> FieldError(f, v).value != ""
  {
    match f {
      case Email =>
      case Linkedin =>
      case Github =>
      case Experience =>
      case _ =>
    }
  }

  lemma FirstWithErrorAt(fs: seq<Field>, errors: map<Field, string>, i: nat)
    requires i < |fs| && fs[i] in errors
    requires forall j | 0 <= j < i :: fs[j] !in errors
    ensures FirstWithError(fs, errors) == i
  {
  }

  /** On the rules' own errors, a step has none exactly when every one of
      its fields passes its rule, and then the warning is the generic line. */
  lemma NoRuleErrorsMeansGenericWarning(step: int, values: map<Field, Value>)
    ensures RuleErrors(values, StepFields(step)) == map[] <==>
      forall j | 0 <= j < |StepFields(step)| :: FieldError(StepFields(step)[j], ValueOf(values, StepFields(step)[j])).None?
    ensures RuleErrors(values, StepFields(step)) == map[] ==>
      StepWarning(step, RuleErrors(values, StepFields(step))) == GenericStepMessage
  {
    var fs := StepFields(step);
    var errs := RuleErrors(values, fs);
    if errs == map[] {
      forall j | 0 <= j < |fs| ensures FieldError(fs[j], ValueOf(values, fs[j])).None? {
        assert fs[j] !in errs;
      }
      assert FirstWithError(fs, errs) == |fs|;
    } else {
      var f :| f in errs;
      var j :| 0 <= j < |fs| && fs[j] == f;
      assert FieldError(fs[j], ValueOf(values, fs[j])).Some?;
    }
  }

  /** When react-hook-form's errors are the rules' own verdicts on the
      step's fields and some field fails, the warning is the rule message
      of the first failing field, every earlier field passing. */
  lemma WarningNamesFirstFailingField(step: int, values: map<Field, Value>, i: nat)
    requires i < |StepFields(step)|
    requires FieldError(StepFields(step)[i], ValueOf(values, StepFields(step)[i])).Some?
    requires forall j | 0 <= j < i :: FieldError(StepFields(step)[j], ValueOf(values, StepFields(step)[j])).None?
    ensures StepWarning(step, RuleErrors(values, StepFields(step))) ==
      FieldError(StepFields(step)[i], ValueOf(values, StepFields(step)[i])).value
  {
    var fs := StepFields(step);
    var errs := RuleErrors(values, fs);
    forall j | 0 <= j < i ensures fs[j] !in errs {
      assert FieldError(fs[j], ValueOf(values, fs[j])).None?;
    }
    FirstWithErrorAt(fs, errs, i);
    RuleMessagesNonEmpty(fs[i], ValueOf(values, fs[i]));
  }

  // ---------------------------------------------------------------------
  // Navigation

  /** `nextStep` once `trigger` has resolved to `stepValid`. */
  function Next(n: Nav, stepValid: bool): Nav
  {
    if stepValid then Nav(Min(n.step + 1, LastStep), Progress(n.step + 1)) else n
  }

  /** `prevStep`: back one step, never below 0, progress of the new step. */
  function Prev(n: Nav): Nav
  {
    var p := Max(n.step - 1, 0);
    Nav(p, Progress(p))
  }

  function Apply(n: Nav, m: Move): Nav
  {
    match m
    case Forward(ok) => Next(n, ok)
    case Back => Prev(n)
  }

  /** Presses in order. */
  function Drive(n: Nav, moves: seq<Move>): Nav
    decreases |moves|
  {
    if moves == [] then n else Drive(Apply(n, moves[0]), moves[1..])
  }

  /** The step is within 0..4 and the bar shows a quarter per step; the one
      exception is a valid Next on the review step, which keeps the step at
      4 and moves the bar to 125 (no control there calls Next). */
  ghost predicate NavInvariant(n: Nav)
  {
    0 <= n.step <= LastStep &&
    (n.progress == 25 * n.step || (n.step == LastStep && n.progress == 125))
  }

  /** A valid Next from step s < 4 reaches s + 1 with progress 25(s + 1);
      an invalid one changes nothing. */
  lemma NextAdvances(n: Nav)
    requires 0 <= n.step < LastStep
    ensures Next(n, true) == Nav(n.step + 1, 25 * (n.step + 1))
    ensures Next(n, false) == n
  {
  }

  /** Previous never validates: it goes to max(s - 1, 0) with progress 25
      times the new step, whatever the state. */
  lemma PrevRetreats(n: Nav)
    ensures Prev(n).step == (if n.step >= 1 then n.step - 1 else 0)
    ensures Prev(n).progress == 25 * Prev(n).step
  {
  }

  lemma {:induction false} DriveKeepsInvariant(n: Nav, moves: seq<Move>)
    requires NavInvariant(n)
    ensures NavInvariant(Drive(n, moves))
    decreases |moves|
  {
    if moves != [] {
      DriveKeepsInvariant(Apply(n, moves[0]), moves[1..]);
    }
  }

  /** From the initial state, any sequence of presses keeps the step in 0..4. */
  lemma StepAlwaysInRange(moves: seq<Move>)
    ensures 0 <= Drive(Nav(0, 0), moves).step <= LastStep
  {
    DriveKeepsInvariant(Nav(0, 0), moves);
  }

  // ---------------------------------------------------------------------
  // Interview dates

  /** A catalogue date: its label and its day number (days since 1970-01-01,
      the local midnight `new Date(label)` denotes). */
  datatype InterviewDate = InterviewDate(text: string, day: int)

  const DateCatalog: seq<InterviewDate> := [
    InterviewDate("May 5, 2025", 20213), InterviewDate("May 6, 2025", 20214),
    InterviewDate("May 7, 2025", 20215), InterviewDate("May 8, 2025", 20216),
    InterviewDate("May 9, 2025", 20217), InterviewDate("May 10, 2025", 20218),
    InterviewDate("May 11, 2025", 20219), InterviewDate("May 12, 2025", 20220)]

  /** `new Date(date) < getCurrentDateString()`, with `today` the day number
      of today's local midnight. */
  predicate IsPast(d: InterviewDate, today: int)
  {
    d.day < today
  }

  /** Today's date is not past, and a date once past stays past as the
      days go by. */
  lemma PastStaysPast(d: InterviewDate, today: int, later: int)
    requires today <= later
    ensures !IsPast(d, d.day)
    ensures IsPast(d, today) ==> IsPast(d, later)
    ensures !IsPast(d, later) ==> !IsPast(d, today)
  {
  }

  function NotPast(ds: seq<InterviewDate>, today: int): (r: seq<InterviewDate>)
    ensures |r| <= |ds|
    ensures forall d :: d in r <==> d in ds && !IsPast(d, today)
  {
    if ds == [] then []
    else if IsPast(ds[0], today) then NotPast(ds[1..], today)
    else [ds[0]] + NotPast(ds[1..], today)
  }

  /** `AVAILABLE_INTERVIEW_DATES`: the catalogue without past dates. The
      page computes this list but does not render it: the date checkboxes
      are drawn from the whole catalogue, with the past ones disabled, so
      this list is exactly the set of enabled boxes. */
  function AvailableDates(today: int): seq<InterviewDate>
  {
    NotPast(DateCatalog, today)
  }

  predicate SortedByDay(ds: seq<InterviewDate>)
  {
    forall i, j | 0 <= i < j < |ds| :: ds[i].day < ds[j].day
  }

  /** On a catalogue in day order, dropping the past dates leaves a suffix:
      the dates from the first one not yet past. */
  lemma {:induction false} NotPastIsSuffix(ds: seq<InterviewDate>, today: int)
    requires SortedByDay(ds)
    ensures exists k | 0 <= k <= |ds| :: NotPast(ds, today) == ds[k..]
    decreases |ds|
  {
    if ds == [] {
      assert NotPast(ds, today) == ds[0..];
    } else if IsPast(ds[0], today) {
      NotPastIsSuffix(ds[1..], today);
      var k :| 0 <= k <= |ds[1..]| && NotPast(ds[1..], today) == ds[1..][k..];
      assert ds[1..][k..] == ds[k + 1..];
    } else {
      forall d | d in ds ensures !IsPast(d, today) {
        var i :| 0 <= i < |ds| && ds[i] == d;
        assert i == 0 || ds[0].day < ds[i].day;
      }
      NotPastKeepsAll(ds, today);
      assert NotPast(ds, today) == ds[0..];
    }
  }

  lemma {:induction false} NotPastKeepsAll(ds: seq<InterviewDate>, today: int)
    requires forall d | d in ds :: !IsPast(d, today)
    ensures NotPast(ds, today) == ds
    decreases |ds|
  {
    if ds != [] {
      assert ds[0] in ds;
      forall d | d in ds[1..] ensures !IsPast(d, today) {
        assert d in ds;
      }
      NotPastKeepsAll(ds[1..], today);
    }
  }

  /** The filtered list holds exactly the catalogue dates from today on, a
      suffix of the catalogue; a checkbox is disabled exactly when its date
      is not in the list, so the list is the set of enabled boxes. */
  lemma AvailableDatesFromToday(today: int)
    ensures forall d :: d in AvailableDates(today) <==> d in DateCatalog && d.day >= today
    ensures forall d | d in DateCatalog :: IsPast(d, today) <==> d !in AvailableDates(today)
    ensures exists k | 0 <= k <= |DateCatalog| :: AvailableDates(today) == DateCatalog[k..]
  {
    NotPastIsSuffix(DateCatalog, today);
  }

  /** The checked dates after a click on the box labelled `x`, in catalogue
      order: the box toggles, the others keep their state. */
  function Toggle(labels: seq<string>, checked: seq<string>, x: string): (r: seq<string>)
    ensures forall y | y in labels :: y in r <==> (if y == x then y !in checked else y in checked)
    ensures forall y | y in r :: y in labels
  {
    if labels == [] then []
    else
      var rest := Toggle(labels[1..], checked, x);
      var on := if labels[0] == x then labels[0] !in checked else labels[0] in checked;
      if on then [labels[0]] + rest else rest
  }

  function Labels(ds: seq<InterviewDate>): (ls: seq<string>)
    ensures |ls| == |ds| && forall i | 0 <= i < |ds| :: ls[i] == ds[i].text
  {
    if ds == [] then [] else [ds[0].text] + Labels(ds[1..])
  }

  /** The dates ticked in the form's `interviewDates` value; a value that
      is not a list ticks nothing. */
  function CheckedOf(v: Value): (r: seq<string>)
    ensures IsEmpty(v) ==> r == []
    ensures v.Strs? ==> (r == [] <==> IsEmpty(v))
    ensures forall x | x in r :: v.Strs? && x in v.items
  {
    if v.Strs? then v.items else []
  }

  // ---------------------------------------------------------------------
  // The wizard's state

  const SubmittedMessage: string := "Application submitted successfully!"
  const NetworkFailureMessage: string := "Submission failed. Check your connection or console for details."

  /** The toast after a response that is not ok. */
  function FailureMessage(statusText: string): string
  {
    "Submission failed: " + (if statusText != "" then statusText else "Server Error") + ". Please try again."
  }

  /** The failure toast names the status text, so two different non-empty
      status texts give different toasts; an empty one reads as "Server
      Error". */
  lemma FailureMessageNamesStatus(a: string, b: string)
    ensures a != "" && b != "" ==> (FailureMessage(a) == FailureMessage(b) <==> a == b)
    ensures FailureMessage("") == FailureMessage("Server Error")
  {
    var pre := "Submission failed: ";
    var post := ". Please try again.";
    if a != "" && b != "" && FailureMessage(a) == FailureMessage(b) {
      assert FailureMessage(a)[|pre|..|FailureMessage(a)| - |post|] == a;
      assert FailureMessage(b)[|pre|..|FailureMessage(b)| - |post|] == b;
    }
  }

  /** `useForm`'s defaultValues, with the signed-in user's email. */
  function Defaults(clerkEmail: string): map<Field, Value>
  {
    map[Email := Str(clerkEmail), Domains := Strs([]), Teams := Strs([]),
        InterviewDates := Strs([]), InterviewTimes := Strs([]),
        DegreeType := Str(""), Year := Str(""), House := Str(""), TimeCommitment := Str("")]
  }

  /** The component's state: the step and progress `useState`s, the form
      values and default values react-hook-form keeps, the toast and the
      past-date warning. */
  class Wizard {
    var currentStep: int
    var formProgress: int
    var values: map<Field, Value>
    var defaults: map<Field, Value>
    var toast: Option<Toast>
    var dateWarning: Option<string>

    /** The navigation state the step and progress hold. */
    function State(): Nav
      reads this
    {
      Nav(currentStep, formProgress)
    }

    ghost predicate Valid()
      reads this
    {
      NavInvariant(State())
    }

    constructor (clerkEmail: string)
      ensures Valid()
      ensures State() == Nav(0, 0) && values == Defaults(clerkEmail) && defaults == values
      ensures toast == None && dateWarning == None
    {
      currentStep, formProgress := 0, 0;
      values := Defaults(clerkEmail);
      defaults := values;
      toast := None;
      dateWarning := None;
    }

    /** The effect that copies a non-empty Clerk email into the form with
      `reset`, which also makes the result the new default values. */
    method SyncClerkEmail(clerkEmail: string)
      requires Valid()
      modifies this
      ensures Valid()
      ensures values == (if clerkEmail != "" then old(values)[Email := Str(clerkEmail)] else old(values))
      ensures defaults == (if clerkEmail != "" then values else old(defaults))
      ensures State() == old(State()) && toast == old(toast) && dateWarning == old(dateWarning)
    {
      if clerkEmail != "" {
        values := values[Email := Str(clerkEmail)];
        defaults := values;
      }
    }

    /** Next: `stepValid` is what `trigger` resolved to for the step's
      fields, `errors` the error messages react-hook-form then holds. */
    method NextStep(stepValid: bool, errors: map<Field, string>)
      requires Valid()
      modifies this
      ensures Valid()
      ensures State() == Next(old(State()), stepValid)
      ensures toast == if stepValid then old(toast) else Some(Toast(StepWarning(old(State()).step, errors), Warning))
      ensures values == old(values) && defaults == old(defaults) && dateWarning == old(dateWarning)
    {
      if stepValid {
        var next := Min(currentStep + 1, LastStep);
        formProgress := CeilDiv(100 * (currentStep + 1), 4);
        currentStep := next;
      } else {
        var fields := StepFields(currentStep);
        var i := 0;
        while i < |fields| && fields[i] !in errors
          invariant 0 <= i <= |fields|
          invariant forall j | 0 <= j < i :: fields[j] !in errors
        {
          i := i + 1;
        }
        assert i == FirstWithError(fields, errors);
        var message := if i < |fields| then errors[fields[i]] else GenericStepMessage;
        toast := Some(Toast(if message != "" then message else FallbackMessage, Warning));
      }
    }

    method PrevStep()
      requires Valid()
      modifies this
      ensures Valid()
      ensures State() == Prev(old(State()))
      ensures values == old(values) && defaults == old(defaults)
      ensures toast == old(toast) && dateWarning == old(dateWarning)
    {
      var prev := Max(currentStep - 1, 0);
      currentStep := prev;
      formProgress := CeilDiv(100 * prev, 4);
    }

    /** The form's submit: `formValid` is whether `handleSubmit`'s full
      validation passed (when it fails `onSubmit` is not called), `outcome`
      how the request to the endpoint ended. */
    method Submit(formValid: bool, outcome: FetchOutcome)
      requires Valid()
      modifies this
      ensures Valid()
      ensures defaults == old(defaults) && dateWarning == old(dateWarning)
      ensures !formValid ==> State() == old(State()) && values == old(values) && toast == old(toast)
      ensures formValid && outcome.Responded? && outcome.ok ==>
        State() == Nav(0, 0) && values == defaults && toast == Some(Toast(SubmittedMessage, Success))
      ensures formValid && outcome.Responded? && !outcome.ok ==>
        State() == old(State()) && values == old(values) && toast == Some(Toast(FailureMessage(outcome.statusText), Error))
      ensures formValid && outcome == Threw ==>
        State() == old(State()) && values == old(values) && toast == Some(Toast(NetworkFailureMessage, Error))
    {
      if !formValid {
        return;
      }
      match outcome {
        case Responded(ok, statusText) =>
          if ok {
            toast := Some(Toast(SubmittedMessage, Success));
            values := defaults;
            currentStep := 0;
            formProgress := 0;
          } else {
            toast := Some(Toast(FailureMessage(statusText), Error));
          }
        case Threw =>
          toast := Some(Toast(NetworkFailureMessage, Error));
      }
    }

    /** A click on the checkbox of catalogue date `d`: a past date shows the
      warning and leaves the selection alone; any other date toggles. */
    method ClickDate(d: InterviewDate, today: int)
      requires Valid()
      requires d in DateCatalog
      modifies this
      ensures Valid()
      ensures State() == old(State()) && defaults == old(defaults) && toast == old(toast)
      ensures IsPast(d, today) ==>
        values == old(values) && dateWarning == Some(d.text + " has already passed and cannot be selected.")
      ensures !IsPast(d, today) ==> (dateWarning == old(dateWarning) &&
        values == old(values)[InterviewDates :=
          Strs(Toggle(Labels(DateCatalog), CheckedOf(ValueOf(old(values), InterviewDates)), d.text))])
    {
      if d.day < today {
        dateWarning := Some(d.text + " has already passed and cannot be selected.");
      } else {
        var checked := CheckedOf(ValueOf(values, InterviewDates));
        values := values[InterviewDates := Strs(Toggle(Labels(DateCatalog), checked, d.text))];
      }
    }
  }

  /** The toggle `ClickDate` applies to a date that is not past flips
      exactly that catalogue date and leaves every other catalogue date as
      it was. (A past date never reaches the toggle: `ClickDate` only sets
      the warning.) */
  lemma DateClickEffect(checked: seq<string>, d: InterviewDate)
    requires d in DateCatalog
    ensures
      var r := Toggle(Labels(DateCatalog), checked, d.text);
      (d.text in r <==> d.text !in checked) &&
      forall e | e in DateCatalog && e.text != d.text :: (e.text in r <==> e.text in checked)
  {
    var ls := Labels(DateCatalog);
    assert d.text in ls;
    forall e | e in DateCatalog ensures e.text in ls {
      var i :| 0 <= i < |DateCatalog| && DateCatalog[i] == e;
      assert ls[i] == e.text;
    }
  }
}
