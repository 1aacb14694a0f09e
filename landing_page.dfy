/** The earlier, unauthenticated wizard (src/app/page.tsx). It has the same
    five steps and step field lists as the signed-in wizard, but a
    case-sensitive ds-only email rule that only looks at the end of the
    string, a 100-character experience minimum, a Previous whose progress
    is computed from the old step, and a review preview that cuts the
    experience text at 100 characters. The lemmas at the end state where
    the two wizards agree and where they part. */
module LandingPage {
  import opened Form
  import RecruitApi
  import RecruitPage

  const LastStep: int := 4

  /** `getTeamDescription` of this page. */
  function TeamDescription(team: string): string
  {
    match team
    case "Content Team" => "Creating blogs, documentation, and educational content"
    case "Technical Team" => "Building and maintaining tech projects"
    case "Outreach Team" => "Managing community relations and partnerships"
    case "Sponsorship Team" => "Securing funding and sponsor relationships"
    case "UI/UX" => "Designing user interfaces and experiences"
    case _ => ""
  }

  /** `getFieldsToValidateForStep` of this page. */
  function StepFields(step: int): seq<Field>
  {
    match step
    case 0 => [Email, FullName, DegreeType, Year, House]
    case 1 => [Domains, Experience]
    case 2 => [Teams, TimeCommitment]
    case 3 => [InterviewDates, InterviewTimes]
    case _ => []
  }

  // ---------------------------------------------------------------------
  // The email rule: /.+@ds\.study\.iitm\.ac\.in$/ (no flags)

  const DsSuffix: string := "@ds.study.iitm.ac.in"

  /** The characters `.` does not match. */
  predicate LineTerminator(c: char)
  {
    c == '\n' || c == '\r' || c == '\U{2028}' || c == '\U{2029}'
  }

  /** The page's email test: the string ends with the suffix, in exactly
      this case, and the character before it is not a line terminator. */
  predicate DsEmail(s: string)
  {
    |s| > |DsSuffix| && s[|s| - |DsSuffix|..] == DsSuffix && !LineTerminator(s[|s| - |DsSuffix| - 1])
  }

  /** No line terminator from position i up to the suffix. */
  ghost predicate PlainRunFrom(s: string, i: int)
    requires 0 <= i <= |s| - |DsSuffix|
  {
    forall k | i <= k < |s| - |DsSuffix| :: !LineTerminator(s[k])
  }

  /** The pattern read as an unanchored search: the suffix at the very end,
      preceded by some non-empty run of characters other than line
      terminators. */
  ghost predicate MatchesDsPattern(s: string)
  {
    |s| >= |DsSuffix| && s[|s| - |DsSuffix|..] == DsSuffix &&
    exists i | 0 <= i < |s| - |DsSuffix| :: PlainRunFrom(s, i)
  }

  lemma DsEmailIsPattern(s: string)
    ensures DsEmail(s) <==> MatchesDsPattern(s)
  {
    if MatchesDsPattern(s) {
      var i :| 0 <= i < |s| - |DsSuffix| && PlainRunFrom(s, i);
      assert !LineTerminator(s[|s| - |DsSuffix| - 1]);
    }
    if DsEmail(s) {
      assert PlainRunFrom(s, |s| - |DsSuffix| - 1);
    }
  }

  // ---------------------------------------------------------------------
  // Field rules and the review preview

  const ExperienceMin: int := 100
  const PreviewLength: int := 100

  function FieldError(f: Field, v: Value): Option<string>
  {
    match f
    case Email =>
      if IsEmpty(v) then Some("Email is required")
      else if v.Str? && !DsEmail(v.s) then Some("Must be a valid IITM DS email")
      else None
    case FullName => if IsEmpty(v) then Some("Name is required") else None
    case House => if IsEmpty(v) then Some("House is required") else None
    case DegreeType => if IsEmpty(v) then Some("Degree type is required") else None
    case Year => if IsEmpty(v) then Some("Year is required") else None
    case Domains => if IsEmpty(v) then Some("Select at least one domain") else None
    case Experience =>
      if IsEmpty(v) then Some("Please share your technical experience")
      else if v.Str? && |v.s| < ExperienceMin then Some("Please provide at least 100 characters")
      else None
    case Teams => if IsEmpty(v) then Some("Select at least one team") else None
    case TimeCommitment => if IsEmpty(v) then Some("Time commitment is required") else None
    case InterviewDates => if IsEmpty(v) then Some("Select at least one date") else None
    case InterviewTimes => if IsEmpty(v) then Some("Select at least one time") else None
    case _ => None
  }

  /** The email rule is required-then-pattern: exactly the non-empty
      strings of the ds pattern pass. */
  lemma EmailRule(s: string)
    ensures FieldError(Email, Str(s)).None? <==> MatchesDsPattern(s)
  {
    DsEmailIsPattern(s);
  }

  /** Experience is required and needs at least 100 characters. */
  lemma ExperienceRule(s: string)
    ensures FieldError(Experience, Str(s)).None? <==> |s| >= ExperienceMin
  {
  }

  /** The review line for the experience text: "-" when there is none,
      else its first 100 characters, with "..." only when it is longer. */
  function ExperiencePreview(e: string): string
  {
    if e == "" then "-"
    else e[..Min(PreviewLength, |e|)] + (if |e| > PreviewLength then "..." else "")
  }

  lemma PreviewShape(e: string)
    requires e != ""
    ensures |e| <= PreviewLength ==> ExperiencePreview(e) == e
    ensures |e| > PreviewLength ==>
      ExperiencePreview(e) == e[..PreviewLength] + "..." && |ExperiencePreview(e)| == PreviewLength + 3
    ensures |ExperiencePreview(e)| <= PreviewLength + 3
  {
  }

  /** Any experience text that passes this page's rule previews as its
      own first 100 characters, never as "-", and untruncated (no "...")
      exactly when it is 100 characters long. */
  lemma PreviewOfValidExperience(e: string)
    requires FieldError(Experience, Str(e)).None?
    ensures |ExperiencePreview(e)| >= PreviewLength
    ensures |ExperiencePreview(e)| == PreviewLength <==> |e| == PreviewLength
    ensures ExperiencePreview(e)[..PreviewLength] == e[..PreviewLength]
    ensures |e| == PreviewLength ==> ExperiencePreview(e) == e
    ensures |e| > PreviewLength ==> ExperiencePreview(e)[PreviewLength..] == "..."
  {
    assert |e| >= ExperienceMin;
    if |e| > PreviewLength {
      assert ExperiencePreview(e) == e[..PreviewLength] + "...";
    }
  }

  // ---------------------------------------------------------------------
  // Navigation

  function Next(n: Nav, stepValid: bool): Nav
  {
    if stepValid then Nav(Min(n.step + 1, LastStep), Progress(n.step + 1)) else n
  }

  /** `prevStep` of this page: the step goes back as in the other wizard,
      but the progress is `Math.ceil(((currentStep - 1) / 4) * 100)` of the
      OLD step, so from step 0 it becomes -25. */
  function Prev(n: Nav): Nav
  {
    Nav(Max(n.step - 1, 0), Progress(n.step - 1))
  }

  function Apply(n: Nav, m: Move): Nav
  {
    match m
    case Forward(ok) => Next(n, ok)
    case Back => Prev(n)
  }

  function Drive(n: Nav, moves: seq<Move>): Nav
    decreases |moves|
  {
    if moves == [] then n else Drive(Apply(n, moves[0]), moves[1..])
  }

  /** The step stays in 0..4; the bar shows a quarter per step except for
      125 after a valid Next on the review step and -25 after a Previous on
      the first step (no control calls either). */
  ghost predicate NavInvariant(n: Nav)
  {
    0 <= n.step <= LastStep &&
    (n.progress == 25 * n.step
     || (n.step == LastStep && n.progress == 125)
     || (n.step == 0 && n.progress == -25))
  }

  lemma {:induction false} DriveKeepsInvariant(n: Nav, moves: seq<Move>)
    requires NavInvariant(n)
    ensures NavInvariant(Drive(n, moves))
    decreases |moves|
  {
    if moves != [] {
      DriveKeepsInvariant(Apply(n, moves[0]), moves[1..]);
    }
  }


  // ---------------------------------------------------------------------
  // The wizard's state

  const WarningMessage: string := "Please fill in all required fields"
  const SubmittedMessage: string := "Application submitted successfully!"
  const FailedMessage: string := "Submission failed. Please try again later."
  const NetworkFailureMessage: string := "Submission failed. Please check your connection and try again."

  /** `useForm`'s defaultValues on this page. */
  function Defaults(): map<Field, Value>
  {
    map[Domains := Strs([]), Teams := Strs([]), InterviewDates := Strs([]), InterviewTimes := Strs([])]
  }

  class Wizard {
    var currentStep: int
    var formProgress: int
    var values: map<Field, Value>
    var toast: Option<Toast>

    function State(): Nav
      reads this
    {
      Nav(currentStep, formProgress)
    }

    ghost predicate Valid()
      reads this
    {
      NavInvariant(State())
    }

    constructor ()
      ensures Valid()
      ensures State() == Nav(0, 0) && values == Defaults() && toast == None
    {
      currentStep, formProgress := 0, 0;
      values := Defaults();
      toast := None;
    }

    /** Next: `stepValid` is what `trigger` resolved to. */
    method NextStep(stepValid: bool)
      requires Valid()
      modifies this
      ensures Valid()
      ensures State() == Next(old(State()), stepValid)
      ensures toast == if stepValid then old(toast) else Some(Toast(WarningMessage, Warning))
      ensures values == old(values)
    {
      if stepValid {
        var step := currentStep;
        currentStep := Min(step + 1, LastStep);
        formProgress := CeilDiv(100 * (step + 1), 4);
      } else {
        toast := Some(Toast(WarningMessage, Warning));
      }
    }

    method PrevStep()
      requires Valid()
      modifies this
      ensures Valid()
      ensures State() == Prev(old(State()))
      ensures values == old(values) && toast == old(toast)
    {
      var step := currentStep;
      currentStep := Max(step - 1, 0);
      formProgress := CeilDiv(100 * (step - 1), 4);
    }

    method Submit(formValid: bool, outcome: FetchOutcome)
      requires Valid()
      modifies this
      ensures Valid()
      ensures !formValid ==> State() == old(State()) && values == old(values) && toast == old(toast)
      ensures formValid && outcome.Responded? && outcome.ok ==>
        State() == Nav(0, 0) && values == Defaults() && toast == Some(Toast(SubmittedMessage, Success))
      ensures formValid && outcome.Responded? && !outcome.ok ==>
        State() == old(State()) && values == old(values) && toast == Some(Toast(FailedMessage, Error))
      ensures formValid && outcome == Threw ==>
        State() == old(State()) && values == old(values) && toast == Some(Toast(NetworkFailureMessage, Error))
    {
      if !formValid {
        return;
      }
      match outcome {
        case Responded(ok, _) =>
          if ok {
            toast := Some(Toast(SubmittedMessage, Success));
            values := Defaults();
            currentStep := 0;
            formProgress := 0;
          } else {
            toast := Some(Toast(FailedMessage, Error));
          }
        case Threw =>
          toast := Some(Toast(NetworkFailureMessage, Error));
      }
    }
  }

  // ---------------------------------------------------------------------
  // The two wizards side by side

  /** Same step lists and same team descriptions. */
  lemma SameStepFields(step: int)
    ensures StepFields(step) == RecruitPage.StepFields(step)
  {
  }

  /** Both wizards describe the teams alike. */
  lemma SameTeamDescriptions(team: string)
    ensures TeamDescription(team) == RecruitPage.TeamDescription(team)
  {
  }

  /** Both wizards start every checkbox group empty, as an insert at the
      endpoint does; the signed-in wizard also presets the email. */
  lemma DefaultsAgree(clerkEmail: string)
    ensures Defaults() == RecruitApi.ArrayDefaults
    ensures forall f | f in Defaults() :: f in RecruitPage.Defaults(clerkEmail) && RecruitPage.Defaults(clerkEmail)[f] == Defaults()[f]
    ensures RecruitPage.Defaults(clerkEmail)[Email] == Str(clerkEmail)
  {
  }

  /** A fresh form passes the Next of no data-entry step in either wizard:
      on each of the steps 0..3 some field still fails its rule. */
  lemma FreshFormBlocksEveryStep(clerkEmail: string, step: int)
    requires 0 <= step < LastStep
    ensures RecruitPage.RuleErrors(RecruitPage.Defaults(clerkEmail), RecruitPage.StepFields(step)) != map[]
    ensures exists j | 0 <= j < |StepFields(step)| :: FieldError(StepFields(step)[j], ValueOf(Defaults(), StepFields(step)[j])).Some?
  {
    var d := RecruitPage.Defaults(clerkEmail);
    var f := if step == 0 then DegreeType else StepFields(step)[0];
    assert f in RecruitPage.StepFields(step);
    assert RecruitPage.FieldError(f, ValueOf(d, f)).Some?;
    assert f in RecruitPage.RuleErrors(d, RecruitPage.StepFields(step));
    assert FieldError(StepFields(step)[0], ValueOf(Defaults(), StepFields(step)[0])).Some?;
  }

  /** Next moves both wizards alike. */
  lemma SameNext(n: Nav, stepValid: bool)
    ensures Next(n, stepValid) == RecruitPage.Next(n, stepValid)
  {
  }

  /** Previous lands on the same step in both, and with the same progress
      exactly when it does not start from step 0; from step 0 this page
      shows -25 where the other shows 0. */
  lemma PrevDiverges(n: Nav)
    requires 0 <= n.step <= LastStep
    ensures Prev(n).step == RecruitPage.Prev(n).step
    ensures Prev(n) == RecruitPage.Prev(n) <==> n.step >= 1
    ensures n.step == 0 ==> Prev(n) == Nav(0, -25) && RecruitPage.Prev(n) == Nav(0, 0)
  {
  }

  /** A state of this page and one of the signed-in wizard that show the
      same step, not a negative one, and the same progress except for this page's -25 on step 0
      where the other shows 0. */
  predicate Corresponds(a: Nav, b: Nav)
  {
    0 <= a.step == b.step &&
    (a.progress == b.progress || (a.step == 0 && a.progress == -25 && b.progress == 0))
  }

  /** Both wizards, driven by the same presses from corresponding states
      (from the same initial state, say), stay in corresponding states:
      they are always on the same step, and their bars differ only by the
      -25 this page shows after a Previous on step 0. */
  lemma {:induction false} DriveCorresponds(a: Nav, b: Nav, moves: seq<Move>)
    requires Corresponds(a, b)
    ensures Corresponds(Drive(a, moves), RecruitPage.Drive(b, moves))
    decreases |moves|
  {
    if moves != [] {
      DriveCorresponds(Apply(a, moves[0]), RecruitPage.Apply(b, moves[0]), moves[1..]);
    }
  }

  /** From the initial state the step stays within 0..4 under any presses,
      as it does in the signed-in wizard. */
  lemma StepAlwaysInRange(moves: seq<Move>)
    ensures 0 <= Drive(Nav(0, 0), moves).step <= LastStep
  {
    DriveCorresponds(Nav(0, 0), Nav(0, 0), moves);
    RecruitPage.StepAlwaysInRange(moves);
  }

  /** On a lower-case ds address whose local part the endpoint accepts, the
      two email rules agree. */
  lemma EmailRulesAgreeOnDs(local: string)
    requires local != "" && RecruitApi.AllLocal(local)
    ensures DsEmail(local + DsSuffix)
    ensures RecruitApi.InstitutionalEmail(local + DsSuffix)
  {
    var s := local + DsSuffix;
    assert s[|s| - |DsSuffix|..] == DsSuffix;
    assert s[|s| - |DsSuffix| - 1] == local[|local| - 1];
    var i := |local|;
    assert s[..i] == local;
    assert s[i + 1..] == RecruitApi.DsDomain;
    forall j | 0 <= j < i ensures s[j] != '@' {
      assert RecruitApi.LocalChar(local[j]);
    }
    assert s[i] == '@';
    assert RecruitApi.IndexOf(s, '@') == i;
  }

  /** Where the two email rules agree: both accept a string exactly when
      it is a non-empty local part of the endpoint's characters followed by
      "@ds.study.iitm.ac.in" in this exact case. */
  lemma BothEmailRulesAccept(s: string)
    ensures (DsEmail(s) && RecruitApi.InstitutionalEmail(s)) <==>
      (|s| > |DsSuffix| && s[|s| - |DsSuffix|..] == DsSuffix && RecruitApi.AllLocal(s[..|s| - |DsSuffix|]))
  {
    var n := |s| - |DsSuffix|;
    if |s| > |DsSuffix| && s[n..] == DsSuffix && RecruitApi.AllLocal(s[..n]) {
      assert s == s[..n] + DsSuffix;
      EmailRulesAgreeOnDs(s[..n]);
    }
    if DsEmail(s) && RecruitApi.InstitutionalEmail(s) {
      var i := RecruitApi.IndexOf(s, '@');
      assert s[n] == DsSuffix[0] == '@';
      assert i <= n;
      assert |s[i + 1..]| == |RecruitApi.DsDomain|;
      assert i == n;
    }
  }

  /** An es address the endpoint accepts fails this page's rule. */
  lemma EsOnlyOnNewRule(local: string)
    requires local != "" && RecruitApi.AllLocal(local)
    ensures RecruitApi.InstitutionalEmail(local + "@" + RecruitApi.EsDomain)
    ensures !DsEmail(local + "@" + RecruitApi.EsDomain)
  {
    var s := local + "@" + RecruitApi.EsDomain;
    var i := |local|;
    assert s[..i] == local;
    assert s[i + 1..] == RecruitApi.EsDomain;
    forall j | 0 <= j < i ensures s[j] != '@' {
      assert RecruitApi.LocalChar(local[j]);
    }
    assert s[i] == '@';
    assert RecruitApi.IndexOf(s, '@') == i;
    assert s[i + 1] == 'e' && DsSuffix[1] == 'd';
    assert s[|s| - |DsSuffix|..][1] == s[i + 1];
  }

  const UpperDsDomain: string := "DS.study.iitm.ac.in"

  /** The endpoint folds case in the domain; this page does not. */
  lemma UpperCaseOnlyOnNewRule(local: string)
    requires local != "" && RecruitApi.AllLocal(local)
    ensures RecruitApi.InstitutionalEmail(local + "@" + UpperDsDomain)
    ensures !DsEmail(local + "@" + UpperDsDomain)
  {
    var s := local + "@" + UpperDsDomain;
    var i := |local|;
    assert s[..i] == local;
    assert s[i + 1..] == UpperDsDomain;
    forall j | 0 <= j < i ensures s[j] != '@' {
      assert RecruitApi.LocalChar(local[j]);
    }
    assert s[i] == '@';
    assert RecruitApi.IndexOf(s, '@') == i;
    assert UpperDsDomain[2..] == RecruitApi.DsDomain[2..];
    forall k | 0 <= k < |UpperDsDomain|
      ensures RecruitApi.Lower(UpperDsDomain[k]) == RecruitApi.Lower(RecruitApi.DsDomain[k])
    {
      if k >= 2 {
        assert UpperDsDomain[k] == UpperDsDomain[2..][k - 2];
      }
    }
    assert s[i + 1] == 'D' && DsSuffix[1] == 'd';
    assert s[|s| - |DsSuffix|..][1] == s[i + 1];
  }

  /** This page takes any local part at all, such as one with a space,
      which the endpoint refuses. */
  lemma LooseLocalOnlyOnOldRule()
    ensures DsEmail("a b" + DsSuffix)
    ensures !RecruitApi.InstitutionalEmail("a b" + DsSuffix)
  {
    var s := "a b" + DsSuffix;
    assert s[|s| - |DsSuffix|..] == DsSuffix;
    assert s[|s| - |DsSuffix| - 1] == 'b';
    assert s[0] != '@' && s[1] != '@' && s[2] != '@' && s[3] == '@';
    assert RecruitApi.IndexOf(s, '@') == 3;
    assert !RecruitApi.LocalChar(s[..3][1]);
  }

  /** An experience text of 50 to 99 characters passes the signed-in
      wizard's rule and fails this page's. */
  lemma ExperienceMinimumsDiverge(e: string)
    requires RecruitPage.ExperienceMin <= |e| < ExperienceMin
    ensures RecruitPage.FieldError(Experience, Str(e)).None?
    ensures FieldError(Experience, Str(e)) == Some("Please provide at least 100 characters")
  {
  }
}
