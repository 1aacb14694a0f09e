/** Shared vocabulary of the recruitment form: the fields of an application,
    the JSON-ish values they hold, JavaScript truthiness, and the integer
    ceiling that the progress bar uses. */
module Form {

  datatype Option<+T> = None | Some(value: T)

  /** The seventeen keys of the form's data record, in declaration order. */
  datatype Field =
    | Email | FullName | DegreeType | Year | House | Linkedin | Github
    | Domains | DomainWhy | Teams | TeamWhy | Experience | Motivation
    | TimeCommitment | InterviewDates | InterviewTimes | AdditionalInfo

  /** A value as it arrives in the request body or sits in the form state:
      a string, a list of strings (checkbox groups), or JSON null. */
  datatype Value = Str(s: string) | Strs(items: seq<string>) | Null

  /** The JSON key a field is sent under. */
  function FieldName(f: Field): string
  {
    match f
    case Email => "email"
    case FullName => "fullName"
    case DegreeType => "degreeType"
    case Year => "year"
    case House => "house"
    case Linkedin => "linkedin"
    case Github => "github"
    case Domains => "domains"
    case DomainWhy => "domainWhy"
    case Teams => "teams"
    case TeamWhy => "teamWhy"
    case Experience => "experience"
    case Motivation => "motivation"
    case TimeCommitment => "timeCommitment"
    case InterviewDates => "interviewDates"
    case InterviewTimes => "interviewTimes"
    case AdditionalInfo => "additionalInfo"
  }

  /** JavaScript truthiness of `data[field]`: an absent key, null and the
      empty string are falsy; every array, even an empty one, is truthy. */
  predicate Truthy(m: map<Field, Value>, f: Field)
  {
    f in m &&
    match m[f]
    case Str(s) => s != ""
    case Strs(_) => true
    case Null => false
  }

  /** The value the form holds for a field; an untouched field reads as undefined. */
  function ValueOf(m: map<Field, Value>, f: Field): Value
  {
    if f in m then m[f] else Null
  }

  /** What react-hook-form's `required` rule treats as empty: undefined or
      null, the empty string, and a checkbox group with nothing ticked. */
  predicate IsEmpty(v: Value)
  {
    match v
    case Str(s) => s == ""
    case Strs(xs) => xs == []
    case Null => true
  }

  /** The string a JavaScript `RegExp.test` sees for a value: strings as
      they are, an array joined with commas, null as "null". */
  function AsText(v: Value): string
  {
    match v
    case Str(s) => s
    case Strs(xs) => JoinCommas(xs)
    case Null => "null"
  }

  function JoinCommas(xs: seq<string>): string
  {
    if xs == [] then "" else if |xs| == 1 then xs[0] else xs[0] + "," + JoinCommas(xs[1..])
  }

  /** The endpoint's truthiness and the page's `required` rule disagree on
      exactly one kind of value: a checkbox group with nothing ticked is
      truthy, yet counts as empty. */
  lemma TruthyVersusEmpty(m: map<Field, Value>, f: Field)
    ensures Truthy(m, f) ==> f in m
    ensures Truthy(m, f) <==> (!IsEmpty(ValueOf(m, f)) || ValueOf(m, f) == Strs([]))
  {
  }

  /** `split(",")`, the inverse of joining with commas. */
  function SplitCommas(s: string): (r: seq<string>)
    ensures |r| >= 1
    decreases |s|
  {
    if s == "" then [""]
    else if s[0] == ',' then [""] + SplitCommas(s[1..])
    else
      var rest := SplitCommas(s[1..]);
      [[s[0]] + rest[0]] + rest[1..]
  }

  predicate CommaFree(t: string)
  {
    forall k | 0 <= k < |t| :: t[k] != ','
  }

  lemma {:induction false} SplitPlain(a: string, b: string)
    requires CommaFree(a)
    ensures SplitCommas(a) == [a]
    ensures SplitCommas(a + "," + b) == [a] + SplitCommas(b)
    decreases |a|
  {
    if a == "" {
      assert ("" + "," + b)[1..] == b;
    } else {
      var t := a[1..];
      assert CommaFree(t) by {
        forall k | 0 <= k < |t| ensures t[k] != ',' {
          assert t[k] == a[k + 1];
        }
      }
      SplitPlain(t, b);
      assert (a + "," + b)[1..] == t + "," + b;
      assert a[0] != ',';
      assert [a[0]] + t == a;
    }
  }

  /** The text an array of comma-free strings turns into splits back into
      that array: the conversion loses nothing but the array's type. */
  lemma {:induction false} AsTextOfList(xs: seq<string>)
    requires xs != []
    requires forall i | 0 <= i < |xs| :: CommaFree(xs[i])
    ensures SplitCommas(AsText(Strs(xs))) == xs
    decreases |xs|
  {
    if |xs| == 1 {
      SplitPlain(xs[0], "");
    } else {
      AsTextOfList(xs[1..]);
      SplitPlain(xs[0], JoinCommas(xs[1..]));
    }
  }

  /** `Math.ceil(a / b)` for a positive integer divisor, on exact integers. */
  function CeilDiv(a: int, b: int): (r: int)
    requires b > 0
    ensures (r - 1) * b < a <= r * b
  {
    -((-a) / b)
  }

  function Min(a: int, b: int): int { if a <= b then a else b }
  function Max(a: int, b: int): int { if a >= b then a else b }

  /** The wizard's progress percentage once `k` of its four transitions are
      behind it: `Math.ceil((k / 4) * 100)`. */
  function Progress(k: int): (r: int)
    ensures r == 25 * k
  {
    CeilDiv(100 * k, 4)
  }

  /** Kinds of transient notification the wizards show. */
  datatype ToastKind = Success | Error | Warning
  datatype Toast = Toast(message: string, kind: ToastKind)

  /** How the browser's `fetch` of the submission endpoint ended: a
      response (with `res.ok` and `res.statusText`) or a thrown error. */
  datatype FetchOutcome = Responded(ok: bool, statusText: string) | Threw

  /** The wizard's navigation state: `currentStep` and `formProgress`. */
  datatype Nav = Nav(step: int, progress: int)

  /** A press of Next (with the outcome of validating the step's fields)
      or of Previous. */
  datatype Move = Forward(stepValid: bool) | Back
}
