/** The submission endpoint (src/app/api/recruit/route.ts): POST checks the
    payload in a fixed order (email present, email of the institutional
    form, then six required fields in list order), and only when every
    check passes upserts a record keyed by the email. The store is a map
    from email to record; the database connection, the JSON parse and the
    outcome of the write are inputs. */
module RecruitApi {
  import opened Form

  // ---------------------------------------------------------------------
  // The institutional email pattern
  //   ^[a-zA-Z0-9._%+-]+@(ds|es)\.study\.iitm\.ac\.in$   with the i flag

  const DsDomain: string := "ds.study.iitm.ac.in"
  const EsDomain: string := "es.study.iitm.ac.in"

  /** The characters of the pattern's local-part class `[a-zA-Z0-9._%+-]`. */
  predicate LocalChar(c: char)
  {
    ('a' <= c <= 'z') || ('A' <= c <= 'Z') || ('0' <= c <= '9')
    || c == '.' || c == '_' || c == '%' || c == '+' || c == '-'
  }

  predicate AllLocal(t: string)
  {
    forall k | 0 <= k < |t| :: LocalChar(t[k])
  }

  /** ASCII lower case. Without the u flag, a case-insensitive JavaScript
      pattern folds no non-ASCII character onto an ASCII one, so ASCII
      folding is the whole of the i flag for this pattern. */
  function Lower(c: char): char
  {
    if 'A' <= c <= 'Z' then (c as int + 32) as char else c
  }

  predicate EqualsIgnoreCase(a: string, b: string)
  {
    |a| == |b| && forall k | 0 <= k < |a| :: Lower(a[k]) == Lower(b[k])
  }

  predicate IitmDomain(d: string)
  {
    EqualsIgnoreCase(d, DsDomain) || EqualsIgnoreCase(d, EsDomain)
  }

  /** The position of the first `c` in `s`, or |s| when there is none. */
  function IndexOf(s: string, c: char): (i: nat)
    ensures i <= |s|
    ensures i < |s| ==> s[i] == c
    ensures forall j | 0 <= j < i :: s[j] != c
  {
    if s == [] then 0
    else if s[0] == c then 0
    else 1 + IndexOf(s[1..], c)
  }

  /** The endpoint's email test: split at the first '@'. */
  predicate InstitutionalEmail(s: string)
  {
    var i := IndexOf(s, '@');
    0 < i < |s| && AllLocal(s[..i]) && IitmDomain(s[i + 1..])
  }

  /** The pattern read as a language: a non-empty run of local-part
      characters, an '@', and one of the two domains in any case. */
  ghost predicate MatchesPattern(s: string)
  {
    exists i | 0 < i < |s| :: s[i] == '@' && AllLocal(s[..i]) && IitmDomain(s[i + 1..])
  }

  /** The first-'@' test accepts exactly the strings of the pattern. */
  lemma InstitutionalEmailIsPattern(s: string)
    ensures InstitutionalEmail(s) <==> MatchesPattern(s)
  {
    var i := IndexOf(s, '@');
    if InstitutionalEmail(s) {
      assert s[i] == '@' && AllLocal(s[..i]) && IitmDomain(s[i + 1..]);
    }
    if MatchesPattern(s) {
      var m :| 0 < m < |s| && s[m] == '@' && AllLocal(s[..m]) && IitmDomain(s[m + 1..]);
      forall j | 0 <= j < m ensures s[j] != '@' {
        assert LocalChar(s[..m][j]);
      }
      assert i == m;
    }
  }

  function LowerAll(s: string): (r: string)
    ensures |r| == |s| && forall k | 0 <= k < |s| :: r[k] == Lower(s[k])
  {
    seq(|s|, k requires 0 <= k < |s| => Lower(s[k]))
  }

  /** Lower-casing a whole string is idempotent and keeps it equal, ignoring
      case, to the original. */
  lemma LowerAllFolds(s: string)
    ensures LowerAll(LowerAll(s)) == LowerAll(s)
    ensures EqualsIgnoreCase(LowerAll(s), s)
  {
    forall k | 0 <= k < |s| ensures Lower(LowerAll(s)[k]) == Lower(s[k]) {
      LowerPreserves(s[k]);
    }
  }

  lemma LowerPreserves(c: char)
    ensures Lower(Lower(c)) == Lower(c)
    ensures LocalChar(Lower(c)) == LocalChar(c)
    ensures (Lower(c) == '@') == (c == '@')
  {
  }

  lemma {:induction false} IndexOfLower(s: string)
    ensures IndexOf(LowerAll(s), '@') == IndexOf(s, '@')
  {
    var t := LowerAll(s);
    forall k | 0 <= k < |s| ensures (t[k] == '@') == (s[k] == '@') {
      LowerPreserves(s[k]);
    }
  }

  /** The test ignores ASCII case: folding the whole address to lower case
      changes no verdict. */
  lemma InstitutionalEmailIgnoresCase(s: string)
    ensures InstitutionalEmail(LowerAll(s)) == InstitutionalEmail(s)
  {
    IndexOfLower(s);
    var i := IndexOf(s, '@');
    var t := LowerAll(s);
    if 0 < i < |s| {
      assert t[..i] == LowerAll(s[..i]);
      assert t[i + 1..] == LowerAll(s[i + 1..]);
      forall k | 0 <= k < i ensures LocalChar(t[..i][k]) == LocalChar(s[..i][k]) {
        LowerPreserves(s[k]);
      }
      var d := s[i + 1..];
      forall k | 0 <= k < |d| ensures Lower(LowerAll(d)[k]) == Lower(d[k]) {
        LowerPreserves(d[k]);
      }
      assert EqualsIgnoreCase(LowerAll(d), DsDomain) == EqualsIgnoreCase(d, DsDomain);
      assert EqualsIgnoreCase(LowerAll(d), EsDomain) == EqualsIgnoreCase(d, EsDomain);
    }
  }

  // ---------------------------------------------------------------------
  // Payloads, records, responses

  type Payload = map<Field, Value>

  /** A stored application: the fields as last written, plus the two
      timestamps (milliseconds). */
  datatype Record = Record(fields: map<Field, Value>, createdAt: int, updatedAt: int)

  type Store = map<string, Record>

  /** The server-side required fields, in the order they are checked. */
  const RequiredFields: seq<Field> :=
    [FullName, DegreeType, Year, House, Experience, TimeCommitment]

  const EmailRequiredMsg: string := "Email is required."
  const InvalidEmailMsg: string := "Invalid email format. Must be an IITM email."
  const MissingFieldPrefix: string := "Missing required field: "
  const ValidationFailedMsg: string := "Validation failed."
  const GenericErrorMsg: string := "An error occurred while processing your application."
  const SuccessMsg: string := "Application submitted/updated successfully."

  datatype Response =
    | Ok(message: string)
    | BadRequest(error: string)
    | ValidationFailed(error: string, details: seq<string>)
    | ServerError(error: string)
  {
    function Status(): int
    {
      match this
      case Ok(_) => 200
      case BadRequest(_) => 400
      case ValidationFailed(_, _) => 400
      case ServerError(_) => 500
    }
  }

  /** One entry of a Mongoose ValidationError's `errors` object. */
  datatype SchemaError = SchemaError(path: string, message: string)

  /** How `findOneAndUpdate` ended: the write happened, the schema
      validators rejected it, or anything else was thrown. */
  datatype WriteOutcome = Written | SchemaRejected(errors: seq<SchemaError>) | StoreFailed

  /** `Object.values(error.errors).map(e => e.message)`. */
  function Messages(errs: seq<SchemaError>): (ms: seq<string>)
    ensures |ms| == |errs|
    ensures forall i | 0 <= i < |errs| :: ms[i] == errs[i].message
  {
    if errs == [] then [] else [errs[0].message] + Messages(errs[1..])
  }

  /** The index of the first field of `fs` that is falsy in `p`, or |fs|. */
  function FirstFalsy(p: Payload, fs: seq<Field>): (i: nat)
    ensures i <= |fs|
    ensures forall j | 0 <= j < i :: Truthy(p, fs[j])
    ensures i < |fs| ==> !Truthy(p, fs[i])
  {
    if fs == [] then 0
    else if !Truthy(p, fs[0]) then 0
    else 1 + FirstFalsy(p, fs[1..])
  }

  /** The required field the endpoint reports as missing, if any. */
  function MissingField(p: Payload): (r: Option<Field>)
    ensures r.None? <==> forall j | 0 <= j < |RequiredFields| :: Truthy(p, RequiredFields[j])
    ensures r.Some? ==> r.value in RequiredFields && !Truthy(p, r.value)
  {
    var i := FirstFalsy(p, RequiredFields);
    if i < |RequiredFields| then Some(RequiredFields[i]) else None
  }

  /** The `for (const field of requiredFields)` loop with its early return. */
  method FindMissingField(p: Payload) returns (missing: Option<Field>)
    ensures missing == MissingField(p)
  {
    for i := 0 to |RequiredFields|
      invariant forall j | 0 <= j < i :: Truthy(p, RequiredFields[j])
    {
      if !Truthy(p, RequiredFields[i]) {
        return Some(RequiredFields[i]);
      }
    }
    return None;
  }

  /** The pre-write checks, in order; None when all pass. */
  function Precheck(p: Payload): (r: Option<Response>)
    ensures r.Some? ==> r.value.BadRequest?
    ensures r.None? <==> (Truthy(p, Email) && InstitutionalEmail(AsText(p[Email]))
      && forall j | 0 <= j < |RequiredFields| :: Truthy(p, RequiredFields[j]))
  {
    if !Truthy(p, Email) then Some(BadRequest(EmailRequiredMsg))
    else if !InstitutionalEmail(AsText(p[Email])) then Some(BadRequest(InvalidEmailMsg))
    else match MissingField(p)
      case Some(f) => Some(BadRequest(MissingFieldPrefix + FieldName(f)))
      case None => None
  }

  /** The key the record is filed under: `{ email: data.email }`. */
  function KeyOf(p: Payload): (k: string)
    ensures Email in p && p[Email].Str? ==> k == p[Email].s
    ensures Precheck(p).None? ==> k != "" && InstitutionalEmail(k)
  {
    if Email in p then AsText(p[Email]) else ""
  }

  /** The schema defaults an insert applies: each array path starts as []. */
  const ArrayDefaults: map<Field, Value> :=
    map[Domains := Strs([]), Teams := Strs([]), InterviewDates := Strs([]), InterviewTimes := Strs([])]

  /** `findOneAndUpdate(filter, {...data, updatedAt: now}, {upsert, setDefaultsOnInsert})`:
      an existing record gets the payload's fields set over its own and a
      new updatedAt; a missing one is inserted with the schema defaults
      (empty arrays, createdAt) under the payload. */
  function Upsert(store: Store, key: string, p: Payload, now: int): Store
  {
    if key in store then store[key := Record(store[key].fields + p, store[key].createdAt, now)]
    else store[key := Record(ArrayDefaults + p, now, now)]
  }

  /** One POST: `connected` is whether `dbConnect()` succeeded, `body` the
      parsed JSON object (None when parsing threw), `write` how the write
      would end, `now` the clock. */
  function Handle(store: Store, body: Option<Payload>, connected: bool, write: WriteOutcome, now: int): (Store, Response)
  {
    if !connected || body.None? then (store, ServerError(GenericErrorMsg))
    else
      var p := body.value;
      match Precheck(p)
      case Some(r) => (store, r)
      case None =>
        match write
        case Written => (Upsert(store, KeyOf(p), p, now), Ok(SuccessMsg))
        case SchemaRejected(errs) => (store, ValidationFailed(ValidationFailedMsg, Messages(errs)))
        case StoreFailed => (store, ServerError(GenericErrorMsg))
  }

  /** Every stored record sits under its own email, that email is of the
      institutional form, and every server-required field is set. */
  ghost predicate StoreInvariant(store: Store)
  {
    forall k | k in store ::
      && Email in store[k].fields
      && AsText(store[k].fields[Email]) == k
      && InstitutionalEmail(k)
      && forall j | 0 <= j < |RequiredFields| :: Truthy(store[k].fields, RequiredFields[j])
  }

  /** The applications collection with the route's POST handler. */
  class Recruits {
    var records: Store

    ghost predicate Valid()
      reads this
    {
      StoreInvariant(records)
    }

    constructor ()
      ensures Valid() && records == map[]
    {
      records := map[];
    }

    method Post(body: Option<Payload>, connected: bool, write: WriteOutcome, now: int) returns (resp: Response)
      requires Valid()
      modifies this
      ensures Valid()
      ensures (records, resp) == Handle(old(records), body, connected, write, now)
    {
      if !connected || body.None? {
        return ServerError(GenericErrorMsg);
      }
      var data := body.value;
      if !Truthy(data, Email) {
        return BadRequest(EmailRequiredMsg);
      }
      if !InstitutionalEmail(AsText(data[Email])) {
        return BadRequest(InvalidEmailMsg);
      }
      var missing := FindMissingField(data);
      if missing.Some? {
        return BadRequest(MissingFieldPrefix + FieldName(missing.value));
      }
      match write {
        case Written =>
          var key := AsText(data[Email]);
          if key in records {
            var r := records[key];
            records := records[key := Record(r.fields + data, r.createdAt, now)];
          } else {
            records := records[key := Record(ArrayDefaults + data, now, now)];
          }
          UpsertKeepsInvariant(old(records), data, now);
          return Ok(SuccessMsg);
        case SchemaRejected(errs) =>
          return ValidationFailed(ValidationFailedMsg, Messages(errs));
        case StoreFailed =>
          return ServerError(GenericErrorMsg);
      }
    }
  }

  // ---------------------------------------------------------------------
  // Properties

  /** A payload accepted by the checks keeps the store invariant when it is
      written. */
  lemma UpsertKeepsInvariant(store: Store, p: Payload, now: int)
    requires StoreInvariant(store)
    requires Precheck(p).None?
    ensures StoreInvariant(Upsert(store, KeyOf(p), p, now))
  {
    var key := KeyOf(p);
    var s' := Upsert(store, key, p, now);
    assert MissingField(p).None?;
    forall k | k in s'
      ensures && Email in s'[k].fields
              && AsText(s'[k].fields[Email]) == k
              && InstitutionalEmail(k)
              && forall j | 0 <= j < |RequiredFields| :: Truthy(s'[k].fields, RequiredFields[j])
    {
      if k == key {
        forall j | 0 <= j < |RequiredFields|
          ensures Truthy(s'[k].fields, RequiredFields[j])
        {
          assert Truthy(p, RequiredFields[j]);
        }
      }
    }
  }

  /** A missing or falsy email is answered 400 "Email is required." before
      anything else is looked at, and nothing is written. */
  lemma EmailCheckedFirst(store: Store, p: Payload, write: WriteOutcome, now: int)
    requires !Truthy(p, Email)
    ensures Handle(store, Some(p), true, write, now) == (store, BadRequest(EmailRequiredMsg))
  {
  }

  /** A present email that fails the pattern is answered 400 with the
      invalid-email message, whatever the other fields hold. */
  lemma InvalidEmailRejected(store: Store, p: Payload, write: WriteOutcome, now: int)
    requires Truthy(p, Email) && !InstitutionalEmail(AsText(p[Email]))
    ensures Handle(store, Some(p), true, write, now) == (store, BadRequest(InvalidEmailMsg))
  {
  }

  /** With a valid email, the 400 names the first falsy field of the
      required list, every earlier one being set. */
  lemma FirstMissingFieldReported(store: Store, p: Payload, write: WriteOutcome, now: int, i: nat)
    requires Truthy(p, Email) && InstitutionalEmail(AsText(p[Email]))
    requires i < |RequiredFields| && !Truthy(p, RequiredFields[i])
    requires forall j | 0 <= j < i :: Truthy(p, RequiredFields[j])
    ensures Handle(store, Some(p), true, write, now) ==
      (store, BadRequest(MissingFieldPrefix + FieldName(RequiredFields[i])))
  {
    var k := FirstFalsy(p, RequiredFields);
    assert k == i;
  }

  /** Only a request that passes every check and whose write succeeds is
      answered 200; every other answer leaves the store as it was. */
  lemma WriteOnlyOnSuccess(store: Store, body: Option<Payload>, connected: bool, write: WriteOutcome, now: int)
    ensures var (s', r) := Handle(store, body, connected, write, now);
      && (r.Ok? <==> connected && body.Some? && Precheck(body.value).None? && write.Written?)
      && (!r.Ok? ==> s' == store)
      && (r.Ok? ==> r.message == SuccessMsg && r.Status() == 200)
      && (r.BadRequest? ==> r.Status() == 400 && body.Some? && Precheck(body.value) == Some(r))
  {
  }

  /** A schema rejection becomes 400 "Validation failed." with one detail
      per failing path, in order; any other failure of the write is a 500
      with the generic message. */
  lemma WriteFailuresMapped(store: Store, p: Payload, errs: seq<SchemaError>, now: int)
    requires Precheck(p).None?
    ensures var (s', r) := Handle(store, Some(p), true, SchemaRejected(errs), now);
      && s' == store && r.ValidationFailed? && r.error == ValidationFailedMsg && r.Status() == 400
      && |r.details| == |errs| && forall i | 0 <= i < |errs| :: r.details[i] == errs[i].message
    ensures Handle(store, Some(p), true, StoreFailed, now) == (store, ServerError(GenericErrorMsg))
  {
  }

  /** After an accepted submission the record under its email holds every
      submitted value, its updatedAt is the write time, its createdAt is
      the old one (or the write time on insert), fields the payload did
      not send keep their old values (or, on insert, are the array paths
      with their empty default), and no other record changes. */
  lemma SubmissionReadBack(store: Store, p: Payload, now: int)
    requires Precheck(p).None?
    ensures var (s', r) := Handle(store, Some(p), true, Written, now);
      var key := AsText(p[Email]);
      && r == Ok(SuccessMsg)
      && s'.Keys == store.Keys + {key}
      && (forall k | k in store && k != key :: s'[k] == store[k])
      && (forall f | f in p :: f in s'[key].fields && s'[key].fields[f] == p[f])
      && (key in store ==> forall f | f in store[key].fields && f !in p :: s'[key].fields[f] == store[key].fields[f])
      && (key !in store ==>
            (s'[key].fields.Keys == p.Keys + ArrayDefaults.Keys
             && forall f | f in ArrayDefaults && f !in p :: s'[key].fields[f] == Strs([])))
      && s'[key].updatedAt == now
      && s'[key].createdAt == (if key in store then store[key].createdAt else now)
  {
  }

  /** Two accepted submissions with the same email at t1 and t2 > t1 onto a
      store without that email leave one record under it, holding the
      second submission's values, created at t1 and updated at t2. */
  lemma ResubmissionOverwrites(store: Store, p1: Payload, p2: Payload, t1: int, t2: int)
    requires Precheck(p1).None? && Precheck(p2).None?
    requires AsText(p1[Email]) == AsText(p2[Email]) && AsText(p1[Email]) !in store
    requires t1 < t2
    ensures var s1 := Handle(store, Some(p1), true, Written, t1).0;
      var s2 := Handle(s1, Some(p2), true, Written, t2).0;
      var key := AsText(p1[Email]);
      && s2.Keys == store.Keys + {key}
      && (forall f | f in p2 :: s2[key].fields[f] == p2[f])
      && s2[key].createdAt == t1
      && s2[key].updatedAt == t2 && s2[key].updatedAt > s1[key].updatedAt
  {
    SubmissionReadBack(store, p1, t1);
    var s1 := Handle(store, Some(p1), true, Written, t1).0;
    SubmissionReadBack(s1, p2, t2);
  }
}
