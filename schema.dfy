/** The `HealthcareProvider` and `HealthcareProviderDB` models of part-3/schema.py: fields, defaults and constraints. */
module Schema {
  import opened Wrappers

  /** A provider id: a 128-bit UUID, compared only for equality. */
  newtype Uuid = x: int | 0 <= x < 0x1_0000_0000_0000_0000_0000_0000_0000_0000

  /** A stored provider record, every field filled in (`HealthcareProvider.dict()`). */
  datatype Provider = Provider(
    active: Option<bool>,
    name: string,
    qualification: seq<string>,
    specialty: seq<string>,
    phone: string,
    department: Option<string>,
    organization: string,
    location: Option<string>,
    address: string)

  /** `HealthcareProviderDB`: the record plus its `providerID`. */
  datatype ProviderDB = ProviderDB(provider: Provider, providerID: Uuid)

  /** Whether the client set an optional field in the request body. */
  datatype Supplied<T> = Omitted | Given(value: T)

  /** A request body as parsed by the framework: the four required fields, and the optional
      fields with a record of whether the client set them (`exclude_unset`). */
  datatype ProviderInput = ProviderInput(
    active: Supplied<Option<bool>>,
    name: string,
    qualification: Supplied<seq<string>>,
    specialty: Supplied<seq<string>>,
    phone: string,
    department: Supplied<Option<string>>,
    organization: string,
    location: Supplied<Option<string>>,
    address: string)

  function Pick<T>(s: Supplied<T>, current: T): T {
    if s.Given? then s.value else current
  }

  /** `stored.copy(update=body.dict(exclude_unset=True))`: every field the client set replaces
      the stored one, every other field keeps its stored value. The four required fields are
      always set. */
  function Override(stored: Provider, body: ProviderInput): (r: Provider)
    ensures r.name == body.name && r.phone == body.phone
    ensures r.organization == body.organization && r.address == body.address
    ensures body.active.Omitted? ==> r.active == stored.active
    ensures body.qualification.Omitted? ==> r.qualification == stored.qualification
    ensures body.specialty.Omitted? ==> r.specialty == stored.specialty
    ensures body.department.Omitted? ==> r.department == stored.department
    ensures body.location.Omitted? ==> r.location == stored.location
    ensures body.active.Given? ==> r.active == body.active.value
    ensures body.qualification.Given? ==> r.qualification == body.qualification.value
    ensures body.specialty.Given? ==> r.specialty == body.specialty.value
    ensures body.department.Given? ==> r.department == body.department.value
    ensures body.location.Given? ==> r.location == body.location.value
  {
    Provider(
      Pick(body.active, stored.active), body.name,
      Pick(body.qualification, stored.qualification), Pick(body.specialty, stored.specialty),
      body.phone, Pick(body.department, stored.department), body.organization,
      Pick(body.location, stored.location), body.address)
  }

  /** The class defaults: `active = True`, empty `qualification` and `specialty` lists, no
      `department` or `location`. The required fields have no default; a body always sets them. */
  const Defaults: Provider := Provider(Some(true), "", [], [], "", None, "", None, "")

  /** `HealthcareProvider(**body).dict()`: the body with the defaults for every field left unset. */
  function WithDefaults(body: ProviderInput): (r: Provider)
    ensures ValidInput(body) ==> ValidProvider(r)
  {
    Override(Defaults, body)
  }

  /** The record built from a body depends only on the body: fields left out take the class
      defaults, fields given keep the client's values. */
  lemma WithDefaultsFields(body: ProviderInput)
    ensures var r := WithDefaults(body);
      && r.active == (if body.active.Given? then body.active.value else Some(true))
      && r.qualification == (if body.qualification.Given? then body.qualification.value else [])
      && r.specialty == (if body.specialty.Given? then body.specialty.value else [])
      && r.department == (if body.department.Given? then body.department.value else None)
      && r.location == (if body.location.Given? then body.location.value else None)
      && r.name == body.name && r.phone == body.phone
      && r.organization == body.organization && r.address == body.address
  {
  }

  /** Applying the same update twice changes nothing more than applying it once. */
  lemma OverrideIdempotent(stored: Provider, body: ProviderInput)
    ensures Override(Override(stored, body), body) == Override(stored, body)
  {
  }

  // ---------------------------------------------------------------------------------------------
  // Field constraints

  /** `name: str = Field(..., min_length=2, max_length=50)` */
  predicate ValidName(s: string) {
    2 <= |s| <= 50
  }

  /** `organization: str = Field(..., min_length=2)` */
  predicate ValidOrganization(s: string) {
    2 <= |s|
  }

  /** `address: str = Field(..., min_length=5)` */
  predicate ValidAddress(s: string) {
    5 <= |s|
  }

  predicate IsDigit(c: char) {
    '0' <= c <= '9'
  }

  /** Length of the run of ASCII digits at the start of `s`. */
  function LeadingDigits(s: string): (n: nat)
    ensures n <= |s|
    ensures forall i :: 0 <= i < n ==> IsDigit(s[i])
    ensures n < |s| ==> !IsDigit(s[n])
  {
    if s == [] || !IsDigit(s[0]) then 0 else 1 + LeadingDigits(s[1..])
  }

  /** Recognizer for `^\+[1-9]{1}[0-9]{3,14}$` read as "the whole string": a plus sign, one
      digit 1-9, then 3 to 14 further digits and nothing else. */
  function ValidPhone(s: string): (b: bool)
    ensures b ==> 5 <= |s| <= 16 && s[0] == '+'
  {
    && 2 <= |s| && s[0] == '+' && '1' <= s[1] <= '9'
    && var k := LeadingDigits(s[2..]);
    && 3 <= k <= 14 && 2 + k == |s|
  }

  /** The same pattern as Python's `re.match` applies it: `$` also matches just before one
      final newline, so a single trailing `"\n"` is accepted. */
  function PhoneMatchesAsWritten(s: string): (b: bool)
    ensures b ==> 5 <= |s| <= 17 && s[0] == '+'
    ensures ValidPhone(s) ==> b
  {
    && 2 <= |s| && s[0] == '+' && '1' <= s[1] <= '9'
    && var k := LeadingDigits(s[2..]);
    && 3 <= k <= 14 && (2 + k == |s| || (2 + k == |s| - 1 && s[|s| - 1] == '\n'))
  }

  /** The shape the phone pattern describes, stated position by position. */
  ghost predicate PhoneShape(s: string) {
    && 5 <= |s| <= 16
    && s[0] == '+'
    && '1' <= s[1] <= '9'
    && forall i :: 2 <= i < |s| ==> IsDigit(s[i])
  }

  /** The recognizer accepts exactly the strings of the phone shape (so of length 5 to 16). */
  lemma ValidPhoneIffShape(s: string)
    ensures ValidPhone(s) <==> PhoneShape(s)
  {
    if PhoneShape(s) {
      LeadingDigitsExact(s[2..], |s| - 2);
    }
  }

  /** As written, the pattern accepts a phone number followed by one newline. */
  lemma AsWrittenAcceptsTrailingNewline()
    ensures PhoneMatchesAsWritten("+1234\n")
    ensures !ValidPhone("+1234\n")
  {
    assert LeadingDigits("234\n") == 3 by {
      assert "234\n"[1..] == "34\n";
      assert "34\n"[1..] == "4\n";
      assert "4\n"[1..] == "\n";
    }
    assert "+1234\n"[2..] == "234\n";
  }

  /** As written, the pattern accepts exactly the phone shape, optionally followed by one newline. */
  lemma AsWrittenIffShapeOrNewline(s: string)
    ensures PhoneMatchesAsWritten(s) <==>
      PhoneShape(s) || (|s| > 0 && s[|s| - 1] == '\n' && PhoneShape(s[..|s| - 1]))
  {
    ValidPhoneIffShape(s);
    if |s| > 0 {
      var u := s[..|s| - 1];
      ValidPhoneIffShape(u);
      if 2 <= |u| {
        assert u[2..] == s[2..|s| - 1];
        var k := LeadingDigits(s[2..]);
        if PhoneShape(u) && s[|s| - 1] == '\n' {
          assert k == |u| - 2 by {
            assert forall i :: 0 <= i < |u| - 2 ==> IsDigit(s[2..][i]);
            assert !IsDigit(s[2..][|u| - 2]);
            LeadingDigitsExact(s[2..], |u| - 2);
          }
        }
      }
    }
  }

  /** A run of `m` digits followed by a non-digit (or the end) has length exactly `m`. */
  lemma LeadingDigitsExact(s: string, m: nat)
    requires m <= |s|
    requires forall i :: 0 <= i < m ==> IsDigit(s[i])
    requires m < |s| ==> !IsDigit(s[m])
    ensures LeadingDigits(s) == m
  {
  }

  /** Every constraint of the model at once. */
  predicate ValidInput(body: ProviderInput) {
    ValidName(body.name) && ValidPhone(body.phone)
    && ValidOrganization(body.organization) && ValidAddress(body.address)
  }

  predicate ValidProvider(p: Provider) {
    ValidName(p.name) && ValidPhone(p.phone)
    && ValidOrganization(p.organization) && ValidAddress(p.address)
  }

  /** The fields whose constraint the body breaks, in declaration order; the framework answers
      422 with these locations before the handler runs. */
  function FieldErrors(body: ProviderInput): (errs: seq<string>)
    ensures errs == [] <==> ValidInput(body)
    ensures "name" in errs <==> !ValidName(body.name)
    ensures "phone" in errs <==> !ValidPhone(body.phone)
    ensures "organization" in errs <==> !ValidOrganization(body.organization)
    ensures "address" in errs <==> !ValidAddress(body.address)
  {
    (if ValidName(body.name) then [] else ["name"])
    + (if ValidPhone(body.phone) then [] else ["phone"])
    + (if ValidOrganization(body.organization) then [] else ["organization"])
    + (if ValidAddress(body.address) then [] else ["address"])
  }

  /** A record merged from a valid body is valid, whatever was stored before: the constrained
      fields all come from the body. */
  lemma OverrideValid(stored: Provider, body: ProviderInput)
    requires ValidInput(body)
    ensures ValidProvider(Override(stored, body))
  {
  }
}
