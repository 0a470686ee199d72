/** Enquiry leads (`enquiry.lead`) and the contact rules beside them: the lead reference given
    on creation and rebuilt when the company or department changes, the approve and reject
    transitions, the guard on deleting approved leads, the country-code prefix of a phone
    number, and the copying of a user's boss flag to their partner. */
module CrmEnquiry {
  import opened Wrappers
  import opened Text

  datatype LeadState = Active | Approved | Rejected

  datatype LeadError = ApprovedNotDeletable(id: nat)

  /** `company.code if company else 'CMP'`: an existing record without a code renders as
      `False`. */
  function CodeIfPresent(rec: Option<Coded>, default: string): (r: string)
    ensures rec.None? ==> r == default
    ensures rec.Some? ==> r == Shown(rec.value.code)
  {
    if rec.Some? then Shown(rec.value.code) else default
  }

  /** `rec.code` of a record that may be empty: an empty record or a missing code renders
      as `False`. */
  function CodeOf(rec: Option<Coded>): (r: string)
    ensures rec.Some? && rec.value.code.Some? ==> r == rec.value.code.value
    ensures rec.None? || rec.value.code.None? ==> r == "False"
  {
    if rec.Some? then Shown(rec.value.code) else "False"
  }

  predicate NeedsRef(ref: Option<string>)
  {
    ref == Some("New") || !Truthy(ref)
  }

  /** The reference `create` gives a lead: `{company code|CMP}-LEAD-{department code|DEPT}-{year}-{n}`,
      `n` being the last segment of the sequence value, `001` when the sequence gives none. */
  function CreatedRef(company: Option<Coded>, department: Option<Coded>, year: nat, sequence: Option<string>): string
  {
    Reference(CodeIfPresent(company, "CMP") + "-LEAD-" + CodeIfPresent(department, "DEPT"), year, Or(sequence, "001"))
  }

  /** A created reference starts with the codes (`CMP` and `DEPT` standing in for a missing
      company or department) and ends with the number of the sequence value. */
  lemma CreatedRefShape(company: Option<Coded>, department: Option<Coded>, year: nat, sequence: Option<string>)
    ensures LastSegment(CreatedRef(company, department, year, sequence)) == LastSegment(Or(sequence, "001"))
    ensures StartsWith(CreatedRef(company, department, year, sequence),
                       CodeIfPresent(company, "CMP") + "-LEAD-" + CodeIfPresent(department, "DEPT") + "-")
  {
    ReferenceShape(CodeIfPresent(company, "CMP") + "-LEAD-" + CodeIfPresent(department, "DEPT"), year, Or(sequence, "001"));
  }

  /** With a company and a department set, rebuilding a created reference for the same records
      and year gives it back: `write` keeps the number `create` drew. */
  lemma CreatedThenRebuilt(company: Option<Coded>, department: Option<Coded>, year: nat, sequence: Option<string>)
    requires company.Some? && department.Some?
    ensures var r := CreatedRef(company, department, year, sequence);
      RebuiltRef(Some(r), company, department, year) == r
  {
    var prefix := CodeOf(company) + "-LEAD-" + CodeOf(department);
    var seqValue := Or(sequence, "001");
    var r := CreatedRef(company, department, year, sequence);
    assert r == Reference(prefix, year, seqValue);
    ReferenceShape(prefix, year, seqValue);
    ReferenceReadsLastSegment(prefix, year, seqValue);
    assert Truthy(Some(r)) by {
      assert |r| >= |prefix + "-"|;
    }
    assert RebuiltRef(Some(r), company, department, year) == Reference(prefix, year, LastSegment(r));
  }

  /** The reference `write` rebuilds after a change of company or department: the new codes,
      the current year, and the last segment of the old reference (`001` without one). */
  function RebuiltRef(ref: Option<string>, company: Option<Coded>, department: Option<Coded>, year: nat): string
  {
    var seqNumber := if Truthy(ref) then LastSegment(ref.value) else "001";
    Reference(CodeOf(company) + "-LEAD-" + CodeOf(department), year, seqNumber)
  }

  /** Rebuilding keeps the number: rebuilding a rebuilt reference with the same codes and year
      gives it back. */
  lemma RebuildIdempotent(ref: Option<string>, company: Option<Coded>, department: Option<Coded>, year: nat)
    ensures var r := RebuiltRef(ref, company, department, year);
      RebuiltRef(Some(r), company, department, year) == r
  {
    var prefix := CodeOf(company) + "-LEAD-" + CodeOf(department);
    var seqNumber := if Truthy(ref) then LastSegment(ref.value) else "001";
    var r := Reference(prefix, year, seqNumber);
    ReferenceShape(prefix, year, seqNumber);
    ReferenceReadsLastSegment(prefix, year, seqNumber);
    assert Truthy(Some(r)) by {
      assert |r| >= |prefix + "-"|;
    }
    assert RebuiltRef(Some(r), company, department, year) == Reference(prefix, year, LastSegment(r));
  }

  /** A lead record, as far as its reference and state rules read it. */
  class Lead {
    const id: nat
    var ref: Option<string>
    var token: Option<string>
    var company: Option<Coded>
    var department: Option<Coded>
    var state: LeadState
    var saleEnquiry: Option<nat>

    /** The record the ORM stores before `create` numbers it. */
    constructor (i: nat, r: Option<string>, t: Option<string>, c: Option<Coded>, d: Option<Coded>)
      ensures id == i && ref == r && token == t && company == c && department == d
      ensures state == Active && saleEnquiry == None
    {
      id, ref, token, company, department := i, r, t, c, d;
      state, saleEnquiry := Active, None;
    }

    /** `create`, first step for each record: a fresh token when it has none. */
    method EnsureToken(freshToken: string)
      modifies this
      ensures token == if Truthy(old(token)) then old(token) else Some(freshToken)
      ensures unchanged(`ref, `company, `department)
      ensures unchanged(`state, `saleEnquiry)
    {
      if !Truthy(token) {
        token := Some(freshToken);
      }
    }

    /** `create`, second step: a reference when it is unset or `New`; `drew` tells whether a
        sequence value was taken. */
    method Number(year: nat, sequence: Option<string>) returns (drew: bool)
      modifies this
      ensures drew == NeedsRef(old(ref))
      ensures ref == if drew then Some(CreatedRef(company, department, year, sequence)) else old(ref)
      ensures unchanged(`token, `company, `department)
      ensures unchanged(`state, `saleEnquiry)
    {
      drew := NeedsRef(ref);
      if drew {
        ref := Some(CreatedRef(company, department, year, sequence));
      }
    }

    /** `write` of company and department: a write naming either rebuilds the reference with
        the new codes; any other write leaves it. */
    method Write(newCompany: Field<Option<Coded>>, newDepartment: Field<Option<Coded>>, year: nat)
      modifies this
      ensures company == Update(newCompany, old(company)) && department == Update(newDepartment, old(department))
      ensures newCompany.Set? || newDepartment.Set? ==> ref == Some(RebuiltRef(old(ref), company, department, year))
      ensures newCompany == Keep && newDepartment == Keep ==> ref == old(ref)
      ensures unchanged(`token, `state, `saleEnquiry)
    {
      var c, d, r := Update(newCompany, company), Update(newDepartment, department), ref;
      if newCompany.Set? || newDepartment.Set? {
        r := Some(RebuiltRef(ref, c, d, year));
      }
      company, department, ref := c, d, r;
    }

    /** `action_approve`: the lead is approved and linked to the sale enquiry created for it. */
    method Approve(createdEnquiry: nat)
      modifies this
      ensures state == Approved && saleEnquiry == Some(createdEnquiry)
      ensures unchanged(`ref, `token, `company, `department)
    {
      state := Approved;
      saleEnquiry := Some(createdEnquiry);
    }

    /** `action_reject`. */
    method Reject()
      modifies this
      ensures state == Rejected
      ensures unchanged(`ref, `token, `company, `department)
      ensures unchanged(`saleEnquiry)
    {
      state := Rejected;
    }
  }

  /** A lead as the delete guard sees it. */
  datatype LeadRow = LeadRow(id: nat, state: LeadState)

  /** `unlink` on the leads of `rows`: the first approved one stops the deletion of all. */
  method UnlinkGuard(rows: seq<LeadRow>) returns (out: Outcome<LeadError>)
    ensures out == Pass <==> forall k :: 0 <= k < |rows| ==> rows[k].state != Approved
    ensures out.Fail? ==> exists k :: 0 <= k < |rows| && rows[k].state == Approved && out.error == ApprovedNotDeletable(rows[k].id)
  {
    var k := 0;
    while k < |rows|
      invariant 0 <= k <= |rows|
      invariant forall j :: 0 <= j < k ==> rows[j].state != Approved
    {
      if rows[k].state == Approved {
        return Fail(ApprovedNotDeletable(rows[k].id));
      }
      k := k + 1;
    }
    out := Pass;
  }

  // ---------------------------------------------------------------- phone numbers

  /** `country.phone_code or ''`: an integer code, with 0 rendered as nothing. */
  function CodeText(code: nat): (t: string)
    ensures code != 0 ==> t == NatToString(code)
    ensures code == 0 ==> t == ""
  {
    if code == 0 then "" else NatToString(code)
  }

  /** `_onchange_phone_add_code`: with a country, an empty phone becomes `+code`; a phone that
      already starts with `+code` is kept; any other loses its leading `+` and whatever comes
      before its first space, and gets `+code ` in front. Without a country nothing changes. */
  function PrefixPhone(phone: Option<string>, country: Option<nat>): Option<string>
  {
    if country.None? then phone
    else
      var c := "+" + CodeText(country.value);
      if Truthy(phone) then
        if StartsWith(phone.value, c) then phone
        else Some(c + " " + AfterFirstSpace(LStrip(phone.value, '+')))
      else Some(c)
  }

  /** With a country the phone always ends up starting with its code. */
  lemma PrefixedStartsWithCode(phone: Option<string>, code: nat)
    ensures var r := PrefixPhone(phone, Some(code));
      r.Some? && StartsWith(r.value, "+" + CodeText(code)) && Truthy(r)
  {
    var c := "+" + CodeText(code);
    if !Truthy(phone) {
      assert c[0] == '+' && c[..|c|] == c;
    } else if !StartsWith(phone.value, c) {
      ReplacedStartsWithCode(phone.value, c);
    }
  }

  lemma ReplacedStartsWithCode(phone: string, c: string)
    ensures StartsWith(c + " " + AfterFirstSpace(LStrip(phone, '+')), c)
  {
    var x := AfterFirstSpace(LStrip(phone, '+'));
    assert c + " " + x == c + (" " + x);
    StartsWithConcat(c, " " + x);
  }

  /** Prefixing twice is prefixing once. */
  lemma PrefixIdempotent(phone: Option<string>, country: Option<nat>)
    ensures PrefixPhone(PrefixPhone(phone, country), country) == PrefixPhone(phone, country)
  {
    if country.Some? {
      PrefixedStartsWithCode(phone, country.value);
    }
  }

  /** A phone that already carries the code is left alone, and an empty one becomes the bare code. */
  lemma PrefixKeepsCodedPhone(phone: string, code: nat)
    ensures StartsWith(phone, "+" + CodeText(code)) ==> PrefixPhone(Some(phone), Some(code)) == Some(phone)
    ensures PrefixPhone(Some(""), Some(code)) == Some("+" + CodeText(code))
    ensures PrefixPhone(None, Some(code)) == Some("+" + CodeText(code))
  {
    if StartsWith(phone, "+" + CodeText(code)) {
      assert phone != [];
    }
  }

  lemma {:induction false} AfterFirstSpaceJoin(a: string, b: string)
    requires ' ' !in a
    ensures AfterFirstSpace(a + " " + b) == b
  {
    if a == [] {
      assert a + " " + b == [' '] + b;
    } else {
      assert (a + " " + b)[1..] == a[1..] + " " + b;
      assert ' ' in (a + " " + b)[1..] by {
        assert (a[1..] + " " + b)[|a| - 1] == ' ';
      }
      AfterFirstSpaceJoin(a[1..], b);
    }
  }

  /** A number written with another code loses that code: `+other rest` becomes `+code rest`. */
  lemma PrefixReplacesOtherCode(other: string, rest: string, code: nat)
    requires ' ' !in other && (other == [] || other[0] != '+')
    requires !StartsWith("+" + other + " " + rest, "+" + CodeText(code))
    ensures PrefixPhone(Some("+" + other + " " + rest), Some(code)) == Some("+" + CodeText(code) + " " + rest)
  {
    var phone := "+" + other + " " + rest;
    var x := other + " " + rest;
    assert phone == ['+'] + x;
    assert LStrip(phone, '+') == x by {
      assert phone[1..] == x;
      assert x[0] != '+';
    }
    AfterFirstSpaceJoin(other, rest);
  }

  /** A national number gets the code in front: `n` becomes `+code n`. */
  lemma PrefixNationalNumber(phone: string, code: nat)
    requires phone != [] && phone[0] != '+' && ' ' !in phone
    ensures PrefixPhone(Some(phone), Some(code)) == Some("+" + CodeText(code) + " " + phone)
  {
    assert !StartsWith(phone, "+" + CodeText(code)) by {
      assert ("+" + CodeText(code))[0] == '+';
    }
  }

  // ---------------------------------------------------------------- users

  /** A user and their partner, as far as the boss flag goes. */
  datatype Account = Account(isBoss: bool, partnerIsBoss: bool)

  /** `ResUsers.write` of `is_boss`: the value goes to the user and is copied to the partner. */
  function WriteIsBoss(a: Account, isBoss: Field<bool>): (r: Account)
    ensures isBoss.Set? ==> r.isBoss == isBoss.value && r.partnerIsBoss == isBoss.value
    ensures isBoss == Keep ==> r == a
  {
    if isBoss.Set? then Account(isBoss.value, isBoss.value) else a
  }

  /** One dictionary of the `vals_list` given to `ResUsers.create`. */
  datatype UserVals = UserVals(isBoss: Field<bool>)

  /** A Python value as far as `'is_boss' in vals_list` compares it: the key is a string, the
      list's elements are dictionaries. */
  datatype PyValue = PyStr(s: string) | PyDict(isBoss: Field<bool>)

  function AsPython(vs: seq<UserVals>): (r: seq<PyValue>)
    ensures |r| == |vs| && forall k :: 0 <= k < |vs| ==> r[k] == PyDict(vs[k].isBoss)
  {
    seq(|vs|, k requires 0 <= k < |vs| => PyDict(vs[k].isBoss))
  }

  /** `ResUsers.create` as written: the partner's flag is copied only when the string
      `'is_boss'` is an element of the list of dictionaries. */
  function CreateAccountsAsWritten(vs: seq<UserVals>): (r: seq<Account>)
    ensures |r| == |vs|
  {
    var copied := PyStr("is_boss") in AsPython(vs);
    seq(|vs|, k requires 0 <= k < |vs| =>
      Account(Update(vs[k].isBoss, false), copied && Update(vs[k].isBoss, false)))
  }

  /** The test never holds, so no created user's partner is a boss. */
  lemma CreateAsWrittenNeverCopies(vs: seq<UserVals>)
    ensures !(PyStr("is_boss") in AsPython(vs))
    ensures forall k :: 0 <= k < |vs| ==> !CreateAccountsAsWritten(vs)[k].partnerIsBoss
  {
    var py := AsPython(vs);
    forall k | 0 <= k < |py|
      ensures py[k] != PyStr("is_boss")
    {
      assert py[k] == PyDict(vs[k].isBoss);
    }
  }

  /** A boss created with `is_boss` set ends up unlike a user whose flag is written afterwards:
      the partner keeps `False`. */
  lemma CreateAsWrittenDiffersFromWrite()
    ensures CreateAccountsAsWritten([UserVals(Set(true))])[0] == Account(true, false)
    ensures WriteIsBoss(Account(false, false), Set(true)) == Account(true, true)
  {
    CreateAsWrittenNeverCopies([UserVals(Set(true))]);
  }

  /** `ResUsers.create` as intended: each user's `is_boss`, when given, is copied to the
      partner, as `write` does. */
  function CreateAccounts(vs: seq<UserVals>): (r: seq<Account>)
    ensures |r| == |vs|
    ensures forall k :: 0 <= k < |vs| ==>
      r[k].isBoss == Update(vs[k].isBoss, false) && r[k].partnerIsBoss == r[k].isBoss
  {
    seq(|vs|, k requires 0 <= k < |vs| => WriteIsBoss(Account(false, false), vs[k].isBoss))
  }

  /** Created users agree with their partners on the flag, and creating a user with a flag is
      creating one without and then writing the flag. */
  lemma CreateAgreesWithWrite(vs: seq<UserVals>)
    ensures forall k :: 0 <= k < |vs| ==> CreateAccounts(vs)[k].isBoss == CreateAccounts(vs)[k].partnerIsBoss
    ensures forall k :: 0 <= k < |vs| ==>
      CreateAccounts(vs)[k] == WriteIsBoss(CreateAccounts([UserVals(Keep)])[0], vs[k].isBoss)
  {
  }
}
