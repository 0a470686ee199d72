/** Sale enquiries (`sale.enquiry`): the reference given on creation, the quotation (and
    project) opened from an enquiry, the approve and reject transitions and the guard on
    deleting approved enquiries. */
module SalesEnquiry {
  import opened Wrappers
  import opened Text

  datatype EnquiryState = Approved | Rejected

  datatype EnquiryError = ApprovedNotDeletable(id: nat)

  predicate NeedsRef(ref: Option<string>)
  {
    !Truthy(ref) || ref == Some("New")
  }

  /** The reference `create` gives an enquiry: `{company code|CMP}-ENQ-{department code|DEPT}-{year}-{n}`,
      `n` being the last segment of the sequence value (`SENQ-000` when the sequence gives none). */
  function EnquiryRef(company: Option<Coded>, department: Option<Coded>, year: nat, sequence: Option<string>): string
  {
    Reference(CodeOr(company, "CMP") + "-ENQ-" + CodeOr(department, "DEPT"), year, Or(sequence, "SENQ-000"))
  }

  /** The reference starts with the codes (`CMP` and `DEPT` standing in for a missing company,
      department or code) and ends with the sequence number. */
  lemma EnquiryRefShape(company: Option<Coded>, department: Option<Coded>, year: nat, sequence: Option<string>)
    ensures LastSegment(EnquiryRef(company, department, year, sequence)) == LastSegment(Or(sequence, "SENQ-000"))
    ensures StartsWith(EnquiryRef(company, department, year, sequence),
                       CodeOr(company, "CMP") + "-ENQ-" + CodeOr(department, "DEPT") + "-")
  {
    ReferenceShape(CodeOr(company, "CMP") + "-ENQ-" + CodeOr(department, "DEPT"), year, Or(sequence, "SENQ-000"));
  }

  /** The reference ends in the number after the last hyphen of the sequence value, and in
      `000` (from `SENQ-000`) when there is no sequence value. */
  lemma EnquiryRefNumber(company: Option<Coded>, department: Option<Coded>, year: nat, prefix: string, number: string)
    requires '-' !in number
    ensures LastSegment(EnquiryRef(company, department, year, Some(prefix + "-" + number))) == number
    ensures LastSegment(EnquiryRef(company, department, year, None)) == "000"
  {
    var s := prefix + "-" + number;
    assert LastSegment(s) == number by {
      LastSegmentOfJoin(prefix, number);
    }
    EnquiryRefShape(company, department, year, Some(s));
    EnquiryRefShape(company, department, year, None);
    DefaultSequenceValue();
  }

  lemma DefaultSequenceValue()
    ensures LastSegment("SENQ-000") == "000"
  {
    assert "SENQ-000"[..7] == "SENQ-00" && "SENQ-00"[..6] == "SENQ-0" && "SENQ-0"[..5] == "SENQ-";
    assert LastHyphen("SENQ-000") == 4;
    assert "SENQ-000"[5..] == "000";
  }

  /** `project_title` in `action_create_quotation`: the vessel name, else the project name,
      else none. */
  function ProjectTitle(vessel: Option<string>, project: Option<string>): (r: Option<string>)
    ensures r.Some? <==> Truthy(vessel) || Truthy(project)
    ensures Truthy(vessel) ==> r == vessel
    ensures !Truthy(vessel) && Truthy(project) ==> r == project
    ensures r.Some? ==> Truthy(r)
  {
    if Truthy(vessel) then vessel else if Truthy(project) then project else None
  }

  /** The values of the quotation an enquiry opens. */
  datatype OrderVals = OrderVals(lead: Option<nat>, saleEnquiry: nat, partner: Option<nat>,
                                 company: Option<Coded>, department: Option<Coded>)

  /** The values of the project opened beside it. */
  datatype ProjectVals = ProjectVals(name: string, company: Option<Coded>, partner: Option<nat>, saleOrder: nat)

  /** A sale enquiry record; the fields related to its lead and client are constants here. */
  class SaleEnquiry {
    const id: nat
    const lead: Option<nat>
    const contact: Option<nat>
    const company: Option<Coded>
    const department: Option<Coded>
    var ref: Option<string>
    var saleOrder: Option<nat>
    var projectName: Option<string>
    var vesselName: Option<string>
    var state: Option<EnquiryState>
    var isApproved: bool

    /** A new record: reference `New` by default, no state, `is_approved` set. */
    constructor (i: nat, l: Option<nat>, p: Option<nat>, c: Option<Coded>, d: Option<Coded>,
                 r: Option<string>, projectTitle: Option<string>, vessel: Option<string>)
      ensures id == i && lead == l && contact == p && company == c && department == d
      ensures ref == r && projectName == projectTitle && vesselName == vessel
      ensures saleOrder == None && state == None && isApproved
    {
      id, lead, contact, company, department := i, l, p, c, d;
      ref, projectName, vesselName := r, projectTitle, vessel;
      saleOrder, state, isApproved := None, None, true;
    }

    /** `create`'s loop body: a reference when it is unset or `New`. */
    method Number(year: nat, sequence: Option<string>) returns (drew: bool)
      modifies this
      ensures drew == NeedsRef(old(ref))
      ensures ref == if drew then Some(EnquiryRef(company, department, year, sequence)) else old(ref)
      ensures unchanged(`saleOrder, `state, `isApproved)
      ensures unchanged(`projectName, `vesselName)
    {
      drew := NeedsRef(ref);
      if drew {
        ref := Some(EnquiryRef(company, department, year, sequence));
      }
    }

    /** The body of `action_create_quotation` for this enquiry: the quotation `orderId` is
        created for it and linked, and a project is created when there is a title. */
    method CreateQuotation(orderId: nat) returns (order: OrderVals, project: Option<ProjectVals>)
      modifies this
      ensures order == OrderVals(lead, id, contact, company, department)
      ensures saleOrder == Some(orderId)
      ensures project.Some? <==> Truthy(vesselName) || Truthy(projectName)
      ensures project.Some? ==> project.value == ProjectVals(ProjectTitle(vesselName, projectName).value, company, contact, orderId)
      ensures unchanged(`ref, `state, `isApproved)
      ensures unchanged(`projectName, `vesselName)
    {
      order := OrderVals(lead, id, contact, company, department);
      saleOrder := Some(orderId);
      var title: Option<string> := None;
      if Truthy(vesselName) {
        title := vesselName;
      } else if Truthy(projectName) {
        title := projectName;
      }
      if Truthy(title) {
        project := Some(ProjectVals(title.value, company, contact, orderId));
      } else {
        project := None;
      }
    }

    /** `action_enquiry_approve`. */
    method Approve()
      modifies this
      ensures state == Some(Approved) && !isApproved
      ensures unchanged(`ref, `saleOrder)
      ensures unchanged(`projectName, `vesselName)
    {
      state := Some(Approved);
      isApproved := false;
    }

    /** `action_enquiry_reject`: the flag is cleared as on approval. */
    method Reject()
      modifies this
      ensures state == Some(Rejected) && !isApproved
      ensures unchanged(`ref, `saleOrder)
      ensures unchanged(`projectName, `vesselName)
    {
      state := Some(Rejected);
      isApproved := false;
    }
  }

  /** `action_create_quotation` on several enquiries: the loop returns from its first pass, so
      only the first enquiry gets a quotation, and the window opened shows it. */
  method ActionCreateQuotation(enquiries: seq<SaleEnquiry>, orderId: nat) returns (window: Option<nat>)
    modifies if enquiries == [] then {} else {enquiries[0]}
    ensures enquiries == [] <==> window == None
    ensures enquiries != [] ==> window == Some(orderId) && enquiries[0].saleOrder == Some(orderId)
  {
    if enquiries == [] {
      return None;
    }
    var order, project := enquiries[0].CreateQuotation(orderId);
    window := Some(orderId);
  }

  /** An enquiry as the delete guard sees it. */
  datatype EnquiryRow = EnquiryRow(id: nat, state: Option<EnquiryState>)

  /** `unlink`: the first approved enquiry stops the deletion of all; rejected ones and those
      without a state may go. */
  method UnlinkGuard(rows: seq<EnquiryRow>) returns (out: Outcome<EnquiryError>)
    ensures out == Pass <==> forall k :: 0 <= k < |rows| ==> rows[k].state != Some(Approved)
    ensures out.Fail? ==> exists k :: 0 <= k < |rows| && rows[k].state == Some(Approved) && out.error == ApprovedNotDeletable(rows[k].id)
  {
    var k := 0;
    while k < |rows|
      invariant 0 <= k <= |rows|
      invariant forall j :: 0 <= j < k ==> rows[j].state != Some(Approved)
    {
      if rows[k].state == Some(Approved) {
        return Fail(ApprovedNotDeletable(rows[k].id));
      }
      k := k + 1;
    }
    out := Pass;
  }
}
