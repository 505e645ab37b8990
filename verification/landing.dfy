/** The landing page's create-group form: validation of the name and the
    member inputs, the request it sends, and what the page does next. */
module Landing {
  import opened Wrappers
  import opened Text
  import Seqs

  /** The form: the group name and one text input per member. */
  datatype NewGroupForm = NewGroupForm(name: string, members: seq<string>)

  /** The body of the request that creates a group. */
  datatype CreateRequest = CreateRequest(groupName: string, members: seq<string>)

  /** Why the form was refused before anything was sent. */
  datatype CreateError = NameMissing | NoMembers

  /** The server's answer to the create request. */
  datatype PostResponse = Created(id: string) | Failed(detail: Option<string>)

  /** What the page does after the create button: show a message, or open
      the new group's project page. */
  datatype CreateOutcome = ShowError(message: string) | OpenProject(id: string)

  const NameMessage: string := "Escribe un nombre para el grupo"
  const MembersMessage: string := "A\U{00F1}ade al menos un miembro"
  const FailureMessage: string := "Error al crear el grupo"

  /** `m => m.trim()` used as a filter callback. */
  predicate NonBlank(m: string)
  {
    !Blank(m)
  }

  /** The member inputs that are not blank, in their order, untrimmed. */
  function ValidMembers(members: seq<string>): (r: seq<string>)
    ensures forall i :: 0 <= i < |r| ==> !Blank(r[i])
    ensures forall m :: multiset(r)[m] == if Blank(m) then 0 else multiset(members)[m]
    ensures r == [] <==> forall i :: 0 <= i < |members| ==> Blank(members[i])
  {
    Seqs.FilterEmptyIff(members, NonBlank);
    Seqs.Filter(members, NonBlank)
  }

  /** The request the form produces, or the first reason it is refused:
      the name is checked before the members. */
  function NewGroupRequest(form: NewGroupForm): (r: Result<CreateRequest, CreateError>)
    ensures r == Err(NameMissing) <==> Blank(form.name)
    ensures r == Err(NoMembers) <==>
              !Blank(form.name) && forall i :: 0 <= i < |form.members| ==> Blank(form.members[i])
    ensures r.Ok? ==> r.value.groupName == form.name
    ensures r.Ok? ==> r.value.members == ValidMembers(form.members) && |r.value.members| >= 1
  {
    if Blank(form.name) then Err(NameMissing)
    else
      var valid := ValidMembers(form.members);
      if |valid| < 1 then Err(NoMembers)
      else Ok(CreateRequest(form.name, valid))
  }

  /** The create button. The server is asked only when the form is valid;
      a failure shows the server's non-empty detail, or a generic message. */
  function CreateGroup(form: NewGroupForm, response: PostResponse): (r: CreateOutcome)
    ensures r.OpenProject? <==> NewGroupRequest(form).Ok? && response.Created?
    ensures r.OpenProject? ==> r.id == response.id
    ensures Blank(form.name) ==> r == ShowError(NameMessage)
    ensures NewGroupRequest(form) == Err(NoMembers) ==> r == ShowError(MembersMessage)
    ensures NewGroupRequest(form).Ok? && response.Failed? ==>
              r == ShowError(if response.detail.Some? && response.detail.value != []
                             then response.detail.value else FailureMessage)
    ensures r.ShowError? ==> r.message != []
  {
    match NewGroupRequest(form)
    case Err(NameMissing) => ShowError(NameMessage)
    case Err(NoMembers) => ShowError(MembersMessage)
    case Ok(_) =>
      match response
      case Created(id) => OpenProject(id)
      case Failed(detail) =>
        ShowError(if detail.Some? && detail.value != [] then detail.value else FailureMessage)
  }

  /** Member filtering keeps the order of the inputs: filtering two runs of
      inputs one after the other is filtering each and joining the results. */
  lemma ValidMembersKeepsOrder(a: seq<string>, b: seq<string>)
    ensures ValidMembers(a + b) == ValidMembers(a) + ValidMembers(b)
  {
    Seqs.FilterAppend(a, b, NonBlank);
  }

  /** A request, read back as a form, validates to the same request: the
      checks accept everything they produce and change nothing in it. */
  lemma RequestRoundTrip(form: NewGroupForm)
    requires NewGroupRequest(form).Ok?
    ensures var req := NewGroupRequest(form).value;
            NewGroupRequest(NewGroupForm(req.groupName, req.members)) == Ok(req)
  {
    var req := NewGroupRequest(form).value;
    Seqs.FilterIdempotent(form.members, NonBlank);
    assert ValidMembers(req.members) == req.members;
  }
}
