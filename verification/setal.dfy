/** SetAL: the first call of a visit, choosing the administration language. */
module SetAlHandler {
  import opened Outcomes
  import opened Forms
  import opened Models

  /** The form is `None` when it cannot be parsed. The previous session is
      an argument only to show that none of it survives. */
  function SetAl(previous: Session, form: Option<Entries>): (r: Result<Session>)
    ensures form.None? ==> r == Err(BadRequest)
    ensures form.Some? ==> (r.Err? <==> FormValue(form.value, "al") == "")
    ensures r.Err? ==> r.failure == BadRequest
    ensures r.Ok? ==> r.value.tes.al == FormValue(form.value, "al") && r.value.tes.al != ""
    ensures r.Ok? ==> r.value == ZeroSession.(tes := EmptyTes.(al := r.value.tes.al))
  {
    match form
    case None => Err(BadRequest)
    case Some(entries) =>
      var al := FormValue(entries, "al");
      if al == "" then Err(BadRequest)
      else Ok(ZeroSession.(tes := EmptyTes.(al := al)))
  }

  /** A brand-new session: every earlier attempt, result and id is dropped. */
  lemma SetAlDiscardsEverything(s: Session, t: Session, form: Option<Entries>)
    ensures SetAl(s, form) == SetAl(t, form)
    ensures SetAl(s, form).Ok? ==> var n := SetAl(s, form).value;
      AttemptCleared(n) && n.sessionId == "" && n.passId == "" && n.resultUrl == "" && n.tes.tl == ""
  {
  }
}
