/** SetTL: choosing the test language and skill starts a new pass. */
module SetTlHandler {
  import opened Outcomes
  import opened Forms
  import opened Models

  datatype SetTlReply = SetTlReply(passId: string, sessionId: string)

  /** `passUuid` and `sessionUuid` are the ids the generator would hand out;
      `persisted` is whether recording the pass (and the session, when it
      is new) succeeded. */
  function SetTl(s: Session, form: Entries, passUuid: string, sessionUuid: string, persisted: bool): (r: Result<(Session, SetTlReply)>)
    ensures r.Err? <==> FormValue(form, "tl") == "" || FormValue(form, "skill") == "" || !persisted
    ensures r.Err? ==> r.failure == (if FormValue(form, "tl") == "" || FormValue(form, "skill") == "" then BadRequest else ServerError)
    ensures r.Ok? ==> var (n, reply) := r.value;
      && AttemptCleared(n)
      && n.tes == s.tes.(tl := FormValue(form, "tl"), skill := FormValue(form, "skill"))
      && n.passId == passUuid
      && n.sessionId == (if s.sessionId == "" then sessionUuid else s.sessionId)
      && n.resultUrl == s.resultUrl
      && reply == SetTlReply(n.passId, n.sessionId)
  {
    var reset := ResetPass(s);
    var tl, skill := FormValue(form, "tl"), FormValue(form, "skill");
    var n := reset.(tes := reset.tes.(tl := tl, skill := skill));
    if tl == "" || skill == "" then Err(BadRequest)
    else
      var n := n.(passId := passUuid);
      var n := if n.sessionId == "" then n.(sessionId := sessionUuid) else n;
      if !persisted then Err(ServerError)
      else Ok((n, SetTlReply(n.passId, n.sessionId)))
  }

  /** Choosing a language again after a finished test starts from nothing:
      the result of SetTL does not depend on the attempt the session held. */
  lemma SetTlForgetsAttempt(s: Session, t: Session, form: Entries, passUuid: string, sessionUuid: string, persisted: bool)
    requires SameIdentity(s, t)
    ensures SetTl(s, form, passUuid, sessionUuid, persisted) == SetTl(t, form, passUuid, sessionUuid, persisted)
  {
    ResetPassForgetsAttempt(s, t);
  }

  /** Each accepted call hands out a new pass id, whatever the old one was. */
  lemma SetTlAssignsFreshPass(s: Session, form: Entries, p1: string, p2: string, sessionUuid: string)
    requires SetTl(s, form, p1, sessionUuid, true).Ok?
    ensures SetTl(s, form, p2, sessionUuid, true).Ok?
    ensures SetTl(s, form, p1, sessionUuid, true).value.0.passId == p1
    ensures SetTl(s, form, p2, sessionUuid, true).value.0.passId == p2
  {
  }
}
