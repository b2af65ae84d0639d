/** ScoreSA: scoring the self-assessment statements. */
module ScoreSaHandler {
  import opened Outcomes
  import opened Assoc
  import opened Forms
  import opened Catalog
  import opened Models
  import opened Scoring

  datatype SaReply = SaReply(saPpe: real, saLevel: string)

  /** The statement responses of a decoded body: "statement:<id>" keys only,
      true exactly when the value is "yes", as a map in insertion order. */
  function SaResponses(body: Entries): (al: seq<(string, bool)>)
    ensures DistinctKeys(al)
    ensures LastWins(al) == LastWins(PrefixedResponses(body, "statement:", "yes"))
  {
    Collect(PrefixedResponses(body, "statement:", "yes"))
  }

  /** The body is `None` when it fails to decode: it is neither a JSON object
      of strings nor the JSON `null`, which decodes to an empty object. */
  function ScoreSa(s: Session, c: Catalog, body: Option<Entries>): (r: Result<(Session, SaReply)>)
    ensures r.Err? ==> r.failure == ServerError
    ensures s.tes.tl == "" || s.tes.skill == "" || body.None? ==> r.Err?
    ensures s.tes.tl != "" && s.tes.skill != "" && body.Some? ==>
      (r.Err? <==> SaPpeAndLevel(c, s.tes.skill, SaResponses(body.value)).None?)
    ensures r.Ok? ==> var (n, reply) := r.value;
      && Some((reply.saPpe, reply.saLevel)) == SaPpeAndLevel(c, s.tes.skill, SaResponses(body.value))
      && n == s.(saPpe := reply.saPpe, saSubmitted := true, saLevel := reply.saLevel)
  {
    if s.tes.tl == "" || s.tes.skill == "" then Err(ServerError)
    else
      match body
      case None => Err(ServerError)
      case Some(entries) =>
        match SaPpeAndLevel(c, s.tes.skill, SaResponses(entries))
        case None => Err(ServerError)
        case Some((ppe, level)) => Ok((s.(saPpe := ppe, saSubmitted := true, saLevel := level), SaReply(ppe, level)))
  }

  /** Two bodies that give the same statement map score the same, whatever
      order Go visits either map in. */
  lemma ScoreSaDependsOnlyOnTheAnswers(s: Session, c: Catalog, b1: Entries, b2: Entries)
    requires LastWins(PrefixedResponses(b1, "statement:", "yes")) == LastWins(PrefixedResponses(b2, "statement:", "yes"))
    ensures ScoreSa(s, c, Some(b1)) == ScoreSa(s, c, Some(b2))
  {
    var r1, r2 := SaResponses(b1), SaResponses(b2);
    assert LastWins(r1) == LastWins(r2);
    SameMapSameEntries(r1, r2);
    SaRawScoreAnyOrder(c, s.tes.skill, r1, r2);
    SaPpeAndLevelByScore(c, s.tes.skill, r1, r2);
    ScoreSaByGrade(s, c, b1, b2);
  }

  /** The handler depends on the body only through the grade row it picks. */
  lemma ScoreSaByGrade(s: Session, c: Catalog, b1: Entries, b2: Entries)
    requires SaPpeAndLevel(c, s.tes.skill, SaResponses(b1)) == SaPpeAndLevel(c, s.tes.skill, SaResponses(b2))
    ensures ScoreSa(s, c, Some(b1)) == ScoreSa(s, c, Some(b2))
  {
  }

  /** A scoring error leaves the session as it was (nothing is stored), and
      success never touches the VSPT results. */
  lemma ScoreSaKeepsVspt(s: Session, c: Catalog, body: Option<Entries>)
    requires ScoreSa(s, c, body).Ok?
    ensures var n := ScoreSa(s, c, body).value.0;
      && n.vsptSubmitted == s.vsptSubmitted && n.vsptZScore == s.vsptZScore
      && n.vsptMearaScore == s.vsptMearaScore && n.vsptLevel == s.vsptLevel
      && n.saSubmitted
  {
  }
}
