/** Public links to documents: `Ensure`, `Revoke`, `Resolve` (internal/shared/publiclink/service.go, repository.go).

    Tokens are random and so never repeat; hashing is one-way and injective, and decryption undoes encryption: both are
    modelled symbolically. One SQL statement is one atomic step; a call that stops takes no further step. The unique
    indexes of the table allow one unrevoked link per document and one link per token hash. */
module PublicLink {
  import opened Wrappers

  type Token = string
  type LinkId = nat
  type CallId = nat
  type Time = int

  /** Organization, document type and document id. */
  datatype Document = Document(organization: string, kind: string, id: string)

  datatype TokenHash = HashOf(token: Token)
  datatype Secret = Encrypted(token: Token)

  function Decrypt(secret: Secret): Token {
    secret.token
  }

  datatype Link = Link(doc: Document, hash: TokenHash, secret: Secret, expiresAt: Time, revokedAt: Option<Time>)

  type Links = map<LinkId, Link>

  // ---------- the statements on the table ----------

  predicate ActiveFor(link: Link, doc: Document) {
    link.doc == doc && link.revokedAt == None
  }

  ghost predicate FoundActive(links: Links, doc: Document, id: LinkId) {
    id in links && ActiveFor(links[id], doc)
  }

  /** The insert violates a unique index (error 23505). */
  predicate Conflicts(links: Links, doc: Document, hash: TokenHash) {
    exists id :: id in links && (ActiveFor(links[id], doc) || links[id].hash == hash)
  }

  function RevokeLinks(links: Links, doc: Document, at: Time): Links {
    map id | id in links :: if ActiveFor(links[id], doc) then links[id].(revokedAt := Some(at)) else links[id]
  }

  function UpdateExpiry(links: Links, id: LinkId, expiresAt: Time): Links {
    if id in links then links[id := links[id].(expiresAt := expiresAt)] else links
  }

  // ---------- the protocol ----------

  /** Where a call of `Ensure` stands: about to look for an active link (again, after a conflict), holding the link it
      found, holding the token it is about to insert, or back with a token. */
  datatype Phase =
    | Finding(again: bool)
    | Reusing(link: LinkId, secret: Secret, expiry: Time)
    | Inserting(newToken: Token)
    | Returned(id: LinkId, token: Token)
    | Errored

  datatype Call = Call(doc: Document, expiresAt: Time, phase: Phase)

  /** `used`: the tokens generated so far. */
  datatype State = State(links: Links, calls: map<CallId, Call>, used: set<Token>)

  const INITIAL := State(map[], map[], {})

  datatype Step =
    | Start(call: CallId, doc: Document, expiresAt: Time)
    | Find(call: CallId, found: Option<LinkId>, newToken: Token)
    | Insert(call: CallId, id: LinkId)
    | Finish(call: CallId)
    | Revoke(doc: Document, at: Time)

  ghost predicate Enabled(s: State, step: Step) {
    match step
    case Start(call, _, _) => call !in s.calls
    case Find(call, found, newToken) =>
      && call in s.calls && s.calls[call].phase.Finding?
      && (if found.Some? then FoundActive(s.links, s.calls[call].doc, found.value)
          else forall id :: !FoundActive(s.links, s.calls[call].doc, id))
      && |newToken| > 0 && newToken !in s.used
    case Insert(call, id) => call in s.calls && s.calls[call].phase.Inserting? && id !in s.links
    case Finish(call) => call in s.calls && s.calls[call].phase.Reusing?
    case Revoke(_, _) => true
  }

  function Moved(s: State, call: CallId, phase: Phase): State
    requires call in s.calls
  {
    s.(calls := s.calls[call := s.calls[call].(phase := phase)])
  }

  function NewLink(c: Call, token: Token): Link {
    Link(c.doc, HashOf(token), Encrypted(token), c.expiresAt, None)
  }

  ghost function Next(s: State, step: Step): State
    requires Enabled(s, step)
  {
    match step
    case Start(call, doc, expiresAt) => s.(calls := s.calls[call := Call(doc, expiresAt, Finding(false))])
    case Find(call, found, newToken) =>
      if found.Some? then
        Moved(s, call, Reusing(found.value, s.links[found.value].secret, s.links[found.value].expiresAt))
      else if s.calls[call].phase.again then Moved(s, call, Errored)
      else Moved(s, call, Inserting(newToken)).(used := s.used + {newToken})
    case Insert(call, id) =>
      var c := s.calls[call];
      if Conflicts(s.links, c.doc, HashOf(c.phase.newToken)) then Moved(s, call, Finding(true))
      else Moved(s, call, Returned(id, c.phase.newToken)).(links := s.links[id := NewLink(c, c.phase.newToken)])
    case Finish(call) =>
      var c := s.calls[call];
      var links := if c.phase.expiry == c.expiresAt then s.links else UpdateExpiry(s.links, c.phase.link, c.expiresAt);
      Moved(s, call, Returned(c.phase.link, Decrypt(c.phase.secret))).(links := links)
    case Revoke(doc, at) => s.(links := RevokeLinks(s.links, doc, at))
  }

  ghost function Reach(trace: seq<Step>): Option<State> {
    if trace == [] then Some(INITIAL)
    else
      var before := Reach(trace[..|trace| - 1]);
      var step := trace[|trace| - 1];
      if before.Some? && Enabled(before.value, step) then Some(Next(before.value, step)) else None
  }

  ghost predicate Possible(trace: seq<Step>) {
    Reach(trace).Some?
  }

  ghost function After(trace: seq<Step>): State
    requires Possible(trace)
  {
    Reach(trace).value
  }

  /** `Resolve`: the link whose hash is the token's, revoked or expired as it may be; nothing if there is none. */
  ghost predicate ResolvesTo(links: Links, token: Token, id: LinkId) {
    |token| > 0 && id in links && links[id].hash == HashOf(token)
  }

  // ---------- what every step keeps ----------

  function TokenOf(link: Link): Token {
    Decrypt(link.secret)
  }

  ghost predicate LinksAreGood(s: State) {
    forall id :: id in s.links ==>
      s.links[id].hash == HashOf(TokenOf(s.links[id])) && TokenOf(s.links[id]) in s.used && |TokenOf(s.links[id])| > 0
  }

  ghost predicate TokensAreUnique(links: Links) {
    forall i, j :: i in links && j in links && TokenOf(links[i]) == TokenOf(links[j]) ==> i == j
  }

  ghost predicate OneActivePerDocument(links: Links) {
    forall i, j, doc :: FoundActive(links, doc, i) && FoundActive(links, doc, j) ==> i == j
  }

  ghost predicate Holds(s: State, call: CallId, token: Token) {
    call in s.calls && s.calls[call].phase == Inserting(token)
  }

  ghost predicate NewTokensAreNew(s: State) {
    && (forall c, token :: Holds(s, c, token) ==>
          token in s.used && |token| > 0 && forall id :: id in s.links ==> TokenOf(s.links[id]) != token)
    && (forall c, d, token :: Holds(s, c, token) && Holds(s, d, token) ==> c == d)
  }

  /** The call holds or has returned link `id`. */
  predicate HasLink(c: Call, id: LinkId) {
    (c.phase.Reusing? && c.phase.link == id) || (c.phase.Returned? && c.phase.id == id)
  }

  ghost predicate CallsAreGood(s: State) {
    forall c, id :: c in s.calls && HasLink(s.calls[c], id) ==>
      && id in s.links && s.links[id].doc == s.calls[c].doc
      && (s.calls[c].phase.Reusing? ==> s.calls[c].phase.secret == s.links[id].secret)
      && (s.calls[c].phase.Returned? ==> s.calls[c].phase.token == TokenOf(s.links[id]))
  }

  ghost predicate Consistent(s: State) {
    LinksAreGood(s) && TokensAreUnique(s.links) && OneActivePerDocument(s.links) && NewTokensAreNew(s) && CallsAreGood(s)
  }

  lemma StepKeeps(s: State, step: Step)
    requires Consistent(s) && Enabled(s, step)
    ensures Consistent(Next(s, step))
  {
    hide Consistent, Next;
    match step
    case Start(_, _, _) => StartKeeps(s, step);
    case Find(_, _, _) => FindKeeps(s, step);
    case Insert(_, _) => InsertKeeps(s, step);
    case Finish(_) => FinishKeeps(s, step);
    case Revoke(_, _) => RevokeKeeps(s, step);
  }

  lemma StartKeeps(s: State, step: Step)
    requires Consistent(s) && Enabled(s, step) && step.Start?
    ensures Consistent(Next(s, step))
  {
    var t := Next(s, step);
    assert forall c, token :: Holds(t, c, token) ==> Holds(s, c, token);
  }

  lemma FindKeepsCalls(s: State, step: Step)
    requires CallsAreGood(s) && Enabled(s, step) && step.Find?
    ensures CallsAreGood(Next(s, step))
  {
    assert step.found.Some? ==> FoundActive(s.links, s.calls[step.call].doc, step.found.value);
  }

  lemma FindKeepsNewTokens(s: State, step: Step)
    requires LinksAreGood(s) && NewTokensAreNew(s) && Enabled(s, step) && step.Find?
    ensures NewTokensAreNew(Next(s, step))
  {
    var t := Next(s, step);
    forall c, token | Holds(t, c, token) ensures Holds(s, c, token) || (c == step.call && token == step.newToken) {
    }
  }

  lemma FindKeeps(s: State, step: Step)
    requires Consistent(s) && Enabled(s, step) && step.Find?
    ensures Consistent(Next(s, step))
  {
    FindKeepsCalls(s, step);
    FindKeepsNewTokens(s, step);
    hide CallsAreGood, NewTokensAreNew, TokensAreUnique, OneActivePerDocument;
    assert Next(s, step).links == s.links && s.used <= Next(s, step).used;
  }

  lemma InsertKeepsLinks(s: State, id: LinkId, link: Link)
    requires LinksAreGood(s) && TokensAreUnique(s.links) && id !in s.links
    requires link.hash == HashOf(TokenOf(link)) && TokenOf(link) in s.used && |TokenOf(link)| > 0
    requires forall k :: k in s.links ==> TokenOf(s.links[k]) != TokenOf(link)
    ensures LinksAreGood(s.(links := s.links[id := link])) && TokensAreUnique(s.links[id := link])
  {
  }

  lemma InsertKeepsNewTokens(s: State, call: CallId, id: LinkId, link: Link, phase: Phase)
    requires NewTokensAreNew(s) && Holds(s, call, TokenOf(link)) && !phase.Inserting?
    ensures NewTokensAreNew(Moved(s, call, phase).(links := s.links[id := link]))
    ensures NewTokensAreNew(Moved(s, call, phase))
  {
    forall d, token | Holds(Moved(s, call, phase), d, token) ensures d != call && Holds(s, d, token) {
    }
    assert forall t, d, token :: t == Moved(s, call, phase).(links := s.links[id := link]) && Holds(t, d, token)
             ==> Holds(Moved(s, call, phase), d, token);
  }

  lemma InsertKeepsCalls(s: State, call: CallId, id: LinkId)
    requires CallsAreGood(s) && call in s.calls && s.calls[call].phase.Inserting? && id !in s.links
    ensures var c := s.calls[call];
            CallsAreGood(Moved(s, call, Returned(id, c.phase.newToken)).(links := s.links[id := NewLink(c, c.phase.newToken)]))
    ensures CallsAreGood(Moved(s, call, Finding(true)))
  {
  }

  lemma InsertKeeps(s: State, step: Step)
    requires Consistent(s) && Enabled(s, step) && step.Insert?
    ensures Consistent(Next(s, step))
  {
    hide LinksAreGood, TokensAreUnique, OneActivePerDocument, CallsAreGood, Conflicts;
    var c := s.calls[step.call];
    var link := NewLink(c, c.phase.newToken);
    assert Holds(s, step.call, c.phase.newToken) && TokenOf(link) == c.phase.newToken;
    InsertKeepsCalls(s, step.call, step.id);
    InsertKeepsNewTokens(s, step.call, step.id, link, Finding(true));
    InsertKeepsNewTokens(s, step.call, step.id, link, Returned(step.id, c.phase.newToken));
    hide NewTokensAreNew;
    if !Conflicts(s.links, c.doc, HashOf(c.phase.newToken)) {
      InsertKeepsLinks(s, step.id, link);
      InsertKeepsOneActive(s.links, step.id, link);
      OnlyLinksMatter(s.(links := s.links[step.id := link]), Next(s, step));
    } else {
      OnlyLinksMatter(s, Next(s, step));
    }
  }

  lemma OnlyLinksMatter(s: State, t: State)
    requires LinksAreGood(s) && t.links == s.links && t.used == s.used
    ensures LinksAreGood(t)
  {
  }

  lemma InsertKeepsOneActive(links: Links, id: LinkId, link: Link)
    requires OneActivePerDocument(links) && id !in links && !Conflicts(links, link.doc, link.hash)
    ensures OneActivePerDocument(links[id := link])
  {
    var later := links[id := link];
    forall i, doc | FoundActive(later, doc, i)
      ensures i == id ==> doc == link.doc
      ensures i != id ==> FoundActive(links, doc, i) && doc != link.doc
    {
      assert i != id ==> i in links && links[i] == later[i];
    }
  }

  /** Links that only change their expiry, or become revoked. */
  lemma LinksOnlyAge(links: Links, later: Links)
    requires TokensAreUnique(links) && OneActivePerDocument(links)
    requires later.Keys == links.Keys
    requires forall id :: id in links ==> && later[id].doc == links[id].doc && later[id].hash == links[id].hash
                                          && later[id].secret == links[id].secret
                                          && (later[id].revokedAt == None ==> links[id].revokedAt == None)
    ensures TokensAreUnique(later) && OneActivePerDocument(later)
  {
    forall i, doc | FoundActive(later, doc, i) ensures FoundActive(links, doc, i) {
    }
  }

  lemma FinishKeeps(s: State, step: Step)
    requires Consistent(s) && Enabled(s, step) && step.Finish?
    ensures Consistent(Next(s, step))
  {
    var c := s.calls[step.call];
    assert HasLink(c, c.phase.link);
    var t := Next(s, step);
    assert forall d, token :: Holds(t, d, token) ==> Holds(s, d, token);
    LinksOnlyAge(s.links, t.links);
  }

  lemma RevokeKeeps(s: State, step: Step)
    requires Consistent(s) && Enabled(s, step) && step.Revoke?
    ensures Consistent(Next(s, step))
  {
    var t := Next(s, step);
    assert forall d, token :: Holds(t, d, token) ==> Holds(s, d, token);
    LinksOnlyAge(s.links, t.links);
  }

  lemma {:induction false} AlwaysConsistent(trace: seq<Step>)
    requires Possible(trace)
    ensures Consistent(After(trace))
    decreases |trace|
  {
    if trace != [] {
      AlwaysConsistent(trace[..|trace| - 1]);
      StepKeeps(After(trace[..|trace| - 1]), trace[|trace| - 1]);
    }
  }

  /** Every token `Ensure` has returned resolves to a link of that document, and to no other link, whatever has
      happened since. */
  lemma ReturnedTokenResolves(trace: seq<Step>, call: CallId)
    requires Possible(trace) && call in After(trace).calls && After(trace).calls[call].phase.Returned?
    ensures var s := After(trace);
            var c := s.calls[call];
            && ResolvesTo(s.links, c.phase.token, c.phase.id) && s.links[c.phase.id].doc == c.doc
            && forall id :: ResolvesTo(s.links, c.phase.token, id) ==> id == c.phase.id
  {
    AlwaysConsistent(trace);
    var s := After(trace);
    var id := s.calls[call].phase.id;
    assert HasLink(s.calls[call], id);
    assert s.calls[call].phase.token == TokenOf(s.links[id]);
  }

  // ---------- calls that overlap ----------

  /** One step that does not revoke the document leaves its links active. */
  lemma StepKeepsActive(s: State, step: Step, doc: Document, id: LinkId)
    requires Consistent(s) && Enabled(s, step) && FoundActive(s.links, doc, id)
    requires !(step.Revoke? && step.doc == doc)
    ensures FoundActive(Next(s, step).links, doc, id)
  {
  }

  ghost predicate Revokes(step: Step, doc: Document) {
    step.Revoke? && step.doc == doc
  }

  /** A call gets its link when that link is active, and keeps it. */
  lemma LinkComesActive(s: State, step: Step, call: CallId, id: LinkId)
    requires Consistent(s) && Enabled(s, step) && !step.Revoke?
    requires call in Next(s, step).calls && HasLink(Next(s, step).calls[call], id)
    ensures (call in s.calls && HasLink(s.calls[call], id)) || FoundActive(Next(s, step).links, Next(s, step).calls[call].doc, id)
  {
  }

  lemma CallKeepsDocument(s: State, step: Step, call: CallId)
    requires Enabled(s, step) && call in s.calls
    ensures call in Next(s, step).calls && Next(s, step).calls[call].doc == s.calls[call].doc
    ensures step.Revoke? ==> Next(s, step).calls == s.calls
  {
  }

  /** While the document is not revoked, the link of a call that began after `trace` is active. */
  lemma {:induction false} LinkStaysActive(trace: seq<Step>, more: seq<Step>, call: CallId, id: LinkId)
    requires Possible(trace) && Possible(trace + more) && call !in After(trace).calls
    requires call in After(trace + more).calls && HasLink(After(trace + more).calls[call], id)
    requires forall step :: step in more ==> !Revokes(step, After(trace + more).calls[call].doc)
    ensures FoundActive(After(trace + more).links, After(trace + more).calls[call].doc, id)
    decreases |more|
  {
    hide Next, Consistent, HasLink, FoundActive;
    assert trace + [] == trace;
    if more != [] {
      var front, step := more[..|more| - 1], more[|more| - 1];
      assert (trace + more)[..|trace + more| - 1] == trace + front;
      assert step in more && forall x :: x in front ==> x in more;
      AlwaysConsistent(trace + front);
      var s := After(trace + front);
      if call in s.calls {
        CallKeepsDocument(s, step, call);
      }
      if !step.Revoke? {
        LinkComesActive(s, step, call, id);
      } else if call !in s.calls {
        RevokeStartsNothing(s, step);
      }
      if call in s.calls && HasLink(s.calls[call], id) {
        LinkStaysActive(trace, front, call, id);
        StepKeepsActive(s, step, s.calls[call].doc, id);
      }
    }
  }

  lemma RevokeStartsNothing(s: State, step: Step)
    requires Enabled(s, step) && step.Revoke?
    ensures Next(s, step).calls == s.calls
  {
  }

  ghost predicate HasActive(links: Links, doc: Document) {
    exists id :: FoundActive(links, doc, id)
  }

  lemma HasActiveStays(s: State, step: Step, doc: Document)
    requires Consistent(s) && Enabled(s, step) && HasActive(s.links, doc) && !Revokes(step, doc)
    ensures HasActive(Next(s, step).links, doc)
  {
    hide Consistent, Enabled, Next, FoundActive;
    var id :| FoundActive(s.links, doc, id);
    StepKeepsActive(s, step, doc, id);
  }

  /** A new token is in no link, so an insert fails only because the document has an active link. */
  lemma ConflictIsActive(s: State, call: CallId)
    requires Consistent(s) && call in s.calls && s.calls[call].phase.Inserting?
    requires Conflicts(s.links, s.calls[call].doc, HashOf(s.calls[call].phase.newToken))
    ensures HasActive(s.links, s.calls[call].doc)
  {
    var c := s.calls[call];
    assert Holds(s, call, c.phase.newToken);
    var id :| id in s.links && (ActiveFor(s.links[id], c.doc) || s.links[id].hash == HashOf(c.phase.newToken));
    assert s.links[id].hash == HashOf(TokenOf(s.links[id]));
    assert FoundActive(s.links, c.doc, id);
  }

  /** A call looks again only while the document has an active link, and finds it then. */
  ghost predicate FindsActive(s: State, call: CallId) {
    call in s.calls ==>
      && s.calls[call].phase != Errored
      && (s.calls[call].phase == Finding(true) ==> HasActive(s.links, s.calls[call].doc))
  }

  lemma StepFindsActive(s: State, step: Step, call: CallId)
    requires Consistent(s) && Enabled(s, step) && FindsActive(s, call)
    requires call in Next(s, step).calls && !Revokes(step, Next(s, step).calls[call].doc)
    ensures FindsActive(Next(s, step), call)
  {
    hide Consistent, FoundActive, Conflicts, HasActive;
    var t := Next(s, step);
    if call in s.calls {
      CallKeepsDocument(s, step, call);
      if s.calls[call].phase == Finding(true) {
        HasActiveStays(s, step, s.calls[call].doc);
      }
      if step.Insert? && step.call == call && t.calls[call].phase == Finding(true) {
        ConflictIsActive(s, call);
      }
      if step.Find? && step.call == call && step.found == None && s.calls[call].phase.again {
        NoneIsActive(s.links, s.calls[call].doc);
      }
    }
  }

  lemma NoneIsActive(links: Links, doc: Document)
    requires forall id :: !FoundActive(links, doc, id)
    ensures !HasActive(links, doc)
  {
  }

  lemma {:induction false} FindsActiveUntilRevoked(trace: seq<Step>, more: seq<Step>, call: CallId)
    requires Possible(trace) && Possible(trace + more) && call !in After(trace).calls
    requires call in After(trace + more).calls
    requires forall step :: step in more ==> !Revokes(step, After(trace + more).calls[call].doc)
    ensures FindsActive(After(trace + more), call)
    decreases |more|
  {
    hide Next, Consistent, FindsActive, Enabled;
    assert trace + [] == trace;
    if more != [] {
      var front, step := more[..|more| - 1], more[|more| - 1];
      assert (trace + more)[..|trace + more| - 1] == trace + front;
      assert step in more && forall x :: x in front ==> x in more;
      AlwaysConsistent(trace + front);
      var s := After(trace + front);
      if call in s.calls {
        CallKeepsDocument(s, step, call);
        FindsActiveUntilRevoked(trace, front, call);
      } else {
        NotYetBegun(s, call);
      }
      StepFindsActive(s, step, call);
    }
  }

  /** A call errs only if its document was revoked after it began. */
  lemma ErrsOnlyWhenRevoked(trace: seq<Step>, more: seq<Step>, call: CallId)
    requires Possible(trace) && Possible(trace + more) && call !in After(trace).calls
    requires call in After(trace + more).calls && After(trace + more).calls[call].phase == Errored
    ensures exists step :: step in more && Revokes(step, After(trace + more).calls[call].doc)
  {
    if forall step :: step in more ==> !Revokes(step, After(trace + more).calls[call].doc) {
      FindsActiveUntilRevoked(trace, more, call);
    }
  }

  lemma NotYetBegun(s: State, call: CallId)
    requires call !in s.calls
    ensures FindsActive(s, call)
  {
  }

  /** Two calls of `Ensure` for a document that begin after `trace` and have returned, with no `Revoke` of it in
      between, have returned the same token, whoever inserted and whoever met the conflict. */
  lemma OverlappingCallsAgree(trace: seq<Step>, more: seq<Step>, a: CallId, b: CallId)
    requires Possible(trace) && Possible(trace + more)
    requires a !in After(trace).calls && b !in After(trace).calls
    requires var s := After(trace + more);
             && a in s.calls && b in s.calls && s.calls[a].doc == s.calls[b].doc
             && s.calls[a].phase.Returned? && s.calls[b].phase.Returned?
    requires forall step :: step in more ==> !Revokes(step, After(trace + more).calls[a].doc)
    ensures After(trace + more).calls[a].phase.token == After(trace + more).calls[b].phase.token
  {
    var s := After(trace + more);
    AlwaysConsistent(trace + more);
    LinkStaysActive(trace, more, a, s.calls[a].phase.id);
    LinkStaysActive(trace, more, b, s.calls[b].phase.id);
    assert HasLink(s.calls[a], s.calls[a].phase.id) && HasLink(s.calls[b], s.calls[b].phase.id);
  }

  /** A revoked link stays revoked, and a returned call stays as it is. */
  lemma {:induction false} RevokedStaysRevoked(trace: seq<Step>, more: seq<Step>, id: LinkId, call: CallId)
    requires Possible(trace) && Possible(trace + more)
    requires id in After(trace).links && After(trace).links[id].revokedAt.Some?
    ensures id in After(trace + more).links && After(trace + more).links[id].revokedAt.Some?
    ensures call in After(trace).calls && After(trace).calls[call].phase.Returned? ==>
              call in After(trace + more).calls && After(trace + more).calls[call] == After(trace).calls[call]
    decreases |more|
  {
    if more == [] {
      assert trace + more == trace;
    } else {
      var front := more[..|more| - 1];
      assert (trace + more)[..|trace + more| - 1] == trace + front;
      RevokedStaysRevoked(trace, front, id, call);
    }
  }

  /** A call that began after a link was revoked never has that link. */
  lemma {:induction false} NewCallsHaveOtherLinks(trace: seq<Step>, more: seq<Step>, revoked: LinkId, call: CallId)
    requires Possible(trace) && Possible(trace + more) && call !in After(trace).calls
    requires revoked in After(trace).links && After(trace).links[revoked].revokedAt.Some?
    requires call in After(trace + more).calls
    ensures !HasLink(After(trace + more).calls[call], revoked)
    decreases |more|
  {
    assert trace + [] == trace;
    if more != [] {
      var front := more[..|more| - 1];
      assert (trace + more)[..|trace + more| - 1] == trace + front;
      RevokedStaysRevoked(trace, front, revoked, call);
      if call in After(trace + front).calls {
        NewCallsHaveOtherLinks(trace, front, revoked, call);
      }
    }
  }

  /** `Revoke` separates: a token returned before it is never returned by a call that begins after it. */
  lemma RevokeSeparatesTokens(trace: seq<Step>, at: Time, more: seq<Step>, a: CallId, b: CallId)
    requires Possible(trace) && a in After(trace).calls && After(trace).calls[a].phase.Returned?
    requires var cut := trace + [Revoke(After(trace).calls[a].doc, at)];
             Possible(cut) && Possible(cut + more) && b !in After(cut).calls
             && b in After(cut + more).calls && After(cut + more).calls[b].phase.Returned?
    ensures After(trace + [Revoke(After(trace).calls[a].doc, at)] + more).calls[b].phase.token
         != After(trace).calls[a].phase.token
  {
    var c := After(trace).calls[a];
    var cut := trace + [Revoke(c.doc, at)];
    assert cut[..|trace|] == trace;
    AlwaysConsistent(trace);
    assert HasLink(c, c.phase.id);
    RevokeStartsNothing(After(trace), Revoke(c.doc, at));
    RevokedStaysRevoked(cut, more, c.phase.id, a);
    NewCallsHaveOtherLinks(cut, more, c.phase.id, b);
    var s := After(cut + more);
    LinksTellTokensApart(cut + more, a, b);
    assert HasLink(s.calls[a], c.phase.id);
  }

  lemma LinksTellTokensApart(trace: seq<Step>, a: CallId, b: CallId)
    requires Possible(trace)
    requires var s := After(trace);
             a in s.calls && b in s.calls && s.calls[a].phase.Returned? && s.calls[b].phase.Returned?
    ensures var s := After(trace);
            s.calls[a].phase.token == s.calls[b].phase.token <==> s.calls[a].phase.id == s.calls[b].phase.id
  {
    AlwaysConsistent(trace);
    var s := After(trace);
    var i, j := s.calls[a].phase.id, s.calls[b].phase.id;
    assert HasLink(s.calls[a], i) && HasLink(s.calls[b], j);
    assert s.calls[a].phase.token == TokenOf(s.links[i]) && s.calls[b].phase.token == TokenOf(s.links[j]);
  }

  // ---------- the service ----------

  predicate OfCall(step: Step, call: CallId) {
    !step.Revoke? && step.call == call
  }

  lemma {:induction false} OthersLeaveCall(trace: seq<Step>, more: seq<Step>, call: CallId)
    requires Possible(trace) && Possible(trace + more) && forall step :: step in more ==> !OfCall(step, call)
    ensures var s, t := After(trace), After(trace + more);
            (call in t.calls <==> call in s.calls) && (call in s.calls ==> t.calls[call] == s.calls[call])
    decreases |more|
  {
    hide Conflicts, FoundActive;
    if more == [] {
      assert trace + more == trace;
    } else {
      var front := more[..|more| - 1];
      assert (trace + more)[..|trace + more| - 1] == trace + front;
      OthersLeaveCall(trace, front, call);
      assert more[|more| - 1] in more;
    }
  }

  lemma HeldLinkExists(trace: seq<Step>, call: CallId, id: LinkId)
    requires Possible(trace) && call in After(trace).calls && HasLink(After(trace).calls[call], id)
    ensures id in After(trace).links
  {
    AlwaysConsistent(trace);
  }

  /** The table of links, with the trace of the steps that led to it. */
  class LinkStore {
    var links: Links
    var used: set<Token>
    ghost var calls: map<CallId, Call>
    ghost var trace: seq<Step>

    ghost function Now(): State
      reads this
    {
      State(links, calls, used)
    }

    ghost predicate Tracked()
      reads this
    {
      Reach(trace) == Some(Now())
    }

    constructor ()
      ensures Tracked() && trace == []
    {
      links, used, calls, trace := map[], {}, map[], [];
    }

    ghost method Record(before: State, step: Step)
      requires Reach(trace) == Some(before) && Enabled(before, step) && calls == before.calls
      requires var s := Next(before, step); s.links == links && s.used == used
      modifies this`calls, this`trace
      ensures Tracked() && trace == old(trace) + [step] && Now() == Next(before, step)
    {
      hide Enabled, Next;
      calls := Next(before, step).calls;
      assert (trace + [step])[..|trace|] == trace;
      trace := trace + [step];
    }

    /** Anything other calls and revocations may do in between. */
    method Others(call: CallId)
      requires Tracked()
      modifies this
      ensures Tracked() && old(trace) <= trace
      ensures forall step :: step in trace[|old(trace)|..] ==> !OfCall(step, call)
    {
    }

    method Interleave(call: CallId)
      requires Tracked() && call in calls
      modifies this
      ensures Tracked() && old(trace) <= trace
      ensures call in calls && calls[call] == old(calls)[call]
    {
      hide Enabled, Next;
      ghost var before := trace;
      Others(call);
      assert trace == before + trace[|before|..];
      OthersLeaveCall(before, trace[|before|..], call);
    }

    method FindActive(doc: Document) returns (found: Option<LinkId>)
      ensures found.Some? ==> FoundActive(links, doc, found.value)
      ensures found == None ==> forall id :: !FoundActive(links, doc, id)
    {
      var left := links.Keys;
      while left != {}
        invariant left <= links.Keys && forall id :: id in links && id !in left ==> !ActiveFor(links[id], doc)
        decreases left
      {
        var id :| id in left;
        if ActiveFor(links[id], doc) {
          return Some(id);
        }
        left := left - {id};
      }
      return None;
    }

    /** Whether an insert would violate a unique index. */
    method FindConflict(doc: Document, hash: TokenHash) returns (found: bool)
      ensures found == Conflicts(links, doc, hash)
    {
      var left := links.Keys;
      while left != {}
        invariant left <= links.Keys
        invariant forall id :: id in links && id !in left ==> !ActiveFor(links[id], doc) && links[id].hash != hash
        decreases left
      {
        var id :| id in left;
        if ActiveFor(links[id], doc) || links[id].hash == hash {
          return true;
        }
        left := left - {id};
      }
      return false;
    }

    /** Whatever other calls do meanwhile, a token that comes back resolves to a link of the document, and none comes back only
        if the document is revoked meanwhile. */
    method Ensure(call: CallId, doc: Document, expiresAt: Time, newToken: set<Token> -> Token, newId: Links -> LinkId)
      returns (token: Option<Token>)
      requires Tracked() && call !in calls
      requires forall tokens :: newToken(tokens) !in tokens && |newToken(tokens)| > 0
      requires forall table :: newId(table) !in table
      modifies this
      ensures Tracked() && old(trace) <= trace && call in calls && calls[call].doc == doc
      ensures if token.Some? then calls[call].phase.Returned? && calls[call].phase.token == token.value else calls[call].phase.Errored?
      ensures token.Some? ==> var id := calls[call].phase.id; ResolvesTo(links, token.value, id) && links[id].doc == doc
      ensures token == None ==> exists step :: step in trace[|old(trace)|..] && Revokes(step, doc)
    {
      hide Next, Enabled, Conflicts, FoundActive, Reach, Revokes;
      StartCall(call, doc, expiresAt);
      Interleave(call);
      var found, draft, secret, expiry := Look(call, doc, expiresAt, false, newToken);
      if found.Some? {
        token := Reuse(call, doc, expiresAt, found.value, secret, expiry);
      } else {
        Interleave(call);
        token := TryInsert(call, doc, expiresAt, draft, newId);
        if token == None {
          Interleave(call);
          found, draft, secret, expiry := Look(call, doc, expiresAt, true, newToken);
          if found == None {
            assert trace == old(trace) + trace[|old(trace)|..];
            ErrsOnlyWhenRevoked(old(trace), trace[|old(trace)|..], call);
            return None;
          }
          token := Reuse(call, doc, expiresAt, found.value, secret, expiry);
        }
      }
      assert Reach(trace) == Some(Now());
      ReturnedTokenResolves(trace, call);
    }

    ghost method StartCall(call: CallId, doc: Document, expiresAt: Time)
      requires Tracked() && call !in calls
      modifies this`calls, this`trace
      ensures Tracked() && old(trace) <= trace
      ensures call in calls && calls[call] == Call(doc, expiresAt, Finding(false))
    {
      Record(Now(), Start(call, doc, expiresAt));
    }

    /** Looks for an active link; the first time, a token is made when there is none. */
    method Look(call: CallId, doc: Document, expiresAt: Time, again: bool, newToken: set<Token> -> Token)
      returns (found: Option<LinkId>, draft: Token, secret: Secret, expiry: Time)
      requires Tracked() && call in calls && calls[call] == Call(doc, expiresAt, Finding(again))
      requires forall tokens :: newToken(tokens) !in tokens && |newToken(tokens)| > 0
      modifies this
      ensures Tracked() && old(trace) <= trace && call in calls
      ensures found.Some? ==> calls[call] == Call(doc, expiresAt, Reusing(found.value, secret, expiry))
      ensures found == None && again ==> calls[call] == Call(doc, expiresAt, Errored)
      ensures found == None && !again ==> calls[call] == Call(doc, expiresAt, Inserting(draft))
    {
      found := FindActive(doc);
      ghost var before := Now();
      draft := newToken(used);
      secret, expiry := Encrypted(draft), expiresAt;
      if found.Some? {
        secret, expiry := links[found.value].secret, links[found.value].expiresAt;
      } else if !again {
        used := used + {draft};
      }
      Record(before, Find(call, found, draft));
    }

    /** None: a unique index was violated, so somebody else has made the link. */
    method TryInsert(call: CallId, doc: Document, expiresAt: Time, draft: Token, newId: Links -> LinkId)
      returns (token: Option<Token>)
      requires Tracked() && call in calls && calls[call] == Call(doc, expiresAt, Inserting(draft))
      requires forall table :: newId(table) !in table
      modifies this
      ensures Tracked() && old(trace) <= trace && call in calls
      ensures token == None <==> Conflicts(old(links), doc, HashOf(draft))
      ensures token == None ==> calls[call] == Call(doc, expiresAt, Finding(true)) && links == old(links)
      ensures token.Some? ==> token.value == draft && calls[call].doc == doc
                              && calls[call].phase.Returned? && calls[call].phase.token == draft
                              && calls[call].phase.id !in old(links)
                              && links == old(links)[calls[call].phase.id := Link(doc, HashOf(draft), Encrypted(draft), expiresAt, None)]
    {
      var conflict := FindConflict(doc, HashOf(draft));
      ghost var before := Now();
      var id := newId(links);
      if !conflict {
        links := links[id := Link(doc, HashOf(draft), Encrypted(draft), expiresAt, None)];
      }
      Record(before, Insert(call, id));
      return if conflict then None else Some(draft);
    }

    /** `reuse`: decrypts the token of the link found, and updates the expiry when it differs. */
    method Reuse(call: CallId, doc: Document, expiresAt: Time, id: LinkId, secret: Secret, expiry: Time)
      returns (token: Option<Token>)
      requires Tracked() && call in calls && calls[call] == Call(doc, expiresAt, Reusing(id, secret, expiry))
      modifies this
      ensures Tracked() && old(trace) <= trace && call in calls
      ensures token == Some(Decrypt(secret)) && calls[call] == Call(doc, expiresAt, Returned(id, Decrypt(secret)))
      ensures id in links && (expiry != expiresAt ==> links[id].expiresAt == expiresAt)
    {
      Interleave(call);
      HeldLinkExists(trace, call, id);
      ghost var before := Now();
      if expiry != expiresAt && id in links {
        links := links[id := links[id].(expiresAt := expiresAt)];
      }
      Record(before, Finish(call));
      return Some(Decrypt(secret));
    }

    /** Afterwards the document has no active link. */
    method Revoke(doc: Document, at: Time)
      requires Tracked()
      modifies this
      ensures Tracked() && trace == old(trace) + [Step.Revoke(doc, at)]
      ensures links == RevokeLinks(old(links), doc, at) && forall id :: !FoundActive(links, doc, id)
    {
      ghost var before := Now();
      links := RevokeLinks(links, doc, at);
      Record(before, Step.Revoke(doc, at));
    }

    /** The one link of the token, revoked and expired ones included; None stands for ErrLinkInvalid. */
    method Resolve(token: Token) returns (found: Option<LinkId>)
      requires Tracked()
      ensures found == None <==> forall id :: !ResolvesTo(links, token, id)
      ensures found.Some? ==> forall id :: ResolvesTo(links, token, id) <==> id == found.value
    {
      AlwaysConsistent(trace);
      if token == "" {
        return None;
      }
      var left := links.Keys;
      while left != {}
        invariant left <= links.Keys && forall id :: id in links && id !in left ==> links[id].hash != HashOf(token)
        decreases left
      {
        var id :| id in left;
        if links[id].hash == HashOf(token) {
          assert ResolvesTo(links, token, id);
          return Some(id);
        }
        left := left - {id};
      }
      return None;
    }
  }
}
