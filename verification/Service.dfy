/** The service: who may call, the callbacks a finish carries into its
    transaction, and what a caller can and cannot change. */
module Services {
  import opened Ceremonies
  import opened Store
  import opened WebAuthn
  import opened Transactions
  import opened Counters
  import opened Repository
  import opened Identity
  import opened NoTrace
  import opened Outcomes

  const CEREMONY_TTL: Time := 300000000000

  type Applications = map<string, Application>

  /** A client is a certificate fingerprint the application lists; the empty
      fingerprint never is one. */
  predicate IsClient(a: Application, fingerprint: string) {
    fingerprint in a.clients && fingerprint != ""
  }

  method AuthorizeClient(a: Application, fingerprint: string) returns (fault: Option<Fault>)
    ensures fault == if fingerprint != "" && fingerprint in a.clients then None else Some(Plain(Forbidden))
  {
    for i := 0 to |a.clients|
      invariant forall j :: 0 <= j < i ==> !(a.clients[j] == fingerprint && fingerprint != "")
    {
      if a.clients[i] == fingerprint && fingerprint != "" {
        return None;
      }
    }
    return Some(Plain(Forbidden));
  }

  function Allowed(apps: Applications, code: string, fingerprint: string): Option<Fault> {
    if code !in apps then Some(Plain(ApplicationNotFound))
    else if IsClient(apps[code], fingerprint) then None
    else Some(Plain(Forbidden))
  }

  /** The authorization a finish runs before it looks at the ceremony's state. */
  function FinishAuthorize(apps: Applications, k: Kind, fingerprint: string): Authorize {
    (c: Ceremony) =>
      var fault := Allowed(apps, c.application, fingerprint);
      if fault.Some? then fault
      else if c.application !in apps || apps[c.application].rpId != c.rpId then Some(Plain(k.Invalid()))
      else None
  }

  const NO_APPLICATION := Application("", "", "", [], [])

  function FinishVerify(lib: Library, rps: set<string>, apps: Applications, k: Kind, response: Bytes): Verify {
    (c: Ceremony, rows: seq<Credential>, newId: Uuid) =>
      Verification(lib, rps, k, if c.application in apps then apps[c.application] else NO_APPLICATION, c, rows, response, newId)
  }

  /** The finishes the service makes meet what the transaction theorems ask of a
      verifier: new credentials take the fresh id, and only sound ones are accepted. */
  lemma ServiceCallsAreSound(lib: Library, rps: set<string>, apps: Applications, k: Kind, hash: Bytes, response: Bytes, fingerprint: string)
    requires LoginContract(lib)
    ensures var call := Call.Finish(k, hash, FinishAuthorize(apps, k, fingerprint), FinishVerify(lib, rps, apps, k, response));
            SoundCall(call) && Issued(call)
  {
    var authorize, verify := FinishAuthorize(apps, k, fingerprint), FinishVerify(lib, rps, apps, k, response);
    forall c, rows, id | authorize(c) == None && RowsOk(rows) && verify(c, rows, id).Accepted?
      ensures Sound(k, c, rows, id, verify(c, rows, id).credential)
    {
      VerifyIsSound(lib, rps, k, apps[c.application], c, rows, response, id);
    }
    forall c, rows, id | k.Registration? && verify(c, rows, id).Accepted?
      ensures verify(c, rows, id).credential.id == id
    {
      var a := if c.application in apps then apps[c.application] else NO_APPLICATION;
      assert verify(c, rows, id) == Verification(lib, rps, k, a, c, rows, response, id);
    }
  }

  /** Who may finish a ceremony: a client of its application, while the application
      keeps the relying party it had at the start. */
  lemma FinishAuthorizeIsExact(apps: Applications, k: Kind, fingerprint: string, c: Ceremony)
    ensures FinishAuthorize(apps, k, fingerprint)(c) ==
            if c.application !in apps then Some(Plain(ApplicationNotFound))
            else if fingerprint == "" || fingerprint !in apps[c.application].clients then Some(Plain(Forbidden))
            else if apps[c.application].rpId != c.rpId then Some(Plain(k.Invalid()))
            else None
  {
  }

  /** The credential a finish of the service answers with lies in the scope its
      client is told, and so does the row of that id. */
  lemma FinishAnswersForRow(db: Db, lib: Library, rps: set<string>, apps: Applications, k: Kind, hash: Bytes,
                            response: Bytes, fingerprint: string, env: Env)
    requires UniqueIndex(db.credential)
    requires var call := Call.Finish(k, hash, FinishAuthorize(apps, k, fingerprint), FinishVerify(lib, rps, apps, k, response));
             Plan(db, call, env).result.Finished?
    ensures var call := Call.Finish(k, hash, FinishAuthorize(apps, k, fingerprint), FinishVerify(lib, rps, apps, k, response));
            var r, after := Plan(db, call, env).result.credential, Run(db, call, env);
            && hash in Table(db, k)
            && r.application == Table(db, k)[hash].application && r.subject == Table(db, k)[hash].subject
            && r.id in after.credential
            && after.credential[r.id].application == r.application && after.credential[r.id].subject == r.subject
            && after.credential[r.id].id == r.id
  {
    var authorize, verify := FinishAuthorize(apps, k, fingerprint), FinishVerify(lib, rps, apps, k, response);
    SuccessIsStored(db, k, hash, authorize, verify, env);
    var c := Table(db, k)[hash];
    var rows := SubjectCredentials(db.credential, c.application, c.subject);
    assert verify(c, rows, env.credentialId) == VerdictOn(db, c, verify, env);
    var parsed, value := AcceptedIsLibraryRecord(lib, rps, k, apps[c.application], c, rows, response, env.credentialId);
  }

  // -------------------------------------------------------------- isolation

  /** The entries of the application in question are the same in both tables. */
  ghost predicate SameRows<K, V>(before: map<K, V>, after: map<K, V>, mine: V -> bool) {
    && (forall id :: id in before && mine(before[id]) ==> id in after && after[id] == before[id])
    && (forall id :: id in after && mine(after[id]) ==> id in before && after[id] == before[id])
  }

  function OfCeremony(application: string): Ceremony -> bool {
    (c: Ceremony) => c.application == application
  }

  function OfCredential(application: string): Credential -> bool {
    (c: Credential) => c.application == application
  }

  function OfEvent(application: string): Event -> bool {
    (e: Event) => e.application == application
  }

  /** All rows and events of one application are the same. */
  ghost predicate SameFor(before: Db, after: Db, application: string) {
    && SameRows(before.registration, after.registration, OfCeremony(application))
    && SameRows(before.authentication, after.authentication, OfCeremony(application))
    && SameRows(before.credential, after.credential, OfCredential(application))
    && SameRows(before.history, after.history, OfEvent(application))
  }

  lemma UpdateSame<K, V>(m: map<K, V>, id: K, v: V, mine: V -> bool)
    requires !mine(v) && (id in m ==> !mine(m[id]))
    ensures SameRows(m, m[id := v], mine)
  {
  }

  lemma RemoveSame<K, V>(m: map<K, V>, id: K, mine: V -> bool)
    requires id in m ==> !mine(m[id])
    ensures SameRows(m, m - {id}, mine)
  {
  }

  /** Writes that concern other applications only. */
  ghost predicate Elsewhere(db: Db, w: Writes, application: string) {
    && (w.ceremony.Some? ==>
          var cw := w.ceremony.value;
          cw.row.application != application && (cw.hash in Table(db, cw.kind) ==> Table(db, cw.kind)[cw.hash].application != application))
    && (!w.credential.NoWrite? ==>
          w.credential.row.application != application &&
          (w.credential.row.id in db.credential ==> db.credential[w.credential.row.id].application != application))
    && (w.event.Some? ==> w.event.value.event.application != application && w.event.value.id !in db.history)
  }

  lemma CredentialElsewhere(t: map<Uuid, Credential>, w: CredentialWrite, application: string)
    requires !w.NoWrite? ==>
               w.row.application != application && (w.row.id in t ==> t[w.row.id].application != application)
    ensures SameRows(t, ApplyCredential(t, w), OfCredential(application))
  {
    match w
    case NoWrite =>
    case Insert(row) => UpdateSame(t, row.id, row, OfCredential(application));
    case Update(row) => UpdateSame(t, row.id, row, OfCredential(application));
    case Drop(row) => RemoveSame(t, row.id, OfCredential(application));
  }

  lemma CeremonyElsewhere(db: Db, w: Writes, k: Kind, application: string)
    requires w.ceremony.Some? ==>
               var cw := w.ceremony.value;
               cw.row.application != application && (cw.hash in Table(db, cw.kind) ==> Table(db, cw.kind)[cw.hash].application != application)
    ensures SameRows(Table(db, k), Table(Apply(db, w), k), OfCeremony(application))
  {
    if w.ceremony.Some? && w.ceremony.value.kind == k {
      UpdateSame(Table(db, k), w.ceremony.value.hash, w.ceremony.value.row, OfCeremony(application));
    }
  }

  lemma EventElsewhere(db: Db, w: Writes, application: string)
    requires w.event.Some? ==> w.event.value.event.application != application && w.event.value.id !in db.history
    ensures SameRows(db.history, Apply(db, w).history, OfEvent(application))
  {
    if w.event.Some? {
      UpdateSame(db.history, w.event.value.id, w.event.value.event, OfEvent(application));
    }
  }

  lemma CredentialTable(db: Db, w: Writes)
    ensures Apply(db, w).credential == ApplyCredential(db.credential, w.credential)
    ensures Apply(db, w).registration == Table(Apply(db, w), Registration)
    ensures Apply(db, w).authentication == Table(Apply(db, w), Authentication)
  {
  }

  lemma ElsewhereIsSame(db: Db, w: Writes, application: string)
    requires Elsewhere(db, w, application)
    ensures SameFor(db, Apply(db, w), application)
  {
    CeremonyElsewhere(db, w, Registration, application);
    CeremonyElsewhere(db, w, Authentication, application);
    CredentialElsewhere(db.credential, w.credential, application);
    EventElsewhere(db, w, application);
    CredentialTable(db, w);
  }

  lemma SettledInside(t: map<Uuid, Credential>, k: Kind, c: Ceremony, verify: Verify, env: Env)
    requires UniqueIndex(t) && Settle(t, k, c, verify, env).Settled? && !Settle(t, k, c, verify, env).write.NoWrite?
    ensures var row := Settle(t, k, c, verify, env).write.row;
            row.application == c.application && (row.id in t ==> t[row.id].application == c.application)
  {
  }

  /** A finish reaches only the application whose client made it, whatever
      ceremony its token names, and whatever the verifier answers. */
  lemma FinishStaysInside(db: Db, k: Kind, hash: Bytes, authorize: Authorize, verify: Verify, env: Env, application: string)
    requires UniqueIndex(db.credential)
    requires forall c: Ceremony :: c.application == application ==> authorize(c).Some?
    ensures SameFor(db, Run(db, Finish(k, hash, authorize, verify), env), application)
  {
    var w := Plan(db, Finish(k, hash, authorize, verify), env).writes;
    if w != NOTHING {
      var c := Table(db, k)[hash];
      assert authorize(c).None?;
      if !Settle(db.credential, k, c, verify, env).write.NoWrite? {
        SettledInside(db.credential, k, c, verify, env);
      }
      assert w.credential == Settle(db.credential, k, c, verify, env).write;
    }
    ElsewhereIsSame(db, w, application);
  }

  lemma StartStaysInside(db: Db, k: Kind, c: Ceremony, env: Env, application: string)
    requires c.application != application
    ensures SameFor(db, Run(db, Start(k, c), env), application)
  {
    ElsewhereIsSame(db, Plan(db, Start(k, c), env).writes, application);
  }

  lemma DeleteStaysInside(db: Db, own: string, subject: string, id: Uuid, env: Env, application: string)
    requires UniqueIndex(db.credential) && own != application
    ensures SameFor(db, Run(db, Delete(own, subject, id), env), application)
  {
    ElsewhereIsSame(db, Plan(db, Delete(own, subject, id), env).writes, application);
  }

  // ----------------------------------------------------------------- service

  lemma NoRowsNoScope(t: map<Uuid, Credential>, application: string, subject: string)
    ensures SubjectCredentials(t, application, subject) == [] <==> Scope(t, application, subject) == map[]
  {
  }

  /** The map that entering the applications one after another leaves. */
  function ByCode(apps: seq<Application>): Applications {
    if apps == [] then map[] else ByCode(apps[..|apps| - 1])[apps[|apps| - 1].code := apps[|apps| - 1]]
  }

  /** Later entries replace earlier ones with the same code, and nothing else is in
      the map. */
  lemma {:induction false} ByCodeKeepsLast(apps: seq<Application>)
    ensures forall i :: 0 <= i < |apps| ==>
              && apps[i].code in ByCode(apps)
              && ((forall j :: i < j < |apps| ==> apps[j].code != apps[i].code) ==> ByCode(apps)[apps[i].code] == apps[i])
    ensures forall code :: code in ByCode(apps) ==> ByCode(apps)[code] in apps && ByCode(apps)[code].code == code
  {
    if apps != [] {
      var n := |apps| - 1;
      var init := apps[..n];
      ByCodeKeepsLast(init);
      forall i | 0 <= i < n && (forall j :: i < j < |apps| ==> apps[j].code != apps[i].code)
        ensures apps[i].code in ByCode(apps) && ByCode(apps)[apps[i].code] == apps[i]
      {
        assert init[i] == apps[i] && apps[n].code != apps[i].code;
        assert forall j :: i < j < n ==> init[j] == apps[j];
      }
      assert forall i :: 0 <= i < n ==> init[i] == apps[i];
    }
  }

  class Service {
    const applications: Applications
    const rps: set<string>
    const lib: Library
    const utf8: string -> bool
    const repository: Postgres

    /** Later entries replace earlier ones with the same code. */
    constructor (apps: seq<Application>, lib: Library, utf8: string -> bool, repository: Postgres)
      ensures this.lib == lib && this.utf8 == utf8 && this.repository == repository
      ensures forall i :: 0 <= i < |apps| ==>
                apps[i].code in applications && apps[i].code in rps
                && ((forall j :: i < j < |apps| ==> apps[j].code != apps[i].code) ==> applications[apps[i].code] == apps[i])
      ensures forall code :: code in applications ==> applications[code] in apps && applications[code].code == code
      ensures Configured()
    {
      var m: Applications := map[];
      for n := 0 to |apps|
        invariant m == ByCode(apps[..n])
      {
        m := m[apps[n].code := apps[n]];
        assert apps[..n + 1][..n] == apps[..n];
      }
      assert apps[..|apps|] == apps;
      ByCodeKeepsLast(apps);
      this.applications := m;
      this.rps := m.Keys;
      this.lib := lib;
      this.utf8 := utf8;
      this.repository := repository;
    }

    /** What the constructor establishes and nothing changes. */
    ghost predicate Configured() {
      rps == applications.Keys && forall code :: code in applications ==> applications[code].code == code
    }

    /** A statement may fail, or the token hash or the event id be taken. */
    ghost predicate Unavailable(db: Db, k: Kind, tokenHash: Bytes, env: Env, fails: Failures) {
      (exists i: nat :: fails(i)) || tokenHash in Table(db, k) || env.eventId in db.history
    }

    /** An invalid request or a caller without rights gets its error. For the others,
        unless the database is unavailable, an authentication needs a credential of
        the subject, the library needs readable records and must open a session, and
        then the ceremony starts: pending, with that session, for five minutes. */
    method Start(k: Kind, application: string, subject: string, displayName: string, fingerprint: string,
                 id: Uuid, tokenHash: Bytes, now: Time, env: Env, fails: Failures)
      returns (result: Result)
      requires repository.Valid() && Configured()
      modifies repository
      ensures repository.Valid()
      ensures !result.Started? ==> result.Failure? && repository.Tables() == old(repository.Tables())
      ensures var valid := ValidApplicationCode(application) && ValidSubject(utf8, subject) && |displayName| <= 256 && utf8(displayName);
              var rows := SubjectCredentials(old(repository.credential), application, subject);
              if !valid then result == Failure(Plain(InvalidRequest))
              else if application !in applications then result == Failure(Plain(ApplicationNotFound))
              else if fingerprint == "" || fingerprint !in applications[application].clients then result == Failure(Plain(Forbidden))
              else if result == Failure(DATABASE_ERROR) then Unavailable(old(repository.Tables()), k, tokenHash, env, fails)
              else if k.Authentication? && Scope(old(repository.credential), application, subject) == map[] then
                result == Failure(Plain(CeremonyInvalid(Authentication)))
              else
                var a := applications[application];
                match Records(a.rpId, rows)
                case None => result == Failure(Other("decode stored credential"))
                case Some(records) =>
                  match lib.begin(k, User(lib.handle(application, subject), if displayName == "" then subject else displayName, records))
                  case None => result == Failure(Other("begin WebAuthn"))
                  case Some(session) =>
                    var row := Ceremony(id, application, subject, a.rpId, tokenHash, Decodes(session), Pending, now, now + 300000000000, None);
                    && result == Started && tokenHash !in old(Table(repository.Tables(), k))
                    && tokenHash in Table(repository.Tables(), k) && Table(repository.Tables(), k)[tokenHash] == row
                    && repository.Tables() == Run(old(repository.Tables()), Call.Start(k, row), env)
      ensures forall a :: Allowed(applications, a, fingerprint).Some? ==> SameFor(old(repository.Tables()), repository.Tables(), a)
    {
      if !ValidApplicationCode(application) || !ValidSubject(utf8, subject) || |displayName| > 256 || !utf8(displayName) {
        return Failure(Plain(InvalidRequest));
      }
      if application !in applications {
        return Failure(Plain(ApplicationNotFound));
      }
      var a := applications[application];
      var fault := AuthorizeClient(a, fingerprint);
      if fault.Some? {
        return Failure(fault.value);
      }
      if fails(100) {
        return Failure(DATABASE_ERROR);
      }
      var rows := repository.ReadCredentials(application, subject);
      NoRowsNoScope(repository.credential, application, subject);
      if k.Authentication? && |rows| == 0 {
        return Failure(Plain(k.Invalid()));
      }
      if a.code !in rps {
        return Failure(Plain(ApplicationNotFound));
      }
      var user, failed := MakeUser(lib, a, subject, if displayName == "" then subject else displayName, rows);
      if failed {
        return Failure(Other("decode stored credential"));
      }
      var session := lib.begin(k, user);
      if session.None? {
        return Failure(Other("begin WebAuthn"));
      }
      var c := Ceremony(id, application, subject, a.rpId, tokenHash, Decodes(session.value), Pending, now, now + CEREMONY_TTL, None);
      ghost var before := repository.Tables();
      result := repository.Start(k, c, env, fails);
      StartsExactly(before, k, c, env);
      forall other | Allowed(applications, other, fingerprint).Some? ensures SameFor(before, repository.Tables(), other) {
        StartStaysInside(before, k, c, env, other);
      }
    }

    /** Finish runs the repository's transaction with the service's callbacks. */
    method Finish(k: Kind, tokenHash: Option<Bytes>, response: Bytes, wellFormed: bool, fingerprint: string, env: Env, fails: Failures)
      returns (result: Result)
      requires repository.Valid()
      modifies repository
      ensures repository.Valid()
      ensures !wellFormed || |response| == 0 || |response| > 65536 || tokenHash.None? ==>
                result == Failure(Plain(InvalidRequest)) && repository.Tables() == old(repository.Tables())
      ensures wellFormed && 0 < |response| <= 65536 && tokenHash.Some? ==>
                repository.Atomic(old(repository.Tables()),
                                  Call.Finish(k, tokenHash.value, FinishAuthorize(applications, k, fingerprint), FinishVerify(lib, rps, applications, k, response)),
                                  env, fails, result)
      ensures result.Finished? ==>
                && tokenHash.Some? && tokenHash.value in old(Table(repository.Tables(), k))
                && var c, r := old(Table(repository.Tables(), k))[tokenHash.value], result.credential;
                   && r.application == c.application && r.subject == c.subject
                   && Allowed(applications, r.application, fingerprint) == None
                   && r.id in repository.credential && repository.credential[r.id].id == r.id
                   && repository.credential[r.id].application == r.application && repository.credential[r.id].subject == r.subject
      ensures forall a :: Allowed(applications, a, fingerprint).Some? ==> SameFor(old(repository.Tables()), repository.Tables(), a)
    {
      if !wellFormed || |response| == 0 || |response| > 65536 || tokenHash.None? {
        return Failure(Plain(InvalidRequest));
      }
      var authorize, verify := FinishAuthorize(applications, k, fingerprint), FinishVerify(lib, rps, applications, k, response);
      ghost var before := repository.Tables();
      result := repository.Finish(k, tokenHash.value, authorize, verify, env, fails);
      if result.Finished? {
        FinishAnswersForRow(before, lib, rps, applications, k, tokenHash.value, response, fingerprint, env);
      }
      forall other | Allowed(applications, other, fingerprint).Some? ensures SameFor(before, repository.Tables(), other) {
        FinishStaysInside(before, k, tokenHash.value, authorize, verify, env, other);
      }
    }

    /** Delete removes only a credential of the named application and subject. */
    method Delete(application: string, subject: string, id: Option<Uuid>, fingerprint: string, env: Env, fails: Failures)
      returns (result: Result)
      requires repository.Valid()
      modifies repository
      ensures repository.Valid()
      ensures if !ValidApplicationCode(application) || !ValidSubject(utf8, subject) || id.None?
              then result == Failure(Plain(InvalidRequest)) && repository.Tables() == old(repository.Tables())
              else if Allowed(applications, application, fingerprint).Some?
              then result == Failure(Allowed(applications, application, fingerprint).value) && repository.Tables() == old(repository.Tables())
              else repository.Atomic(old(repository.Tables()), Call.Delete(application, subject, id.value), env, fails, result)
      ensures forall a :: Allowed(applications, a, fingerprint).Some? ==> SameFor(old(repository.Tables()), repository.Tables(), a)
    {
      if !ValidApplicationCode(application) || !ValidSubject(utf8, subject) || id.None? {
        return Failure(Plain(InvalidRequest));
      }
      if application !in applications {
        return Failure(Plain(ApplicationNotFound));
      }
      var fault := AuthorizeClient(applications[application], fingerprint);
      if fault.Some? {
        return Failure(fault.value);
      }
      ghost var before := repository.Tables();
      result := repository.Delete(application, subject, id.value, env, fails);
      forall other | Allowed(applications, other, fingerprint).Some? ensures SameFor(before, repository.Tables(), other) {
        DeleteStaysInside(before, application, subject, id.value, env, other);
      }
    }
  }
}
