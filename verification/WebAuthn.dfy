/** The adapter around the WebAuthn library: which stored records it passes in,
    which answers it accepts, and which stored credential an assertion updates.
    The library itself is a parameter with a stated contract. */
module WebAuthn {
  import opened Ceremonies
  import opened Store

  datatype Application = Application(
    code: string,
    name: string,
    rpId: string,
    origins: seq<string>,
    clients: seq<string>)

  datatype Parsed = Parsed(origin: string, body: Bytes)

  datatype ParseResult = Read(response: Parsed) | Unreadable(cause: string)

  datatype LibraryResult = Valid(value: LibraryCredential) | Invalid(cause: string)

  datatype User = User(handle: Bytes, name: string, credentials: seq<LibraryCredential>)

  /** The library, with the hash that makes user handles. */
  datatype Library = Library(
    begin: (Kind, User) -> Option<Bytes>,
    handle: (string, string) -> Bytes,
    parseCreation: Bytes -> ParseResult,
    parseAssertion: Bytes -> ParseResult,
    createCredential: (User, Bytes, Parsed) -> LibraryResult,
    validateLogin: (User, Bytes, Parsed) -> LibraryResult,
    keyAlgorithm: Bytes -> Option<int>,
    encodes: LibraryCredential -> bool,
    offered: seq<int>)

  // ------------------------------------------------------- library contract

  /** Section 7.2, step 21 of W3C Web Authentication Level 2: a counter that does
      not increase, unless it stays zero, signals a clone. */
  function UpdateCounter(stored: LibraryCredential, count: nat): LibraryCredential {
    if count <= stored.signCount && (count != 0 || stored.signCount != 0) then stored.(cloneWarning := true)
    else stored.(signCount := count)
  }

  /** A valid assertion returns one of the user's records with its counter
      updated; only the flags that may change have changed. */
  ghost predicate LoginContract(lib: Library) {
    forall user, session, parsed :: lib.validateLogin(user, session, parsed).Valid? ==>
      var value := lib.validateLogin(user, session, parsed).value;
      exists i, count: nat :: 0 <= i < |user.credentials| &&
        var updated := UpdateCounter(user.credentials[i], count);
        value == updated.(backupState := value.backupState, residentKey := value.residentKey)
  }

  // -------------------------------------------------------------- the records

  /** The stored records of one relying party; none if any of them is corrupt. */
  function Records(rpId: string, rows: seq<Credential>): Option<seq<LibraryCredential>> {
    if rows == [] then Some([])
    else
      var last := rows[|rows| - 1];
      match Records(rpId, rows[..|rows| - 1])
      case None => None
      case Some(records) =>
        if last.rpId != rpId then Some(records)
        else if last.webauthn.Corrupt? then None
        else Some(records + [last.webauthn.value])
  }

  lemma {:induction false} RecordsPrefix(rpId: string, rows: seq<Credential>, n: nat)
    requires n <= |rows| && Records(rpId, rows[..n]).None?
    ensures Records(rpId, rows).None?
    decreases |rows|
  {
    if n == |rows| {
      assert rows[..n] == rows;
    } else {
      var init := rows[..|rows| - 1];
      assert init[..n] == rows[..n];
      RecordsPrefix(rpId, init, n);
    }
  }

  /** Some record is missing exactly when one of that relying party is corrupt. */
  lemma {:induction false} RecordsFailExactly(rpId: string, rows: seq<Credential>)
    ensures Records(rpId, rows).None? <==> exists i :: 0 <= i < |rows| && rows[i].rpId == rpId && rows[i].webauthn.Corrupt?
  {
    if rows != [] {
      var init := rows[..|rows| - 1];
      RecordsFailExactly(rpId, init);
      assert forall i :: 0 <= i < |init| ==> init[i] == rows[i];
    }
  }

  /** Every row of the relying party is passed on, after those of earlier rows. */
  lemma {:induction false} RecordAt(rpId: string, rows: seq<Credential>, i: nat)
    requires Records(rpId, rows).Some? && i < |rows| && rows[i].rpId == rpId
    ensures Records(rpId, rows[..i]).Some?
    ensures var j := |Records(rpId, rows[..i]).value|;
            j < |Records(rpId, rows).value| && Decodes(Records(rpId, rows).value[j]) == rows[i].webauthn
    decreases |rows|
  {
    var init := rows[..|rows| - 1];
    if i < |init| {
      assert init[i] == rows[i] && init[..i] == rows[..i];
      RecordAt(rpId, init, i);
    }
  }

  method MakeUser(lib: Library, a: Application, subject: string, name: string, rows: seq<Credential>)
    returns (user: User, failed: bool)
    ensures failed <==> Records(a.rpId, rows).None?
    ensures !failed ==> user == User(lib.handle(a.code, subject), name, Records(a.rpId, rows).value)
  {
    user := User(lib.handle(a.code, subject), name, []);
    failed := false;
    for i := 0 to |rows|
      invariant Records(a.rpId, rows[..i]) == Some(user.credentials)
      invariant user == User(lib.handle(a.code, subject), name, user.credentials)
    {
      assert rows[..i + 1][..i] == rows[..i];
      if rows[i].rpId == a.rpId {
        if rows[i].webauthn.Corrupt? {
          RecordsPrefix(a.rpId, rows, i + 1);
          return user, true;
        }
        user := user.(credentials := user.credentials + [rows[i].webauthn.value]);
      }
    }
    assert rows[..|rows|] == rows;
  }

  // --------------------------------------------------------------- mapping

  datatype MapResult = Mapped(credential: Credential) | Unmapped(cause: string)

  function MapCredential(lib: Library, record: LibraryCredential): MapResult {
    match lib.keyAlgorithm(record.publicKey)
    case None => Unmapped("public key")
    case Some(algorithm) =>
      if algorithm !in lib.offered then Unmapped("registration_invalid")
      else if !lib.encodes(record) then Unmapped("encoding")
      else
        Mapped(ZERO_CREDENTIAL.(
          webauthnId := record.id, publicKey := record.publicKey, algorithm := algorithm,
          signCount := record.signCount, transports := record.transport, aaguid := record.aaguid,
          backupEligible := record.backupEligible, backupState := record.backupState,
          webauthn := Decodes(record)))
  }

  method MapRecord(lib: Library, record: LibraryCredential) returns (r: MapResult)
    ensures r == MapCredential(lib, record)
  {
    var key := lib.keyAlgorithm(record.publicKey);
    if key.None? {
      return Unmapped("public key");
    }
    var algorithm, offered := key.value, false;
    for i := 0 to |lib.offered|
      invariant offered <==> algorithm in lib.offered[..i]
    {
      if lib.offered[i] == algorithm {
        offered := true;
      }
    }
    assert lib.offered[..|lib.offered|] == lib.offered;
    if !offered {
      return Unmapped("registration_invalid");
    }
    if !lib.encodes(record) {
      return Unmapped("encoding");
    }
    var transports: seq<string> := [];
    for i := 0 to |record.transport|
      invariant transports == record.transport[..i]
    {
      transports := transports + [record.transport[i]];
    }
    r := Mapped(ZERO_CREDENTIAL.(
      webauthnId := record.id, publicKey := record.publicKey, algorithm := algorithm,
      signCount := record.signCount, transports := transports, aaguid := record.aaguid,
      backupEligible := record.backupEligible, backupState := record.backupState,
      webauthn := Decodes(record)));
  }

  // ------------------------------------------------------------ verification

  predicate Matches(row: Credential, webauthnId: Bytes, rpId: string) {
    row.webauthnId == webauthnId && row.rpId == rpId
  }

  /** The first row with this authenticator id at this relying party. */
  ghost predicate IsFirstMatch(rows: seq<Credential>, webauthnId: Bytes, rpId: string, i: nat) {
    i < |rows| && Matches(rows[i], webauthnId, rpId) && forall j :: 0 <= j < i ==> !Matches(rows[j], webauthnId, rpId)
  }

  /** What the library makes of a response, before the adapter maps it. */
  function Checked(lib: Library, k: Kind, a: Application, user: User, session: Bytes, response: Bytes): LibraryResult {
    match k
    case Registration =>
      (match lib.parseCreation(response)
       case Unreadable(cause) => Invalid(cause)
       case Read(parsed) =>
         if parsed.origin !in a.origins then Invalid("origin mismatch")
         else
           var result := lib.createCredential(user, session, parsed);
           if result.Valid? && result.value.residentKey == Some(false) then Invalid("credential is not discoverable")
           else result)
    case Authentication =>
      (match lib.parseAssertion(response)
       case Unreadable(cause) => Invalid(cause)
       case Read(parsed) =>
         if parsed.origin !in a.origins then Invalid("origin mismatch")
         else lib.validateLogin(user, session, parsed))
  }

  /** The position of the row an assertion is about: the first that matches. */
  function Owner(rows: seq<Credential>, webauthnId: Bytes, rpId: string): (owner: Option<nat>)
    ensures owner.Some? ==> IsFirstMatch(rows, webauthnId, rpId, owner.value)
    ensures owner.None? ==> forall i :: 0 <= i < |rows| ==> !Matches(rows[i], webauthnId, rpId)
  {
    if rows == [] then None
    else
      var n := |rows| - 1;
      var earlier := Owner(rows[..n], webauthnId, rpId);
      if earlier.Some? then earlier
      else if Matches(rows[n], webauthnId, rpId) then Some(n)
      else None
  }

  /** What Verify answers. */
  function Verification(lib: Library, rps: set<string>, k: Kind, a: Application, c: Ceremony, rows: seq<Credential>,
                        response: Bytes, newId: Uuid): Verdict
  {
    if a.code !in rps then Refused(Plain(ApplicationNotFound))
    else if Records(a.rpId, rows).None? then Refused(Other("decode stored credential"))
    else if c.webauthn.Corrupt? then Refused(Other("decode stored ceremony"))
    else
      var user := User(lib.handle(a.code, c.subject), c.subject, Records(a.rpId, rows).value);
      match Checked(lib, k, a, user, c.webauthn.value, response)
      case Invalid(cause) => Refused(Diagnostic(k.Invalid(), cause))
      case Valid(value) =>
        if value.cloneWarning then Refused(Diagnostic(k.Invalid(), "authenticator clone warning"))
        else
          match MapCredential(lib, value)
          case Unmapped(cause) => Refused(Diagnostic(k.Invalid(), cause))
          case Mapped(mapped) =>
            var own := mapped.(application := c.application, subject := c.subject, rpId := c.rpId);
            match k
            case Registration => Accepted(own.(id := newId))
            case Authentication =>
              match Owner(rows, value.id, c.rpId)
              case Some(i) => Accepted(own.(id := rows[i].id, createdAt := rows[i].createdAt))
              case None => Refused(Diagnostic(k.Invalid(), "credential was not found for subject"))
  }

  /** The search loop of Verify. */
  method FindOwner(rows: seq<Credential>, webauthnId: Bytes, rpId: string) returns (owner: Option<nat>)
    ensures owner == Owner(rows, webauthnId, rpId)
  {
    for i := 0 to |rows|
      invariant forall j :: 0 <= j < i ==> !Matches(rows[j], webauthnId, rpId)
    {
      if rows[i].webauthnId == webauthnId && rows[i].rpId == rpId {
        return Some(i);
      }
    }
    return None;
  }

  method Verify(lib: Library, rps: set<string>, k: Kind, a: Application, c: Ceremony, rows: seq<Credential>,
                response: Bytes, newId: Uuid)
    returns (v: Verdict)
    ensures v == Verification(lib, rps, k, a, c, rows, response, newId)
  {
    if a.code !in rps {
      return Refused(Plain(ApplicationNotFound));
    }
    var user, failed := MakeUser(lib, a, c.subject, c.subject, rows);
    if failed {
      return Refused(Other("decode stored credential"));
    }
    if c.webauthn.Corrupt? {
      return Refused(Other("decode stored ceremony"));
    }
    var value: LibraryCredential;
    var parsed := if k.Registration? then lib.parseCreation(response) else lib.parseAssertion(response);
    if parsed.Unreadable? {
      return Refused(Diagnostic(k.Invalid(), parsed.cause));
    }
    if parsed.response.origin !in a.origins {
      return Refused(Diagnostic(k.Invalid(), "origin mismatch"));
    }
    if k.Registration? {
      var created := lib.createCredential(user, c.webauthn.value, parsed.response);
      if created.Valid? && created.value.residentKey == Some(false) {
        return Refused(Diagnostic(k.Invalid(), "credential is not discoverable"));
      }
      if created.Invalid? {
        return Refused(Diagnostic(k.Invalid(), created.cause));
      }
      value := created.value;
    } else {
      var validated := lib.validateLogin(user, c.webauthn.value, parsed.response);
      if validated.Invalid? {
        return Refused(Diagnostic(k.Invalid(), validated.cause));
      }
      value := validated.value;
    }
    if value.cloneWarning {
      return Refused(Diagnostic(k.Invalid(), "authenticator clone warning"));
    }
    var m := MapRecord(lib, value);
    if m.Unmapped? {
      return Refused(Diagnostic(k.Invalid(), m.cause));
    }
    var mapped := m.credential.(application := c.application, subject := c.subject, rpId := c.rpId);
    if k.Registration? {
      mapped := mapped.(id := newId);
    } else {
      var owner := FindOwner(rows, mapped.webauthnId, c.rpId);
      if owner.None? {
        return Refused(Diagnostic(k.Invalid(), "credential was not found for subject"));
      }
      mapped := mapped.(id := rows[owner.value].id, createdAt := rows[owner.value].createdAt);
    }
    v := Accepted(mapped);
  }

  // ----------------------------------------------------- what Verify promises

  /** A row that agrees in every shared column with the library record it stores. */
  predicate Consistent(row: Credential) {
    && row.webauthn.Decodes?
    && var record := row.webauthn.value;
       && record.id == row.webauthnId && record.publicKey == row.publicKey
       && record.transport == row.transports && record.aaguid == row.aaguid
       && record.signCount == row.signCount
       && record.backupEligible == row.backupEligible && record.backupState == row.backupState
  }

  /** The rows of one subject as the tables hold them. */
  ghost predicate RowsOk(rows: seq<Credential>) {
    && (forall i :: 0 <= i < |rows| ==> Consistent(rows[i]))
    && (forall i, j :: 0 <= i < j < |rows| ==> rows[i].rpId != rows[j].rpId || rows[i].webauthnId != rows[j].webauthnId)
  }

  /** The counter moved forward, or the authenticator has none. */
  predicate Advances(stored: nat, count: nat) {
    stored < count || stored == count == 0
  }

  /** The columns an authentication leaves as they are. */
  predicate SameKey(a: Credential, b: Credential) {
    && a.webauthnId == b.webauthnId && a.rpId == b.rpId && a.publicKey == b.publicKey
    && a.transports == b.transports && a.aaguid == b.aaguid && a.backupEligible == b.backupEligible
  }

  /** What an accepted credential is worth. */
  ghost predicate Sound(k: Kind, c: Ceremony, rows: seq<Credential>, newId: Uuid, r: Credential) {
    && Consistent(r) && r.rpId == c.rpId
    && match k
       case Registration => r.id == newId
       case Authentication =>
         exists i :: 0 <= i < |rows| && rows[i].id == r.id && SameKey(rows[i], r)
                     && Advances(rows[i].signCount, r.signCount)
  }

  /** Every record passed to the library belongs to a row of that relying party. */
  lemma {:induction false} RecordHasRow(rpId: string, rows: seq<Credential>, j: nat) returns (i: nat)
    requires Records(rpId, rows).Some? && j < |Records(rpId, rows).value|
    ensures i < |rows| && rows[i].rpId == rpId && rows[i].webauthn == Decodes(Records(rpId, rows).value[j])
  {
    var init := rows[..|rows| - 1];
    if j < |Records(rpId, init).value| {
      i := RecordHasRow(rpId, init, j);
    } else {
      i := |rows| - 1;
    }
  }

  /** The stored row an assertion updates is the row whose record the library
      checked: it has that record's key, and the counter it stores has moved forward
      from that row's counter. */
  lemma AssertionAdvances(lib: Library, a: Application, c: Ceremony, rows: seq<Credential>, user: User, session: Bytes,
                          response: Bytes, i: nat)
    requires LoginContract(lib) && RowsOk(rows) && a.rpId == c.rpId
    requires Records(a.rpId, rows).Some? && user.credentials == Records(a.rpId, rows).value
    requires Checked(lib, Authentication, a, user, session, response).Valid?
    requires var value := Checked(lib, Authentication, a, user, session, response).value;
             !value.cloneWarning && IsFirstMatch(rows, value.id, c.rpId, i)
    ensures var value := Checked(lib, Authentication, a, user, session, response).value;
            && Advances(rows[i].signCount, value.signCount)
            && rows[i].publicKey == value.publicKey && rows[i].transports == value.transport
            && rows[i].aaguid == value.aaguid && rows[i].backupEligible == value.backupEligible
  {
    var parsed := lib.parseAssertion(response).response;
    var value := lib.validateLogin(user, session, parsed).value;
    var j, count: nat :| 0 <= j < |user.credentials| &&
      var updated := UpdateCounter(user.credentials[j], count);
      value == updated.(backupState := value.backupState, residentKey := value.residentKey);
    var owner := RecordHasRow(a.rpId, rows, j);
    assert Matches(rows[owner], value.id, c.rpId);
    assert owner == i;
    assert Consistent(rows[i]);
  }

  /** Verify accepts only what is sound, given what the library promises. */
  lemma VerifyIsSound(lib: Library, rps: set<string>, k: Kind, a: Application, c: Ceremony, rows: seq<Credential>,
                      response: Bytes, newId: Uuid)
    requires LoginContract(lib) && RowsOk(rows) && a.rpId == c.rpId
    requires Verification(lib, rps, k, a, c, rows, response, newId).Accepted?
    ensures var r := Verification(lib, rps, k, a, c, rows, response, newId).credential;
            && Sound(k, c, rows, newId, r)
            && r.application == c.application && r.subject == c.subject && r.rpId == c.rpId
            && lib.keyAlgorithm(r.publicKey) == Some(r.algorithm) && r.algorithm in lib.offered
            && !r.webauthn.value.cloneWarning
  {
    var user := User(lib.handle(a.code, c.subject), c.subject, Records(a.rpId, rows).value);
    var value := Checked(lib, k, a, user, c.webauthn.value, response).value;
    if k.Authentication? {
      var i := Owner(rows, value.id, c.rpId).value;
      AssertionAdvances(lib, a, c, rows, user, c.webauthn.value, response, i);
      assert SameKey(rows[i], Verification(lib, rps, k, a, c, rows, response, newId).credential);
    }
  }

  /** The library read the response as `parsed` and returned `value` for it. */
  ghost predicate LibraryReturned(lib: Library, k: Kind, user: User, session: Bytes, response: Bytes, parsed: Parsed,
                                  value: LibraryCredential)
  {
    match k
    case Registration =>
      lib.parseCreation(response) == Read(parsed) && lib.createCredential(user, session, parsed) == Valid(value)
    case Authentication =>
      lib.parseAssertion(response) == Read(parsed) && lib.validateLogin(user, session, parsed) == Valid(value)
  }

  /** What the adapter asks of the library's answer: a listed origin, a discoverable
      credential, no clone warning, an offered algorithm, and for an assertion a
      stored row to update. */
  ghost predicate Acceptable(lib: Library, k: Kind, a: Application, c: Ceremony, rows: seq<Credential>, parsed: Parsed,
                             value: LibraryCredential)
  {
    && parsed.origin in a.origins && !value.cloneWarning
    && lib.keyAlgorithm(value.publicKey).Some? && lib.keyAlgorithm(value.publicKey).value in lib.offered && lib.encodes(value)
    && match k
       case Registration => value.residentKey != Some(false)
       case Authentication => exists i :: 0 <= i < |rows| && rows[i].webauthnId == value.id && rows[i].rpId == c.rpId
  }

  /** What the adapter can work with: a configured application and no corrupt record. */
  ghost predicate Readable(rps: set<string>, a: Application, c: Ceremony, rows: seq<Credential>) {
    a.code in rps && c.webauthn.Decodes? && forall i :: 0 <= i < |rows| && rows[i].rpId == a.rpId ==> rows[i].webauthn.Decodes?
  }

  /** The user the library is asked about: the subject's handle in the application,
      with the records of every row of the relying party. */
  function SubjectUser(lib: Library, a: Application, c: Ceremony, rows: seq<Credential>): User
    requires Records(a.rpId, rows).Some?
  {
    User(lib.handle(a.code, c.subject), c.subject, Records(a.rpId, rows).value)
  }

  lemma ReadableHasRecords(rps: set<string>, a: Application, c: Ceremony, rows: seq<Credential>)
    ensures Readable(rps, a, c, rows) <==> a.code in rps && Records(a.rpId, rows).Some? && c.webauthn.Decodes?
  {
    RecordsFailExactly(a.rpId, rows);
  }

  /** Verify accepts exactly what can be read and what the library returned and the
      adapter finds acceptable. */
  lemma VerifyIsExact(lib: Library, rps: set<string>, k: Kind, a: Application, c: Ceremony, rows: seq<Credential>,
                      response: Bytes, newId: Uuid)
    ensures Verification(lib, rps, k, a, c, rows, response, newId).Accepted? <==>
            Readable(rps, a, c, rows) && Records(a.rpId, rows).Some? && c.webauthn.Decodes?
            && exists parsed, value :: LibraryReturned(lib, k, SubjectUser(lib, a, c, rows), c.webauthn.value, response, parsed, value)
                                       && Acceptable(lib, k, a, c, rows, parsed, value)
  {
    ReadableHasRecords(rps, a, c, rows);
    if Readable(rps, a, c, rows) {
      var user, session := SubjectUser(lib, a, c, rows), c.webauthn.value;
      var read := if k.Registration? then lib.parseCreation(response) else lib.parseAssertion(response);
      if read.Read? {
        var result := if k.Registration? then lib.createCredential(user, session, read.response)
                      else lib.validateLogin(user, session, read.response);
        if result.Valid? {
          assert LibraryReturned(lib, k, user, session, response, read.response, result.value);
        }
      }
    }
  }

  /** An accepted credential is the library's record, column by column, in the
      ceremony's scope: a registration takes the new id, an assertion the id and
      creation time of the first row that matches. */
  lemma AcceptedIsLibraryRecord(lib: Library, rps: set<string>, k: Kind, a: Application, c: Ceremony, rows: seq<Credential>,
                                response: Bytes, newId: Uuid) returns (parsed: Parsed, value: LibraryCredential)
    requires Verification(lib, rps, k, a, c, rows, response, newId).Accepted?
    ensures Records(a.rpId, rows).Some? && c.webauthn.Decodes?
    ensures LibraryReturned(lib, k, SubjectUser(lib, a, c, rows), c.webauthn.value, response, parsed, value)
    ensures Acceptable(lib, k, a, c, rows, parsed, value)
    ensures var r := Verification(lib, rps, k, a, c, rows, response, newId).credential;
            && r == Credential(r.id, c.application, c.subject, c.rpId, value.id, value.publicKey,
                               lib.keyAlgorithm(value.publicKey).value, value.signCount, value.transport, value.aaguid,
                               value.backupEligible, value.backupState, Decodes(value), r.createdAt, None)
            && match k
               case Registration => r.id == newId
               case Authentication =>
                 exists i: nat :: IsFirstMatch(rows, value.id, c.rpId, i) && r.id == rows[i].id && r.createdAt == rows[i].createdAt
  {
    var user, session := SubjectUser(lib, a, c, rows), c.webauthn.value;
    if k.Registration? {
      parsed := lib.parseCreation(response).response;
      value := lib.createCredential(user, session, parsed).value;
    } else {
      parsed := lib.parseAssertion(response).response;
      value := lib.validateLogin(user, session, parsed).value;
      assert IsFirstMatch(rows, value.id, c.rpId, Owner(rows, value.id, c.rpId).value);
    }
  }

  /** Which fault each refusal is: only what could be read fails as the ceremony's
      own invalid code, with a cause for the history. */
  lemma RefusalsAreSorted(lib: Library, rps: set<string>, k: Kind, a: Application, c: Ceremony, rows: seq<Credential>,
                          response: Bytes, newId: Uuid)
    requires Verification(lib, rps, k, a, c, rows, response, newId).Refused?
    ensures var fault := Verification(lib, rps, k, a, c, rows, response, newId).fault;
            if Readable(rps, a, c, rows) then fault.Diagnostic? && fault.code == k.Invalid()
            else fault == if a.code !in rps then Plain(ApplicationNotFound)
                          else if exists i :: 0 <= i < |rows| && rows[i].rpId == a.rpId && rows[i].webauthn.Corrupt? then Other("decode stored credential")
                          else Other("decode stored ceremony")
  {
    ReadableHasRecords(rps, a, c, rows);
    RecordsFailExactly(a.rpId, rows);
  }

  /** A non-increasing nonzero counter is never accepted: if every count the
      authenticator could have sent fails to advance, so does the assertion. */
  lemma ClonesAreRefused(stored: LibraryCredential, count: nat)
    requires !stored.cloneWarning
    ensures UpdateCounter(stored, count).cloneWarning <==> !Advances(stored.signCount, count)
    ensures !UpdateCounter(stored, count).cloneWarning ==> UpdateCounter(stored, count).signCount == count
  {
  }
}
