/**
 * The loans service's ledger (code/loans-service/src/functions/loans.js): the
 * in-memory list of loan records, the per-device reservation lock map, and the
 * handlers that list loans, reserve a device, mark a loan collected and mark it
 * returned.
 *
 * Each handler is specified by a function of the state before the call
 * (ReserveResult, CollectResult, ReturnResult) that gives the HTTP response and
 * the list of loans after it; the Ledger class holds the state and its methods
 * perform the handlers' steps in place and are proved to match those functions.
 * The lemmas below the functions prove what the handlers promise together: at
 * most one unreturned loan per device, sequential loan ids, time stamps that
 * agree with the status, and a lifecycle that only moves forward.
 */
module Loans {
  import opened Wrappers
  import opened JsText
  import opened Calendar

  datatype Status = Reserved | Active | Collected | Returned

  /** The status as it appears in the JSON body. */
  function StatusName(s: Status): string
  {
    match s
    case Reserved => "reserved"
    case Active => "active"
    case Collected => "collected"
    case Returned => "returned"
  }

  /** One loan record; collectedAt and returnedAt are null (None) or an ISO time stamp. */
  datatype Loan = Loan(
    loanId: string,
    deviceId: string,
    studentId: string,
    startDate: string,
    dueDate: string,
    status: Status,
    collectedAt: Option<string>,
    returnedAt: Option<string>)

  /** The JSON bodies the handlers send. */
  datatype Body =
    | ErrorBody(error: string)
    | ConflictBody(error: string, existingLoan: Loan)
    | LoanBody(loan: Loan)
    | ReturnedBody(loan: Loan, event: string)
    | LoansBody(loans: seq<Loan>)

  datatype Response = Response(status: int, contentType: string, jsonBody: Body)

  /** respond(status, body): every handler answers with a JSON body. */
  function Respond(status: int, body: Body): Response
  {
    Response(status, "application/json", body)
  }

  /** The record the ledger starts with. */
  const SeedLoan := Loan("loan-001", "lap-001", "S1234567", "2026-01-07", "2026-01-14",
                         Active, None, None)

  /** A reservation runs for this many days. */
  const LoanDays: nat := 2

  const MsgInvalidJson := "Invalid JSON body"
  const MsgFieldsRequired := "deviceId and studentId are required"
  const MsgInProgress := "Reservation in progress for this device. Try again."
  const MsgUnavailable := "Device already reserved/loaned"
  const MsgNotFound := "Loan not found"
  const MsgAlreadyReturned := "Loan already returned"
  const MsgAlreadyCollected := "Loan already collected"
  const DeviceReturnedEvent := "device_returned"

  /** The id of the n-th loan: "loan-" and n zero-padded to at least three digits. */
  function FormatLoanId(n: nat): string
  {
    "loan-" + PadStart(DecimalString(n), 3, '0')
  }

  /** Reads the number back out of a loan id. */
  function ParseLoanId(s: string): Option<nat>
  {
    if |s| >= 5 && s[..5] == "loan-" then ParseDigits(s[5..]) else None
  }

  lemma LoanIdRoundTrip(n: nat)
    ensures ParseLoanId(FormatLoanId(n)) == Some(n)
  {
    PaddedDecimalRoundTrip(n, 3);
    assert FormatLoanId(n)[5..] == PadStart(DecimalString(n), 3, '0');
  }

  /** Different positions in the ledger get different loan ids. */
  lemma LoanIdInjective(a: nat, b: nat)
    ensures FormatLoanId(a) == FormatLoanId(b) <==> a == b
  {
    if FormatLoanId(a) == FormatLoanId(b) {
      LoanIdRoundTrip(a);
      LoanIdRoundTrip(b);
    }
  }

  /** The statuses in which a loan still holds its device. */
  predicate IsOpen(l: Loan)
  {
    l.status == Reserved || l.status == Active || l.status == Collected
  }

  /** loans.find((l) => l.loanId === loanId), as an index. */
  function FindLoan(loans: seq<Loan>, loanId: string): (r: Option<nat>)
    ensures r.Some? ==> (r.value < |loans| && loans[r.value].loanId == loanId &&
                         forall j :: 0 <= j < r.value ==> loans[j].loanId != loanId)
    ensures r.None? ==> forall j :: 0 <= j < |loans| ==> loans[j].loanId != loanId
  {
    if loans == [] then None
    else if loans[0].loanId == loanId then Some(0)
    else match FindLoan(loans[1..], loanId)
      case Some(k) => Some(k + 1)
      case None => None
  }

  /** loans.find((l) => l.deviceId === deviceId && l is open), as an index. */
  function FindOpenLoan(loans: seq<Loan>, deviceId: string): (r: Option<nat>)
    ensures r.Some? ==> (r.value < |loans| && loans[r.value].deviceId == deviceId &&
                         IsOpen(loans[r.value]) &&
                         forall j :: 0 <= j < r.value ==> !(loans[j].deviceId == deviceId && IsOpen(loans[j])))
    ensures r.None? ==> forall j :: 0 <= j < |loans| ==> !(loans[j].deviceId == deviceId && IsOpen(loans[j]))
  {
    if loans == [] then None
    else if loans[0].deviceId == deviceId && IsOpen(loans[0]) then Some(0)
    else match FindOpenLoan(loans[1..], deviceId)
      case Some(k) => Some(k + 1)
      case None => None
  }

  /** The parsed body of POST /reservations, each field already String(x || ""). */
  datatype ReservationRequest = ReservationRequest(deviceId: string, studentId: string)

  /** A handler's answer together with the list of loans it leaves behind. */
  datatype Outcome = Outcome(response: Response, loans: seq<Loan>)

  /** The record a successful reservation appends on the given day. */
  function NewLoan(count: nat, deviceId: string, studentId: string, now: Date): (l: Loan)
    requires ValidDate(now)
  {
    Loan(FormatLoanId(count + 1), deviceId, studentId,
         IsoDateOnly(now), IsoDateOnly(AddDays(now, LoanDays)), Reserved, None, None)
  }

  /** POST /reservations on a ledger holding loans while the devices in locks are
      mid-reservation; request is None when the body is not valid JSON. */
  function ReserveResult(loans: seq<Loan>, locks: set<string>, request: Option<ReservationRequest>,
                         now: Date): Outcome
    requires ValidDate(now)
  {
    if request.None? then Outcome(Respond(400, ErrorBody(MsgInvalidJson)), loans)
    else
      var deviceId := Trim(request.value.deviceId);
      var studentId := Trim(request.value.studentId);
      if deviceId == [] || studentId == [] then
        Outcome(Respond(400, ErrorBody(MsgFieldsRequired)), loans)
      else if deviceId in locks then
        Outcome(Respond(409, ErrorBody(MsgInProgress)), loans)
      else
        match FindOpenLoan(loans, deviceId)
        case Some(k) => Outcome(Respond(409, ConflictBody(MsgUnavailable, loans[k])), loans)
        case None =>
          var l := NewLoan(|loans|, deviceId, studentId, now);
          Outcome(Respond(201, LoanBody(l)), loans + [l])
  }

  /** A device with no open loan, named by a non-blank trimmed id and not mid-reservation. */
  ghost predicate CanReserve(loans: seq<Loan>, locks: set<string>, request: ReservationRequest)
  {
    var deviceId := Trim(request.deviceId);
    deviceId != [] && Trim(request.studentId) != [] && deviceId !in locks &&
    forall j :: 0 <= j < |loans| ==> !(loans[j].deviceId == deviceId && IsOpen(loans[j]))
  }

  /** A body that is not JSON, or whose trimmed deviceId or studentId is empty, gets 400
      and changes nothing. */
  lemma ReserveRejectsBadBody(loans: seq<Loan>, locks: set<string>, request: Option<ReservationRequest>,
                              now: Date)
    requires ValidDate(now)
    ensures request.None? ==>
      ReserveResult(loans, locks, request, now) == Outcome(Respond(400, ErrorBody(MsgInvalidJson)), loans)
    ensures request.Some? && (Trim(request.value.deviceId) == [] || Trim(request.value.studentId) == []) ==>
      ReserveResult(loans, locks, request, now) == Outcome(Respond(400, ErrorBody(MsgFieldsRequired)), loans)
  {
  }

  /** A device whose reservation is already in progress gets 409 and changes nothing. */
  lemma ReserveRejectsLockedDevice(loans: seq<Loan>, locks: set<string>, request: ReservationRequest,
                                   now: Date)
    requires ValidDate(now)
    requires Trim(request.deviceId) != [] && Trim(request.studentId) != []
    requires Trim(request.deviceId) in locks
    ensures ReserveResult(loans, locks, Some(request), now) ==
      Outcome(Respond(409, ErrorBody(MsgInProgress)), loans)
  {
  }

  /** A device that already has an open loan gets 409 with the first such loan attached,
      and nothing is added. */
  lemma ReserveRejectsOpenDevice(loans: seq<Loan>, locks: set<string>, request: ReservationRequest,
                                 now: Date, k: nat)
    requires ValidDate(now)
    requires Trim(request.deviceId) != [] && Trim(request.studentId) != []
    requires Trim(request.deviceId) !in locks
    requires k < |loans| && loans[k].deviceId == Trim(request.deviceId) && IsOpen(loans[k])
    requires forall j :: 0 <= j < k ==> !(loans[j].deviceId == loans[k].deviceId && IsOpen(loans[j]))
    ensures ReserveResult(loans, locks, Some(request), now) ==
      Outcome(Respond(409, ConflictBody(MsgUnavailable, loans[k])), loans)
  {
    assert FindOpenLoan(loans, Trim(request.deviceId)) == Some(k);
  }

  /** Reservation succeeds exactly when the device is free; then one record is appended,
      reserved, with no time stamps, the next sequential id, the trimmed ids, today's date
      and a due date LoanDays calendar days later, and every earlier record is kept. */
  lemma ReserveSucceedsIffFree(loans: seq<Loan>, locks: set<string>, request: Option<ReservationRequest>,
                               now: Date)
    requires ValidDate(now)
    ensures var o := ReserveResult(loans, locks, request, now);
      (o.response.status == 201 <==> request.Some? && CanReserve(loans, locks, request.value)) &&
      (o.response.status != 201 ==> o.loans == loans) &&
      (o.response.status == 201 ==>
        o.response.jsonBody.LoanBody? &&
        var l := o.response.jsonBody.loan;
        o.loans == loans + [l] && o.loans[..|loans|] == loans &&
        l.loanId == FormatLoanId(|loans| + 1) &&
        l.deviceId == Trim(request.value.deviceId) && l.studentId == Trim(request.value.studentId) &&
        l.status == Reserved && l.collectedAt == None && l.returnedAt == None &&
        l.startDate == IsoDateOnly(now) &&
        exists due :: ValidDate(due) && DayNumber(due) == DayNumber(now) + LoanDays &&
          l.dueDate == IsoDateOnly(due))
  {
    var o := ReserveResult(loans, locks, request, now);
    if o.response.status == 201 {
      var due := AddDays(now, LoanDays);
      assert o.response.jsonBody.loan.dueDate == IsoDateOnly(due);
    }
  }

  /** POST /loans/{loanId}/collected, stamping collectedAt with the time stamp at. */
  function CollectResult(loans: seq<Loan>, loanId: string, at: string): Outcome
  {
    match FindLoan(loans, loanId)
    case None => Outcome(Respond(404, ErrorBody(MsgNotFound)), loans)
    case Some(k) =>
      if loans[k].status == Returned then Outcome(Respond(409, ErrorBody(MsgAlreadyReturned)), loans)
      else if loans[k].status == Collected then Outcome(Respond(409, ErrorBody(MsgAlreadyCollected)), loans)
      else
        var l := loans[k].(status := Collected, collectedAt := Some(at));
        Outcome(Respond(200, LoanBody(l)), loans[k := l])
  }

  /** POST /loans/{loanId}/returned, stamping returnedAt with the time stamp at. */
  function ReturnResult(loans: seq<Loan>, loanId: string, at: string): Outcome
  {
    match FindLoan(loans, loanId)
    case None => Outcome(Respond(404, ErrorBody(MsgNotFound)), loans)
    case Some(k) =>
      if loans[k].status == Returned then Outcome(Respond(409, ErrorBody(MsgAlreadyReturned)), loans)
      else
        var l := loans[k].(status := Returned, returnedAt := Some(at));
        Outcome(Respond(200, ReturnedBody(l, DeviceReturnedEvent)), loans[k := l])
  }

  /** An unknown id gets 404 from both transitions, and neither changes anything. */
  lemma UnknownLoanNotFound(loans: seq<Loan>, loanId: string, at: string)
    requires forall j :: 0 <= j < |loans| ==> loans[j].loanId != loanId
    ensures CollectResult(loans, loanId, at) == Outcome(Respond(404, ErrorBody(MsgNotFound)), loans)
    ensures ReturnResult(loans, loanId, at) == Outcome(Respond(404, ErrorBody(MsgNotFound)), loans)
  {
  }

  /** Collect on the first record with the id k: 409 if returned, then 409 if collected;
      otherwise it is collected, stamped, and no other record or field changes. */
  lemma CollectCases(loans: seq<Loan>, loanId: string, at: string, k: nat)
    requires k < |loans| && loans[k].loanId == loanId
    requires forall j :: 0 <= j < k ==> loans[j].loanId != loanId
    ensures var o := CollectResult(loans, loanId, at);
      (loans[k].status == Returned ==> o == Outcome(Respond(409, ErrorBody(MsgAlreadyReturned)), loans)) &&
      (loans[k].status == Collected ==> o == Outcome(Respond(409, ErrorBody(MsgAlreadyCollected)), loans)) &&
      (IsOpen(loans[k]) && loans[k].status != Collected ==>
        var l := Loan(loans[k].loanId, loans[k].deviceId, loans[k].studentId, loans[k].startDate,
                      loans[k].dueDate, Collected, Some(at), loans[k].returnedAt);
        o.response == Respond(200, LoanBody(l)) && |o.loans| == |loans| && o.loans[k] == l &&
        forall i :: 0 <= i < |loans| && i != k ==> o.loans[i] == loans[i])
  {
    assert FindLoan(loans, loanId) == Some(k);
  }

  /** Return on the first record with the id k: 409 if already returned; otherwise it is
      returned, stamped, reported with the device_returned event, and nothing else changes. */
  lemma ReturnCases(loans: seq<Loan>, loanId: string, at: string, k: nat)
    requires k < |loans| && loans[k].loanId == loanId
    requires forall j :: 0 <= j < k ==> loans[j].loanId != loanId
    ensures var o := ReturnResult(loans, loanId, at);
      (loans[k].status == Returned ==> o == Outcome(Respond(409, ErrorBody(MsgAlreadyReturned)), loans)) &&
      (IsOpen(loans[k]) ==>
        var l := Loan(loans[k].loanId, loans[k].deviceId, loans[k].studentId, loans[k].startDate,
                      loans[k].dueDate, Returned, loans[k].collectedAt, Some(at));
        o.response == Respond(200, ReturnedBody(l, DeviceReturnedEvent)) &&
        |o.loans| == |loans| && o.loans[k] == l &&
        forall i :: 0 <= i < |loans| && i != k ==> o.loans[i] == loans[i])
  {
    assert FindLoan(loans, loanId) == Some(k);
  }

  // ---------------------------------------------------------------------------
  // The ledger invariant

  /** No two records for one device are open at the same time. */
  ghost predicate AtMostOneOpenPerDevice(loans: seq<Loan>)
  {
    forall i, j :: 0 <= i < j < |loans| && IsOpen(loans[i]) && IsOpen(loans[j]) ==>
      loans[i].deviceId != loans[j].deviceId
  }

  /** Each record carries the id FormatLoanId of its position counted from 1, as
      reserve assigns them: the last one carries the length, and the rest are again
      sequential. */
  ghost predicate SequentialIds(loans: seq<Loan>)
    decreases |loans|
  {
    loans == [] ||
    (SequentialIds(loans[..|loans| - 1]) && loans[|loans| - 1].loanId == FormatLoanId(|loans|))
  }

  /** Under sequential ids the record at position k has id FormatLoanId(k + 1). */
  lemma {:induction false} SequentialIdAt(loans: seq<Loan>, k: nat)
    requires SequentialIds(loans) && k < |loans|
    ensures loans[k].loanId == FormatLoanId(k + 1)
    decreases |loans|
  {
    if k < |loans| - 1 {
      var p := loans[..|loans| - 1];
      SequentialIdAt(p, k);
      assert p[k] == loans[k];
    }
  }

  /** Appending the record with the next id keeps the ids sequential. */
  lemma SequentialIdsAppend(loans: seq<Loan>, l: Loan)
    requires SequentialIds(loans) && l.loanId == FormatLoanId(|loans| + 1)
    ensures SequentialIds(loans + [l])
  {
    assert (loans + [l])[..|loans|] == loans;
  }

  /** Replacing a record by one with the same id keeps the ids sequential. */
  lemma {:induction false} SequentialIdsUpdate(loans: seq<Loan>, k: nat, l: Loan)
    requires SequentialIds(loans) && k < |loans| && l.loanId == loans[k].loanId
    ensures SequentialIds(loans[k := l])
    decreases |loans|
  {
    var n := loans[k := l];
    var p := loans[..|loans| - 1];
    if k == |loans| - 1 {
      assert n[..|n| - 1] == p;
    } else {
      SequentialIdsUpdate(p, k, l);
      assert n[..|n| - 1] == p[k := l];
    }
  }

  /** collectedAt and returnedAt are set exactly as the status history requires. */
  ghost predicate StampsMatchStatus(l: Loan)
  {
    match l.status
    case Reserved => l.collectedAt.None? && l.returnedAt.None?
    case Active => l.collectedAt.None? && l.returnedAt.None?
    case Collected => l.collectedAt.Some? && l.returnedAt.None?
    case Returned => l.returnedAt.Some?
  }

  ghost predicate LedgerInvariant(loans: seq<Loan>)
  {
    AtMostOneOpenPerDevice(loans) && SequentialIds(loans) &&
    forall i :: 0 <= i < |loans| ==> StampsMatchStatus(loans[i])
  }

  /** The first loan id is "loan-001". */
  lemma FirstLoanId()
    ensures FormatLoanId(1) == "loan-001"
  {
    assert DecimalString(1) == "1";
    assert PadStart("1", 3, '0') == "001";
  }

  /** The second loan id is "loan-002". */
  lemma SecondLoanId()
    ensures FormatLoanId(2) == "loan-002"
  {
    assert DecimalString(2) == "2";
    assert PadStart("2", 3, '0') == "002";
  }

  lemma SeedSatisfiesInvariant()
    ensures LedgerInvariant([SeedLoan])
  {
    FirstLoanId();
    assert [SeedLoan][..0] == [];
  }

  /** Sequential ids are unique, so a lookup by id finds the record at that position. */
  lemma FindLoanByPosition(loans: seq<Loan>, k: nat)
    requires SequentialIds(loans) && k < |loans|
    ensures FindLoan(loans, loans[k].loanId) == Some(k)
  {
    SequentialIdAt(loans, k);
    match FindLoan(loans, loans[k].loanId)
    case Some(i) =>
      SequentialIdAt(loans, i);
      LoanIdInjective(i + 1, k + 1);
    case None =>
  }

  /** Appending a record that is consistent, carries the next id and names a device with
      no open loan keeps the invariant. */
  lemma AppendKeepsInvariant(loans: seq<Loan>, l: Loan)
    requires LedgerInvariant(loans)
    requires l.loanId == FormatLoanId(|loans| + 1) && StampsMatchStatus(l)
    requires forall j :: 0 <= j < |loans| ==> !(loans[j].deviceId == l.deviceId && IsOpen(loans[j]))
    ensures LedgerInvariant(loans + [l])
  {
    var n := loans + [l];
    forall i, j | 0 <= i < j < |n| && IsOpen(n[i]) && IsOpen(n[j])
      ensures n[i].deviceId != n[j].deviceId
    {
      assert n[i] == loans[i];
      if j < |loans| {
        assert n[j] == loans[j];
      }
    }
    assert forall i :: 0 <= i < |loans| ==> n[i] == loans[i];
    SequentialIdsAppend(loans, l);
  }

  /** Replacing record k by a consistent one with the same id and device that is open
      only if the old one was keeps the invariant. */
  lemma UpdateKeepsInvariant(loans: seq<Loan>, k: nat, l: Loan)
    requires LedgerInvariant(loans) && k < |loans|
    requires l.loanId == loans[k].loanId && l.deviceId == loans[k].deviceId
    requires IsOpen(l) ==> IsOpen(loans[k])
    requires StampsMatchStatus(l)
    ensures LedgerInvariant(loans[k := l])
  {
    var n := loans[k := l];
    assert forall i :: 0 <= i < |n| && i != k ==> n[i] == loans[i];
    forall i, j | 0 <= i < j < |n| && IsOpen(n[i]) && IsOpen(n[j])
      ensures n[i].deviceId != n[j].deviceId
    {
      assert IsOpen(loans[i]) && IsOpen(loans[j]);
      assert n[i].deviceId == loans[i].deviceId && n[j].deviceId == loans[j].deviceId;
    }
    SequentialIdsUpdate(loans, k, l);
  }

  lemma ReservePreservesInvariant(loans: seq<Loan>, locks: set<string>,
                                  request: Option<ReservationRequest>, now: Date)
    requires ValidDate(now) && LedgerInvariant(loans)
    ensures LedgerInvariant(ReserveResult(loans, locks, request, now).loans)
  {
    if request.Some? && CanReserve(loans, locks, request.value) {
      var l := NewLoan(|loans|, Trim(request.value.deviceId), Trim(request.value.studentId), now);
      assert ReserveResult(loans, locks, request, now).loans == loans + [l];
      AppendKeepsInvariant(loans, l);
    }
  }

  lemma CollectPreservesInvariant(loans: seq<Loan>, loanId: string, at: string)
    requires LedgerInvariant(loans)
    ensures LedgerInvariant(CollectResult(loans, loanId, at).loans)
  {
    match FindLoan(loans, loanId)
    case None =>
    case Some(k) =>
      if IsOpen(loans[k]) && loans[k].status != Collected {
        UpdateKeepsInvariant(loans, k, loans[k].(status := Collected, collectedAt := Some(at)));
      }
  }

  lemma ReturnPreservesInvariant(loans: seq<Loan>, loanId: string, at: string)
    requires LedgerInvariant(loans)
    ensures LedgerInvariant(ReturnResult(loans, loanId, at).loans)
  {
    match FindLoan(loans, loanId)
    case None =>
    case Some(k) =>
      if IsOpen(loans[k]) {
        UpdateKeepsInvariant(loans, k, loans[k].(status := Returned, returnedAt := Some(at)));
      }
  }

  // ---------------------------------------------------------------------------
  // The lifecycle only moves forward

  function Stage(s: Status): nat
  {
    match s
    case Reserved => 0
    case Active => 0
    case Collected => 1
    case Returned => 2
  }

  /** How a ledger may change from before to after one call: records are only
      appended; an existing record keeps its id, device, student and dates, its
      status never moves back, a returned record never changes again, and a time
      stamp once set keeps its value. */
  ghost predicate Evolves(before: seq<Loan>, after: seq<Loan>)
  {
    |before| <= |after| &&
    forall i :: 0 <= i < |before| ==>
      var b, a := before[i], after[i];
      a.loanId == b.loanId && a.deviceId == b.deviceId && a.studentId == b.studentId &&
      a.startDate == b.startDate && a.dueDate == b.dueDate &&
      Stage(b.status) <= Stage(a.status) &&
      (b.status == Returned ==> a == b) &&
      (b.collectedAt.Some? ==> a.collectedAt == b.collectedAt) &&
      (b.returnedAt.Some? ==> a.returnedAt == b.returnedAt)
  }

  /** Replacing record k by one with the same identity and dates that is at least as far
      along, and keeps the stamps already set, is an evolution. */
  lemma UpdateEvolves(loans: seq<Loan>, k: nat, l: Loan)
    requires k < |loans| && loans[k].status != Returned
    requires l.loanId == loans[k].loanId && l.deviceId == loans[k].deviceId &&
             l.studentId == loans[k].studentId && l.startDate == loans[k].startDate &&
             l.dueDate == loans[k].dueDate
    requires Stage(loans[k].status) <= Stage(l.status)
    requires loans[k].collectedAt.Some? ==> l.collectedAt == loans[k].collectedAt
    requires loans[k].returnedAt.Some? ==> l.returnedAt == loans[k].returnedAt
    ensures Evolves(loans, loans[k := l])
  {
  }

  lemma ReserveEvolves(loans: seq<Loan>, locks: set<string>, request: Option<ReservationRequest>, now: Date)
    requires ValidDate(now)
    ensures Evolves(loans, ReserveResult(loans, locks, request, now).loans)
    ensures |loans| <= |ReserveResult(loans, locks, request, now).loans|
    ensures ReserveResult(loans, locks, request, now).loans[..|loans|] == loans
  {
    ReserveSucceedsIffFree(loans, locks, request, now);
  }

  lemma CollectEvolves(loans: seq<Loan>, loanId: string, at: string)
    requires LedgerInvariant(loans)
    ensures Evolves(loans, CollectResult(loans, loanId, at).loans)
  {
    match FindLoan(loans, loanId)
    case None =>
    case Some(k) =>
      if IsOpen(loans[k]) && loans[k].status != Collected {
        assert StampsMatchStatus(loans[k]);
        UpdateEvolves(loans, k, loans[k].(status := Collected, collectedAt := Some(at)));
      }
  }

  lemma ReturnEvolves(loans: seq<Loan>, loanId: string, at: string)
    requires LedgerInvariant(loans)
    ensures Evolves(loans, ReturnResult(loans, loanId, at).loans)
  {
    match FindLoan(loans, loanId)
    case None =>
    case Some(k) =>
      if IsOpen(loans[k]) {
        assert StampsMatchStatus(loans[k]);
        UpdateEvolves(loans, k, loans[k].(status := Returned, returnedAt := Some(at)));
      }
  }

  // ---------------------------------------------------------------------------
  // Consequences for clients

  /** Once a device is reserved, a second reservation of it (by anyone, on any day)
      is refused with the new loan attached, and the ledger stays as it was. */
  lemma SecondReservationConflicts(loans: seq<Loan>, locks: set<string>,
                                   first: ReservationRequest, second: ReservationRequest,
                                   now: Date, later: Date)
    requires ValidDate(now) && ValidDate(later)
    requires ReserveResult(loans, locks, Some(first), now).response.status == 201
    requires Trim(second.deviceId) == Trim(first.deviceId) && Trim(second.studentId) != []
    ensures var o1 := ReserveResult(loans, locks, Some(first), now);
      var o2 := ReserveResult(o1.loans, locks, Some(second), later);
      o2.response.status == 409 && o2.loans == o1.loans && o1.response.jsonBody.LoanBody? &&
      o2.response.jsonBody == ConflictBody(MsgUnavailable, o1.response.jsonBody.loan)
  {
    ReserveSucceedsIffFree(loans, locks, Some(first), now);
    var o1 := ReserveResult(loans, locks, Some(first), now);
    var n := o1.loans;
    var k := |loans|;
    assert forall j :: 0 <= j < k ==> n[j] == loans[j];
    ReserveRejectsOpenDevice(n, locks, second, later, k);
  }

  /** A reserved record, looked up by its id, is collected, then returned, and from then
      on both transitions answer 409 "already returned". */
  lemma CollectThenReturn(loans: seq<Loan>, k: nat, t1: string, t2: string)
    requires LedgerInvariant(loans) && k < |loans| && loans[k].status == Reserved
    ensures var id := loans[k].loanId;
      var o2 := CollectResult(loans, id, t1);
      var o3 := ReturnResult(o2.loans, id, t2);
      o2.response.status == 200 && o2.response.jsonBody.LoanBody? &&
      o2.response.jsonBody.loan.status == Collected &&
      o2.response.jsonBody.loan.collectedAt == Some(t1) &&
      o3.response.status == 200 && o3.response.jsonBody.ReturnedBody? &&
      o3.response.jsonBody.loan.status == Returned &&
      o3.response.jsonBody.loan.returnedAt == Some(t2) &&
      o3.response.jsonBody.loan.collectedAt == Some(t1) &&
      o3.response.jsonBody.event == DeviceReturnedEvent &&
      CollectResult(o3.loans, id, t1).response == Respond(409, ErrorBody(MsgAlreadyReturned)) &&
      ReturnResult(o3.loans, id, t2).response == Respond(409, ErrorBody(MsgAlreadyReturned))
  {
    var id := loans[k].loanId;
    FindLoanByPosition(loans, k);
    var o2 := CollectResult(loans, id, t1);
    CollectPreservesInvariant(loans, id, t1);
    assert o2.loans[k].loanId == id;
    FindLoanByPosition(o2.loans, k);
    var o3 := ReturnResult(o2.loans, id, t2);
    ReturnPreservesInvariant(o2.loans, id, t2);
    assert o3.loans[k].loanId == id;
    FindLoanByPosition(o3.loans, k);
  }

  /** The lifecycle of a fresh reservation: reserved, then collected, then returned,
      then absorbing. */
  lemma ReserveCollectReturn(loans: seq<Loan>, request: ReservationRequest, now: Date, t1: string, t2: string)
    requires ValidDate(now) && LedgerInvariant(loans)
    requires ReserveResult(loans, {}, Some(request), now).response.status == 201
    ensures var o1 := ReserveResult(loans, {}, Some(request), now);
      o1.response.jsonBody.LoanBody? && o1.response.jsonBody.loan.status == Reserved &&
      var id := o1.response.jsonBody.loan.loanId;
      var o2 := CollectResult(o1.loans, id, t1);
      var o3 := ReturnResult(o2.loans, id, t2);
      o2.response.status == 200 && o2.response.jsonBody.LoanBody? &&
      o2.response.jsonBody.loan.status == Collected &&
      o2.response.jsonBody.loan.collectedAt == Some(t1) &&
      o3.response.status == 200 && o3.response.jsonBody.ReturnedBody? &&
      o3.response.jsonBody.loan.status == Returned &&
      o3.response.jsonBody.loan.returnedAt == Some(t2) &&
      o3.response.jsonBody.event == DeviceReturnedEvent &&
      CollectResult(o3.loans, id, t1).response == Respond(409, ErrorBody(MsgAlreadyReturned)) &&
      ReturnResult(o3.loans, id, t2).response == Respond(409, ErrorBody(MsgAlreadyReturned))
  {
    ReserveSucceedsIffFree(loans, {}, Some(request), now);
    ReservePreservesInvariant(loans, {}, Some(request), now);
    var o1 := ReserveResult(loans, {}, Some(request), now);
    assert o1.loans[|loans|] == o1.response.jsonBody.loan;
    CollectThenReturn(o1.loans, |loans|, t1, t2);
  }

  /** On the seeded ledger, lap-001 is out on loan-001: reserving it is refused with the
      seeded record attached. */
  lemma SeedDeviceIsTaken(locks: set<string>, request: ReservationRequest, now: Date)
    requires ValidDate(now)
    requires Trim(request.deviceId) == "lap-001" && Trim(request.studentId) != [] && "lap-001" !in locks
    ensures ReserveResult([SeedLoan], locks, Some(request), now) ==
      Outcome(Respond(409, ConflictBody(MsgUnavailable, SeedLoan)), [SeedLoan])
  {
    ReserveRejectsOpenDevice([SeedLoan], locks, request, now, 0);
  }

  /** On the seeded ledger, the first reservation of any other device becomes loan-002. */
  lemma FirstReservationIsLoan002(request: ReservationRequest, now: Date)
    requires ValidDate(now)
    requires Trim(request.deviceId) != [] && Trim(request.deviceId) != "lap-001" && Trim(request.studentId) != []
    ensures var o := ReserveResult([SeedLoan], {}, Some(request), now);
      o.response.status == 201 && o.response.jsonBody.LoanBody? &&
      o.response.jsonBody.loan.loanId == "loan-002" &&
      o.loans == [SeedLoan, o.response.jsonBody.loan]
  {
    SecondLoanId();
    var deviceId := Trim(request.deviceId);
    assert FindOpenLoan([SeedLoan], deviceId) == None;
  }

  // ---------------------------------------------------------------------------
  // The ledger object

  class Ledger {
    /** the module-level loans array */
    var loans: seq<Loan>
    /** the devices whose reservation is in progress (the keys of reservationLocks) */
    var reservationLocks: set<string>

    ghost predicate Valid()
      reads this
    {
      LedgerInvariant(loans)
    }

    /** The state at module load: one seeded loan and no locks. */
    constructor ()
      ensures Valid()
      ensures loans == [SeedLoan] && reservationLocks == {}
    {
      loans := [SeedLoan];
      reservationLocks := {};
      SeedSatisfiesInvariant();
    }

    /** GET /loans */
    method ListLoans() returns (resp: Response)
      ensures resp.status == 200 && resp.jsonBody == LoansBody(loans)
    {
      resp := Respond(200, LoansBody(loans));
    }

    /** POST /reservations. The lock for the device is taken after the checks on the
        body and released before returning, so the lock set is as it was. */
    method Reserve(request: Option<ReservationRequest>, now: Date) returns (resp: Response)
      requires ValidDate(now)
      modifies this
      ensures old(Valid()) ==> Valid()
      ensures reservationLocks == old(reservationLocks)
      ensures Outcome(resp, loans) == ReserveResult(old(loans), old(reservationLocks), request, now)
    {
      if Valid() {
        ReservePreservesInvariant(loans, reservationLocks, request, now);
      }
      if request.None? {
        return Respond(400, ErrorBody(MsgInvalidJson));
      }
      var deviceId := Trim(request.value.deviceId);
      var studentId := Trim(request.value.studentId);
      if deviceId == [] || studentId == [] {
        return Respond(400, ErrorBody(MsgFieldsRequired));
      }
      if deviceId in reservationLocks {
        return Respond(409, ErrorBody(MsgInProgress));
      }
      reservationLocks := reservationLocks + {deviceId};
      var existing := FindOpenLoan(loans, deviceId);
      if existing.Some? {
        resp := Respond(409, ConflictBody(MsgUnavailable, loans[existing.value]));
      } else {
        var startDate := IsoDateOnly(now);
        var dueDate := IsoDateOnly(AddDays(now, LoanDays));
        var loanId := FormatLoanId(|loans| + 1);
        var newLoan := Loan(loanId, deviceId, studentId, startDate, dueDate, Reserved, None, None);
        loans := loans + [newLoan];
        resp := Respond(201, LoanBody(newLoan));
      }
      reservationLocks := reservationLocks - {deviceId};
    }

    /** POST /loans/{loanId}/collected with the current time stamp at. */
    method Collect(loanId: string, at: string) returns (resp: Response)
      modifies this
      ensures old(Valid()) ==> Valid()
      ensures reservationLocks == old(reservationLocks)
      ensures Outcome(resp, loans) == CollectResult(old(loans), loanId, at)
    {
      if Valid() {
        CollectPreservesInvariant(loans, loanId, at);
      }
      var found := FindLoan(loans, loanId);
      if found.None? {
        return Respond(404, ErrorBody(MsgNotFound));
      }
      var k := found.value;
      if loans[k].status == Returned {
        return Respond(409, ErrorBody(MsgAlreadyReturned));
      }
      if loans[k].status == Collected {
        return Respond(409, ErrorBody(MsgAlreadyCollected));
      }
      loans := loans[k := loans[k].(status := Collected)];
      loans := loans[k := loans[k].(collectedAt := Some(at))];
      assert loans == CollectResult(old(loans), loanId, at).loans;
      resp := Respond(200, LoanBody(loans[k]));
    }

    /** POST /loans/{loanId}/returned with the current time stamp at. */
    method Return(loanId: string, at: string) returns (resp: Response)
      modifies this
      ensures old(Valid()) ==> Valid()
      ensures reservationLocks == old(reservationLocks)
      ensures Outcome(resp, loans) == ReturnResult(old(loans), loanId, at)
    {
      if Valid() {
        ReturnPreservesInvariant(loans, loanId, at);
      }
      var found := FindLoan(loans, loanId);
      if found.None? {
        return Respond(404, ErrorBody(MsgNotFound));
      }
      var k := found.value;
      if loans[k].status == Returned {
        return Respond(409, ErrorBody(MsgAlreadyReturned));
      }
      loans := loans[k := loans[k].(status := Returned)];
      loans := loans[k := loans[k].(returnedAt := Some(at))];
      assert loans == ReturnResult(old(loans), loanId, at).loans;
      resp := Respond(200, ReturnedBody(loans[k], DeviceReturnedEvent));
    }
  }
}
