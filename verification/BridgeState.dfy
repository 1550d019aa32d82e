/**
  The persisted bridge record of the top-up service (services/topup/src/state.ts): what `write` stores, what the
  validators accept on `read`, and the one-entry store around them.
*/
module BridgeState {
  import opened Outcomes
  import opened Decimal

  /** What an untyped field of a stored entry may hold. */
  datatype Field = Missing | Text(text: string) | Number(value: real) | SomethingElse

  /** A stored entry before validation. */
  datatype Entry =
    | NotAnObject
    | Object(
        baselineBalance: Field,
        amount: Field,
        claimSecret: Field,
        claimSecretHash: Field,
        messageHash: Field,
        messageLeafIndex: Field,
        submittedAtMs: Field)

  /** A validated entry. */
  datatype Submission = Submission(
    baselineBalance: string,
    amount: string,
    claimSecret: string,
    claimSecretHash: string,
    messageHash: string,
    messageLeafIndex: string,
    submittedAtMs: nat)

  /** What a bridge call returns (services/topup/src/bridge.ts). */
  datatype BridgeResult = BridgeResult(
    amount: int,
    claimSecret: string,
    claimSecretHash: string,
    messageHash: string,
    messageLeafIndex: int,
    submittedAtMs: real)

  predicate IsHexDigit(c: char) {
    '0' <= c <= '9' || 'a' <= c <= 'f' || 'A' <= c <= 'F'
  }

  /** The pattern `^0x[0-9a-fA-F]{64}$`. */
  predicate IsFieldHex(s: string) {
    |s| == 66 && s[0] == '0' && s[1] == 'x' && forall i | 2 <= i < 66 :: IsHexDigit(s[i])
  }

  predicate IsUintText(f: Field) {
    f.Text? && Canonical(f.text)
  }

  predicate IsHexText(f: Field) {
    f.Text? && IsFieldHex(f.text)
  }

  /** `Number.isInteger(x) && x >= 0`. */
  predicate IsTimestamp(f: Field) {
    f.Number? && f.value == f.value.Floor as real && f.value.Floor >= 0
  }

  function Uint(s: string): nat
    requires Canonical(s)
  {
    CanonicalIsDigits(s);
    Value(s)
  }

  /** The validated entry, or nothing where the validators throw. */
  function Validate(raw: Entry): Option<Submission> {
    if raw.NotAnObject? then None
    else if !IsTimestamp(raw.submittedAtMs) then None
    else if !IsUintText(raw.baselineBalance) then None
    else if !IsUintText(raw.amount) then None
    else if Uint(raw.amount.text) <= 0 then None
    else if !IsHexText(raw.claimSecret) then None
    else if !IsHexText(raw.claimSecretHash) then None
    else if !IsHexText(raw.messageHash) then None
    else if !IsUintText(raw.messageLeafIndex) then None
    else
      Some(Submission(
        raw.baselineBalance.text, raw.amount.text, raw.claimSecret.text, raw.claimSecretHash.text,
        raw.messageHash.text, raw.messageLeafIndex.text, raw.submittedAtMs.value.Floor))
  }

  /** What `write` stores. */
  function Stored(baseline: int, r: BridgeResult): Entry {
    Object(
      Text(PrintInt(baseline)), Text(PrintInt(r.amount)), Text(r.claimSecret), Text(r.claimSecretHash),
      Text(r.messageHash), Text(PrintInt(r.messageLeafIndex)), Number(r.submittedAtMs))
  }

  predicate WellFormed(baseline: int, r: BridgeResult) {
    && baseline >= 0 && r.amount > 0 && r.messageLeafIndex >= 0
    && IsFieldHex(r.claimSecret) && IsFieldHex(r.claimSecretHash) && IsFieldHex(r.messageHash)
    && IsTimestamp(Number(r.submittedAtMs))
  }

  /** The bridge result a validated entry stands for, its decimals converted back. */
  function Recovered(s: Submission): BridgeResult
    requires Canonical(s.amount) && Canonical(s.messageLeafIndex)
  {
    BridgeResult(
      Uint(s.amount), s.claimSecret, s.claimSecretHash, s.messageHash, Uint(s.messageLeafIndex),
      s.submittedAtMs as real)
  }

  /** Which texts are field elements: `0x` and 64 hex digits in either case. */
  lemma FieldHexExactly(s: string)
    ensures IsFieldHex(s) <==>
              |s| == 66 && s[..2] == "0x" && forall i | 2 <= i < 66 :: s[i] in "0123456789abcdefABCDEF"
  {
  }

  /** Exactly which entries are accepted, and that every field of the record is the field stored under its name. */
  lemma ReadsFieldByField(raw: Entry)
    ensures Validate(raw).Some? <==>
              && raw.Object?
              && raw.submittedAtMs.Number? && raw.submittedAtMs.value >= 0.0
              && raw.submittedAtMs.value == raw.submittedAtMs.value.Floor as real
              && raw.baselineBalance.Text? && Canonical(raw.baselineBalance.text)
              && raw.amount.Text? && Canonical(raw.amount.text) && raw.amount.text != "0"
              && raw.claimSecret.Text? && IsFieldHex(raw.claimSecret.text)
              && raw.claimSecretHash.Text? && IsFieldHex(raw.claimSecretHash.text)
              && raw.messageHash.Text? && IsFieldHex(raw.messageHash.text)
              && raw.messageLeafIndex.Text? && Canonical(raw.messageLeafIndex.text)
    ensures Validate(raw).Some? ==>
              var s := Validate(raw).value;
              && s.baselineBalance == raw.baselineBalance.text && s.amount == raw.amount.text
              && s.claimSecret == raw.claimSecret.text && s.claimSecretHash == raw.claimSecretHash.text
              && s.messageHash == raw.messageHash.text && s.messageLeafIndex == raw.messageLeafIndex.text
              && s.submittedAtMs as real == raw.submittedAtMs.value
  {
    if raw.Object? && raw.amount.Text? && Canonical(raw.amount.text) {
      ReadThenPrint(raw.amount.text);
      PrintThenRead(0);
    }
    hide Canonical, IsFieldHex;
  }

  /** `read` accepts what `write` stored exactly if the result was well-formed, and then gives the same record back. */
  lemma ReadAfterWrite(baseline: int, r: BridgeResult)
    ensures Validate(Stored(baseline, r)).Some? <==> WellFormed(baseline, r)
    ensures WellFormed(baseline, r) ==>
              var s := Validate(Stored(baseline, r)).value;
              && Canonical(s.baselineBalance) && Canonical(s.amount) && Canonical(s.messageLeafIndex)
              && Uint(s.baselineBalance) == baseline
              && Recovered(s) == r
  {
    PrintIntCanonical(baseline);
    PrintIntCanonical(r.amount);
    PrintIntCanonical(r.messageLeafIndex);
    if r.amount >= 0 {
      PrintThenRead(r.amount);
    }
    if WellFormed(baseline, r) {
      PrintThenRead(baseline);
      PrintThenRead(r.messageLeafIndex);
    }
  }

  /** Conversely every entry `read` accepts is what `write` stores for exactly the result it stands for. */
  lemma WriteAfterRead(raw: Entry)
    requires Validate(raw).Some?
    ensures var s := Validate(raw).value;
            && Canonical(s.baselineBalance) && Canonical(s.amount) && Canonical(s.messageLeafIndex)
            && WellFormed(Uint(s.baselineBalance), Recovered(s))
            && Stored(Uint(s.baselineBalance), Recovered(s)) == raw
  {
    ReadThenPrint(raw.baselineBalance.text);
    ReadThenPrint(raw.amount.text);
    ReadThenPrint(raw.messageLeafIndex.text);
  }

  /** Different well-formed results never share an entry. */
  lemma StoredInjective(b1: int, r1: BridgeResult, b2: int, r2: BridgeResult)
    requires WellFormed(b1, r1) && WellFormed(b2, r2)
    requires Stored(b1, r1) == Stored(b2, r2)
    ensures b1 == b2 && r1 == r2
  {
    ReadAfterWrite(b1, r1);
    ReadAfterWrite(b2, r2);
  }

  datatype ReadOutcome = Found(record: Submission) | Nothing | Threw

  /** The LMDB database file with its single bridge entry. */
  class Database {
    var entry: Option<Entry>
    var closed: bool

    constructor ()
      ensures entry == None && !closed
    {
      entry, closed := None, false;
    }

    /** Opens an existing file again. */
    constructor Reopen(file: Database)
      ensures entry == file.entry && !closed
    {
      entry, closed := file.entry, false;
    }
  }

  class BridgeStateStore {
    const db: Database

    constructor (db: Database)
      ensures this.db == db
    {
      this.db := db;
    }

    /** `misread` stands for an exception of the database itself. */
    method Read(misread: bool) returns (outcome: ReadOutcome)
      requires !db.closed
      ensures outcome == if misread then Threw
                         else match db.entry
                           case None => Nothing
                           case Some(raw) => match Validate(raw)
                             case Some(s) => Found(s)
                             case None => Threw
    {
      if misread {
        return Threw;
      }
      match db.entry
      case None => return Nothing;
      case Some(raw) =>
        match Validate(raw)
        case Some(s) => return Found(s);
        case None => return Threw;
    }

    method Write(baseline: int, r: BridgeResult, fault: Fault) returns (ok: bool)
      requires !db.closed
      modifies db`entry
      ensures db.entry == if fault.FailsBefore? then old(db.entry) else Some(Stored(baseline, r))
      ensures ok <==> fault.Works?
    {
      if fault != FailsBefore {
        db.entry := Some(Stored(baseline, r));
      }
      ok := fault == Works;
    }

    method Clear(fault: Fault) returns (ok: bool)
      requires !db.closed
      modifies db`entry
      ensures db.entry == if fault.FailsBefore? then old(db.entry) else None
      ensures ok <==> fault.Works?
    {
      if fault != FailsBefore {
        db.entry := None;
      }
      ok := fault == Works;
    }
  }

  /** Writing, closing, reopening and reading gives the record back exactly for well-formed results. */
  method WriteCloseReopenRead(baseline: int, r: BridgeResult) returns (outcome: ReadOutcome)
    ensures outcome.Found? <==> WellFormed(baseline, r)
    ensures outcome.Found? ==>
              && Canonical(outcome.record.baselineBalance) && Canonical(outcome.record.amount)
              && Canonical(outcome.record.messageLeafIndex)
              && Uint(outcome.record.baselineBalance) == baseline
              && Recovered(outcome.record) == r
  {
    var file := new Database();
    var store := new BridgeStateStore(file);
    var _ := store.Write(baseline, r, Works);
    file.closed := true;
    var again := new Database.Reopen(file);
    var reader := new BridgeStateStore(again);
    outcome := reader.Read(false);
    ReadAfterWrite(baseline, r);
  }
}
