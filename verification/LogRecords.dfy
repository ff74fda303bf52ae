// Operations as log records.

module LogRecords {
  // The fields each operation writes, what replay parses back, and the checks it makes on the way.

  import opened Bytes
  import opened Decimal
  import opened LogFormat
  import opened Namespace
  import opened ChunkTables
  import opened MasterState
  import opened Recovery
  import opened Sharing

  function KindOf(op: Op): (k: u32)
    ensures 1 <= k <= LAST_KIND
  {
    match op
    case OpCreateDirectory(_) => 1
    case OpCreateFile(_, _) => 2
    case OpDeleteFile(_) => 3
    case OpRenameFile(_, _) => 4
    case OpAllocateChunk(_, _, _, _) => 5
    case OpUpdateFileSize(_, _) => 6
    case OpSetChunkVersion(_, _) => 7
    case OpAddChunkToFile(_, _) => 8
    case OpRemoveChunkFromFile(_, _) => 9
    case OpDeleteChunk(_) => 10
    case OpSetChunkSize(_, _) => 11
    case OpCreateSnapshot(_, _) => 12
    case OpCopyOnWrite(_, _, _, _, _, _) => 13
  }

  function FieldsOf(op: Op): seq<str> {
    match op
    case OpCreateDirectory(path) => [path]
    case OpCreateFile(path, factor) => [path, ToDecimal(factor)]
    case OpDeleteFile(path) => [path]
    case OpRenameFile(source, destination) => [source, destination]
    case OpAllocateChunk(path, h, version, size) => [path, ToDecimal(h), ToDecimal(version), ToDecimal(size)]
    case OpUpdateFileSize(path, size) => [path, ToDecimal(size)]
    case OpSetChunkVersion(h, version) => [ToDecimal(h), ToDecimal(version)]
    case OpAddChunkToFile(path, h) => [path, ToDecimal(h)]
    case OpRemoveChunkFromFile(path, h) => [path, ToDecimal(h)]
    case OpDeleteChunk(h) => [ToDecimal(h)]
    case OpSetChunkSize(h, size) => [ToDecimal(h), ToDecimal(size)]
    case OpCreateSnapshot(source, destination) => [source, destination]
    case OpCopyOnWrite(path, index, from, to, version, size) =>
      [path, ToDecimal(index), ToDecimal(from), ToDecimal(to), ToDecimal(version), ToDecimal(size)]
  }

  function Checked(op: Op): Option<Op> {
    if ValidOp(op) then Some(op) else None
  }

  /** The number in a field, or 0 (which the callers test for separately). */
  function Number(field: str): u64 {
    match ParseU64(field) case None => 0 case Some(n) => n
  }

  /** From a given field on, every field is a number. */
  predicate NumbersFrom(fields: seq<str>, first: nat) {
    forall i :: first <= i < |fields| ==> ParseU64(fields[i]) != None
  }

  /** The operation a record stands for: the number of fields, their syntax and the ranges of the
      numbers are checked before anything is applied. */
  function FromFields(kind: u32, fields: seq<str>): Option<Op> {
    var n := |fields|;
    if kind == 1 && n == 1 then Some(OpCreateDirectory(fields[0]))
    else if kind == 2 && n == 2 && NumbersFrom(fields, 1) && Number(fields[1]) < U32 then
      Checked(OpCreateFile(fields[0], Number(fields[1])))
    else if kind == 3 && n == 1 then Some(OpDeleteFile(fields[0]))
    else if kind == 4 && n == 2 then Some(OpRenameFile(fields[0], fields[1]))
    else if kind == 5 && n == 4 && NumbersFrom(fields, 1) then
      Checked(OpAllocateChunk(fields[0], Number(fields[1]), Number(fields[2]), Number(fields[3])))
    else if kind == 6 && n == 2 && NumbersFrom(fields, 1) then Some(OpUpdateFileSize(fields[0], Number(fields[1])))
    else if kind == 7 && n == 2 && NumbersFrom(fields, 0) then
      Checked(OpSetChunkVersion(Number(fields[0]), Number(fields[1])))
    else if kind == 8 && n == 2 && NumbersFrom(fields, 1) then Checked(OpAddChunkToFile(fields[0], Number(fields[1])))
    else if kind == 9 && n == 2 && NumbersFrom(fields, 1) then Checked(OpRemoveChunkFromFile(fields[0], Number(fields[1])))
    else if kind == 10 && n == 1 && NumbersFrom(fields, 0) then Checked(OpDeleteChunk(Number(fields[0])))
    else if kind == 11 && n == 2 && NumbersFrom(fields, 0) then
      Checked(OpSetChunkSize(Number(fields[0]), Number(fields[1])))
    else if kind == 12 && n == 2 then Some(OpCreateSnapshot(fields[0], fields[1]))
    else if kind == 13 && n == 6 && NumbersFrom(fields, 1) then
      Checked(OpCopyOnWrite(fields[0], Number(fields[1]), Number(fields[2]), Number(fields[3]), Number(fields[4]), Number(fields[5])))
    else None
  }

  /** What replay reads from a record is the operation that was logged. */
  lemma OperationRoundTrip(op: Op)
    requires ValidOp(op)
    ensures FromFields(KindOf(op), FieldsOf(op)) == Some(op)
  {
    hide ParseU64, ToDecimal;
    match op {
      case OpCreateFile(_, factor) => NumberRoundTrip(factor);
      case OpAllocateChunk(_, h, version, size) => NumberRoundTrip(h); NumberRoundTrip(version); NumberRoundTrip(size);
      case OpUpdateFileSize(_, size) => NumberRoundTrip(size);
      case OpSetChunkVersion(h, version) => NumberRoundTrip(h); NumberRoundTrip(version);
      case OpAddChunkToFile(_, h) => NumberRoundTrip(h);
      case OpRemoveChunkFromFile(_, h) => NumberRoundTrip(h);
      case OpDeleteChunk(h) => NumberRoundTrip(h);
      case OpSetChunkSize(h, size) => NumberRoundTrip(h); NumberRoundTrip(size);
      case OpCopyOnWrite(_, index, from, to, version, size) =>
        NumberRoundTrip(index); NumberRoundTrip(from); NumberRoundTrip(to); NumberRoundTrip(version); NumberRoundTrip(size);
      case _ =>
    }
  }

  lemma NumberRoundTrip(n: u64)
    ensures ParseU64(ToDecimal(n)) == Some(n) && Number(ToDecimal(n)) == n
  {
    DecimalRoundTrip(n);
  }

  function PayloadOf(op: Op): str {
    EncodeFields(FieldsOf(op))
  }

  function RecordFor(sequence: u64, op: Op): Record {
    Record(sequence, KindOf(op), PayloadOf(op))
  }

  function OperationOf(r: Record): Option<Op> {
    match DecodeFields(r.payload)
    case None => None
    case Some(fields) => FromFields(r.kind, fields)
  }

  /** Replay of one record of the log: parse, check, apply. */
  function ReplayRecord(t: Durable, r: Record): Step<Durable> {
    match OperationOf(r)
    case None => Step(t, false)
    case Some(op) => Replay(t, op)
  }

  /** The operation can be logged: its numbers are in range and its payload fits a record. */
  predicate Loggable(op: Op) {
    ValidOp(op) && |PayloadOf(op)| < U32
  }

  lemma {:induction false} PayloadFits(fields: seq<str>)
    requires |EncodeFields(fields)| < U64
    ensures FieldsFit(fields)
  {
    if fields != [] {
      PayloadFits(fields[1..]);
      FitsCons(fields);
    }
  }

  lemma ReplayOfLogged(t: Durable, sequence: u64, op: Op)
    requires Loggable(op)
    ensures OperationOf(RecordFor(sequence, op)) == Some(op)
    ensures ReplayRecord(t, RecordFor(sequence, op)) == Replay(t, op)
    ensures ValidRecord(RecordFor(sequence, op))
  {
    hide Replay, FromFields, FieldsOf, EncodeFields, DecodeFields;
    PayloadFits(FieldsOf(op));
    FieldsRoundTrip(PayloadOf(op), FieldsOf(op));
    OperationRoundTrip(op);
  }

  /** The records of a list of operations, numbered from `first`. */
  function RecordsOf(ops: seq<Op>, first: u64): (records: seq<Record>)
    requires first + |ops| < U64
    ensures |records| == |ops|
  {
    seq(|ops|, i requires 0 <= i < |ops| => RecordFor(first + i, ops[i]))
  }

  /** The replay loop over records, stopping at the first that fails. */
  function ReplayRecords(t: Durable, records: seq<Record>): Step<Durable>
    decreases |records|
  {
    if records == [] then Step(t, true)
    else
      var r := ReplayRecord(t, records[0]);
      if r.ok then ReplayRecords(r.state, records[1..]) else r
  }

  lemma {:induction false} ReplayOfRecords(t: Durable, ops: seq<Op>, first: u64)
    requires first + |ops| < U64 && forall i :: 0 <= i < |ops| ==> Loggable(ops[i])
    ensures ReplayRecords(t, RecordsOf(ops, first)) == ReplayAll(t, ops)
    ensures Numbered(RecordsOf(ops, first), first)
    decreases |ops|
  {
    hide Replay, ReplayRecord, RecordFor, Loggable, Numbered;
    RecordsNumbered(t, ops, first);
    var records := RecordsOf(ops, first);
    if ops != [] {
      ReplayOfLogged(t, first, ops[0]);
      assert records[1..] == RecordsOf(ops[1..], first + 1);
      ReplayOfRecords(Replay(t, ops[0]).state, ops[1..], first + 1);
    }
  }

  lemma RecordsNumbered(t: Durable, ops: seq<Op>, first: u64)
    requires first + |ops| < U64 && forall i :: 0 <= i < |ops| ==> Loggable(ops[i])
    ensures Numbered(RecordsOf(ops, first), first)
  {
    hide Replay, ReplayRecord, RecordFor, Loggable, ValidRecord;
    var records := RecordsOf(ops, first);
    forall i | 0 <= i < |ops|
      ensures ValidRecord(records[i]) && records[i].sequence == first + i
    {
      ReplayOfLogged(t, first + i, ops[i]);
      SequenceOf(first + i, ops[i]);
    }
  }

  lemma SequenceOf(sequence: u64, op: Op)
    ensures RecordFor(sequence, op).sequence == sequence
  {}

  lemma RecordIsValid(s: Durable, r: Request)
    requires Inv(s) && RecordOf(s, r) != None
    ensures ValidOp(RecordOf(s, r).value)
  {
    hide WellFormed, References, ConsistentFile;
  }

  lemma CopyOnWriteIsValid(s: Durable, path: str, index: u64, env: Env)
    requires Inv(s)
    ensures CopyOnWrite(s, path, index, env).logged != None ==> ValidOp(CopyOnWrite(s, path, index, env).logged.value)
  {
    hide Inv, References, CopyOnWrite, AllocateStandalone, ReplaceChunkInFile;
    if !HasSlot(s, path, index) {
      CopyOnWriteRefused(s, path, index, env);
    } else {
      SlotOfInv(s, path, index);
      NextIsFresh(s);
      if References(s.tables, Slot(s, path, index)) <= 1 {
        CopyOnWriteUnshared(s, path, index, env);
      } else if s.tables.next == 0 || !Allocated(s, path, index).ok {
        CopyOnWriteExhausted(s, path, index, env);
      } else if !env.registered || !env.cloned {
        CopyOnWriteMoved(s, path, index, env);
      } else {
        CopyOnWriteReplaced(s, path, index, env);
      }
    }
  }

  /** Everything the live master logs passes the checks of replay. */
  lemma LoggedIsValid(s: Durable, r: Request, env: Env)
    requires Inv(s)
    ensures Live(s, r, env).logged != None ==> ValidOp(Live(s, r, env).logged.value)
  {
    hide Inv, RecordOf, CopyOnWrite, Apply, ValidOp;
    if r.CopyOnWriteRequest? {
      CopyOnWriteIsValid(s, r.path, r.index, env);
    } else if RecordOf(s, r) != None {
      RecordIsValid(s, r);
    }
  }
}
