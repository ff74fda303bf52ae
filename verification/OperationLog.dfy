// The operation log on disk: appending records, which can be torn by a failing write, and
// reading them all back.

module OperationLog {
  import opened Bytes
  import opened LogFormat

  class OperationLog {
    /** The contents of the log file. */
    var file: str
    var lastSequence: u64
    var open: bool

    /** The intact records at the start of the file, and what a failed write left behind. */
    ghost var records: seq<Record>
    ghost var torn: str

    ghost predicate Valid()
      reads this
    {
      && file == EncodeLog(records) + torn
      && Consecutive(records, 1)
      && (open && torn == [] ==> lastSequence == |records|)
    }

    constructor ()
      ensures Valid() && file == [] && records == [] && torn == [] && !open && lastSequence == 0
    {
      file, lastSequence, open := [], 0, false;
      records, torn := [], [];
    }

    /** The read loop: header, checks, payload, checksum, record by record. */
    method ReadRecords() returns (ok: bool, found: seq<Record>)
      ensures ok <==> ParseLog(file, 1) != None
      ensures ok ==> ParseLog(file, 1) == Some(found)
    {
      hide ChecksumOf, Decode, ParseRecord, ParseLog, After;
      found := [];
      var offset := 0;
      var expected: u64 := 1;
      assert file[0..] == file;
      AfterNothing(ParseLog(file, 1));
      while offset < |file|
        invariant offset <= |file|
        invariant ParseLog(file, 1) == After(found, ParseLog(file[offset..], expected))
      {
        var input := file[offset..];
        NextRecord(found, input, expected);
        if |input| < HEADER {
          return false, [];
        }
        var magic, version, sequence := Decode(input[0..4]), Decode(input[4..8]), Decode(input[8..16]);
        var kind, size, checksum := Decode(input[16..20]), Decode(input[20..24]), Decode(input[24..28]);
        if magic != MAGIC || version != FORMAT_VERSION || sequence != expected || kind < 1 || LAST_KIND < kind {
          return false, [];
        }
        if size > |input| - HEADER {
          return false, [];
        }
        var payload := input[HEADER..HEADER + size];
        var calculated := Crc.ComputeCRC32(payload);
        IsChecksum(payload, calculated);
        if calculated as nat != checksum {
          return false, [];
        }
        if expected == U64 - 1 {
          return false, [];
        }
        assert input[HEADER + size..] == file[offset + HEADER + size..];
        found := found + [Record(expected, kind, payload)];
        offset := offset + HEADER + size;
        expected := expected + 1;
      }
      assert file[offset..] == [];
      NoMoreRecords(found, expected);
      ok := true;
    }

    /** The front of what is left to read: no intact record, the last possible number, or one record. */
    lemma NextRecord(found: seq<Record>, input: str, expected: u64)
      requires input != []
      ensures var size := if |input| < HEADER then 0 else Decode(input[20..24]);
              var whole := After(found, ParseLog(input, expected));
              if |input| < HEADER || Decode(input[0..4]) != MAGIC || Decode(input[4..8]) != FORMAT_VERSION
                 || Decode(input[8..16]) != expected || Decode(input[16..20]) < 1 || LAST_KIND < Decode(input[16..20])
                 || size > |input| - HEADER || ChecksumOf(input[HEADER..HEADER + size]) != Decode(input[24..28])
                 || expected == U64 - 1
              then whole == None
              else whole == After(found + [Record(expected, Decode(input[16..20]), input[HEADER..HEADER + size])],
                                  ParseLog(input[HEADER + size..], expected + 1))
    {
      hide ChecksumOf, Decode;
      if |input| >= HEADER {
        var size := Decode(input[20..24]);
        if ParseRecord(input, expected) != None && expected != U64 - 1 {
          AfterOneMore(found, ParseRecord(input, expected).value, ParseLog(input[HEADER + size..], expected + 1));
        }
      }
    }

    lemma NoMoreRecords(found: seq<Record>, expected: u64)
      ensures After(found, ParseLog([], expected)) == Some(found)
    {
      assert found + [] == found;
    }

    lemma IsChecksum(payload: str, c: bv32)
      requires c == Crc.Checksum(payload)
      ensures c as nat == ChecksumOf(payload)
    {}

    /** Opening reads and validates the whole file. */
    method Open() returns (ok: bool)
      requires Valid()
      modifies this`open, this`lastSequence, this`records, this`torn
      ensures Valid()
      ensures ok <==> ParseLog(file, 1) != None
      ensures ok ==> open && torn == [] && ParseLog(file, 1) == Some(records) && lastSequence == |records|
      ensures !ok ==> !open && records == old(records) && torn == old(torn)
    {
      hide ParseLog, EncodeLog, ValidRecord;
      open := false;
      var found;
      ok, found := ReadRecords();
      if ok {
        ParseLogIff(file, 1, found);
        lastSequence := if found == [] then 0 else found[|found| - 1].sequence;
        records, torn := found, [];
        open := true;
      }
    }

    /** Writes header and payload; when the write fails only `written` bytes have reached the file. */
    method WriteRecord(sequence: u64, kind: u32, payload: str, written: nat) returns (ok: bool)
      requires |payload| < U32
      modifies this`file
      ensures ok <==> written >= HEADER + |payload|
      ensures file == old(file) + if ok then EncodeRecord(Record(sequence, kind, payload))
                                  else EncodeRecord(Record(sequence, kind, payload))[..written]
    {
      hide Header;
      var bytes := EncodeRecord(Record(sequence, kind, payload));
      ok := written >= |bytes|;
      file := file + if ok then bytes else bytes[..written];
    }

    /** Appends one record with the next number.  A failed write leaves a torn record behind and
        does not use up the number. */
    method Append(kind: u32, payload: str, written: nat) returns (ok: bool)
      requires Valid()
      requires 1 <= kind <= LAST_KIND
      modifies this`file, this`lastSequence, this`records, this`torn
      ensures Valid()
      ensures ok <==> old(open) && old(lastSequence) < U64 - 1 && |payload| < U32 && written >= HEADER + |payload|
      ensures ok && old(torn) == [] ==>
                && torn == []
                && records == old(records) + [Record(old(lastSequence) + 1, kind, payload)]
                && lastSequence == old(lastSequence) + 1
      ensures ok ==>
                && lastSequence == old(lastSequence) + 1
                && file == Extended(old(file), Record(old(lastSequence) + 1, kind, payload))
      ensures !ok ==> lastSequence == old(lastSequence) && records == old(records)
      ensures !ok && old(torn) == [] && torn != [] ==>
                && old(open) && |payload| < U32 && old(lastSequence) < U64 - 1
                && written < HEADER + |payload|
                && torn == EncodeRecord(Record(old(lastSequence) + 1, kind, payload))[..written]
      ensures old(torn) != [] ==> torn != []
    {
      hide EncodeRecord;
      if !open || lastSequence == U64 - 1 || |payload| >= U32 {
        return false;
      }
      var sequence: u64 := lastSequence + 1;
      ghost var r := Record(sequence, kind, payload);
      EncodedRecordLength(r);
      ok := WriteRecord(sequence, kind, payload, written);
      if ok && torn == [] {
        EncodeLogConcat(records, [r]);
        assert [r][1..] == [];
        assert EncodeLog([r]) == EncodeRecord(r);
        records := records + [r];
      } else {
        torn := torn + if ok then EncodeRecord(r) else EncodeRecord(r)[..written];
      }
      if ok {
        lastSequence := sequence;
      }
    }

    /** The records after a given sequence number. */
    method Replay(after: u64) returns (found: seq<Record>)
      ensures ParseLog(file, 1) == None ==> found == []
      ensures ParseLog(file, 1) != None ==>
                found == if after <= |ParseLog(file, 1).value| then ParseLog(file, 1).value[after..] else []
    {
      var ok, all := ReadRecords();
      if !ok {
        return [];
      }
      ParseLogIff(file, 1, all);
      assert Consecutive(all, 1);
      hide *;
      if after == 0 {
        assert all[0..] == all;
        return all;
      }
      found := RemoveUpTo(all, after);
    }
  }

  /** Erases the records numbered up to `after`. */
  method RemoveUpTo(all: seq<Record>, after: u64) returns (found: seq<Record>)
    requires Consecutive(all, 1)
    ensures found == if after <= |all| then all[after..] else []
  {
    hide ValidRecord;
    found := [];
    for i := 0 to |all|
      invariant found == if i <= after then [] else all[after..i]
    {
      if all[i].sequence > after {
        assert all[after..i + 1] == all[after..i] + [all[i]];
        found := found + [all[i]];
      }
    }
  }

  // ----- the fields of a payload -----

  method EncodeFieldList(fields: seq<str>) returns (result: str)
    ensures result == EncodeFields(fields)
  {
    hide Encode;
    result := [];
    assert fields[0..] == fields;
    for i := 0 to |fields|
      invariant EncodeFields(fields) == result + EncodeFields(fields[i..])
    {
      NextField(result, fields, i);
      result := result + Encode(|fields[i]|, 8);
      result := result + fields[i];
    }
    assert fields[|fields|..] == [];
  }

  lemma NextField(front: str, fields: seq<str>, i: nat)
    requires i < |fields|
    ensures front + EncodeFields(fields[i..]) == front + Encode(|fields[i]|, 8) + fields[i] + EncodeFields(fields[i + 1..])
  {
    hide Encode;
    assert fields[i..][1..] == fields[i + 1..];
  }

  method DecodeFieldList(payload: str) returns (ok: bool, fields: seq<str>)
    ensures ok <==> DecodeFields(payload) != None
    ensures ok ==> DecodeFields(payload) == Some(fields)
  {
    hide Decode;
    fields := [];
    var offset := 0;
    assert payload[0..] == payload;
    AfterNothing(DecodeFields(payload));
    while offset < |payload|
      invariant offset <= |payload|
      invariant DecodeFields(payload) == After(fields, DecodeFields(payload[offset..]))
    {
      var input := payload[offset..];
      if |input| < 8 {
        return false, [];
      }
      var length := Decode(input[..8]);
      if length > |input| - 8 {
        return false, [];
      }
      var field := input[8..8 + length];
      assert DecodeField(input) == Some(field);
      assert input[8 + length..] == payload[offset + 8 + length..];
      AfterOneMore(fields, field, DecodeFields(input[8 + length..]));
      fields := fields + [field];
      offset := offset + 8 + length;
    }
    assert payload[offset..] == [];
    assert fields + [] == fields;
    ok := true;
  }
}
