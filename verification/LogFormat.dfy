// The byte format of the operation log: length-prefixed fields, and records with a header.

module LogFormat {
  // The fields make up the payload of a record; its header holds a sequence number and a checksum.  A
  // log is readable exactly if it is the concatenation of well-formed records numbered 1, 2, 3, ...

  import opened Bytes
  import Crc

  const MAGIC: u32 := 0x4746_4C31
  const FORMAT_VERSION: u32 := 1
  const HEADER: nat := 28
  const LAST_KIND: nat := 13

  /** A list already read, followed by what the rest of the input yields. */
  function After<T>(front: seq<T>, rest: Option<seq<T>>): Option<seq<T>> {
    match rest
    case None => None
    case Some(more) => Some(front + more)
  }

  lemma AfterNothing<T>(rest: Option<seq<T>>)
    ensures After([], rest) == rest
  {
    if rest != None {
      assert [] + rest.value == rest.value;
    }
  }

  lemma AfterOneMore<T>(front: seq<T>, x: T, rest: Option<seq<T>>)
    ensures After(front, After([x], rest)) == After(front + [x], rest)
  {
    if rest != None {
      assert front + ([x] + rest.value) == (front + [x]) + rest.value;
    }
  }

  // ----- fields -----

  predicate FieldsFit(fields: seq<str>) {
    forall i :: 0 <= i < |fields| ==> |fields[i]| < U64
  }

  function EncodeField(field: str): str {
    Encode(|field|, 8) + field
  }

  function EncodeFields(fields: seq<str>): str {
    if fields == [] then [] else EncodeField(fields[0]) + EncodeFields(fields[1..])
  }

  /** The length-prefixed string at the front, if the input holds one. */
  function DecodeField(input: str): Option<str> {
    if |input| < 8 then None
    else
      var n := Decode(input[..8]);
      if n > |input| - 8 then None else Some(input[8..8 + n])
  }

  function DecodeFields(input: str): Option<seq<str>>
    decreases |input|
  {
    if input == [] then Some([])
    else
      match DecodeField(input)
      case None => None
      case Some(field) =>
        After([field], DecodeFields(input[8 + |field|..]))
  }

  /** The front of the input decodes to a field exactly if the input starts with its encoding. */
  lemma DecodeFieldIff(input: str, field: str)
    ensures DecodeField(input) == Some(field) <==> EncodeField(field) <= input && |field| < U64
  {
    WordSizes();
    hide Encode, Decode;
    var e := EncodeField(field);
    if DecodeField(input) == Some(field) {
      var n := Decode(input[..8]);
      EncodeDecode(input[..8]);
      assert |field| == n;
      assert input == input[..8] + (input[8..8 + n] + input[8 + n..]);
      assert input[..8 + n] == e;
    }
    if e <= input && |field| < U64 {
      DecodeEncode(|field|, 8);
      assert input[..|e|] == e;
      assert input[..8] == e[..8] == Encode(|field|, 8);
      assert input[8..8 + |field|] == e[8..8 + |field|] == field;
    }
  }

  /** Decoding inverts encoding, and encoding inverts decoding. */
  lemma {:induction false} FieldsRoundTrip(input: str, fields: seq<str>)
    ensures DecodeFields(input) == Some(fields) <==> input == EncodeFields(fields) && FieldsFit(fields)
    decreases |input|
  {
    hide Encode, Decode, DecodeField, EncodeField;
    if input == [] {
      if fields != [] {
        EncodedFieldLength(fields[0]);
      }
    } else {
      if DecodeFields(input) == Some(fields) {
        var f := fields[0];
        DecodeFieldIff(input, f);
        EncodedFieldLength(f);
        FieldsRoundTrip(input[8 + |f|..], fields[1..]);
        assert fields == [f] + fields[1..];
        assert input == input[..8 + |f|] + input[8 + |f|..];
        assert input[..8 + |f|] == EncodeField(f);
        FitsCons(fields);
      }
      if input == EncodeFields(fields) && FieldsFit(fields) {
        var f := fields[0];
        EncodedFieldLength(f);
        DecodeFieldIff(input, f);
        assert input[8 + |f|..] == EncodeFields(fields[1..]);
        FitsCons(fields);
        FieldsRoundTrip(input[8 + |f|..], fields[1..]);
        assert fields == [f] + fields[1..];
      }
    }
  }

  lemma EncodedFieldLength(field: str)
    ensures |EncodeField(field)| == 8 + |field|
  {}

  lemma FitsCons(fields: seq<str>)
    requires fields != []
    ensures FieldsFit(fields) <==> |fields[0]| < U64 && FieldsFit(fields[1..])
  {
    var rest := fields[1..];
    assert forall i :: 0 <= i < |rest| ==> rest[i] == fields[i + 1];
    assert forall i :: 1 <= i < |fields| ==> fields[i] == rest[i - 1];
  }

  // ----- records -----

  datatype Record = Record(sequence: u64, kind: u32, payload: str)

  predicate ValidRecord(r: Record) {
    1 <= r.kind <= LAST_KIND && |r.payload| < U32
  }

  function ChecksumOf(payload: str): (c: u32) {
    Crc.Checksum(payload) as nat
  }

  function Header(r: Record): (h: str)
    ensures |h| == HEADER
  {
    Encode(MAGIC, 4) + Encode(FORMAT_VERSION, 4) + Encode(r.sequence, 8)
    + Encode(r.kind, 4) + Encode(|r.payload|, 4) + Encode(ChecksumOf(r.payload), 4)
  }

  function EncodeRecord(r: Record): (s: str)
    ensures |s| == HEADER + |r.payload|
  {
    Header(r) + r.payload
  }

  /** A log file with one more record at its end. */
  function Extended(file: str, r: Record): str {
    file + EncodeRecord(r)
  }

  function EncodeLog(records: seq<Record>): str {
    if records == [] then [] else EncodeRecord(records[0]) + EncodeLog(records[1..])
  }

  /** The record at the front of the input, if there is an intact one with the expected number. */
  function ParseRecord(input: str, expected: u64): Option<Record> {
    if |input| < HEADER then None
    else
      var sequence, kind := Decode(input[8..16]), Decode(input[16..20]);
      var size, checksum := Decode(input[20..24]), Decode(input[24..28]);
      if Decode(input[0..4]) != MAGIC || Decode(input[4..8]) != FORMAT_VERSION || sequence != expected
         || kind < 1 || LAST_KIND < kind || size > |input| - HEADER
      then None
      else
        var payload := input[HEADER..HEADER + size];
        if ChecksumOf(payload) != checksum then None else Some(Record(expected, kind, payload))
  }

  function ParseLog(input: str, expected: u64): Option<seq<Record>>
    decreases |input|
  {
    if input == [] then Some([])
    else
      match ParseRecord(input, expected)
      case None => None
      case Some(r) =>
        if expected == U64 - 1 then None
        else
          After([r], ParseLog(input[HEADER + |r.payload|..], expected + 1))
  }

  predicate Consecutive(records: seq<Record>, first: nat) {
    forall i :: 0 <= i < |records| ==> ValidRecord(records[i]) && records[i].sequence == first + i
  }

  /** The records are valid and numbered consecutively, and the last number is not the largest one
      (the reader rejects a log that reaches it, although the writer would write it). */
  predicate Numbered(records: seq<Record>, first: u64) {
    first + |records| < U64 && Consecutive(records, first)
  }

  lemma NumberedCons(records: seq<Record>, first: u64)
    requires records != [] && first < U64 - 1
    ensures Numbered(records, first) <==>
              ValidRecord(records[0]) && records[0].sequence == first && Numbered(records[1..], first + 1)
  {
    var rest := records[1..];
    assert forall i :: 0 <= i < |rest| ==> rest[i] == records[i + 1];
    assert forall i :: 1 <= i < |records| ==> records[i] == rest[i - 1];
  }

  /** A header is its six integers. */
  lemma HeaderFields(r: Record, input: str)
    requires |input| >= HEADER && |r.payload| < U32
    ensures Header(r) == input[..HEADER] <==>
              && Decode(input[0..4]) == MAGIC && Decode(input[4..8]) == FORMAT_VERSION
              && Decode(input[8..16]) == r.sequence && Decode(input[16..20]) == r.kind
              && Decode(input[20..24]) == |r.payload| && Decode(input[24..28]) == ChecksumOf(r.payload)
  {
    WordSizes();
    hide Encode, Decode, ChecksumOf;
    FieldIff(input[0..4], MAGIC);
    FieldIff(input[4..8], FORMAT_VERSION);
    FieldIff(input[8..16], r.sequence);
    FieldIff(input[16..20], r.kind);
    FieldIff(input[20..24], |r.payload|);
    FieldIff(input[24..28], ChecksumOf(r.payload));
    var h := Header(r);
    PartsOfSum(Encode(MAGIC, 4), Encode(FORMAT_VERSION, 4), Encode(r.sequence, 8),
               Encode(r.kind, 4), Encode(|r.payload|, 4), Encode(ChecksumOf(r.payload), 4));
    SixParts(input[..HEADER]);
    SixParts(h);
    SlicesOfPrefix(input);
  }

  lemma PartsOfSum(a: str, b: str, c: str, d: str, e: str, f: str)
    requires |a| == 4 && |b| == 4 && |c| == 8 && |d| == 4 && |e| == 4 && |f| == 4
    ensures var h := a + b + c + d + e + f;
            h[0..4] == a && h[4..8] == b && h[8..16] == c && h[16..20] == d && h[20..24] == e && h[24..28] == f
  {}

  lemma FieldIff(s: str, n: nat)
    requires n < Values(|s|)
    ensures s == Encode(n, |s|) <==> Decode(s) == n
  {
    EncodeDecode(s);
    DecodeEncode(n, |s|);
  }

  lemma SixParts(s: str)
    requires |s| == HEADER
    ensures s == s[0..4] + s[4..8] + s[8..16] + s[16..20] + s[20..24] + s[24..28]
  {}

  lemma SlicesOfPrefix(input: str)
    requires |input| >= HEADER
    ensures input[..HEADER][0..4] == input[0..4] && input[..HEADER][4..8] == input[4..8]
    ensures input[..HEADER][8..16] == input[8..16] && input[..HEADER][16..20] == input[16..20]
    ensures input[..HEADER][20..24] == input[20..24] && input[..HEADER][24..28] == input[24..28]
  {}

  /** The front of the input parses to a record exactly if the input starts with its encoding. */
  lemma ParseRecordIff(input: str, expected: u64, r: Record)
    ensures ParseRecord(input, expected) == Some(r) <==>
              EncodeRecord(r) <= input && ValidRecord(r) && r.sequence == expected
  {
    WordSizes();
    hide Encode, Decode, ChecksumOf, Header;
    if ParseRecord(input, expected) == Some(r) {
      HeaderFields(r, input);
      assert input == input[..HEADER] + (input[HEADER..HEADER + |r.payload|] + input[HEADER + |r.payload|..]);
      assert input[..HEADER + |r.payload|] == EncodeRecord(r);
    }
    if EncodeRecord(r) <= input && ValidRecord(r) && r.sequence == expected {
      var e := EncodeRecord(r);
      assert input[..|e|] == e;
      assert input[..HEADER] == e[..HEADER] == Header(r);
      assert input[HEADER..HEADER + |r.payload|] == e[HEADER..HEADER + |r.payload|] == r.payload;
      HeaderFields(r, input);
    }
  }

  /** A byte string is a readable log of given records exactly if it is their encoding and they
      are numbered consecutively. */
  lemma {:induction false} ParseLogIff(input: str, first: u64, records: seq<Record>)
    ensures ParseLog(input, first) == Some(records) <==> input == EncodeLog(records) && Numbered(records, first)
    decreases |input|
  {
    hide ParseRecord, EncodeRecord, ValidRecord;
    if input == [] {
      if records != [] {
        EncodedRecordLength(records[0]);
      }
    } else {
      if ParseLog(input, first) == Some(records) {
        var r := records[0];
        ParseRecordIff(input, first, r);
        EncodedRecordLength(r);
        var n := HEADER + |r.payload|;
        ParseLogIff(input[n..], first + 1, records[1..]);
        assert records == [r] + records[1..];
        assert input == input[..n] + input[n..] && input[..n] == EncodeRecord(r);
        NumberedCons(records, first);
      }
      if input == EncodeLog(records) && Numbered(records, first) {
        var r := records[0];
        EncodedRecordLength(r);
        NumberedCons(records, first);
        ParseRecordIff(input, first, r);
        var n := HEADER + |r.payload|;
        assert input[n..] == EncodeLog(records[1..]);
        ParseLogIff(input[n..], first + 1, records[1..]);
        assert records == [r] + records[1..];
      }
    }
  }

  lemma EncodedRecordLength(r: Record)
    ensures |EncodeRecord(r)| == HEADER + |r.payload| >= HEADER
  {}

  lemma {:induction false} EncodeLogConcat(a: seq<Record>, b: seq<Record>)
    ensures EncodeLog(a + b) == EncodeLog(a) + EncodeLog(b)
  {
    hide EncodeRecord;
    if a == [] {
      assert a + b == b;
    } else {
      assert (a + b)[1..] == a[1..] + b;
      EncodeLogConcat(a[1..], b);
    }
  }

  /** No log is the beginning of a different log: the format is a prefix code. */
  lemma {:induction false} PrefixCode(a: seq<Record>, b: seq<Record>, first: u64)
    requires Numbered(a, first) && Numbered(b, first)
    requires EncodeLog(a) <= EncodeLog(b)
    ensures |a| <= |b| && a == b[..|a|]
    decreases |a|
  {
    hide EncodeRecord, ParseRecord, ValidRecord;
    if a != [] {
      EncodedRecordLength(a[0]);
      assert b != [];
      NumberedCons(a, first);
      NumberedCons(b, first);
      var x, y := EncodeLog(a), EncodeLog(b);
      ParseRecordIff(y, first, b[0]);
      PrefixTrans(EncodeRecord(a[0]), EncodeLog(a[1..]), y);
      ParseRecordIff(y, first, a[0]);
      assert a[0] == b[0];
      var n := |EncodeRecord(a[0])|;
      assert EncodeLog(a[1..]) == x[n..] && EncodeLog(b[1..]) == y[n..];
      assert x == y[..|x|];
      assert x[n..] == y[n..][..|x| - n];
      PrefixCode(a[1..], b[1..], first + 1);
      assert a == [a[0]] + a[1..] && b[..|a|] == [b[0]] + b[1..][..|a| - 1];
    }
  }

  lemma PrefixTrans(p: str, q: str, y: str)
    requires p + q <= y
    ensures p <= y
  {
    assert y[..|p|] == (p + q)[..|p|] == p;
  }

  /** Reading any truncation of a log gives an error or a leading part of its records - never
      anything else. */
  lemma TruncatedLog(records: seq<Record>, n: nat)
    requires Numbered(records, 1) && n <= |EncodeLog(records)|
    ensures var r := ParseLog(EncodeLog(records)[..n], 1);
            r == None || (|r.value| <= |records| && r.value == records[..|r.value|] && EncodeLog(r.value) == EncodeLog(records)[..n])
  {
    hide EncodeLog, ParseLog, Numbered;
    var input := EncodeLog(records)[..n];
    if ParseLog(input, 1) != None {
      var found := ParseLog(input, 1).value;
      ParseLogIff(input, 1, found);
      PrefixCode(found, records, 1);
    }
  }

  lemma {:induction false} EncodeLogLength(records: seq<Record>, n: nat)
    requires n <= |records|
    ensures |EncodeLog(records[..n])| + HEADER * (|records| - n) <= |EncodeLog(records)|
    decreases |records| - n
  {
    assert records == records[..n] + records[n..];
    EncodeLogConcat(records[..n], records[n..]);
    EncodeLogNotShort(records[n..]);
  }

  lemma {:induction false} EncodeLogNotShort(records: seq<Record>)
    ensures HEADER * |records| <= |EncodeLog(records)|
  {
    if records != [] {
      EncodedRecordLength(records[0]);
      EncodeLogNotShort(records[1..]);
    }
  }

  /** A record torn in the middle makes the whole log unreadable, whatever came before it. */
  lemma TornTailIsRejected(records: seq<Record>, r: Record, k: nat)
    requires Numbered(records + [r], 1) && 0 < k < |EncodeRecord(r)|
    ensures ParseLog(EncodeLog(records) + EncodeRecord(r)[..k], 1) == None
  {
    hide EncodeRecord, ParseLog, Numbered;
    var all := records + [r];
    EncodeLogConcat(records, [r]);
    assert EncodeLog([r]) == EncodeRecord(r) + EncodeLog([r][1..]) == EncodeRecord(r);
    var full, cut := EncodeLog(all), |EncodeLog(records)| + k;
    assert full[..cut] == EncodeLog(records) + EncodeRecord(r)[..k];
    TruncatedLog(all, cut);
    var p := ParseLog(full[..cut], 1);
    if p != None {
      var m := |p.value|;
      assert all[..|all|] == all;
      assert m <= |records|;
      assert all[..m] == records[..m];
      EncodeLogLength(records, m);
      assert false;
    }
  }
}
