// What stands where in the files: integers, decimal numbers, fields, records and checkpoints.

module Layout {
  // Byte by byte, with all constants written out; integers are little-endian.

  import opened Bytes
  import opened Decimal
  import opened LogFormat
  import opened CheckpointFormat
  import opened LogRecords
  import opened MasterState
  import opened Namespace
  import opened NamespaceListing
  import opened ChunkTables
  import Crc

  // ----- numbers -----

  lemma Distribute(d: nat, p: nat, q: nat)
    requires p < q
    ensures d * q >= d * p + d
  {
    var e: nat := q - p - 1;
    calc {
      d * q;
      d * (p + 1 + e);
      d * p + d + d * e;
    }
  }

  lemma QuotientIs(n: nat, d: nat, q: nat, r: nat)
    requires n == d * q + r && r < d
    ensures n / d == q
  {
    var p := n / d;
    if p < q {
      Distribute(d, p, q);
    } else if q < p {
      Distribute(d, q, p);
    }
  }

  lemma DivideTwice(n: nat, a: nat, b: nat)
    requires a > 0 && b > 0
    ensures a * b > 0 && n / a / b == n / (a * b)
  {
    var q := n / a;
    var r := n % a;
    var k := q / b;
    var s := q % b;
    calc {
      n;
      a * q + r;
      a * (b * k + s) + r;
      a * (b * k) + a * s + r;
      (a * b) * k + (a * s + r);
    }
    Distribute(a, s, b);
    assert a * s + r < a * b;
    QuotientIs(n, a * b, k, a * s + r);
  }

  /** The digit of n with weight w. */
  function Place(n: nat, w: nat, base: nat): nat
    requires w > 0 && base > 0
  {
    n / w % base
  }

  lemma PlaceStep(n: nat, w: nat, base: nat)
    requires w > 0 && base > 0
    ensures base * w > 0 && Place(n, base * w, base) == Place(n / base, w, base)
  {
    DivideTwice(n, base, w);
  }

  lemma LastPlace(n: nat, base: nat)
    requires base > 0
    ensures Place(n, 1, base) == n % base
  {}

  /** Byte i of an integer has weight 256 to the power i. */
  lemma {:induction false} EncodedByte(n: nat, width: nat, i: nat)
    requires i < width
    ensures Encode(n, width)[i] as nat == Place(n, Values(i), 256)
  {
    hide ToByte, Place;
    LastPlace(n, 256);
    if i > 0 {
      EncodedByte(n / 256, width - 1, i - 1);
      PlaceStep(n, Values(i - 1), 256);
    }
  }

  function Tens(i: nat): (n: nat)
    ensures n > 0
  {
    if i == 0 then 1 else 10 * Tens(i - 1)
  }

  /** No more digits than needed. */
  lemma {:induction false} DecimalLength(n: nat)
    ensures n < Tens(|ToDecimal(n)|) && (|ToDecimal(n)| > 1 ==> Tens(|ToDecimal(n)| - 1) <= n)
  {
    hide DigitOf;
    if n < 10 {
      assert Tens(1) == 10 * Tens(0);
    } else {
      DecimalLength(n / 10);
      var k := |ToDecimal(n / 10)|;
      assert Tens(k + 1) == 10 * Tens(k) && Tens(k) == 10 * Tens(k - 1);
    }
  }

  /** The i-th digit from the right has weight 10 to the power i. */
  lemma {:induction false} DecimalDigit(n: nat, i: nat)
    requires i < |ToDecimal(n)|
    ensures ToDecimal(n)[|ToDecimal(n)| - 1 - i] as nat == 48 + Place(n, Tens(i), 10)
  {
    hide ToByte, Place;
    LastPlace(n, 10);
    if i > 0 {
      DecimalDigit(n / 10, i - 1);
      PlaceStep(n, Tens(i - 1), 10);
      var front := ToDecimal(n / 10);
      assert ToDecimal(n)[|front| - i] == front[|front| - i];
    }
  }

  // ----- the log -----

  /** Where a field starts. */
  function FieldStart(fields: seq<str>, i: nat): nat
    requires i <= |fields|
  {
    if i == 0 then 0 else 8 + |fields[0]| + FieldStart(fields[1..], i - 1)
  }

  /** Each field is its length in eight bytes and then its bytes; the next field follows directly. */
  lemma {:induction false} FieldLayout(fields: seq<str>, i: nat)
    requires i <= |fields| && FieldsFit(fields)
    ensures var s, at := EncodeFields(fields), FieldStart(fields, i);
            && at <= |s| && (i == |fields| ==> at == |s|)
            && (i < |fields| ==>
                  && at + 8 + |fields[i]| <= |s| && FieldStart(fields, i + 1) == at + 8 + |fields[i]|
                  && Decode(s[at..at + 8]) == |fields[i]| && s[at + 8..at + 8 + |fields[i]|] == fields[i])
  {
    hide Encode, Decode;
    WordSizes();
    if fields != [] {
      var s, first := EncodeFields(fields), EncodeField(fields[0]);
      var rest := EncodeFields(fields[1..]);
      FitsCons(fields);
      assert s == first + rest;
      if i == 0 {
        DecodeEncode(|fields[0]|, 8);
        assert s[0..8] == Encode(|fields[0]|, 8);
        assert FieldStart(fields[1..], 0) == 0;
      } else {
        FieldLayout(fields[1..], i - 1);
        var at := FieldStart(fields[1..], i - 1);
        if i < |fields| {
          Behind(first, rest, at, 8);
          Behind(first, rest, at + 8, |fields[i]|);
        }
      }
    }
  }

  lemma Behind(first: str, rest: str, at: nat, n: nat)
    requires at + n <= |rest|
    ensures (first + rest)[|first| + at..|first| + at + n] == rest[at..at + n]
  {}

  lemma Inside(s: str, from: nat, at: nat, n: nat)
    requires from + at + n <= |s|
    ensures s[from..][at..at + n] == s[from + at..from + at + n]
  {}

  /** A record: magic number, format version, sequence number, kind, size of the payload, its checksum,
      and the payload. */
  lemma RecordLayout(r: Record)
    requires LogFormat.ValidRecord(r)
    ensures var s := EncodeRecord(r);
            && |s| == 28 + |r.payload|
            && Decode(s[0..4]) == 0x4746_4C31 && Decode(s[4..8]) == 1 && Decode(s[8..16]) == r.sequence
            && Decode(s[16..20]) == r.kind && Decode(s[20..24]) == |r.payload|
            && Decode(s[24..28]) == Crc.Checksum(r.payload) as nat && s[28..] == r.payload
  {
    hide Encode, Decode, Header, Crc.Checksum;
    var s := EncodeRecord(r);
    assert s[..28] == Header(r);
    HeaderFields(r, s);
  }

  /** The record of an operation in the file: its kind at byte 16, its fields from byte 28 on. */
  lemma OperationLayout(sequence: u64, op: Op)
    requires Loggable(op)
    ensures var s := EncodeRecord(RecordFor(sequence, op));
            var kind, fields := Decode(s[16..20]), DecodeFields(s[28..]);
            match op
            case OpCreateDirectory(path) => kind == 1 && fields == Some([path])
            case OpCreateFile(path, factor) => kind == 2 && fields == Some([path, ToDecimal(factor)])
            case OpDeleteFile(path) => kind == 3 && fields == Some([path])
            case OpRenameFile(source, destination) => kind == 4 && fields == Some([source, destination])
            case OpAllocateChunk(path, h, version, size) =>
              kind == 5 && fields == Some([path, ToDecimal(h), ToDecimal(version), ToDecimal(size)])
            case OpUpdateFileSize(path, size) => kind == 6 && fields == Some([path, ToDecimal(size)])
            case OpSetChunkVersion(h, version) => kind == 7 && fields == Some([ToDecimal(h), ToDecimal(version)])
            case OpAddChunkToFile(path, h) => kind == 8 && fields == Some([path, ToDecimal(h)])
            case OpRemoveChunkFromFile(path, h) => kind == 9 && fields == Some([path, ToDecimal(h)])
            case OpDeleteChunk(h) => kind == 10 && fields == Some([ToDecimal(h)])
            case OpSetChunkSize(h, size) => kind == 11 && fields == Some([ToDecimal(h), ToDecimal(size)])
            case OpCreateSnapshot(source, destination) => kind == 12 && fields == Some([source, destination])
            case OpCopyOnWrite(path, index, from, to, version, size) =>
              kind == 13 && fields == Some([path, ToDecimal(index), ToDecimal(from), ToDecimal(to), ToDecimal(version), ToDecimal(size)])
  {
    hide Encode, Decode, EncodeRecord, EncodeFields, DecodeFields, ToDecimal;
    LoggableFits(op);
    RecordLayout(RecordFor(sequence, op));
    FieldsRoundTrip(PayloadOf(op), FieldsOf(op));
  }

  lemma LoggableFits(op: Op)
    requires Loggable(op)
    ensures FieldsFit(FieldsOf(op)) && |PayloadOf(op)| < U32
  {
    hide FieldsOf, EncodeFields;
    PayloadFits(FieldsOf(op));
  }

  // ----- checkpoints -----

  /** A checkpoint: magic number, format version, size of the body, its checksum, and the body. */
  lemma CheckpointLayout(s: State)
    requires StateFits(s) && |EncodeBody(s)| < U64
    ensures var b, body := EncodeState(s), EncodeBody(s);
            && |b| == 20 + |body|
            && Decode(b[0..4]) == 0x4750_4631 && Decode(b[4..8]) == 1 && Decode(b[8..16]) == |body|
            && Decode(b[16..20]) == Crc.Checksum(body) as nat && b[20..] == body
  {
    hide Encode, Decode, EncodeBody, Crc.Checksum, StateFits;
    WordSizes();
    var body := EncodeBody(s);
    DecodeEncode(CHECKPOINT_MAGIC, 4);
    DecodeEncode(CHECKPOINT_VERSION, 4);
    DecodeEncode(|body|, 8);
    DecodeEncode(ChecksumOf(body), 4);
    FiveParts(Encode(CHECKPOINT_MAGIC, 4), Encode(CHECKPOINT_VERSION, 4), Encode(|body|, 8), Encode(ChecksumOf(body), 4), body);
  }

  lemma FiveParts(m: str, v: str, n: str, c: str, body: str)
    requires |m| == 4 && |v| == 4 && |n| == 8 && |c| == 4
    ensures var b := m + (v + (n + (c + body)));
            && b[0..4] == m && b[4..8] == v && b[8..16] == n && b[16..20] == c && b[20..] == body
  {}

  /** Behind the sequence number stand the entries of the namespace, of the files and of the chunks,
      each list behind its length. */
  lemma BodyLayout(s: State)
    requires StateFits(s)
    ensures var body := EncodeBody(s);
            var nodes, files, chunks := EncodeMany(EncodeNode, s.nodes), EncodeMany(EncodeFile, s.files), EncodeMany(EncodeChunk, s.chunks);
            var f, c := 16 + |nodes|, 24 + |nodes| + |files|;
            && |body| == c + 8 + |chunks|
            && Decode(body[0..8]) == s.sequence
            && Decode(body[8..16]) == |s.nodes| && body[16..f] == nodes
            && Decode(body[f..f + 8]) == |s.files| && body[f + 8..c] == files
            && Decode(body[c..c + 8]) == |s.chunks| && body[c + 8..] == chunks
  {
    hide Encode, Decode, EncodeMany, AllFit;
    WordSizes();
    DecodeEncode(s.sequence, 8);
    DecodeEncode(|s.nodes|, 8);
    DecodeEncode(|s.files|, 8);
    DecodeEncode(|s.chunks|, 8);
    SevenParts(Encode(s.sequence, 8), Encode(|s.nodes|, 8), EncodeMany(EncodeNode, s.nodes), Encode(|s.files|, 8), EncodeMany(EncodeFile, s.files),
               Encode(|s.chunks|, 8), EncodeMany(EncodeChunk, s.chunks));
  }

  lemma SevenParts(q: str, n: str, nodes: str, m: str, files: str, k: str, chunks: str)
    requires |q| == |n| == |m| == |k| == 8
    ensures var body, f, c := q + (n + nodes + (m + files + (k + chunks))), 16 + |nodes|, 24 + |nodes| + |files|;
            && body[0..8] == q && body[8..16] == n && body[16..f] == nodes && body[f..f + 8] == m && body[f + 8..c] == files
            && body[c..c + 8] == k && body[c + 8..] == chunks
  {}

  lemma NodeLayout(n: NodeInfo)
    requires NodeFits(n)
    ensures var b, k := EncodeNode(n), |n.path|;
            && |b| == k + 12 && Decode(b[0..8]) == k && b[8..8 + k] == n.path
            && Decode(b[8 + k..]) == if n.kind == Directory then 0 else 1
  {
    WordSizes();
    DecodeEncode(|n.path|, 8);
    DecodeEncode(KindNumber(n.kind), 4);
    hide Encode, Decode;
    var b := EncodeNode(n);
    assert b[0..8] == Encode(|n.path|, 8) && b[8 + |n.path|..] == Encode(KindNumber(n.kind), 4);
  }

  lemma FileLayout(f: PersistentFile, i: nat)
    requires FileFits(f)
    ensures var b, k := EncodeFile(f), |f.path|;
            && |b| == k + 28 + 8 * |f.chunks| && Decode(b[0..8]) == k && b[8..8 + k] == f.path
            && Decode(b[8 + k..16 + k]) == f.size && Decode(b[16 + k..20 + k]) == f.factor && Decode(b[20 + k..28 + k]) == |f.chunks|
            && (i < |f.chunks| ==> Decode(b[28 + k + 8 * i..36 + k + 8 * i]) == f.chunks[i])
  {
    hide Encode, Decode, EncodeMany;
    WordSizes();
    DecodeEncode(|f.path|, 8);
    DecodeEncode(f.size, 8);
    DecodeEncode(f.factor, 4);
    DecodeEncode(|f.chunks|, 8);
    HandlesLayout(f.chunks, i);
    FileParts(Encode(|f.path|, 8), f.path, Encode(f.size, 8), Encode(f.factor, 4), Encode(|f.chunks|, 8), EncodeMany(EncodeHandle, f.chunks));
    if i < |f.chunks| {
      var k := |f.path|;
      var b := EncodeFile(f);
      Inside(b, 28 + k, 8 * i, 8);
    }
  }

  lemma FileParts(n: str, path: str, size: str, factor: str, m: str, handles: str)
    requires |n| == |size| == |m| == 8 && |factor| == 4
    ensures var b, k := n + path + (size + (factor + (m + handles))), |path|;
            && b[0..8] == n && b[8..8 + k] == path && b[8 + k..16 + k] == size && b[16 + k..20 + k] == factor
            && b[20 + k..28 + k] == m && b[28 + k..] == handles
  {}

  lemma {:induction false} HandlesLayout(handles: seq<Handle>, i: nat)
    ensures var b := EncodeMany(EncodeHandle, handles);
            |b| == 8 * |handles| && (i < |handles| ==> Decode(b[8 * i..8 * i + 8]) == handles[i])
  {
    if handles != [] {
      WordSizes();
      DecodeEncode(handles[0], 8);
      hide Encode, Decode;
      HandlesLayout(handles[1..], if i == 0 then 0 else i - 1);
      var first, rest := Encode(handles[0], 8), EncodeMany(EncodeHandle, handles[1..]);
      assert EncodeMany(EncodeHandle, handles) == first + rest;
      if i == 0 {
        assert (first + rest)[0..8] == first;
      } else if i < |handles| {
        Behind(first, rest, 8 * (i - 1), 8);
      }
    }
  }

  lemma ChunkLayout(c: PersistentChunk)
    ensures var b := EncodeChunk(c);
            && |b| == 24 && Decode(b[0..8]) == c.handle && Decode(b[8..16]) == c.version && Decode(b[16..24]) == c.size
  {
    WordSizes();
    DecodeEncode(c.handle, 8);
    DecodeEncode(c.version, 8);
    DecodeEncode(c.size, 8);
    hide Encode, Decode;
    var b := EncodeChunk(c);
    assert b[0..8] == Encode(c.handle, 8) && b[8..16] == Encode(c.version, 8) && b[16..24] == Encode(c.size, 8);
  }
}
