// The byte format of a checkpoint: header, namespace entries, file entries, chunk entries.

module CheckpointFormat {
  // The header holds size and checksum of the rest; each list is preceded by its length.

  import opened Bytes
  import opened Namespace
  import opened NamespaceListing
  import opened ChunkTables
  import opened LogFormat

  const CHECKPOINT_MAGIC: u32 := 0x4750_4631
  const CHECKPOINT_VERSION: u32 := 1
  const CHECKPOINT_HEADER: nat := 20

  datatype State = State(sequence: u64, nodes: seq<NodeInfo>, files: seq<PersistentFile>, chunks: seq<PersistentChunk>)

  /** A parsed value and the input left over. */
  datatype Parsed<+T> = Parsed(value: T, rest: str)

  type Parser<!T> = str -> Option<Parsed<T>>
  type Encoder<!T> = T -> str

  // ----- integers and strings -----

  function ParseInt(input: str, width: nat): Option<Parsed<nat>> {
    if |input| < width then None else Some(Parsed(Decode(input[..width]), input[width..]))
  }

  lemma ParseIntIff(input: str, width: nat, n: nat, rest: str)
    ensures ParseInt(input, width) == Some(Parsed(n, rest)) <==> input == Encode(n, width) + rest && n < Values(width)
  {
    hide Encode, Decode;
    if |input| >= width {
      EncodeDecode(input[..width]);
      assert input == input[..width] + input[width..];
    }
    if input == Encode(n, width) + rest && n < Values(width) {
      DecodePrefix(n, width, rest);
    }
  }

  function ParseStr(input: str): Option<Parsed<str>> {
    match DecodeField(input)
    case None => None
    case Some(s) => Some(Parsed(s, input[8 + |s|..]))
  }

  lemma ParseStrIff(input: str, s: str, rest: str)
    ensures ParseStr(input) == Some(Parsed(s, rest)) <==> input == EncodeField(s) + rest && |s| < U64
  {
    DecodeFieldIff(input, s);
    EncodedFieldLength(s);
    hide DecodeField, EncodeField;
    if |input| >= 8 + |s| {
      assert input == input[..8 + |s|] + input[8 + |s|..];
    }
    var e := EncodeField(s);
    if input == e + rest {
      assert input[..|e|] == e && input[8 + |s|..] == rest;
    }
  }

  // ----- lists of a known length -----

  /** The parser inverts the encoder, in both directions, on the values that fit. */
  ghost predicate Inverse<T(!new)>(encode: Encoder<T>, parse: Parser<T>, fits: T -> bool) {
    forall input, x, rest :: parse(input) == Some(Parsed(x, rest)) <==> input == encode(x) + rest && fits(x)
  }

  function EncodeMany<T>(encode: Encoder<T>, items: seq<T>): str {
    if items == [] then [] else encode(items[0]) + EncodeMany(encode, items[1..])
  }

  function ParseMany<T>(parse: Parser<T>, input: str, count: nat): Option<Parsed<seq<T>>>
    decreases count
  {
    if count == 0 then Some(Parsed([], input))
    else
      match parse(input)
      case None => None
      case Some(p) => Prepend([p.value], ParseMany(parse, p.rest, count - 1))
  }

  function Prepend<T>(front: seq<T>, p: Option<Parsed<seq<T>>>): Option<Parsed<seq<T>>> {
    match p
    case None => None
    case Some(q) => Some(Parsed(front + q.value, q.rest))
  }

  predicate AllFit<T>(fits: T -> bool, items: seq<T>) {
    forall i :: 0 <= i < |items| ==> fits(items[i])
  }

  lemma AllFitCons<T>(fits: T -> bool, items: seq<T>)
    requires items != []
    ensures AllFit(fits, items) <==> fits(items[0]) && AllFit(fits, items[1..])
  {
    var rest := items[1..];
    assert forall i :: 0 <= i < |rest| ==> rest[i] == items[i + 1];
    assert forall i :: 1 <= i < |items| ==> items[i] == rest[i - 1];
  }

  lemma {:induction false} ParseManyIff<T(!new)>(encode: Encoder<T>, parse: Parser<T>, fits: T -> bool,
                                                 input: str, count: nat, items: seq<T>, rest: str)
    requires Inverse(encode, parse, fits)
    ensures ParseMany(parse, input, count) == Some(Parsed(items, rest)) <==>
              |items| == count && input == EncodeMany(encode, items) + rest && AllFit(fits, items)
    decreases count
  {
    if count == 0 {
      assert EncodeMany(encode, []) + rest == rest;
    } else {
      hide AllFit;
      if ParseMany(parse, input, count) == Some(Parsed(items, rest)) {
        var p := parse(input).value;
        assert items == [p.value] + items[1..];
        ParseManyIff(encode, parse, fits, p.rest, count - 1, items[1..], rest);
        assert input == encode(p.value) + p.rest;
        AllFitCons(fits, items);
        EncodedFirst(encode, items, rest);
      }
      if |items| == count && input == EncodeMany(encode, items) + rest && AllFit(fits, items) {
        AllFitCons(fits, items);
        EncodedFirst(encode, items, rest);
        var left := EncodeMany(encode, items[1..]) + rest;
        assert parse(input) == Some(Parsed(items[0], left));
        ParseManyIff(encode, parse, fits, left, count - 1, items[1..], rest);
        assert items == [items[0]] + items[1..];
      }
    }
  }

  lemma EncodedFirst<T>(encode: Encoder<T>, items: seq<T>, rest: str)
    requires items != []
    ensures EncodeMany(encode, items) + rest == encode(items[0]) + (EncodeMany(encode, items[1..]) + rest)
  {}

  /** One more item parsed in front of the rest. */
  lemma PrependOneMore<T>(front: seq<T>, x: T, p: Option<Parsed<seq<T>>>)
    ensures Prepend(front, Prepend([x], p)) == Prepend(front + [x], p)
  {
    if p != None {
      assert front + ([x] + p.value.value) == (front + [x]) + p.value.value;
    }
  }

  lemma PrependNothing<T>(p: Option<Parsed<seq<T>>>)
    ensures Prepend([], p) == p
  {
    if p != None {
      assert [] + p.value.value == p.value.value;
    }
  }

  // ----- the three kinds of entries -----

  function KindNumber(kind: Kind): nat {
    if kind == Directory then 0 else 1
  }

  function EncodeNode(n: NodeInfo): str {
    EncodeField(n.path) + Encode(KindNumber(n.kind), 4)
  }

  function ParseNode(input: str): Option<Parsed<NodeInfo>> {
    match ParseStr(input)
    case None => None
    case Some(p) =>
      match ParseInt(p.rest, 4)
      case None => None
      case Some(k) =>
        if k.value > 1 then None
        else Some(Parsed(NodeInfo(p.value, if k.value == 0 then Directory else File), k.rest))
  }

  predicate NodeFits(n: NodeInfo) {
    |n.path| < U64
  }

  lemma NodeInverse()
    ensures Inverse(EncodeNode, ParseNode, NodeFits)
  {
    forall input, n, rest
      ensures ParseNode(input) == Some(Parsed(n, rest)) <==> input == EncodeNode(n) + rest && NodeFits(n)
    {
      NodeIff(input, n, rest);
    }
  }

  lemma NodeIff(input: str, n: NodeInfo, rest: str)
    ensures ParseNode(input) == Some(Parsed(n, rest)) <==> input == EncodeNode(n) + rest && NodeFits(n)
  {
    WordSizes();
    hide Encode, EncodeField, ParseInt, ParseStr;
    var mid := Encode(KindNumber(n.kind), 4) + rest;
    ParseStrIff(input, n.path, mid);
    ParseIntIff(mid, 4, KindNumber(n.kind), rest);
    assert EncodeNode(n) + rest == EncodeField(n.path) + mid;
    if ParseNode(input) == Some(Parsed(n, rest)) {
      var p := ParseStr(input).value;
      var k := ParseInt(p.rest, 4).value;
      ParseIntIff(p.rest, 4, k.value, k.rest);
    }
  }

  function EncodeHandle(h: Handle): str {
    Encode(h, 8)
  }

  function ParseHandle(input: str): Option<Parsed<Handle>> {
    WordSizes();
    match ParseInt(input, 8)
    case None => None
    case Some(p) => if p.value == 0 then None else Some(Parsed(p.value, p.rest))
  }

  predicate HandleFits(h: Handle) {
    h != 0
  }

  lemma HandleInverse()
    ensures Inverse(EncodeHandle, ParseHandle, HandleFits)
  {
    WordSizes();
    forall input, h: Handle, rest
      ensures ParseHandle(input) == Some(Parsed(h, rest)) <==> input == EncodeHandle(h) + rest && HandleFits(h)
    {
      ParseIntIff(input, 8, h, rest);
      hide Encode, Decode;
    }
  }

  function EncodeFile(f: PersistentFile): str {
    EncodeField(f.path) + (Encode(f.size, 8) + (Encode(f.factor, 4) + (Encode(|f.chunks|, 8) + EncodeMany(EncodeHandle, f.chunks))))
  }

  function ParseFile(input: str): Option<Parsed<PersistentFile>> {
    WordSizes();
    match ParseStr(input)
    case None => None
    case Some(p) =>
      match ParseInt(p.rest, 8)
      case None => None
      case Some(size) =>
        match ParseInt(size.rest, 4)
        case None => None
        case Some(factor) =>
          match ParseInt(factor.rest, 8)
          case None => None
          case Some(count) =>
            if factor.value == 0 then None
            else
              match ParseMany(ParseHandle, count.rest, count.value)
              case None => None
              case Some(handles) => Some(Parsed(PersistentFile(p.value, size.value, factor.value, handles.value), handles.rest))
  }

  predicate FileFits(f: PersistentFile) {
    |f.path| < U64 && f.factor != 0 && |f.chunks| < U64 && AllFit(HandleFits, f.chunks)
  }

  lemma FileInverse()
    ensures Inverse(EncodeFile, ParseFile, FileFits)
  {
    forall input, f, rest
      ensures ParseFile(input) == Some(Parsed(f, rest)) <==> input == EncodeFile(f) + rest && FileFits(f)
    {
      FileIff(input, f, rest);
    }
  }

  lemma FileIff(input: str, f: PersistentFile, rest: str)
    ensures ParseFile(input) == Some(Parsed(f, rest)) <==> input == EncodeFile(f) + rest && FileFits(f)
  {
    WordSizes();
    HandleInverse();
    hide Encode, EncodeField, ParseInt, ParseStr, EncodeMany, ParseMany, Inverse, AllFit;
    var e4 := EncodeMany(EncodeHandle, f.chunks) + rest;
    var e3 := Encode(|f.chunks|, 8) + e4;
    var e2 := Encode(f.factor, 4) + e3;
    var e1 := Encode(f.size, 8) + e2;
    assert EncodeFile(f) + rest == EncodeField(f.path) + e1;
    if ParseFile(input) == Some(Parsed(f, rest)) {
      var p := ParseStr(input).value;
      var size := ParseInt(p.rest, 8).value;
      var factor := ParseInt(size.rest, 4).value;
      var count := ParseInt(factor.rest, 8).value;
      ParseStrIff(input, p.value, p.rest);
      ParseIntIff(p.rest, 8, size.value, size.rest);
      ParseIntIff(size.rest, 4, factor.value, factor.rest);
      ParseIntIff(factor.rest, 8, count.value, count.rest);
      ParseManyIff(EncodeHandle, ParseHandle, HandleFits, count.rest, count.value, f.chunks, rest);
    }
    if input == EncodeFile(f) + rest && FileFits(f) {
      ParseStrIff(input, f.path, e1);
      ParseIntIff(e1, 8, f.size, e2);
      ParseIntIff(e2, 4, f.factor, e3);
      ParseIntIff(e3, 8, |f.chunks|, e4);
      ParseManyIff(EncodeHandle, ParseHandle, HandleFits, e4, |f.chunks|, f.chunks, rest);
    }
  }

  function EncodeChunk(c: PersistentChunk): str {
    Encode(c.handle, 8) + (Encode(c.version, 8) + Encode(c.size, 8))
  }

  function ParseChunk(input: str): Option<Parsed<PersistentChunk>> {
    WordSizes();
    match ParseInt(input, 8)
    case None => None
    case Some(h) =>
      match ParseInt(h.rest, 8)
      case None => None
      case Some(v) =>
        match ParseInt(v.rest, 8)
        case None => None
        case Some(s) =>
          if h.value == 0 || v.value == 0 then None
          else Some(Parsed(PersistentChunk(h.value, v.value, s.value), s.rest))
  }

  predicate ChunkFits(c: PersistentChunk) {
    c.handle != 0 && c.version != 0
  }

  lemma ChunkInverse()
    ensures Inverse(EncodeChunk, ParseChunk, ChunkFits)
  {
    forall input, c, rest
      ensures ParseChunk(input) == Some(Parsed(c, rest)) <==> input == EncodeChunk(c) + rest && ChunkFits(c)
    {
      ChunkIff(input, c, rest);
    }
  }

  lemma ChunkIff(input: str, c: PersistentChunk, rest: str)
    ensures ParseChunk(input) == Some(Parsed(c, rest)) <==> input == EncodeChunk(c) + rest && ChunkFits(c)
  {
    WordSizes();
    hide Encode, ParseInt;
    var e2 := Encode(c.size, 8) + rest;
    var e1 := Encode(c.version, 8) + e2;
    assert EncodeChunk(c) + rest == Encode(c.handle, 8) + e1;
    if ParseChunk(input) == Some(Parsed(c, rest)) {
      var h := ParseInt(input, 8).value;
      var v := ParseInt(h.rest, 8).value;
      ParseIntIff(input, 8, h.value, h.rest);
      ParseIntIff(h.rest, 8, v.value, v.rest);
      ParseIntIff(v.rest, 8, c.size, rest);
    }
    if input == EncodeChunk(c) + rest && ChunkFits(c) {
      ParseIntIff(input, 8, c.handle, e1);
      ParseIntIff(e1, 8, c.version, e2);
      ParseIntIff(e2, 8, c.size, rest);
    }
  }

  // ----- the body -----

  function EncodeCounted<T>(encode: Encoder<T>, items: seq<T>): str {
    Encode(|items|, 8) + EncodeMany(encode, items)
  }

  function ParseCounted<T>(parse: Parser<T>, input: str): Option<Parsed<seq<T>>> {
    match ParseInt(input, 8)
    case None => None
    case Some(n) => ParseMany(parse, n.rest, n.value)
  }

  lemma CountedIff<T(!new)>(encode: Encoder<T>, parse: Parser<T>, fits: T -> bool, input: str, items: seq<T>, rest: str)
    requires Inverse(encode, parse, fits)
    ensures ParseCounted(parse, input) == Some(Parsed(items, rest)) <==>
              input == EncodeCounted(encode, items) + rest && |items| < U64 && AllFit(fits, items)
  {
    WordSizes();
    hide Encode, ParseInt, EncodeMany, ParseMany, Inverse, AllFit;
    var e := EncodeMany(encode, items) + rest;
    assert EncodeCounted(encode, items) + rest == Encode(|items|, 8) + e;
    if ParseCounted(parse, input) == Some(Parsed(items, rest)) {
      var n := ParseInt(input, 8).value;
      ParseIntIff(input, 8, n.value, n.rest);
      ParseManyIff(encode, parse, fits, n.rest, n.value, items, rest);
    }
    if input == EncodeCounted(encode, items) + rest && |items| < U64 && AllFit(fits, items) {
      ParseIntIff(input, 8, |items|, e);
      ParseManyIff(encode, parse, fits, e, |items|, items, rest);
    }
  }

  function EncodeBody(s: State): str {
    Encode(s.sequence, 8) + (EncodeCounted(EncodeNode, s.nodes)
                             + (EncodeCounted(EncodeFile, s.files) + EncodeCounted(EncodeChunk, s.chunks)))
  }

  function ParseBody(input: str): Option<State> {
    WordSizes();
    match ParseInt(input, 8)
    case None => None
    case Some(sequence) =>
      match ParseCounted(ParseNode, sequence.rest)
      case None => None
      case Some(nodes) =>
        match ParseCounted(ParseFile, nodes.rest)
        case None => None
        case Some(files) =>
          match ParseCounted(ParseChunk, files.rest)
          case None => None
          case Some(chunks) =>
            if chunks.rest != [] then None
            else Some(State(sequence.value, nodes.value, files.value, chunks.value))
  }

  /** The lists and strings are short enough for 64-bit lengths, and no number is 0 that must not be. */
  predicate StateFits(s: State) {
    && |s.nodes| < U64 && AllFit(NodeFits, s.nodes)
    && |s.files| < U64 && AllFit(FileFits, s.files)
    && |s.chunks| < U64 && AllFit(ChunkFits, s.chunks)
  }

  lemma BodyIff(input: str, s: State)
    ensures ParseBody(input) == Some(s) <==> input == EncodeBody(s) && StateFits(s)
  {
    WordSizes();
    NodeInverse();
    FileInverse();
    ChunkInverse();
    hide Encode, ParseInt, EncodeCounted, ParseCounted, Inverse, AllFit;
    var e3 := EncodeCounted(EncodeChunk, s.chunks) + [];
    var e2 := EncodeCounted(EncodeFile, s.files) + e3;
    var e1 := EncodeCounted(EncodeNode, s.nodes) + e2;
    assert EncodeBody(s) == Encode(s.sequence, 8) + e1;
    if ParseBody(input) == Some(s) {
      var n := ParseInt(input, 8).value;
      var nodes := ParseCounted(ParseNode, n.rest).value;
      var files := ParseCounted(ParseFile, nodes.rest).value;
      ParseIntIff(input, 8, n.value, n.rest);
      CountedIff(EncodeNode, ParseNode, NodeFits, n.rest, nodes.value, nodes.rest);
      CountedIff(EncodeFile, ParseFile, FileFits, nodes.rest, files.value, files.rest);
      CountedIff(EncodeChunk, ParseChunk, ChunkFits, files.rest, s.chunks, []);
    }
    if input == EncodeBody(s) && StateFits(s) {
      ParseIntIff(input, 8, s.sequence, e1);
      CountedIff(EncodeNode, ParseNode, NodeFits, e1, s.nodes, e2);
      CountedIff(EncodeFile, ParseFile, FileFits, e2, s.files, e3);
      CountedIff(EncodeChunk, ParseChunk, ChunkFits, e3, s.chunks, []);
    }
  }

  // ----- the whole file -----

  function EncodeState(s: State): str {
    var body := EncodeBody(s);
    Encode(CHECKPOINT_MAGIC, 4) + (Encode(CHECKPOINT_VERSION, 4) + (Encode(|body|, 8) + (Encode(ChecksumOf(body), 4) + body)))
  }

  function ParseState(input: str): Option<State> {
    match ParseInt(input, 4)
    case None => None
    case Some(magic) =>
      match ParseInt(magic.rest, 4)
      case None => None
      case Some(version) =>
        match ParseInt(version.rest, 8)
        case None => None
        case Some(size) =>
          match ParseInt(size.rest, 4)
          case None => None
          case Some(checksum) =>
            var body := checksum.rest;
            if magic.value != CHECKPOINT_MAGIC || version.value != CHECKPOINT_VERSION || size.value != |body|
               || ChecksumOf(body) != checksum.value
            then None
            else ParseBody(body)
  }

  /** Exactly the encodings of states that fit parse, and each to the state it encodes. */
  lemma StateRoundTrip(input: str, s: State)
    ensures ParseState(input) == Some(s) <==> input == EncodeState(s) && StateFits(s) && |EncodeBody(s)| < U64
  {
    WordSizes();
    hide Encode, ParseInt, ChecksumOf, EncodeBody, ParseBody, StateFits;
    var body := EncodeBody(s);
    BodyIff(body, s);
    var e3 := Encode(ChecksumOf(body), 4) + body;
    var e2 := Encode(|body|, 8) + e3;
    var e1 := Encode(CHECKPOINT_VERSION, 4) + e2;
    if ParseState(input) == Some(s) {
      var magic := ParseInt(input, 4).value;
      var version := ParseInt(magic.rest, 4).value;
      var size := ParseInt(version.rest, 8).value;
      var checksum := ParseInt(size.rest, 4).value;
      ParseIntIff(input, 4, magic.value, magic.rest);
      ParseIntIff(magic.rest, 4, version.value, version.rest);
      ParseIntIff(version.rest, 8, size.value, size.rest);
      ParseIntIff(size.rest, 4, checksum.value, checksum.rest);
      BodyIff(checksum.rest, s);
    }
    if input == EncodeState(s) && StateFits(s) && |body| < U64 {
      ParseIntIff(input, 4, CHECKPOINT_MAGIC, e1);
      ParseIntIff(e1, 4, CHECKPOINT_VERSION, e2);
      ParseIntIff(e2, 8, |body|, e3);
      ParseIntIff(e3, 4, ChecksumOf(body), body);
    }
  }
}
