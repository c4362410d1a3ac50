/**
 The log file byte by byte: twelve bytes of header, then records, each an identifier of four letters, the
 length of the payload, the payload and a checksum; and the payload of every operation. What is written is
 exactly this, and a log that is read to its end is exactly this.
 */
module FileFormat {
  import opened Bytes
  import opened Documents
  import opened Notation
  import Octets
  import Crc32
  import Records
  import U29
  import Payloads
  import opened Operations
  import opened LogScan

  // ---------------------------------------------------------------------------
  // Records
  // ---------------------------------------------------------------------------

  predicate IsAscii(bs: seq<byte>, s: string) {
    |bs| == |s| && forall i :: 0 <= i < |s| ==> bs[i] == s[i] as int
  }

  /** Four bytes, the highest first. */
  function Backwards32(bs: seq<byte>): nat
    requires |bs| == 4
  {
    Word32([bs[3], bs[2], bs[1], bs[0]])
  }

  /** Four times eight bits, the highest first. */
  function Joined(a: bv8, b: bv8, c: bv8, d: bv8): bv32 {
    ((a as bv32) << 24) | ((b as bv32) << 16) | ((c as bv32) << 8) | (d as bv32)
  }

  /** The bit-serial CRC-32, its highest byte first. */
  predicate IsCrc(check: seq<byte>, covered: seq<byte>) {
    && |check| == 4
    && Crc32.BitSerialCrc(covered) == Joined(Octets.Octet(check[0]), Octets.Octet(check[1]), Octets.Octet(check[2]), Octets.Octet(check[3]))
  }

  predicate IsRecord(bs: seq<byte>, identifier: seq<byte>, payload: seq<byte>) {
    && |bs| == 4 + 4 + |payload| + 4 && bs[..4] == identifier && Backwards32(bs[4..8]) == |payload|
    && bs[8..8 + |payload|] == payload && IsCrc(bs[8 + |payload|..], bs[..8 + |payload|])
  }

  // ---------------------------------------------------------------------------
  // Operations
  // ---------------------------------------------------------------------------

  function Letters(op: Operation): string {
    match op
    case NewCollection(_, _) => "ncl1"
    case DropCollection(_) => "dco1"
    case CreateIndex(_, _, _, _) => "idx1"
    case DropIndex(_, _) => "dix1"
    case PutDocument(_, _, _) => "put1"
    case DeleteDocument(_, _) => "del1"
    case TransactionBegin => "txnb"
    case TransactionCommit => "txnc"
    case Hole => "hol0"
  }

  /** Fixed fields, the length of the body, the body, and fewer than four zeros up to a multiple of four. */
  ghost predicate IsFramed(payload: seq<byte>, fixed: seq<byte>, body: seq<byte>) {
    exists n :: IsFramedAt(payload, fixed, body, n)
  }

  predicate IsFramedAt(payload: seq<byte>, fixed: seq<byte>, body: seq<byte>, n: int) {
    && |fixed| <= n <= n + |body| <= |payload| < n + |body| + 4 && |payload| % 4 == 0
    && payload[..|fixed|] == fixed && IsU29(payload[|fixed|..n], |body|) && payload[n..n + |body|] == body
    && forall i :: n + |body| <= i < |payload| ==> payload[i] == 0
  }

  /** A half-byte in lower-case hexadecimal. */
  predicate IsDigit(d: byte, n: nat) {
    d == if n < 10 then 0x30 + n else 0x61 + (n - 10)
  }

  /** The twelve bytes that the identifier writes in 24 digits. */
  predicate IsIdentifier(bs: seq<byte>, id: Str) {
    |bs| == 12 && |id| == 24 && forall i :: 0 <= i < 12 ==> IsDigit(id[2 * i], bs[i] / 16) && IsDigit(id[2 * i + 1], bs[i] % 16)
  }

  ghost predicate IsPayload(enc: Encoder, payload: seq<byte>, op: Operation) {
    match op
    case NewCollection(cid, name) => |cid| == 4 && IsFramed(payload, cid, name)
    case DropCollection(cid) => |cid| == 4 && payload == cid
    case CreateIndex(cid, field, kind, unique) =>
      |cid| == 4 && IsFramed(payload, cid + [match kind case Strings => 0x01 case Numbers => 0x02, if unique then 0x01 else 0x00], field)
    case DropIndex(cid, field) => |cid| == 4 && IsFramed(payload, cid, field)
    case PutDocument(cid, id, document) =>
      |cid| == 4 && enc.encode(document).Ok? && exists bs :: IsIdentifier(bs, id) && IsFramed(payload, cid + bs, enc.encode(document).value)
    case DeleteDocument(cid, id) => |cid| == 4 && exists bs :: IsIdentifier(bs, id) && payload == cid + bs
    case TransactionBegin => payload == []
    case TransactionCommit => payload == []
    case Hole => payload == []
  }

  /** The bytes of an operation in the log. */
  ghost predicate IsWritten(enc: Encoder, bs: seq<byte>, op: Operation) {
    exists identifier, payload :: IsAscii(identifier, Letters(op)) && IsPayload(enc, payload, op) && IsRecord(bs, identifier, payload)
  }

  /** Records one behind the other, from an offset to the end of the file. */
  ghost predicate AreRecords(file: seq<byte>, offset: nat, ls: seq<Located>)
    decreases |ls|
  {
    if |ls| == 0 then offset == |file|
    else
      var next := offset + 12 + |ls[0].record.payload|;
      && ls[0].offset == offset && next <= |file| && IsRecord(file[offset..next], ls[0].record.identifier, ls[0].record.payload)
      && AreRecords(file, next, ls[1..])
  }

  // ---------------------------------------------------------------------------
  // The checksum
  // ---------------------------------------------------------------------------

  function Part(w: bv32, i: nat): bv8 {
    if i == 0 then (w >> 24) as bv8 else if i == 1 then ((w >> 16) & 0xff) as bv8 else if i == 2 then ((w >> 8) & 0xff) as bv8 else (w & 0xff) as bv8
  }

  lemma PartsOf(w: bv32, a: bv8, b: bv8, c: bv8, d: bv8)
    ensures w == Joined(a, b, c, d) <==> a == Part(w, 0) && b == Part(w, 1) && c == Part(w, 2) && d == Part(w, 3)
  {
  }

  lemma WordParts(w: bv32)
    ensures Crc32.WordBytes(w) == [Octets.Value(Part(w, 0)), Octets.Value(Part(w, 1)), Octets.Value(Part(w, 2)), Octets.Value(Part(w, 3))]
  {
  }

  lemma ValueExact(b: byte, v: bv8)
    ensures Octets.Octet(b) == v <==> b == Octets.Value(v)
  {
    hide Octets.Octet, Octets.Value;
    Octets.OctetRoundTrip(b);
    Octets.ValueRoundTrip(v);
  }

  lemma PackedExact(check: seq<byte>, w: bv32)
    requires |check| == 4
    ensures w == Joined(Octets.Octet(check[0]), Octets.Octet(check[1]), Octets.Octet(check[2]), Octets.Octet(check[3]))
            <==> check == Crc32.WordBytes(w)
  {
    hide Octets.Octet, Octets.Value, Joined, Part, Crc32.WordBytes;
    PartsOf(w, Octets.Octet(check[0]), Octets.Octet(check[1]), Octets.Octet(check[2]), Octets.Octet(check[3]));
    WordParts(w);
    ValueExact(check[0], Part(w, 0));
    ValueExact(check[1], Part(w, 1));
    ValueExact(check[2], Part(w, 2));
    ValueExact(check[3], Part(w, 3));
    assert check == [check[0], check[1], check[2], check[3]];
  }

  lemma CrcExact(check: seq<byte>, covered: seq<byte>)
    ensures IsCrc(check, covered) <==> check == Crc32.Checksum(covered)
  {
    hide Crc32.BitSerialCrc, Crc32.Crc, Crc32.WordBytes, Octets.Octet, Joined;
    Crc32.TableLoopIsBitSerial(covered);
    if |check| == 4 {
      PackedExact(check, Crc32.BitSerialCrc(covered));
    }
  }

  // ---------------------------------------------------------------------------
  // Records as they are written
  // ---------------------------------------------------------------------------

  lemma LastPlace(h: int, d: int)
    requires 0 <= d < 0x100
    ensures (0x100 * h + d) / 0x100 == h && (0x100 * h + d) % 0x100 == d
  {
  }

  lemma HigherPlaces(n: int)
    ensures n / 0x1_0000 == n / 0x100 / 0x100 && n / 0x100_0000 == n / 0x100 / 0x100 / 0x100
  {
  }

  lemma PlacesOf(a: int, b: int, c: int, d: int)
    requires 0 <= a < 0x100 && 0 <= b < 0x100 && 0 <= c < 0x100 && 0 <= d < 0x100
    ensures var n := d + 0x100 * c + 0x1_0000 * b + 0x100_0000 * a;
            n / 0x100_0000 == a && n / 0x1_0000 % 0x100 == b && n / 0x100 % 0x100 == c && n % 0x100 == d
  {
    var g := 0x100 * a + b;
    var h := 0x100 * g + c;
    var n := d + 0x100 * c + 0x1_0000 * b + 0x100_0000 * a;
    assert n == 0x100 * h + d;
    HigherPlaces(n);
    LastPlace(h, d);
    LastPlace(g, c);
    LastPlace(a, b);
  }

  lemma LengthExact(bs: seq<byte>, n: nat)
    requires n < TWO_TO_32 && |bs| == 4
    ensures Backwards32(bs) == n <==> bs == U32BE(n)
  {
    U32RoundTrip(n);
    PlacesOf(bs[0], bs[1], bs[2], bs[3]);
    assert bs == [bs[0], bs[1], bs[2], bs[3]];
  }

  /** A record is written as these bytes, and as no others. */
  lemma RecordExact(r: Records.ValidRecord, bs: seq<byte>)
    ensures IsRecord(bs, r.identifier, r.payload) <==> bs == r.Encoded()
  {
    hide Crc32.Checksum, U32BE, IsCrc, Backwards32;
    var n := 8 + |r.payload|;
    if |bs| == n + 4 {
      LengthExact(bs[4..8], |r.payload|);
      CrcExact(bs[n..], bs[..n]);
      assert bs[..n] == bs[..4] + bs[4..8] + bs[8..n] && bs == bs[..n] + bs[n..];
    }
    if bs == r.Encoded() {
      assert bs[..n] == r.Covered();
    }
  }

  // ---------------------------------------------------------------------------
  // Operations as they are written
  // ---------------------------------------------------------------------------

  lemma LettersExact(bs: seq<byte>, op: Operation)
    ensures IsAscii(bs, Letters(op)) <==> bs == Identifier(op)
  {
  }

  lemma FramedExact(payload: seq<byte>, fixed: seq<byte>, body: seq<byte>)
    ensures IsFramed(payload, fixed, body) <==> |body| <= U29.U29_MAX_VALUE && payload == Payloads.Framed(fixed, body)
  {
    hide U29.U29, IsU29;
    U29.LayoutExact(if |body| <= U29.U29_MAX_VALUE then U29.U29(|body|) else [], |body|);
    if IsFramed(payload, fixed, body) {
      var n :| IsFramedAt(payload, fixed, body, n);
      U29.LayoutExact(payload[|fixed|..n], |body|);
      PiecesOf(payload, |fixed|, n, n + |body|);
      PaddingExact(payload, n + |body|);
    }
    if |body| <= U29.U29_MAX_VALUE && payload == Payloads.Framed(fixed, body) {
      var n := |fixed| + |U29.U29(|body|)|;
      PiecesOf(payload, |fixed|, n, n + |body|);
      FramedPieces(payload, fixed, U29.U29(|body|), body);
      assert IsFramedAt(payload, fixed, body, n);
    }
  }

  lemma PiecesOf(payload: seq<byte>, m: nat, n: nat, end: nat)
    requires m <= n <= end <= |payload|
    ensures payload[..end] == payload[..m] + payload[m..n] + payload[n..end]
  {
  }

  lemma PaddingExact(payload: seq<byte>, end: nat)
    requires end <= |payload| < end + 4 && |payload| % 4 == 0 && forall i :: end <= i < |payload| ==> payload[i] == 0
    ensures payload == PadTo4(payload[..end])
  {
    assert AlignTo4Bytes(end) == |payload|;
    assert payload[end..] == Zeros(|payload| - end);
    assert payload == payload[..end] + payload[end..];
  }

  lemma FramedPieces(payload: seq<byte>, fixed: seq<byte>, header: seq<byte>, body: seq<byte>)
    requires payload == PadTo4(fixed + header + body)
    ensures var n := |fixed| + |header|;
            && n + |body| <= |payload| < n + |body| + 4 && |payload| % 4 == 0
            && payload[..|fixed|] == fixed && payload[|fixed|..n] == header && payload[n..n + |body|] == body
            && forall i :: n + |body| <= i < |payload| ==> payload[i] == 0
  {
    var all := fixed + header + body;
    var n := |fixed| + |header|;
    assert payload[..|all|] == all;
    assert payload[..|fixed|] == all[..|fixed|] && payload[|fixed|..n] == all[|fixed|..n] && payload[n..|all|] == all[n..];
    assert forall i :: |all| <= i < |payload| ==> payload[i] == payload[|all|..][i - |all|];
  }

  lemma DigitExact(d: byte, n: nat)
    requires n < 16
    ensures IsDigit(d, n) <==> d == HexDigit(n)
    ensures IsDigit(d, n) ==> IsHexDigit(d)
  {
  }

  lemma {:induction false} HexAt(bs: seq<byte>, i: nat)
    requires i < |bs|
    ensures Hex(bs)[2 * i] == HexDigit(bs[i] / 16) && Hex(bs)[2 * i + 1] == HexDigit(bs[i] % 16)
    decreases |bs|
  {
    if i > 0 {
      HexAt(bs[1..], i - 1);
    }
  }

  /** Each identifier is written by exactly one sequence of twelve bytes, if it is one. */
  lemma IdentifierExact(bs: seq<byte>, id: Str)
    ensures IsIdentifier(bs, id) <==> IsObjectIdHex(id) && bs == Unhex(id)
  {
    hide Hex, Unhex, HexDigit;
    if IsObjectIdHex(id) {
      IdentifierHex(bs, id);
      HexInjective(bs, Unhex(id));
    }
    if IsIdentifier(bs, id) {
      IdentifierHex(bs, id);
      forall i | 0 <= i < 24
        ensures IsHexDigit(id[i])
      {
        DigitExact(id[i], if i % 2 == 0 then bs[i / 2] / 16 else bs[i / 2] % 16);
      }
      HexInjective(bs, Unhex(id));
    }
  }

  lemma IdentifierHex(bs: seq<byte>, id: Str)
    requires |id| == 24
    ensures IsIdentifier(bs, id) <==> |bs| == 12 && Hex(bs) == id
  {
    hide Hex, HexDigit, IsDigit;
    if |bs| == 12 {
      forall i | 0 <= i < 12
        ensures Hex(bs)[2 * i] == id[2 * i] <==> IsDigit(id[2 * i], bs[i] / 16)
        ensures Hex(bs)[2 * i + 1] == id[2 * i + 1] <==> IsDigit(id[2 * i + 1], bs[i] % 16)
      {
        HexAt(bs, i);
        DigitExact(id[2 * i], bs[i] / 16);
        DigitExact(id[2 * i + 1], bs[i] % 16);
      }
      if IsIdentifier(bs, id) {
        forall i | 0 <= i < 24
          ensures Hex(bs)[i] == id[i]
        {
          var n := i / 2;
          assert Hex(bs)[2 * n] == id[2 * n] && Hex(bs)[2 * n + 1] == id[2 * n + 1];
        }
      }
    }
  }

  lemma HexInjective(a: seq<byte>, b: seq<byte>)
    ensures Hex(a) == Hex(b) ==> a == b
  {
    hide Hex;
    if Hex(a) == Hex(b) {
      forall i | 0 <= i < |a|
        ensures a[i] == b[i]
      {
        HexAt(a, i);
        HexAt(b, i);
        DigitsDiffer(a[i] / 16, b[i] / 16);
        DigitsDiffer(a[i] % 16, b[i] % 16);
      }
    }
  }

  lemma DigitsDiffer(m: nat, n: nat)
    requires m < 16 && n < 16
    ensures HexDigit(m) == HexDigit(n) ==> m == n
  {
  }

  lemma PayloadExact(enc: Encoder, payload: seq<byte>, op: Operation)
    ensures IsPayload(enc, payload, op) <==> EncodePayload(enc, op) == Ok(payload)
  {
    hide IsFramed, Payloads.Framed, IsIdentifier, IsHexDigit, Unhex;
    match op
    case NewCollection(cid, name) => FramedExact(payload, cid, name);
    case DropCollection(cid) =>
    case CreateIndex(cid, field, kind, unique) =>
      FramedExact(payload, cid + [match kind case Strings => 0x01 case Numbers => 0x02, if unique then 0x01 else 0x00], field);
    case DropIndex(cid, field) => FramedExact(payload, cid, field);
    case PutDocument(cid, id, document) => PutExact(enc, payload, cid, id, document);
    case DeleteDocument(cid, id) =>
      forall bs
        ensures IsIdentifier(bs, id) <==> IsObjectIdHex(id) && bs == Unhex(id)
      {
        IdentifierExact(bs, id);
      }
    case _ =>
  }

  lemma PutExact(enc: Encoder, payload: seq<byte>, cid: CollectionId, id: Str, document: Doc)
    ensures IsPayload(enc, payload, PutDocument(cid, id, document)) <==> EncodePayload(enc, PutDocument(cid, id, document)) == Ok(payload)
  {
    hide IsFramed, Payloads.Framed, IsIdentifier, IsHexDigit, Unhex;
    forall bs
      ensures IsIdentifier(bs, id) <==> IsObjectIdHex(id) && bs == Unhex(id)
    {
      IdentifierExact(bs, id);
    }
    if enc.encode(document).Ok? && IsObjectIdHex(id) {
      FramedExact(payload, cid + Unhex(id), enc.encode(document).value);
    }
  }

  /** An operation is written as these bytes, and as no others; it is refused when there are none. */
  lemma OperationExact(enc: Encoder, op: Operation, bs: seq<byte>)
    ensures IsWritten(enc, bs, op) <==> Encode(enc, op).Ok? && Encode(enc, op).value.Valid() && bs == Encode(enc, op).value.Encoded()
  {
    hide IsAscii, IsPayload, IsRecord, EncodePayload, Letters, Identifier, Records.Record.Encoded;
    if Encode(enc, op).Ok? && Encode(enc, op).value.Valid() {
      var r := Encode(enc, op).value;
      LettersExact(r.identifier, op);
      PayloadExact(enc, r.payload, op);
      RecordExact(r, bs);
    }
    if IsWritten(enc, bs, op) {
      var identifier, payload :| IsAscii(identifier, Letters(op)) && IsPayload(enc, payload, op) && IsRecord(bs, identifier, payload);
      LettersExact(identifier, op);
      PayloadExact(enc, payload, op);
      IdentifiersDiffer(op);
      PayloadLength(bs, identifier, payload);
      RecordExact(Records.Record(identifier, payload), bs);
    }
  }

  lemma PayloadLength(bs: seq<byte>, identifier: seq<byte>, payload: seq<byte>)
    requires IsRecord(bs, identifier, payload)
    ensures |payload| < TWO_TO_32
  {
  }

  // ---------------------------------------------------------------------------
  // Operations as they are read
  // ---------------------------------------------------------------------------

  /** A length, short or not, the body, and nothing but zeros behind it. */
  ghost predicate HoldsBody(payload: seq<byte>, start: nat, body: seq<byte>) {
    exists n :: HoldsBodyAt(payload, start, body, n)
  }

  predicate HoldsBodyAt(payload: seq<byte>, start: nat, body: seq<byte>, n: int) {
    && start <= n <= n + |body| <= |payload| && DenotesU29(payload[start..n], |body|) && payload[n..n + |body|] == body
    && forall i :: n + |body| <= i < |payload| ==> payload[i] == 0
  }

  ghost predicate HoldsLength(payload: seq<byte>, start: nat) {
    exists n, length: nat :: start <= n <= |payload| && DenotesU29(payload[start..n], length)
  }

  /** What a payload is read as; a name is bytes, a document what the encoder makes of them. */
  ghost predicate IsReadAs(enc: Encoder, payload: seq<byte>, op: Operation) {
    match op
    case NewCollection(cid, name) => |payload| >= 4 && payload[..4] == cid && HoldsBody(payload, 4, name)
    case DropCollection(cid) => |payload| == 4 && payload == cid
    case CreateIndex(cid, field, kind, unique) =>
      && |payload| >= 6 && payload[..4] == cid && payload[4] == (match kind case Strings => 0x01 case Numbers => 0x02)
      && if payload[5] in [0x00, 0x01] && exists name :: HoldsBody(payload, 6, name)
         then HoldsBody(payload, 6, field) && unique == (payload[5] == 0x01)
         else (payload[5] in [0x00, 0x01] ==> HoldsLength(payload, 6)) && HoldsBody(payload, 5, field) && !unique
    case DropIndex(cid, field) => |payload| >= 4 && payload[..4] == cid && HoldsBody(payload, 4, field)
    case PutDocument(cid, id, document) =>
      && |payload| >= 16 && payload[..4] == cid && IsIdentifier(payload[4..16], id)
      && exists bytes :: HoldsBody(payload, 16, bytes) && enc.decode(bytes) == Ok(document)
    case DeleteDocument(cid, id) => |payload| == 16 && payload[..4] == cid && IsIdentifier(payload[4..16], id)
    case TransactionBegin => true
    case TransactionCommit => true
    case Hole => true
  }

  lemma LengthIsRead(payload: seq<byte>, start: nat)
    ensures HoldsLength(payload, start) <==> U29.DecodeU29(payload, start).Ok?
  {
    hide DenotesU29, U29.DecodeU29;
    if HoldsLength(payload, start) {
      var n, length: nat :| start <= n <= |payload| && DenotesU29(payload[start..n], length);
      U29.ReadExactly(payload, start, length, n - start);
    }
    if U29.DecodeU29(payload, start).Ok? {
      var u := U29.DecodeU29(payload, start).value;
      U29.ReadExactly(payload, start, u.value, u.bytesRead);
      assert DenotesU29(payload[start..start + u.bytesRead], u.value);
    }
  }

  lemma BodyIsRead(payload: seq<byte>, start: nat, body: seq<byte>)
    ensures HoldsBody(payload, start, body) <==> Payloads.ReadFramed(payload, start) == Ok(body)
  {
    hide DenotesU29, U29.DecodeU29;
    if HoldsBody(payload, start, body) {
      var n :| HoldsBodyAt(payload, start, body, n);
      U29.ReadExactly(payload, start, |body|, n - start);
      assert AllZero(payload[n + |body|..]);
    }
    if Payloads.ReadFramed(payload, start) == Ok(body) {
      var u := U29.DecodeU29(payload, start).value;
      var n := start + u.bytesRead;
      U29.ReadExactly(payload, start, u.value, u.bytesRead);
      var rest := payload[n + |body|..];
      assert forall i :: n + |body| <= i < |payload| ==> payload[i] == rest[i - (n + |body|)];
      assert HoldsBodyAt(payload, start, body, n);
    }
  }

  lemma SomeBodyIsRead(payload: seq<byte>, start: nat)
    ensures (exists body :: HoldsBody(payload, start, body)) <==> Payloads.ReadFramed(payload, start).Ok?
  {
    hide HoldsBody, Payloads.ReadFramed;
    var r := Payloads.ReadFramed(payload, start);
    if r.Ok? {
      BodyIsRead(payload, start, r.value);
    }
    if body :| HoldsBody(payload, start, body) {
      BodyIsRead(payload, start, body);
    }
  }

  lemma HexIsRead(bs: seq<byte>, id: Str)
    requires |bs| == 12
    ensures IsIdentifier(bs, id) <==> id == Hex(bs)
  {
    hide Hex, IsIdentifier;
    if IsIdentifier(bs, id) {
      IdentifierLength(bs, id);
    }
    if |id| == 24 {
      IdentifierHex(bs, id);
    }
  }

  lemma IdentifierLength(bs: seq<byte>, id: Str)
    requires IsIdentifier(bs, id)
    ensures |id| == 24
  {
  }

  lemma NamedIsRead(payload: seq<byte>, cid: CollectionId, name: Str)
    ensures |payload| >= 4 && payload[..4] == cid && HoldsBody(payload, 4, name) <==> DecodeNamed(payload) == Ok((cid, name))
  {
    hide HoldsBody, Payloads.ReadFramed;
    BodyIsRead(payload, 4, name);
  }

  lemma IndexIsRead(enc: Encoder, payload: seq<byte>, cid: CollectionId, field: Str, kind: Payloads.IndexKind, unique: bool)
    ensures IsReadAs(enc, payload, CreateIndex(cid, field, kind, unique))
            <==> Payloads.DecodeCreateIndex(payload) == Ok(Payloads.IndexPayload(cid, field, kind, unique))
  {
    hide HoldsBody, Payloads.ReadFramed, HoldsLength, U29.DecodeU29;
    SomeBodyIsRead(payload, 6);
    BodyIsRead(payload, 6, field);
    BodyIsRead(payload, 5, field);
    LengthIsRead(payload, 6);
    FramedHasLength(payload, 6);
    FramedHasLength(payload, 5);
  }

  lemma FramedHasLength(payload: seq<byte>, start: nat)
    ensures Payloads.ReadFramed(payload, start).Ok? ==> U29.DecodeU29(payload, start).Ok?
  {
  }

  lemma PutIsRead(enc: Encoder, payload: seq<byte>, cid: CollectionId, id: Str, document: Doc)
    ensures IsReadAs(enc, payload, PutDocument(cid, id, document))
            <==> var p := Payloads.DecodePut(payload);
                 p.Ok? && p.value.collectionId == cid && Hex(p.value.documentId) == id && enc.decode(p.value.document) == Ok(document)
  {
    hide HoldsBody, Payloads.ReadFramed, IsIdentifier, Hex;
    if |payload| >= 16 {
      HexIsRead(payload[4..16], id);
      forall bytes
        ensures HoldsBody(payload, 16, bytes) <==> Payloads.ReadFramed(payload, 16) == Ok(bytes)
      {
        BodyIsRead(payload, 16, bytes);
      }
    }
  }

  /** A payload is read as an operation exactly when it is one of the payloads of this operation, and every other payload is refused. */
  lemma PayloadIsRead(enc: Encoder, payload: seq<byte>, op: Operation)
    ensures IsReadAs(enc, payload, op) <==> Decode(enc, Records.Record(Identifier(op), payload)) == Ok(op)
  {
    hide HoldsBody, Payloads.ReadFramed, DecodeNamed, Payloads.DecodePut, Payloads.DecodeCreateIndex, IsIdentifier, Hex, Identifier;
    IdentifiersDiffer(op);
    match op
    case NewCollection(cid, name) => NamedIsRead(payload, cid, name);
    case DropCollection(cid) =>
    case CreateIndex(cid, field, kind, unique) =>
      hide IsReadAs;
      IndexIsRead(enc, payload, cid, field, kind, unique);
    case DropIndex(cid, field) => NamedIsRead(payload, cid, field);
    case PutDocument(cid, id, document) =>
      hide IsReadAs;
      PutIsRead(enc, payload, cid, id, document);
    case DeleteDocument(cid, id) =>
      if |payload| == 16 {
        HexIsRead(payload[4..16], id);
        assert payload[4..] == payload[4..16];
      }
    case _ =>
  }

  lemma DecodedIdentifier(enc: Encoder, r: Records.Record)
    requires Decode(enc, r).Ok?
    ensures r.identifier == Identifier(Decode(enc, r).value)
  {
    hide DecodeNamed, Payloads.DecodePut, Payloads.DecodeCreateIndex, Hex;
  }

  /** What a record is read as, whatever its bytes: its letters and its payload decide, and everything else is refused. */
  lemma DecodeExact(enc: Encoder, r: Records.Record, op: Operation)
    ensures Decode(enc, r) == Ok(op) <==> IsAscii(r.identifier, Letters(op)) && IsReadAs(enc, r.payload, op)
  {
    hide Decode, IsAscii, IsReadAs, Letters, Identifier;
    LettersExact(r.identifier, op);
    PayloadIsRead(enc, r.payload, op);
    if Decode(enc, r) == Ok(op) {
      DecodedIdentifier(enc, r);
    }
    assert r.identifier == Identifier(op) ==> r == Records.Record(Identifier(op), r.payload);
  }

  // ---------------------------------------------------------------------------
  // A log that is read to its end
  // ---------------------------------------------------------------------------

  lemma LengthRead(bs: seq<byte>, offset: nat)
    requires offset + 4 <= |bs|
    ensures U32BE(ReadU32BE(bs, offset)) == bs[offset..offset + 4]
  {
    PlacesOf(bs[offset], bs[offset + 1], bs[offset + 2], bs[offset + 3]);
  }

  /** What is read as a record are the bytes of this record. */
  lemma ReadExact(bs: seq<byte>, offset: nat, r: Records.ValidRecord)
    ensures Records.ReadRecord(bs, offset) == Ok(r) <==> offset + r.Length() <= |bs| && bs[offset..offset + r.Length()] == r.Encoded()
  {
    hide Crc32.Checksum, U32BE, ReadU32BE;
    if Records.ReadRecord(bs, offset) == Ok(r) {
      var end := offset + r.Length() - 4;
      var length := ReadU32BE(bs, offset + 4);
      var covered := bs[offset..offset + 8 + length];
      Records.ReadU32Window(bs, offset, covered);
      LengthRead(covered, 4);
      assert r.payload == covered[8..8 + length] && r.identifier == covered[..4];
      assert covered == covered[..4] + covered[4..8] + covered[8..8 + length] == r.Covered();
      assert bs[offset..end + 4] == covered + bs[end..end + 4];
    } else if offset + r.Length() <= |bs| && bs[offset..offset + r.Length()] == r.Encoded() {
      Records.ReadBack(bs, offset, r);
    }
  }

  lemma StepExact(file: seq<byte>, offset: nat, r: Records.ValidRecord)
    requires offset <= |file|
    ensures StepAt(file, offset) == Next(r)
            <==> offset + 12 + |r.payload| <= |file| && IsRecord(file[offset..offset + 12 + |r.payload|], r.identifier, r.payload)
  {
    hide Records.ReadRecord, Records.Record.Encoded, IsRecord;
    ReadExact(file, offset, r);
    if offset + 12 + |r.payload| <= |file| {
      RecordExact(r, file[offset..offset + 12 + |r.payload|]);
      if file[offset..offset + r.Length()] == r.Encoded() {
        StepAtRecord(file, offset, r);
      }
    }
  }

  lemma {:induction false} RecordsExact(file: seq<byte>, offset: nat, ls: seq<Located>)
    requires offset <= |file|
    ensures AreRecords(file, offset, ls) <==> ScanFrom(file, offset) == Scan(ls, |file|, Clean)
    decreases |file| - offset
  {
    hide StepAt, IsRecord, AreRecords, ScanFrom;
    AtEnd(file, offset);
    var step := StepAt(file, offset);
    if |ls| > 0 {
      StepExact(file, offset, ls[0].record);
      FirstRecord(file, offset, ls);
      if step == Next(ls[0].record) {
        RecordsExact(file, offset + step.record.Length(), ls[1..]);
        NextScanned(file, offset, ls);
      }
    } else {
      NoRecords(file, offset);
    }
    OtherScanned(file, offset, ls);
  }

  lemma FirstRecord(file: seq<byte>, offset: nat, ls: seq<Located>)
    requires |ls| > 0
    ensures var next := offset + 12 + |ls[0].record.payload|;
            AreRecords(file, offset, ls) <==>
              && ls[0].offset == offset && next <= |file| && IsRecord(file[offset..next], ls[0].record.identifier, ls[0].record.payload)
              && AreRecords(file, next, ls[1..])
  {
    hide IsRecord;
  }

  lemma NoRecords(file: seq<byte>, offset: nat)
    ensures AreRecords(file, offset, []) <==> offset == |file|
  {
  }

  lemma NextScanned(file: seq<byte>, offset: nat, ls: seq<Located>)
    requires offset <= |file| && |ls| > 0 && StepAt(file, offset) == Next(ls[0].record)
    ensures ScanFrom(file, offset) == Scan(ls, |file|, Clean) <==>
              ls[0].offset == offset && ScanFrom(file, offset + ls[0].record.Length()) == Scan(ls[1..], |file|, Clean)
  {
    hide StepAt;
    assert ls == [ls[0]] + ls[1..];
  }

  /** Only the end leaves nothing, and only a record leaves something. */
  lemma OtherScanned(file: seq<byte>, offset: nat, ls: seq<Located>)
    requires offset <= |file|
    ensures |ls| == 0 ==> (ScanFrom(file, offset) == Scan(ls, |file|, Clean) <==> StepAt(file, offset).End?)
    ensures |ls| > 0 && StepAt(file, offset) != Next(ls[0].record) ==> ScanFrom(file, offset) != Scan(ls, |file|, Clean)
  {
    hide StepAt;
    AtEnd(file, offset);
  }

  lemma AtEnd(file: seq<byte>, offset: nat)
    requires offset <= |file|
    ensures StepAt(file, offset).End? <==> offset == |file|
  {
  }

  ghost predicate RecordAt(file: seq<byte>, offset: nat, r: Records.ValidRecord) {
    offset + 12 + |r.payload| <= |file| && IsRecord(file[offset..offset + 12 + |r.payload|], r.identifier, r.payload)
  }

  /** Where no record stands, the log is torn if the file ends before or with what the length field announces; otherwise it is corrupt. */
  lemma StopExact(file: seq<byte>, offset: nat)
    requires offset < |file| && forall r: Records.ValidRecord :: !RecordAt(file, offset, r)
    ensures var announced := offset + 8 <= |file| && offset + 12 + Backwards32(file[offset + 4..offset + 8]) < |file|;
            StepAt(file, offset) == if announced then Corrupt else Torn
  {
    hide IsRecord, Records.ReadRecord;
    forall r: Records.ValidRecord
      ensures StepAt(file, offset) != Next(r)
    {
      assert !RecordAt(file, offset, r);
      StepExact(file, offset, r);
    }
  }

  /** A log is read to its end without a complaint exactly when it is records behind twelve bytes of header, and these are what is read. */
  lemma LogExact(file: seq<byte>, ls: seq<Located>)
    requires |file| >= 12
    ensures AreRecords(file, 12, ls) <==> ScanLog(file) == Scan(ls, |file|, Clean)
  {
    hide AreRecords, ScanFrom;
    RecordsExact(file, 12, ls);
  }
}
