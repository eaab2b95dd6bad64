/*
 * The schema-driven tuple decoder of rmadmin/serValue.cpp, as functions:
 * the schema and value trees, the word and byte reads, roundUpWords, the
 * nullmask lookup bitSet, and what unserialize computes for a schema, a
 * word buffer and a cursor: the decoded value and the new cursor. The
 * step-by-step decoder that advances the cursor is in SerUnserialize and is
 * proved equal to Decode here.
 */
module SerValue {

  const WORD_MOD: int := 0x1_0000_0000
  type Word = x: int | 0 <= x < WORD_MOD
  type Byte = x: int | 0 <= x < 256

  /** The type tags a schema node and a decoded value carry. AnyType and
      EmptyType are the tags of Null and Error; no decoder exists for them. */
  datatype ValueType =
    | FloatType | StringType | BoolType
    | U8Type | U16Type | U32Type | U64Type | U128Type
    | I8Type | I16Type | I32Type | I64Type | I128Type
    | EthType | Ipv4Type | Ipv6Type
    | IpType | Cidrv4Type | Cidrv6Type | CidrType
    | TupleType | VecType | ListType | RecordType
    | AnyType | EmptyType

  /** The structure behind a schema node: what the decoder finds when it
      casts the node to a tuple, vector or record type. */
  datatype Shape =
    | Plain
    | TupleOf(fields: seq<RamenType>)
    | VecOf(dim: nat, sub: RamenType)
    | RecordOf(recFields: seq<(string, RamenType)>, serOrder: seq<nat>)

  /** A schema node (conf::RamenType). The nullmask width it reports is
      given for the top-level value and for a nested one. */
  datatype RamenType = RamenType(tag: ValueType, nullable: bool, shape: Shape, maskTop: nat, maskNested: nat)

  /** A decoded value. Integers, Ethernet and IP addresses are Num with
      their tag and the number read; a float stays the two words that hold
      it; a string is its bytes. */
  datatype Value =
    | Null
    | Error(msg: string)
    | Float(bits: seq<Word>)
    | Bool(b: bool)
    | Str(bytes: seq<Byte>)
    | Num(tag: ValueType, n: int)
    | Tuple(fieldValues: seq<Value>)
    | Vec(values: seq<Value>)
    | Record(namedValues: seq<(string, Value)>)

  /** order lists every index below n exactly once. */
  predicate IsPermutation(order: seq<nat>, n: nat) {
    && |order| == n
    && (forall i :: 0 <= i < n ==> order[i] < n)
    && (forall k :: 0 <= k < n ==> k in order)
    && (forall i, j :: 0 <= i < j < n ==> order[i] != order[j])
  }

  /** What the decoder relies on from the schema: a record's serOrder is a
      permutation of its field indices, at every level. */
  predicate WellFormed(t: RamenType)
    decreases t
  {
    match t.shape
    case Plain => true
    case TupleOf(fs) => forall i | 0 <= i < |fs| :: WellFormed(fs[i])
    case VecOf(_, sub) => WellFormed(sub)
    case RecordOf(fs, order) =>
      && IsPermutation(order, |fs|)
      && forall i | 0 <= i < |fs| :: WellFormed(fs[i].1)
  }

  // --- reading the buffer -------------------------------------------------

  /** Word k of the buffer. The source reads raw memory; the model reads a
      word outside the buffer as 0. */
  function WordAt(buf: seq<Word>, k: int): Word {
    if 0 <= k < |buf| then buf[k] else 0
  }

  function Pow2(e: nat): (r: nat)
    ensures r >= 1
  {
    if e == 0 then 1 else 2 * Pow2(e - 1)
  }

  /** Byte k of the buffer, on a little-endian machine: byte k % 4 of word
      k / 4, counting from the least significant. */
  function ByteAt(buf: seq<Word>, k: int): Byte {
    if k < 0 then 0 else (WordAt(buf, k / 4) / Pow2(8 * (k % 4))) % 256
  }

  /** The unsigned number held in the words ws, least significant first. */
  function LittleEndian(ws: seq<Word>): nat {
    if ws == [] then 0 else ws[0] + WORD_MOD * LittleEndian(ws[1..])
  }

  /** The two's-complement reading of an unsigned number u of the given
      number of bits. */
  function Signed(u: int, bits: nat): int
    requires bits > 0
  {
    if u >= Pow2(bits - 1) then u - Pow2(bits) else u
  }

  /** roundUpWords: the number of 4-byte words that hold sz bytes. */
  function RoundUpWords(sz: nat): nat {
    (sz + 3) / 4
  }

  /** roundUpWords gives the least number of words holding sz bytes. */
  lemma RoundUpWordsLeast(sz: nat, k: nat)
    ensures 4 * RoundUpWords(sz) >= sz
    ensures 4 * k >= sz ==> k >= RoundUpWords(sz)
  {
  }

  /** bitSet: bit nullI of the nullmask whose first byte is byte off of the
      buffer, walking one byte forward per 8 bits as the source does. */
  function BitSet(buf: seq<Word>, off: int, nullI: nat): bool
    decreases nullI
  {
    if nullI >= 8 then BitSet(buf, off + 1, nullI - 8)
    else (ByteAt(buf, off) / Pow2(nullI)) % 2 == 1
  }

  /** bitSet tests bit nullI % 8 of byte nullI / 8 of the mask. */
  lemma {:induction false} BitSetDirect(buf: seq<Word>, off: int, nullI: nat)
    ensures BitSet(buf, off, nullI) == ((ByteAt(buf, off + nullI / 8) / Pow2(nullI % 8)) % 2 == 1)
    decreases nullI
  {
    if nullI >= 8 {
      BitSetDirect(buf, off + 1, nullI - 8);
      assert off + 1 + (nullI - 8) / 8 == off + nullI / 8;
      assert (nullI - 8) % 8 == nullI % 8;
    }
  }

  // --- scalars ----------------------------------------------------------

  /** The tags decoded from a fixed number of words. */
  predicate IsFixed(tag: ValueType) {
    tag in {FloatType, BoolType, U8Type, U16Type, U32Type, U64Type, U128Type,
            I8Type, I16Type, I32Type, I64Type, I128Type, EthType, Ipv4Type, Ipv6Type}
  }

  /** The words each fixed-width value takes: what its constructor reads and
      skips. */
  function Width(tag: ValueType): nat {
    match tag
    case BoolType | U8Type | U16Type | U32Type | I8Type | I16Type | I32Type => 1
    case FloatType | U64Type | I64Type | EthType | Ipv4Type => 2
    case U128Type | I128Type | Ipv6Type => 4
    case _ => 0
  }

  /** The name each fixed-width value has in its error message. */
  function TagName(tag: ValueType): string {
    match tag
    case FloatType => "float"
    case BoolType => "bool"
    case U8Type => "u8"
    case U16Type => "u16"
    case U32Type => "u32"
    case U64Type => "u64"
    case U128Type => "u128"
    case I8Type => "i8"
    case I16Type => "i16"
    case I32Type => "i32"
    case I64Type => "i64"
    case I128Type => "i128"
    case EthType => "eth"
    case Ipv4Type => "ipv4"
    case Ipv6Type => "ipv6"
    case _ => ""
  }

  /** The words from s on, as many as the tag takes. */
  function WordsFrom(buf: seq<Word>, s: int, n: nat): (r: seq<Word>)
    ensures |r| == n
  {
    seq<Word>(n, i => WordAt(buf, s + i))
  }

  /** The value the constructor of a fixed-width tag reads at word s: the
      low byte, half-word or word for the 8-, 16- and 32-bit integers, the
      little-endian number of 2 or 4 words for the wider ones. */
  function ScalarAt(tag: ValueType, buf: seq<Word>, s: int): Value
    requires IsFixed(tag)
  {
    var w := WordAt(buf, s);
    match tag
    case FloatType => Float(WordsFrom(buf, s, 2))
    case BoolType => Bool(w != 0)
    case U8Type => Num(tag, w % 0x100)
    case U16Type => Num(tag, w % 0x1_0000)
    case U32Type => Num(tag, w)
    case I8Type => Num(tag, Signed(w % 0x100, 8))
    case I16Type => Num(tag, Signed(w % 0x1_0000, 16))
    case I32Type => Num(tag, Signed(w, 32))
    case U64Type | EthType | Ipv4Type => Num(tag, LittleEndian(WordsFrom(buf, s, 2)))
    case I64Type => Num(tag, Signed(LittleEndian(WordsFrom(buf, s, 2)), 64))
    case U128Type | Ipv6Type => Num(tag, LittleEndian(WordsFrom(buf, s, 4)))
    case I128Type => Num(tag, Signed(LittleEndian(WordsFrom(buf, s, 4)), 128))
  }

  /** A fixed-width value: an error, with the cursor left where it was,
      when fewer words than it takes remain before max; otherwise the value
      and the cursor past it. */
  function DecodeScalar(tag: ValueType, buf: seq<Word>, s: int, max: int): (r: (Value, int))
    requires IsFixed(tag)
  {
    if s + Width(tag) > max then (Error("Cannot unserialize " + TagName(tag)), s)
    else (ScalarAt(tag, buf, s), s + Width(tag))
  }

  /** The guard as the source writes it: Ipv4 checks for one word only. */
  function GuardWidth(tag: ValueType): nat {
    if tag == Ipv4Type then 1 else Width(tag)
  }

  /** The fixed-width case of unserialize as written, with the Ipv4 guard
      checking one word while the constructor reads and skips two. */
  function DecodeScalarAsWritten(tag: ValueType, buf: seq<Word>, s: int, max: int): (r: (Value, int))
    requires IsFixed(tag)
    ensures tag != Ipv4Type ==> r == DecodeScalar(tag, buf, s, max)
  {
    if s + GuardWidth(tag) > max then (Error("Cannot unserialize " + TagName(tag)), s)
    else (ScalarAt(tag, buf, s), s + Width(tag))
  }

  /** With one word left before max, the written Ipv4 case decodes a value
      from that word and the word after max, and leaves the cursor past
      max: what it returns changes with the word at max, which the
      corrected decoder never reads (DecodeReadsBelowMax). The corrected
      guard reports an error and leaves the cursor in place. */
  lemma Ipv4GuardOverrun()
    ensures var buf: seq<Word> := [7, 9];
      && DecodeScalarAsWritten(Ipv4Type, buf, 0, 1) == (Num(Ipv4Type, 7 + 9 * WORD_MOD), 2)
      && DecodeScalarAsWritten(Ipv4Type, buf, 0, 1).1 > 1
      && DecodeScalarAsWritten(Ipv4Type, buf, 0, 1) != DecodeScalarAsWritten(Ipv4Type, buf[..1], 0, 1)
      && DecodeScalar(Ipv4Type, buf, 0, 1) == (Error("Cannot unserialize ipv4"), 0)
  {
    var buf: seq<Word> := [7, 9];
    assert buf[..1] == [7];
    assert WordsFrom([7], 0, 2) == [7, 0];
    assert [7, 0][1..] == [0];
    assert LittleEndian([0]) == 0 by {
      assert [0][1..] == [];
    }
    assert "Cannot unserialize " + TagName(Ipv4Type) == "Cannot unserialize ipv4";
    assert WordsFrom(buf, 0, 2) == [7, 9];
    assert [7, 9][1..] == [9];
    assert LittleEndian([9]) == 9 by {
      assert [9][1..] == [];
    }
  }

  /** Decimal digits of n, as QString::number prints it. */
  function Decimal(n: nat): string
    decreases n
  {
    var d := ['0', '1', '2', '3', '4', '5', '6', '7', '8', '9'][n % 10];
    if n < 10 then [d] else Decimal(n / 10) + [d]
  }

  /** The bytes of a string payload of len bytes from word s on. */
  function BytesFrom(buf: seq<Word>, s: int, len: nat): (r: seq<Byte>)
    ensures |r| == len
  {
    seq<Byte>(len, i => ByteAt(buf, 4 * s + i))
  }

  /** A string: one length word, then its bytes rounded up to whole words.
      Without the length word nothing is consumed; with the length word but
      a truncated payload the length word stays consumed. */
  function DecodeString(buf: seq<Word>, s: int, max: int): (r: (Value, int))
  {
    if s + 1 > max then (Error("Cannot unserialize string"), s)
    else
      var len := WordAt(buf, s);
      if s + 1 + RoundUpWords(len) > max then (Error("Cannot unserialize of length " + Decimal(len)), s + 1)
      else (Str(BytesFrom(buf, s + 1, len)), s + 1 + RoundUpWords(len))
  }

  // --- composites -------------------------------------------------------

  /** nullmaskWidth(topLevel). */
  function MaskWidth(t: RamenType, top: bool): nat {
    if top then t.maskTop else t.maskNested
  }

  /** The words a composite's nullmask takes: the width counts bytes for a
      tuple or a vector and bits for a record. */
  function MaskWords(t: RamenType, top: bool): nat {
    if t.tag == RecordType then RoundUpWords((MaskWidth(t, top) + 7) / 8)
    else RoundUpWords(MaskWidth(t, top))
  }

  /** A composite node whose shape matches its tag. */
  predicate IsComposite(t: RamenType) {
    || (t.tag == TupleType && t.shape.TupleOf?)
    || (t.tag == VecType && t.shape.VecOf?)
    || (t.tag == RecordType && t.shape.RecordOf?)
  }

  /** How many children a composite decodes: its fields, or dim elements. */
  function ChildCount(t: RamenType): nat {
    match t.shape
    case TupleOf(fs) => |fs|
    case VecOf(dim, _) => dim
    case RecordOf(_, order) => |order|
    case Plain => 0
  }

  /** The type of the i-th child on the wire: a tuple's fields in order, a
      vector's element type, a record's fields in serOrder. */
  function ChildType(t: RamenType, i: nat): RamenType
    requires WellFormed(t) && i < ChildCount(t)
  {
    match t.shape
    case TupleOf(fs) => fs[i]
    case VecOf(_, sub) => sub
    case RecordOf(fs, order) => fs[order[i]].1
  }

  /** How many of the children from i up to j are nullable: the advance of
      the nullmask counter over them. */
  function Nullables(t: RamenType, i: nat, j: nat): nat
    requires WellFormed(t) && i <= j <= ChildCount(t)
    decreases j - i
  {
    if i == j then 0
    else (if ChildType(t, i).nullable then 1 else 0) + Nullables(t, i + 1, j)
  }

  /** A schema node and its position in the record or the buffer, for the
      top-level call. */
  function Decode(t: RamenType, buf: seq<Word>, s: int, max: int, top: bool): (r: (Value, int))
    requires WellFormed(t) && (top ==> !t.nullable)
    decreases t, 2, 1
  {
    match t.tag
    case StringType => DecodeString(buf, s, max)
    case IpType | Cidrv4Type | Cidrv6Type | CidrType => (Error("TODO: unserialize"), s)
    case ListType => (Error("TODO: unserialize lists"), s)
    case AnyType | EmptyType => (Error("Cannot unserialize: unknown tag"), s)
    case TupleType | VecType | RecordType => DecodeNested(t, buf, s, max, top)
    case _ => DecodeScalar(t.tag, buf, s, max)
  }

  /** The tuple, vector and record cases of Decode: the node must have
      the matching shape; the nullmask words come first, then the
      children. */
  function DecodeNested(t: RamenType, buf: seq<Word>, s: int, max: int, top: bool): (r: (Value, int))
    requires WellFormed(t) && (top ==> !t.nullable)
    requires t.tag == TupleType || t.tag == VecType || t.tag == RecordType
    decreases t, 2, 0
  {
    match t.tag
    case TupleType =>
      if !t.shape.TupleOf? then (Error("Cannot unserialize: Invalid tag for tuple"), s)
      else
        var s1 := s + MaskWords(t, top);
        if s1 > max then (Error("Invalid start/max"), s1)
        else
          var r := ChildrenFrom(t, buf, s, max, 0, 0, s1, []);
          (Tuple(r.0), r.1)
    case VecType =>
      if !t.shape.VecOf? then (Error("Cannot unserialize: Invalid tag for vector"), s)
      else
        var s1 := s + MaskWords(t, top);
        if s1 > max then (Error("Invalid start/max"), s1)
        else
          var r := ChildrenFrom(t, buf, s, max, 0, 0, s1, []);
          (Vec(r.0), r.1)
    case RecordType =>
      if !t.shape.RecordOf? then (Error("Cannot unserialize: Invalid tag for record"), s)
      else
        var s1 := s + MaskWords(t, top);
        if s1 > max then (Error("Invalid start/max"), s1)
        else
          var r := RecordFrom(t, buf, s, max, 0, 0, s1, Unfilled(|t.shape.recFields|));
          (Record(r.0), r.1)
  }

  /** One child of a composite: a nullable child whose nullmask bit is
      clear is Null and takes no words; the nullmask counter moves on
      nullable children only. Returns the value, the cursor and the
      counter. */
  function Child(sub: RamenType, buf: seq<Word>, mask: int, max: int, nullI: nat, pos: int): (r: (Value, int, nat))
    requires WellFormed(sub)
    decreases sub, 3, 0
  {
    if sub.nullable then
      if BitSet(buf, 4 * mask, nullI) then
        var d := Decode(sub, buf, pos, max, false);
        (d.0, d.1, nullI + 1)
      else (Null, pos, nullI + 1)
    else
      var d := Decode(sub, buf, pos, max, false);
      (d.0, d.1, nullI)
  }

  /** The children of a composite from the i-th on, in wire order, after
      the values acc; the nullmask starts at word mask. Returns all the
      values and the cursor after the last. */
  function ChildrenFrom(t: RamenType, buf: seq<Word>, mask: int, max: int, i: nat, nullI: nat, pos: int,
                        acc: seq<Value>): (r: (seq<Value>, int))
    requires WellFormed(t) && i <= ChildCount(t)
    decreases t, 1, ChildCount(t) - i
  {
    if i == ChildCount(t) then (acc, pos)
    else
      var sub := match t.shape
        case TupleOf(fs) => fs[i]
        case VecOf(_, sub) => sub
        case RecordOf(fs, order) => fs[order[i]].1;
      var c := Child(sub, buf, mask, max, nullI, pos);
      ChildrenFrom(t, buf, mask, max, i + 1, c.2, c.1, acc + [c.0])
  }

  /** The record the decoder starts from: one empty slot per field. */
  function Unfilled(n: nat): (r: seq<(string, Value)>)
    ensures |r| == n
  {
    seq(n, _ => ("", Null))
  }

  /** A record's fields from the i-th in serOrder on, each stored with its
      name at its index in declaration order. */
  function RecordFrom(t: RamenType, buf: seq<Word>, mask: int, max: int, i: nat, nullI: nat, pos: int,
                      acc: seq<(string, Value)>): (r: (seq<(string, Value)>, int))
    requires WellFormed(t) && t.shape.RecordOf? && i <= |t.shape.serOrder| && |acc| == |t.shape.recFields|
    decreases t, 1, |t.shape.serOrder| - i
  {
    var fs, order := t.shape.recFields, t.shape.serOrder;
    if i == |order| then (acc, pos)
    else
      var k := order[i];
      var c := Child(fs[k].1, buf, mask, max, nullI, pos);
      RecordFrom(t, buf, mask, max, i + 1, c.2, c.1, acc[k := (fs[k].0, c.0)])
  }

  // --- what the decoder promises ------------------------------------------

  /** The value holds no Error node anywhere. */
  predicate NoErrors(v: Value)
    decreases v
  {
    match v
    case Error(_) => false
    case Tuple(vs) => forall i | 0 <= i < |vs| :: NoErrors(vs[i])
    case Vec(vs) => forall i | 0 <= i < |vs| :: NoErrors(vs[i])
    case Record(nvs) => forall i | 0 <= i < |nvs| :: NoErrors(nvs[i].1)
    case _ => true
  }

  /** A fixed-width value fails, consuming nothing, exactly when fewer
      words than its width remain before max; otherwise it consumes exactly
      its width: one word up to 32 bits, two for float, 64-bit, Ethernet
      and IPv4, four for 128-bit and IPv6. */
  lemma DecodeFixed(t: RamenType, buf: seq<Word>, s: int, max: int, top: bool)
    requires WellFormed(t) && (top ==> !t.nullable) && IsFixed(t.tag)
    ensures var r := Decode(t, buf, s, max, top);
      && (r.0.Error? <==> s + Width(t.tag) > max)
      && r.1 == (if s + Width(t.tag) > max then s else s + Width(t.tag))
      && (s + Width(t.tag) <= max ==> r.0 == ScalarAt(t.tag, buf, s))
    ensures Width(t.tag) == (if t.tag in {U128Type, I128Type, Ipv6Type} then 4
                             else if t.tag in {FloatType, U64Type, I64Type, EthType, Ipv4Type} then 2
                             else 1)
  {
  }

  /** A fixed-width tag decodes through DecodeScalar. */
  lemma DecodeScalarCase(t: RamenType, buf: seq<Word>, s: int, max: int, top: bool)
    requires WellFormed(t) && (top ==> !t.nullable) && IsFixed(t.tag)
    ensures Decode(t, buf, s, max, top) == DecodeScalar(t.tag, buf, s, max)
  {
  }

  /** A string needs one length word, then the payload rounded up to whole
      words; it consumes exactly both on success. A missing length word
      consumes nothing; a truncated payload consumes the length word. */
  lemma DecodeStringWords(t: RamenType, buf: seq<Word>, s: int, max: int, top: bool)
    requires WellFormed(t) && (top ==> !t.nullable) && t.tag == StringType
    ensures var r := Decode(t, buf, s, max, top);
      var len := WordAt(buf, s);
      && (s + 1 > max ==> r.0.Error? && r.1 == s)
      && (s + 1 <= max && s + 1 + RoundUpWords(len) > max ==> r.0.Error? && r.1 == s + 1)
      && (s + 1 + RoundUpWords(len) <= max ==>
            && r.0.Str? && r.1 == s + 1 + RoundUpWords(len)
            && |r.0.bytes| == len
            && forall i :: 0 <= i < len ==> r.0.bytes[i] == ByteAt(buf, 4 * (s + 1) + i))
  {
  }

  /** IP, CIDR and list values and unknown tags are not decoded: an error
      that consumes nothing. */
  lemma DecodeUnsupported(t: RamenType, buf: seq<Word>, s: int, max: int, top: bool)
    requires WellFormed(t) && (top ==> !t.nullable)
    requires t.tag in {IpType, Cidrv4Type, Cidrv6Type, CidrType, ListType, AnyType, EmptyType}
    ensures Decode(t, buf, s, max, top).0.Error? && Decode(t, buf, s, max, top).1 == s
  {
  }

  /** A composite skips its nullmask first and fails, with the cursor
      already past the mask, when that leaves it past max. A node whose
      shape does not match its tag fails without consuming anything. */
  lemma DecodeMask(t: RamenType, buf: seq<Word>, s: int, max: int, top: bool)
    requires WellFormed(t) && (top ==> !t.nullable) && t.tag in {TupleType, VecType, RecordType}
    ensures var r := Decode(t, buf, s, max, top);
      && (!IsComposite(t) ==> r.0.Error? && r.1 == s)
      && (IsComposite(t) && s + MaskWords(t, top) > max ==> r.0.Error? && r.1 == s + MaskWords(t, top))
      && (IsComposite(t) && s + MaskWords(t, top) <= max ==> !r.0.Error?)
    ensures t.tag == RecordType ==> MaskWords(t, top) == RoundUpWords((MaskWidth(t, top) + 7) / 8)
    ensures t.tag != RecordType ==> MaskWords(t, top) == RoundUpWords(MaskWidth(t, top))
  {
  }

  /** Decoding the children from the i-th on yields one value per child
      after acc, whatever errors the children hold, and a nullable child
      whose nullmask bit is clear yields Null; the bit of a child is found
      by counting the nullable children before it only. */
  lemma {:induction false} ChildrenShape(t: RamenType, buf: seq<Word>, mask: int, max: int, i: nat, nullI: nat,
                                         pos: int, acc: seq<Value>)
    requires WellFormed(t) && i <= ChildCount(t)
    ensures var r := ChildrenFrom(t, buf, mask, max, i, nullI, pos, acc);
      && |r.0| == |acc| + ChildCount(t) - i
      && r.0[..|acc|] == acc
      && forall j :: (i <= j < ChildCount(t) && ChildType(t, j).nullable
                      && !BitSet(buf, 4 * mask, nullI + Nullables(t, i, j))) ==> r.0[|acc| + (j - i)] == Null
    decreases ChildCount(t) - i
  {
    if i < ChildCount(t) {
      var sub := ChildType(t, i);
      var c := Child(sub, buf, mask, max, nullI, pos);
      ChildrenShape(t, buf, mask, max, i + 1, c.2, c.1, acc + [c.0]);
      var r := ChildrenFrom(t, buf, mask, max, i, nullI, pos, acc);
      assert r == ChildrenFrom(t, buf, mask, max, i + 1, c.2, c.1, acc + [c.0]);
      assert r.0[..|acc| + 1] == acc + [c.0] by {
        assert r.0[..|acc| + 1][..|acc|] == r.0[..|acc|];
      }
      assert r.0[|acc|] == c.0 by {
        assert r.0[..|acc| + 1][|acc|] == r.0[|acc|];
      }
      assert r.0[..|acc|] == acc by {
        assert r.0[..|acc|] == r.0[..|acc| + 1][..|acc|];
      }
      forall j | i < j < ChildCount(t)
        ensures nullI + Nullables(t, i, j) == c.2 + Nullables(t, i + 1, j)
      {
      }
    }
  }

  /** A record's fields from the i-th in serOrder on land at their
      serOrder index, with their schema name and the value the same
      children decode to in wire order; every other slot keeps what acc
      held, and both walks end at the same word. */
  lemma {:induction false} RecordPlacement(t: RamenType, buf: seq<Word>, mask: int, max: int, i: nat, nullI: nat,
                                           pos: int, acc: seq<(string, Value)>, w: seq<Value>)
    requires WellFormed(t) && t.shape.RecordOf? && i <= |t.shape.serOrder| && |acc| == |t.shape.recFields|
    ensures var r := RecordFrom(t, buf, mask, max, i, nullI, pos, acc);
      var c := ChildrenFrom(t, buf, mask, max, i, nullI, pos, w);
      var fs, order := t.shape.recFields, t.shape.serOrder;
      && r.1 == c.1
      && |r.0| == |fs|
      && |c.0| == |w| + (|order| - i)
      && (forall j :: i <= j < |order| ==> r.0[order[j]] == (fs[order[j]].0, c.0[|w| + (j - i)]))
      && (forall k :: 0 <= k < |fs| && k !in order[i..] ==> r.0[k] == acc[k])
    decreases |t.shape.serOrder| - i
  {
    var fs, order := t.shape.recFields, t.shape.serOrder;
    if i < |order| {
      var k := order[i];
      var c := Child(fs[k].1, buf, mask, max, nullI, pos);
      var acc' := acc[k := (fs[k].0, c.0)];
      RecordPlacement(t, buf, mask, max, i + 1, c.2, c.1, acc', w + [c.0]);
      ChildrenShape(t, buf, mask, max, i + 1, c.2, c.1, w + [c.0]);
      var r := RecordFrom(t, buf, mask, max, i, nullI, pos, acc);
      var cs := ChildrenFrom(t, buf, mask, max, i, nullI, pos, w);
      assert r == RecordFrom(t, buf, mask, max, i + 1, c.2, c.1, acc');
      assert cs == ChildrenFrom(t, buf, mask, max, i + 1, c.2, c.1, w + [c.0]);
      assert cs.0[|w|] == c.0 by {
        assert cs.0[..|w| + 1][|w|] == cs.0[|w|];
      }
      DistinctTail(order, i);
      PlacementStep(fs, order, i, acc, w, c.0, r.0, cs.0);
    } else {
      ChildrenShape(t, buf, mask, max, i, nullI, pos, w);
    }
  }

  /** One step of the record walk: the field placed at serOrder[i] holds
      the child decoded i-th, and the later placements leave it alone. */
  lemma PlacementStep(fs: seq<(string, RamenType)>, order: seq<nat>, i: nat, acc: seq<(string, Value)>,
                      w: seq<Value>, v: Value, rs: seq<(string, Value)>, cs: seq<Value>)
    requires i < |order| && |acc| == |fs| && |rs| == |fs|
    requires forall j :: 0 <= j < |order| ==> order[j] < |fs|
    requires order[i] !in order[i + 1..]
    requires |cs| == |w| + (|order| - i) && cs[|w|] == v
    requires forall j :: i + 1 <= j < |order| ==> rs[order[j]] == (fs[order[j]].0, cs[|w| + 1 + (j - (i + 1))])
    requires forall k :: 0 <= k < |fs| && k !in order[i + 1..] ==> rs[k] == acc[order[i] := (fs[order[i]].0, v)][k]
    ensures forall j :: i <= j < |order| ==> rs[order[j]] == (fs[order[j]].0, cs[|w| + (j - i)])
    ensures forall k :: 0 <= k < |fs| && k !in order[i..] ==> rs[k] == acc[k]
  {
    assert order[i..] == [order[i]] + order[i + 1..];
  }

  /** In a sequence without repetitions, an element does not occur again
      after its own position. */
  lemma DistinctTail(order: seq<nat>, i: nat)
    requires i < |order|
    requires forall a, b :: 0 <= a < b < |order| ==> order[a] != order[b]
    ensures order[i] !in order[i + 1..]
  {
    assert forall j :: i < j < |order| ==> order[j] != order[i];
  }

  /** The decoded tuple has one value per field in declaration order, the
      vector one per element, and the record one (name, value) pair per
      field in declaration order, the value decoded in serOrder; a nullable
      child whose nullmask bit is clear is Null. */
  lemma DecodeComposite(t: RamenType, buf: seq<Word>, s: int, max: int, top: bool)
    requires WellFormed(t) && (top ==> !t.nullable) && IsComposite(t) && s + MaskWords(t, top) <= max
    ensures var r := Decode(t, buf, s, max, top);
      var w := ChildrenFrom(t, buf, s, max, 0, 0, s + MaskWords(t, top), []);
      && |w.0| == ChildCount(t)
      && r.1 == w.1
      && (t.tag == TupleType ==> r.0 == Tuple(w.0) && |w.0| == |t.shape.fields|)
      && (t.tag == VecType ==> r.0 == Vec(w.0) && |w.0| == t.shape.dim)
      && (t.tag == RecordType ==>
            && r.0.Record? && |r.0.namedValues| == |t.shape.recFields|
            && forall j :: 0 <= j < |t.shape.serOrder| ==>
                 r.0.namedValues[t.shape.serOrder[j]] == (t.shape.recFields[t.shape.serOrder[j]].0, w.0[j]))
      && forall j :: (0 <= j < ChildCount(t) && ChildType(t, j).nullable
                      && !BitSet(buf, 4 * s, Nullables(t, 0, j))) ==> w.0[j] == Null
  {
    var s1 := s + MaskWords(t, top);
    ChildrenShape(t, buf, s, max, 0, 0, s1, []);
    if t.tag == RecordType {
      RecordAtStart(t, buf, s, max, s1);
      var rf := RecordFrom(t, buf, s, max, 0, 0, s1, Unfilled(|t.shape.recFields|));
      assert Decode(t, buf, s, max, top) == (Record(rf.0), rf.1);
    }
  }

  /** RecordPlacement from the first wire field. */
  lemma RecordAtStart(t: RamenType, buf: seq<Word>, mask: int, max: int, pos: int)
    requires WellFormed(t) && t.shape.RecordOf?
    ensures var r := RecordFrom(t, buf, mask, max, 0, 0, pos, Unfilled(|t.shape.recFields|));
      var c := ChildrenFrom(t, buf, mask, max, 0, 0, pos, []);
      && r.1 == c.1 && |r.0| == |t.shape.recFields| && |c.0| == |t.shape.serOrder|
      && forall j :: 0 <= j < |t.shape.serOrder| ==>
           r.0[t.shape.serOrder[j]] == (t.shape.recFields[t.shape.serOrder[j]].0, c.0[j])
  {
    RecordPlacement(t, buf, mask, max, 0, 0, pos, Unfilled(|t.shape.recFields|), []);
  }

  /** In a decoded record every field sits at its declaration index under
      its schema name, whatever the wire order. */
  lemma RecordNames(t: RamenType, buf: seq<Word>, s: int, max: int, top: bool)
    requires WellFormed(t) && (top ==> !t.nullable) && t.tag == RecordType && t.shape.RecordOf?
    requires s + MaskWords(t, top) <= max
    ensures var r := Decode(t, buf, s, max, top);
      && r.0.Record? && |r.0.namedValues| == |t.shape.recFields|
      && forall k :: 0 <= k < |t.shape.recFields| ==> r.0.namedValues[k].0 == t.shape.recFields[k].0
  {
    DecodeComposite(t, buf, s, max, top);
    var order := t.shape.serOrder;
    var r := Decode(t, buf, s, max, top);
    forall k | 0 <= k < |t.shape.recFields|
      ensures r.0.namedValues[k].0 == t.shape.recFields[k].0
    {
      assert k in order;
      var j :| 0 <= j < |order| && order[j] == k;
    }
  }

  /** The decoder never moves the cursor back, and a value decoded without
      any Error node ends at or before max. */
  lemma {:induction false} DecodeBounds(t: RamenType, buf: seq<Word>, s: int, max: int, top: bool)
    requires WellFormed(t) && (top ==> !t.nullable)
    ensures var r := Decode(t, buf, s, max, top);
      && r.1 >= s
      && (NoErrors(r.0) ==> r.1 <= max)
    decreases t, 2, 0
  {
    var r := Decode(t, buf, s, max, top);
    if t.tag == StringType {
      assert r == DecodeString(buf, s, max);
    } else if IsComposite(t) && s + MaskWords(t, top) <= max {
      CompositeBounds(t, buf, s, max, top);
    } else if IsFixed(t.tag) {
      assert r == DecodeScalar(t.tag, buf, s, max);
    } else {
      assert r.0.Error? && r.1 >= s;
    }
  }

  /** DecodeBounds for a tuple, vector or record whose mask fits. */
  lemma {:induction false} CompositeBounds(t: RamenType, buf: seq<Word>, s: int, max: int, top: bool)
    requires WellFormed(t) && (top ==> !t.nullable) && IsComposite(t) && s + MaskWords(t, top) <= max
    ensures var r := Decode(t, buf, s, max, top);
      && r.1 >= s
      && (NoErrors(r.0) ==> r.1 <= max)
    decreases t, 1, ChildCount(t) + 1
  {
    var s1 := s + MaskWords(t, top);
    ChildrenBounds(t, buf, s, max, 0, 0, s1, []);
    CompositeChildren(t, buf, s, max, top);
  }

  /** A composite ends where its children end, and holds no Error node
      only when none of its children does. */
  lemma CompositeChildren(t: RamenType, buf: seq<Word>, s: int, max: int, top: bool)
    requires WellFormed(t) && (top ==> !t.nullable) && IsComposite(t) && s + MaskWords(t, top) <= max
    ensures var r := Decode(t, buf, s, max, top);
      var w := ChildrenFrom(t, buf, s, max, 0, 0, s + MaskWords(t, top), []);
      && r.1 == w.1
      && (NoErrors(r.0) ==> forall j :: 0 <= j < |w.0| ==> NoErrors(w.0[j]))
  {
    var s1 := s + MaskWords(t, top);
    var w := ChildrenFrom(t, buf, s, max, 0, 0, s1, []);
    var r := Decode(t, buf, s, max, top);
    assert r == DecodeNested(t, buf, s, max, top);
    if t.tag == RecordType {
      RecordAtStart(t, buf, s, max, s1);
      var rf := RecordFrom(t, buf, s, max, 0, 0, s1, Unfilled(|t.shape.recFields|));
      assert r == (Record(rf.0), rf.1);
      if NoErrors(r.0) {
        PlacedNoErrors(rf.0, w.0, t.shape.serOrder);
      }
    } else {
      assert r == (if t.tag == TupleType then Tuple(w.0) else Vec(w.0), w.1);
    }
  }

  /** Values placed into a record without Error nodes had none. */
  lemma PlacedNoErrors(nvs: seq<(string, Value)>, w: seq<Value>, order: seq<nat>)
    requires |w| == |order|
    requires forall j :: 0 <= j < |order| ==> order[j] < |nvs| && nvs[order[j]].1 == w[j]
    requires NoErrors(Record(nvs))
    ensures forall j :: 0 <= j < |w| ==> NoErrors(w[j])
  {
    forall j | 0 <= j < |w| ensures NoErrors(w[j]) {
      assert nvs[order[j]].1 == w[j];
    }
  }

  /** The same for one child: a Null child stays put. */
  lemma {:induction false} ChildBounds(sub: RamenType, buf: seq<Word>, mask: int, max: int, nullI: nat, pos: int)
    requires WellFormed(sub)
    ensures var c := Child(sub, buf, mask, max, nullI, pos);
      && c.1 >= pos
      && (NoErrors(c.0) && pos <= max ==> c.1 <= max)
    decreases sub, 3, 0
  {
    DecodeBounds(sub, buf, pos, max, false);
  }

  /** The same for the children from the i-th on: the cursor only moves
      forward, and stays at or before max while no child holds an Error. */
  lemma {:induction false} ChildrenBounds(t: RamenType, buf: seq<Word>, mask: int, max: int, i: nat, nullI: nat,
                                          pos: int, acc: seq<Value>)
    requires WellFormed(t) && i <= ChildCount(t)
    ensures var r := ChildrenFrom(t, buf, mask, max, i, nullI, pos, acc);
      && r.1 >= pos
      && ((forall j :: |acc| <= j < |r.0| ==> NoErrors(r.0[j])) && pos <= max ==> r.1 <= max)
    decreases t, 1, ChildCount(t) - i
  {
    if i < ChildCount(t) {
      var sub := match t.shape
        case TupleOf(fs) => fs[i]
        case VecOf(_, sub) => sub
        case RecordOf(fs, order) => fs[order[i]].1;
      var c := Child(sub, buf, mask, max, nullI, pos);
      ChildBounds(sub, buf, mask, max, nullI, pos);
      ChildrenBounds(t, buf, mask, max, i + 1, c.2, c.1, acc + [c.0]);
      ChildrenShape(t, buf, mask, max, i + 1, c.2, c.1, acc + [c.0]);
      var r := ChildrenFrom(t, buf, mask, max, i, nullI, pos, acc);
      assert r.0[|acc|] == c.0 by {
        assert r.0[..|acc| + 1][|acc|] == r.0[|acc|];
      }
    }
  }

  // --- what the decoder reads -------------------------------------------

  /** Every composite's nullmask, at every level, has a bit for each of its
      nullable children. nullmaskWidth belongs to conf::RamenType, which is
      not part of this model; this is what the decoder relies on from it. */
  predicate MasksCover(t: RamenType, top: bool)
    requires WellFormed(t)
    decreases t
  {
    && (IsComposite(t) ==> Nullables(t, 0, ChildCount(t)) <= 32 * MaskWords(t, top))
    && match t.shape
       case Plain => true
       case TupleOf(fs) => forall i | 0 <= i < |fs| :: MasksCover(fs[i], false)
       case VecOf(_, sub) => MasksCover(sub, false)
       case RecordOf(fs, _) => forall i | 0 <= i < |fs| :: MasksCover(fs[i].1, false)
  }

  /** The words and bytes below max are the same in buf and in its prefix
      up to max. */
  lemma WordBelow(buf: seq<Word>, max: int, k: int)
    requires 0 <= max <= |buf| && k < max
    ensures WordAt(buf, k) == WordAt(buf[..max], k)
  {
  }

  lemma ByteBelow(buf: seq<Word>, max: int, k: int)
    requires 0 <= max <= |buf| && k < 4 * max
    ensures ByteAt(buf, k) == ByteAt(buf[..max], k)
  {
    if k >= 0 {
      WordBelow(buf, max, k / 4);
    }
  }

  lemma WordsBelow(buf: seq<Word>, max: int, s: int, n: nat)
    requires 0 <= max <= |buf| && s + n <= max
    ensures WordsFrom(buf, s, n) == WordsFrom(buf[..max], s, n)
  {
    forall i | 0 <= i < n
      ensures WordsFrom(buf, s, n)[i] == WordsFrom(buf[..max], s, n)[i]
    {
      WordBelow(buf, max, s + i);
    }
  }

  lemma BytesBelow(buf: seq<Word>, max: int, s: int, len: nat)
    requires 0 <= max <= |buf| && 4 * s + len <= 4 * max
    ensures BytesFrom(buf, s, len) == BytesFrom(buf[..max], s, len)
  {
    forall i | 0 <= i < len
      ensures BytesFrom(buf, s, len)[i] == BytesFrom(buf[..max], s, len)[i]
    {
      ByteBelow(buf, max, 4 * s + i);
    }
  }

  /** A fixed-width value that fits before max reads the same in the
      prefix. */
  lemma ScalarBelow(tag: ValueType, buf: seq<Word>, max: int, s: int)
    requires IsFixed(tag) && 0 <= max <= |buf| && s + Width(tag) <= max
    ensures ScalarAt(tag, buf, s) == ScalarAt(tag, buf[..max], s)
  {
    WordBelow(buf, max, s);
    WordsBelow(buf, max, s, Width(tag));
  }

  /** A nullmask bit whose byte lies below max reads the same in the
      prefix. */
  lemma BitBelow(buf: seq<Word>, max: int, off: int, nullI: nat)
    requires 0 <= max <= |buf| && off + nullI / 8 < 4 * max
    ensures BitSet(buf, off, nullI) == BitSet(buf[..max], off, nullI)
  {
    BitSetDirect(buf, off, nullI);
    BitSetDirect(buf[..max], off, nullI);
    ByteBelow(buf, max, off + nullI / 8);
  }

  /** unserialize never reads at or past max: what it decodes from buf is
      what it decodes from the words of buf before max alone, provided every
      nullmask covers its nullable children. */
  lemma {:induction false} DecodeReadsBelowMax(t: RamenType, buf: seq<Word>, s: int, max: int, top: bool)
    requires WellFormed(t) && (top ==> !t.nullable) && MasksCover(t, top) && 0 <= max <= |buf|
    ensures Decode(t, buf, s, max, top) == Decode(t, buf[..max], s, max, top)
    decreases t, 2, 1
  {
    var pre := buf[..max];
    match t.tag
    case StringType =>
      if s + 1 <= max {
        WordBelow(buf, max, s);
        var len := WordAt(buf, s);
        if s + 1 + RoundUpWords(len) <= max {
          BytesBelow(buf, max, s + 1, len);
        }
      }
    case IpType | Cidrv4Type | Cidrv6Type | CidrType =>
    case ListType =>
    case AnyType | EmptyType =>
    case TupleType | VecType | RecordType =>
      NestedReadsBelowMax(t, buf, s, max, top);
    case _ =>
      if s + Width(t.tag) <= max {
        ScalarBelow(t.tag, buf, max, s);
      }
  }

  /** The same for a tuple, vector or record: the mask lies before max,
      and so does every nullmask bit its children look up. */
  lemma {:induction false} NestedReadsBelowMax(t: RamenType, buf: seq<Word>, s: int, max: int, top: bool)
    requires WellFormed(t) && (top ==> !t.nullable) && MasksCover(t, top) && 0 <= max <= |buf|
    requires t.tag == TupleType || t.tag == VecType || t.tag == RecordType
    ensures DecodeNested(t, buf, s, max, top) == DecodeNested(t, buf[..max], s, max, top)
    decreases t, 2, 0
  {
    var s1 := s + MaskWords(t, top);
    if IsComposite(t) && s1 <= max {
      if t.tag == RecordType {
        RecordReadsBelowMax(t, top, buf, s, max, 0, 0, s1, Unfilled(|t.shape.recFields|));
      } else {
        ChildrenReadBelowMax(t, top, buf, s, max, 0, 0, s1, []);
      }
    }
  }

  /** One child: its nullmask bit, when it is nullable, and its words. */
  lemma {:induction false} ChildReadsBelowMax(sub: RamenType, buf: seq<Word>, mask: int, max: int, nullI: nat, pos: int)
    requires WellFormed(sub) && MasksCover(sub, false) && 0 <= max <= |buf|
    requires sub.nullable ==> 4 * mask + nullI / 8 < 4 * max
    ensures Child(sub, buf, mask, max, nullI, pos) == Child(sub, buf[..max], mask, max, nullI, pos)
    decreases sub, 3, 0
  {
    if sub.nullable {
      BitBelow(buf, max, 4 * mask, nullI);
    }
    DecodeReadsBelowMax(sub, buf, pos, max, false);
  }

  /** Child i of t is one of its fields, so its own masks cover its
      children. */
  lemma ChildCovers(t: RamenType, top: bool, i: nat)
    requires WellFormed(t) && MasksCover(t, top) && i < ChildCount(t)
    ensures WellFormed(ChildType(t, i)) && MasksCover(ChildType(t, i), false)
  {
    match t.shape
    case TupleOf(fs) =>
    case VecOf(_, sub) =>
    case RecordOf(fs, order) =>
      assert order[i] < |fs|;
  }

  /** A nullable child takes the next bit; the bits the children from i on
      use stay below nullI plus their nullable count. */
  lemma NextBitBelow(t: RamenType, i: nat, nullI: nat, mask: int, max: int)
    requires WellFormed(t) && i < ChildCount(t) && ChildType(t, i).nullable
    requires nullI + Nullables(t, i, ChildCount(t)) <= 32 * (max - mask)
    ensures 4 * mask + nullI / 8 < 4 * max
  {
  }

  /** The children from the i-th on, while the bits they look up lie below
      max. */
  lemma {:induction false} ChildrenReadBelowMax(t: RamenType, top: bool, buf: seq<Word>, mask: int, max: int, i: nat,
                                                nullI: nat, pos: int, acc: seq<Value>)
    requires WellFormed(t) && MasksCover(t, top) && i <= ChildCount(t) && 0 <= max <= |buf|
    requires nullI + Nullables(t, i, ChildCount(t)) <= 32 * (max - mask)
    ensures ChildrenFrom(t, buf, mask, max, i, nullI, pos, acc)
         == ChildrenFrom(t, buf[..max], mask, max, i, nullI, pos, acc)
    decreases t, 1, ChildCount(t) - i
  {
    if i < ChildCount(t) {
      var sub := ChildType(t, i);
      ChildCovers(t, top, i);
      if sub.nullable {
        NextBitBelow(t, i, nullI, mask, max);
      }
      ChildReadsBelowMax(sub, buf, mask, max, nullI, pos);
      var c := Child(sub, buf, mask, max, nullI, pos);
      ChildrenReadBelowMax(t, top, buf, mask, max, i + 1, c.2, c.1, acc + [c.0]);
    }
  }

  /** The same for a record's fields from the i-th in serOrder on. */
  lemma {:induction false} RecordReadsBelowMax(t: RamenType, top: bool, buf: seq<Word>, mask: int, max: int, i: nat,
                                               nullI: nat, pos: int, acc: seq<(string, Value)>)
    requires WellFormed(t) && MasksCover(t, top) && 0 <= max <= |buf|
    requires t.shape.RecordOf? && i <= |t.shape.serOrder| && |acc| == |t.shape.recFields|
    requires nullI + Nullables(t, i, ChildCount(t)) <= 32 * (max - mask)
    ensures RecordFrom(t, buf, mask, max, i, nullI, pos, acc)
         == RecordFrom(t, buf[..max], mask, max, i, nullI, pos, acc)
    decreases t, 1, |t.shape.serOrder| - i
  {
    var fs, order := t.shape.recFields, t.shape.serOrder;
    if i < |order| {
      var k := order[i];
      var sub := fs[k].1;
      assert sub == ChildType(t, i);
      ChildCovers(t, top, i);
      if sub.nullable {
        NextBitBelow(t, i, nullI, mask, max);
      }
      ChildReadsBelowMax(sub, buf, mask, max, nullI, pos);
      var c := Child(sub, buf, mask, max, nullI, pos);
      RecordReadsBelowMax(t, top, buf, mask, max, i + 1, c.2, c.1, acc[k := (fs[k].0, c.0)]);
    }
  }
}
