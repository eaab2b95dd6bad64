// unserialize as the step-by-step walk it is in rmadmin/serValue.cpp: the
// by-reference cursor becomes an out-parameter, the loops over a composite's
// children keep their counters, and each method is proved to compute what
// the decoder functions of SerValue specify.

module SerUnserialize {
  import opened SerValue

  /** unserialize: one value of type t from word start of buf, reading
      nothing at or past max; returns the value and the cursor after it. */
  method Unserialize(t: RamenType, buf: seq<Word>, start: int, max: int, top: bool) returns (v: Value, pos: int)
    requires WellFormed(t) && (top ==> !t.nullable)
    ensures (v, pos) == Decode(t, buf, start, max, top)
    decreases t, 2
  {
    match t.tag
    case StringType =>
      v, pos := UnserializeString(buf, start, max);
    case IpType | Cidrv4Type | Cidrv6Type | CidrType =>
      v, pos := Error("TODO: unserialize"), start;
    case ListType =>
      v, pos := Error("TODO: unserialize lists"), start;
    case AnyType | EmptyType =>
      v, pos := Error("Cannot unserialize: unknown tag"), start;
    case TupleType | VecType | RecordType =>
      v, pos := UnserializeComposite(t, buf, start, max, top);
    case _ =>
      assert IsFixed(t.tag);
      DecodeScalarCase(t, buf, start, max, top);
      var d := DecodeScalar(t.tag, buf, start, max);
      v, pos := d.0, d.1;
  }

  /** The tuple, vector and record cases: the node must have the matching
      shape; the nullmask words come first, then the children. */
  method UnserializeComposite(t: RamenType, buf: seq<Word>, start: int, max: int, top: bool) returns (v: Value, pos: int)
    requires WellFormed(t) && (top ==> !t.nullable)
    requires t.tag == TupleType || t.tag == VecType || t.tag == RecordType
    ensures (v, pos) == DecodeNested(t, buf, start, max, top)
    decreases t, 1, 1
  {
    match t.tag
    case TupleType =>
      if !t.shape.TupleOf? {
        return Error("Cannot unserialize: Invalid tag for tuple"), start;
      }
      pos := start + MaskWords(t, top);
      if pos > max {
        return Error("Invalid start/max"), pos;
      }
      var fieldValues;
      fieldValues, pos := UnserializeChildren(t, buf, start, max, pos);
      v := Tuple(fieldValues);
    case VecType =>
      if !t.shape.VecOf? {
        return Error("Cannot unserialize: Invalid tag for vector"), start;
      }
      pos := start + MaskWords(t, top);
      if pos > max {
        return Error("Invalid start/max"), pos;
      }
      var values;
      values, pos := UnserializeChildren(t, buf, start, max, pos);
      v := Vec(values);
    case RecordType =>
      if !t.shape.RecordOf? {
        return Error("Cannot unserialize: Invalid tag for record"), start;
      }
      pos := start + MaskWords(t, top);
      if pos > max {
        return Error("Invalid start/max"), pos;
      }
      var fieldValues;
      fieldValues, pos := UnserializeRecord(t, buf, start, max, pos);
      v := Record(fieldValues);
  }

  /** The string case: the length word, then the payload copied byte by
      byte and skipped in whole words. */
  method UnserializeString(buf: seq<Word>, start: int, max: int) returns (v: Value, pos: int)
    ensures (v, pos) == DecodeString(buf, start, max)
  {
    if start + 1 > max {
      return Error("Cannot unserialize string"), start;
    }
    var len := WordAt(buf, start);
    pos := start + 1;
    if pos + RoundUpWords(len) > max {
      return Error("Cannot unserialize of length " + Decimal(len)), pos;
    }
    var bytes: seq<Byte> := [];
    var i := 0;
    while i < len
      invariant 0 <= i <= len
      invariant bytes == BytesFrom(buf, pos, len)[..i]
    {
      bytes := bytes + [ByteAt(buf, 4 * pos + i)];
      i := i + 1;
    }
    assert BytesFrom(buf, pos, len)[..len] == BytesFrom(buf, pos, len);
    v := Str(bytes);
    pos := pos + RoundUpWords(len);
  }

  /** The loop of the tuple and vector cases: each child in turn, a
      nullable one read only when its nullmask bit is set, the nullmask
      counter moving on nullable children only; the values are appended in
      wire order. */
  method UnserializeChildren(t: RamenType, buf: seq<Word>, mask: int, max: int, s1: int)
    returns (values: seq<Value>, pos: int)
    requires WellFormed(t)
    ensures (values, pos) == ChildrenFrom(t, buf, mask, max, 0, 0, s1, [])
    decreases t, 1, 0
  {
    values, pos := [], s1;
    var nullI := 0;
    var i := 0;
    while i < ChildCount(t)
      invariant 0 <= i <= ChildCount(t)
      invariant ChildrenFrom(t, buf, mask, max, i, nullI, pos, values) == ChildrenFrom(t, buf, mask, max, 0, 0, s1, [])
    {
      var subType := match t.shape
        case TupleOf(fs) => fs[i]
        case VecOf(_, sub) => sub
        case RecordOf(fs, order) => fs[order[i]].1;
      var x;
      if subType.nullable {
        if BitSet(buf, 4 * mask, nullI) {
          x, pos := Unserialize(subType, buf, pos, max, false);
        } else {
          x := Null;
        }
        nullI := nullI + 1;
      } else {
        x, pos := Unserialize(subType, buf, pos, max, false);
      }
      values := values + [x];
      i := i + 1;
    }
  }

  /** The loop of the record case: the fields in serOrder, each stored with
      its name at its declaration index of the pre-sized field vector. */
  method UnserializeRecord(t: RamenType, buf: seq<Word>, mask: int, max: int, s1: int)
    returns (fieldValues: seq<(string, Value)>, pos: int)
    requires WellFormed(t) && t.shape.RecordOf?
    ensures (fieldValues, pos) == RecordFrom(t, buf, mask, max, 0, 0, s1, Unfilled(|t.shape.recFields|))
    decreases t, 1, 0
  {
    var fields, serOrder := t.shape.recFields, t.shape.serOrder;
    fieldValues, pos := Unfilled(|fields|), s1;
    var nullI := 0;
    var i := 0;
    while i < |serOrder|
      invariant 0 <= i <= |serOrder| && |fieldValues| == |fields|
      invariant RecordFrom(t, buf, mask, max, i, nullI, pos, fieldValues)
                == RecordFrom(t, buf, mask, max, 0, 0, s1, Unfilled(|fields|))
    {
      var fieldIdx := serOrder[i];
      var subType := fields[fieldIdx].1;
      var x;
      if subType.nullable {
        if BitSet(buf, 4 * mask, nullI) {
          x, pos := Unserialize(subType, buf, pos, max, false);
        } else {
          x := Null;
        }
        nullI := nullI + 1;
      } else {
        x, pos := Unserialize(subType, buf, pos, max, false);
      }
      fieldValues := fieldValues[fieldIdx := (fields[fieldIdx].0, x)];
      i := i + 1;
    }
  }
}
