// The toQString renderers of the decoded values (rmadmin/serValue.cpp): a
// tuple as (a; b), a vector as [a; b], a record as {n:a; m:b}, NULL and the
// two booleans spelt out. The remaining scalars render through methods
// declared in serValue.h, which is not part of this model: they are the
// parameter leaf.

module SerRender {
  import opened SerValue

  /** The parts separated by "; ", built from the left as the loops do: a
      separator before every part but the first. */
  function Join(parts: seq<string>): string
  {
    if parts == [] then ""
    else
      var n := |parts| - 1;
      Join(parts[..n]) + (if n > 0 then "; " else "") + parts[n]
  }

  /** The same text read from the head: the first part, then "; " and the
      rest. */
  function JoinFromHead(parts: seq<string>): string
  {
    if parts == [] then ""
    else if |parts| == 1 then parts[0]
    else parts[0] + "; " + JoinFromHead(parts[1..])
  }

  /** Built from either end, the joined text is the same. */
  lemma {:induction false} JoinHeadFirst(parts: seq<string>)
    ensures Join(parts) == JoinFromHead(parts)
    decreases |parts|
  {
    if |parts| == 1 {
      assert parts[..0] == [];
    } else if |parts| >= 2 {
      assert parts == [parts[0]] + parts[1..];
      JoinCons(parts[0], parts[1..]);
      JoinHeadFirst(parts[1..]);
    }
  }

  /** A part put in front: it comes first, then "; " and the rest. */
  lemma {:induction false} JoinCons(a: string, rest: seq<string>)
    ensures Join([a] + rest) == if rest == [] then a else a + "; " + Join(rest)
    decreases |rest|
  {
    var p := [a] + rest;
    var n := |rest|;
    if n == 0 {
      assert p[..0] == [];
    } else {
      assert p[..n] == [a] + rest[..n - 1];
      JoinCons(a, rest[..n - 1]);
      if n == 1 {
        assert rest[..0] == [];
      } else {
        assert Join(p) == Join(p[..n]) + "; " + rest[n - 1];
        assert Join(rest) == Join(rest[..n - 1]) + "; " + rest[n - 1];
        Regroup(a, Join(rest[..n - 1]), rest[n - 1]);
      }
    }
  }

  /** The separators regroup: a; j; x read either way. */
  lemma Regroup(a: string, j: string, x: string)
    ensures (a + "; " + j) + "; " + x == a + "; " + (j + "; " + x)
  {
  }

  /** Each part is followed by exactly one separator, except the last. */
  lemma {:induction false} JoinLength(parts: seq<string>)
    ensures |Join(parts)| == SumLengths(parts) + (if parts == [] then 0 else 2 * (|parts| - 1))
    decreases |parts|
  {
    if parts != [] {
      JoinLength(parts[..|parts| - 1]);
      SumLengthsLast(parts);
    }
  }

  /** The total length of the parts. */
  function SumLengths(parts: seq<string>): nat
  {
    if parts == [] then 0 else |parts[0]| + SumLengths(parts[1..])
  }

  /** Summing the lengths from the tail end gives the same total. */
  lemma {:induction false} SumLengthsLast(parts: seq<string>)
    requires parts != []
    ensures SumLengths(parts) == SumLengths(parts[..|parts| - 1]) + |parts[|parts| - 1]|
    decreases |parts|
  {
    if |parts| > 1 {
      SumLengthsLast(parts[1..]);
      assert parts[1..][..|parts| - 2] == parts[..|parts| - 1][1..];
    }
  }

  /** The parts joined and put between the brackets open and close. */
  function Enclose(open: char, parts: seq<string>, close: char): (r: string)
  {
    [open] + Join(parts) + [close]
  }

  /** toQString: the text of a value, scalars other than NULL and the
      booleans through leaf. */
  function Show(v: Value, leaf: Value -> string): string
    decreases v
  {
    match v
    case Null => "NULL"
    case Bool(b) => if b then "true" else "false"
    case Tuple(vs) => Enclose('(', seq(|vs|, i requires 0 <= i < |vs| => Show(vs[i], leaf)), ')')
    case Vec(vs) => Enclose('[', seq(|vs|, i requires 0 <= i < |vs| => Show(vs[i], leaf)), ']')
    case Record(nvs) =>
      Enclose('{', seq(|nvs|, i requires 0 <= i < |nvs| => nvs[i].0 + ":" + Show(nvs[i].1, leaf)), '}')
    case _ => leaf(v)
  }

  /** A two-field tuple renders its two fields with one "; " between. */
  lemma ShowTuplePair(a: Value, b: Value, leaf: Value -> string)
    ensures Show(Tuple([a, b]), leaf) == "(" + Show(a, leaf) + "; " + Show(b, leaf) + ")"
  {
    var x, y := Show(a, leaf), Show(b, leaf);
    ShowComposite(Tuple([a, b]), leaf);
    PairTexts('(', ElementTexts([a, b], leaf), x, y, ')');
  }

  /** A two-element vector renders its elements with one "; " between. */
  lemma ShowVecPair(a: Value, b: Value, leaf: Value -> string)
    ensures Show(Vec([a, b]), leaf) == "[" + Show(a, leaf) + "; " + Show(b, leaf) + "]"
  {
    var x, y := Show(a, leaf), Show(b, leaf);
    ShowComposite(Vec([a, b]), leaf);
    PairTexts('[', ElementTexts([a, b], leaf), x, y, ']');
  }

  /** A two-field record renders as name:value twice with one "; "
      between. */
  lemma ShowRecordPair(n: string, a: Value, m: string, b: Value, leaf: Value -> string)
    ensures Show(Record([(n, a), (m, b)]), leaf) == "{" + (n + ":" + Show(a, leaf)) + "; " + (m + ":" + Show(b, leaf)) + "}"
  {
    var x, y := n + ":" + Show(a, leaf), m + ":" + Show(b, leaf);
    ShowComposite(Record([(n, a), (m, b)]), leaf);
    PairTexts('{', FieldTexts([(n, a), (m, b)], leaf), x, y, '}');
  }

  /** Two texts x and y, enclosed. */
  lemma PairTexts(open: char, texts: seq<string>, x: string, y: string, close: char)
    requires texts == [x, y]
    ensures Enclose(open, texts, close) == [open] + x + "; " + y + [close]
  {
    JoinTwo(x, y);
  }

  /** Two parts are joined by one separator. */
  lemma JoinTwo(x: string, y: string)
    ensures Join([x, y]) == x + "; " + y
  {
    assert [x, y][..1] == [x];
    assert [x][..0] == [];
    assert Join([x]) == x;
  }

  /** Appending a part appends a separator, unless it is the first, then
      the part: the step each loop takes. */
  lemma JoinSnoc(parts: seq<string>, t: string)
    ensures Join(parts + [t]) == Join(parts) + (if parts == [] then "" else "; ") + t
  {
    assert (parts + [t])[..|parts|] == parts;
  }

  /** A composite's text opens and closes with its brackets, and the empty
      ones render as the bare brackets. */
  lemma Brackets(v: Value, leaf: Value -> string)
    requires v.Tuple? || v.Vec? || v.Record?
    ensures var s := Show(v, leaf);
      && |s| >= 2
      && s[0] == (if v.Tuple? then '(' else if v.Vec? then '[' else '{')
      && s[|s| - 1] == (if v.Tuple? then ')' else if v.Vec? then ']' else '}')
    ensures Show(Tuple([]), leaf) == "()" && Show(Vec([]), leaf) == "[]" && Show(Record([]), leaf) == "{}"
  {
    ShowComposite(v, leaf);
    EmptyEnclosed(leaf);
    match v
    case Tuple(vs) =>
      EncloseEnds('(', ElementTexts(vs, leaf), ')');
    case Vec(vs) =>
      EncloseEnds('[', ElementTexts(vs, leaf), ']');
    case Record(nvs) =>
      EncloseEnds('{', FieldTexts(nvs, leaf), '}');
  }

  /** Enclosed text starts with the opening bracket and ends with the
      closing one. */
  lemma EncloseEnds(open: char, parts: seq<string>, close: char)
    ensures var r := Enclose(open, parts, close);
      |r| >= 2 && r[0] == open && r[|r| - 1] == close
  {
  }

  /** The empty composites render as their bare brackets. */
  lemma EmptyEnclosed(leaf: Value -> string)
    ensures Show(Tuple([]), leaf) == "()" && Show(Vec([]), leaf) == "[]" && Show(Record([]), leaf) == "{}"
  {
    ShowComposite(Tuple([]), leaf);
    ShowComposite(Vec([]), leaf);
    ShowComposite(Record([]), leaf);
  }


  /** toQString: NULL, the booleans, and the composites through their own
      loops; the other scalars through leaf. */
  method ToQString(v: Value, leaf: Value -> string) returns (s: string)
    ensures s == Show(v, leaf)
    decreases v, 1
  {
    match v
    case Null =>
      s := "NULL";
    case Bool(b) =>
      s := if b then "true" else "false";
    case Tuple(_) =>
      s := TupleToQString(v, leaf);
    case Vec(_) =>
      s := VecToQString(v, leaf);
    case Record(_) =>
      s := RecordToQString(v, leaf);
    case _ =>
      s := leaf(v);
  }

  /** The texts of a tuple's fields or a vector's elements, in order. */
  function ElementTexts(vs: seq<Value>, leaf: Value -> string): (r: seq<string>)
    ensures |r| == |vs|
  {
    seq(|vs|, i requires 0 <= i < |vs| => Show(vs[i], leaf))
  }

  /** The name:value texts of a record's fields, in order. */
  function FieldTexts(nvs: seq<(string, Value)>, leaf: Value -> string): (r: seq<string>)
    ensures |r| == |nvs|
  {
    seq(|nvs|, i requires 0 <= i < |nvs| => nvs[i].0 + ":" + Show(nvs[i].1, leaf))
  }

  /** A composite's text is its parts' texts enclosed. */
  lemma ShowComposite(v: Value, leaf: Value -> string)
    requires v.Tuple? || v.Vec? || v.Record?
    ensures v.Tuple? ==> Show(v, leaf) == Enclose('(', ElementTexts(v.fieldValues, leaf), ')')
    ensures v.Vec? ==> Show(v, leaf) == Enclose('[', ElementTexts(v.values, leaf), ']')
    ensures v.Record? ==> Show(v, leaf) == Enclose('{', FieldTexts(v.namedValues, leaf), '}')
  {
  }

  /** One more part after the opening text: the separator unless it is the
      first, then the part. */
  lemma OpenSnoc(open: string, parts: seq<string>, t: string)
    ensures open + Join(parts + [t]) == open + Join(parts) + (if parts == [] then "" else "; ") + t
  {
    JoinSnoc(parts, t);
  }

  /** The text after the last part is closed: the enclosed parts. */
  lemma OpenClose(open: char, parts: seq<string>, close: char)
    ensures [open] + Join(parts) + [close] == Enclose(open, parts, close)
  {
  }

  /** Tuple::toQString: "(", the fields with "; " before each but the
      first, ")". */
  method TupleToQString(v: Value, leaf: Value -> string) returns (s: string)
    requires v.Tuple?
    ensures s == Show(v, leaf)
    decreases v, 0
  {
    var fieldValues := v.fieldValues;
    ghost var texts := ElementTexts(fieldValues, leaf);
    s := "(";
    var i := 0;
    while i < |fieldValues|
      invariant 0 <= i <= |fieldValues|
      invariant s == "(" + Join(texts[..i])
    {
      OpenSnoc("(", texts[..i], texts[i]);
      if i > 0 {
        s := s + "; ";
      }
      var t := ToQString(fieldValues[i], leaf);
      s := s + t;
      assert texts[..i + 1] == texts[..i] + [t];
      i := i + 1;
    }
    assert texts[..i] == texts;
    OpenClose('(', texts, ')');
    s := s + ")";
    ShowComposite(v, leaf);
  }

  /** Vec::toQString: "[", the elements with "; " before each but the
      first, "]". */
  method VecToQString(v: Value, leaf: Value -> string) returns (s: string)
    requires v.Vec?
    ensures s == Show(v, leaf)
    decreases v, 0
  {
    var values := v.values;
    ghost var texts := ElementTexts(values, leaf);
    s := "[";
    var i := 0;
    while i < |values|
      invariant 0 <= i <= |values|
      invariant s == "[" + Join(texts[..i])
    {
      OpenSnoc("[", texts[..i], texts[i]);
      if i > 0 {
        s := s + "; ";
      }
      var t := ToQString(values[i], leaf);
      s := s + t;
      assert texts[..i + 1] == texts[..i] + [t];
      i := i + 1;
    }
    assert texts[..i] == texts;
    OpenClose('[', texts, ']');
    s := s + "]";
    ShowComposite(v, leaf);
  }

  /** Record::toQString: "{", each field as name:value with "; " before
      each but the first, "}". */
  method RecordToQString(v: Value, leaf: Value -> string) returns (s: string)
    requires v.Record?
    ensures s == Show(v, leaf)
    decreases v, 0
  {
    var fieldValues := v.namedValues;
    ghost var texts := FieldTexts(fieldValues, leaf);
    s := "{";
    var i := 0;
    while i < |fieldValues|
      invariant 0 <= i <= |fieldValues|
      invariant s == "{" + Join(texts[..i])
    {
      OpenSnoc("{", texts[..i], texts[i]);
      if i > 0 {
        s := s + "; ";
      }
      var t := ToQString(fieldValues[i].1, leaf);
      var part := fieldValues[i].0 + ":" + t;
      s := s + part;
      assert texts[..i + 1] == texts[..i] + [part];
      i := i + 1;
    }
    assert texts[..i] == texts;
    OpenClose('{', texts, '}');
    s := s + "}";
    ShowComposite(v, leaf);
  }
}
