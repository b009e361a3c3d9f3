/**
 The demo-seed fingerprint: database values become type-tagged JSON, the JSON is
 printed compactly with sorted keys, and each record is framed with a newline.
 */
module CanonicalEncoding {
  import opened Wrappers
  import opened Text
  import opened FixedDecimal
  import opened JsonText

  type Byte = n: nat | n < 256

  datatype Value =
    | Null
    | Bool(b: bool)
    | Int(n: int)
    | Dec(d: Number)
    | Str(s: string)
    | Bytes(bytes: seq<Byte>)
    | List(items: seq<Value>)
    | Dict(fields: map<string, Value>)

  // ------------------------------------------------------------------
  // Type tagging
  // ------------------------------------------------------------------

  function Signed(n: int): string {
    if n < 0 then "-" + Decimal(-n) else Decimal(n)
  }

  function Hex(bytes: seq<Byte>): string {
    if bytes == [] then "" else [HEX_DIGITS[bytes[0] / 16], HEX_DIGITS[bytes[0] % 16]] + Hex(bytes[1..])
  }

  function Tagged(tag: string, value: Json): Json {
    JObj(map["type" := JStr(tag), "value" := value])
  }

  function Canonical(v: Value): Json {
    match v
    case Null => JObj(map["type" := JStr("null")])
    case Bool(b) => Tagged("boolean", JBool(b))
    case Int(n) => Tagged("integer", JStr(Signed(n)))
    case Dec(d) => Tagged("decimal", JStr(FixedText(d)))
    case Bytes(bytes) => Tagged("bytes", JStr(Hex(bytes)))
    case Str(s) => Tagged("string", JStr(s))
    case Dict(fields) => JObj(map k | k in fields :: Canonical(fields[k]))
    case List(items) => JArr(seq(|items|, i requires 0 <= i < |items| => Canonical(items[i])))
  }

  // ------------------------------------------------------------------
  // Reading the scalars
  // ------------------------------------------------------------------

  function ReadSigned(s: string): Option<int> {
    if s != [] && AllDigits(s) then Some(DecimalValue(s))
    else if |s| > 1 && s[0] == '-' && AllDigits(s[1..]) then Some(0 - DecimalValue(s[1..]) as int)
    else None
  }

  lemma SignedReadsBack(n: int)
    ensures ReadSigned(Signed(n)) == Some(n)
  {
    DecimalRoundTrip(if n < 0 then -n else n);
    hide Decimal, DecimalValue;
    if n < 0 {
      assert Signed(n)[0] == '-' && Signed(n)[1..] == Decimal(-n);
    }
  }

  function ReadHex(s: string): Option<seq<Byte>> {
    if s == [] then Some([])
    else if |s| == 1 || HexValue(s[0]).None? || HexValue(s[1]).None? then None
    else
      match ReadHex(s[2..])
      case None => None
      case Some(rest) => Some([16 * HexValue(s[0]).value + HexValue(s[1]).value] + rest)
  }

  lemma {:induction false} HexReadsBack(bytes: seq<Byte>)
    ensures ReadHex(Hex(bytes)) == Some(bytes)
  {
    if bytes != [] {
      HexReadsBack(bytes[1..]);
      HexDigitRead(bytes[0] / 16);
      HexDigitRead(bytes[0] % 16);
      var high, low, rest := HEX_DIGITS[bytes[0] / 16], HEX_DIGITS[bytes[0] % 16], Hex(bytes[1..]);
      assert Hex(bytes) == [high, low] + rest;
      var first: int := bytes[0];
      assert first == 16 * (first / 16) + first % 16;
      hide HexValue, HEX_DIGITS, Hex, ReadHex;
      HexPairRead(high, low, rest, bytes[1..]);
      assert bytes == [bytes[0]] + bytes[1..];
    }
  }

  lemma HexPairRead(high: char, low: char, rest: string, bytes: seq<Byte>)
    requires HexValue(high).Some? && HexValue(low).Some? && ReadHex(rest) == Some(bytes)
    ensures ReadHex([high, low] + rest) == Some([16 * HexValue(high).value + HexValue(low).value] + bytes)
  {
    hide HexValue;
    assert ([high, low] + rest)[2..] == rest;
  }

  /** A tagged scalar has a text under "type"; an encoded mapping never does. */
  lemma TagTellsScalars(v: Value)
    ensures v.Dict? ==> Canonical(v).JObj? && ("type" in Canonical(v).members ==> !Canonical(v).members["type"].JStr?)
    ensures !v.Dict? && !v.List? ==>
              Canonical(v).JObj? && "type" in Canonical(v).members && Canonical(v).members["type"].JStr?
  {}

  /** Equal but for how decimals with a positive exponent are split. */
  ghost predicate Same(a: Value, b: Value) {
    match a
    case Dec(d) => b.Dec? && SameNumber(d, b.d)
    case List(items) =>
      b.List? && |items| == |b.items| && forall i :: 0 <= i < |items| ==> Same(items[i], b.items[i])
    case Dict(fields) =>
      b.Dict? && fields.Keys == b.fields.Keys && forall k :: k in fields ==> Same(fields[k], b.fields[k])
    case _ => a == b
  }

  /** Different values have different encodings, except that decimals share one exactly when they share their text. */
  lemma {:induction false} CanonicalExactly(a: Value, b: Value)
    ensures Canonical(a) == Canonical(b) <==> Same(a, b)
    decreases a
  {
    TagTellsScalars(a);
    TagTellsScalars(b);
    match a
    case Dict(fields) =>
      if b.Dict? {
        forall k | k in fields && k in b.fields
          ensures Canonical(fields[k]) == Canonical(b.fields[k]) <==> Same(fields[k], b.fields[k])
        {
          CanonicalExactly(fields[k], b.fields[k]);
        }
        DictExactly(a, b);
      }
    case List(items) =>
      if b.List? {
        forall i | 0 <= i < |items| && i < |b.items|
          ensures Canonical(items[i]) == Canonical(b.items[i]) <==> Same(items[i], b.items[i])
        {
          CanonicalExactly(items[i], b.items[i]);
        }
        ListExactly(a, b);
      }
    case _ =>
      if !b.Dict? && !b.List? {
        ScalarExactly(a, b);
      }
  }

  lemma DictExactly(a: Value, b: Value)
    requires a.Dict? && b.Dict?
    requires forall k :: k in a.fields && k in b.fields ==>
               (Canonical(a.fields[k]) == Canonical(b.fields[k]) <==> Same(a.fields[k], b.fields[k]))
    ensures Canonical(a) == Canonical(b) <==> Same(a, b)
  {
    var m, n := Canonical(a).members, Canonical(b).members;
    assert m.Keys == a.fields.Keys && n.Keys == b.fields.Keys;
    assert forall k :: k in m ==> m[k] == Canonical(a.fields[k]);
    assert forall k :: k in n ==> n[k] == Canonical(b.fields[k]);
    if m == n {
      assert forall k :: k in a.fields ==> m[k] == n[k];
    }
    if Same(a, b) {
      assert m == n;
    }
  }

  lemma ListExactly(a: Value, b: Value)
    requires a.List? && b.List?
    requires forall i :: 0 <= i < |a.items| && i < |b.items| ==>
               (Canonical(a.items[i]) == Canonical(b.items[i]) <==> Same(a.items[i], b.items[i]))
    ensures Canonical(a) == Canonical(b) <==> Same(a, b)
  {
    var s, t := Canonical(a).items, Canonical(b).items;
    assert |s| == |a.items| && |t| == |b.items|;
    assert forall i :: 0 <= i < |s| ==> s[i] == Canonical(a.items[i]);
    assert forall i :: 0 <= i < |t| ==> t[i] == Canonical(b.items[i]);
    if s == t {
      assert forall i :: 0 <= i < |s| ==> s[i] == t[i];
    }
    if Same(a, b) {
      assert s == t;
    }
  }

  lemma ScalarExactly(a: Value, b: Value)
    requires !a.Dict? && !a.List? && !b.Dict? && !b.List?
    ensures Canonical(a) == Canonical(b) <==> Same(a, b)
  {
    hide Hex, Signed, FixedText, SameNumber;
    if a.Dec? && b.Dec? {
      FixedTextExactly(a.d, b.d);
    }
    if Canonical(a) == Canonical(b) {
      assert Canonical(a).members["type"] == Canonical(b).members["type"];
      if !a.Null? && !b.Null? {
        assert Canonical(a).members["value"] == Canonical(b).members["value"];
      }
      if a.Int? && b.Int? {
        SignedReadsBack(a.n);
        SignedReadsBack(b.n);
      } else if a.Bytes? && b.Bytes? {
        HexReadsBack(a.bytes);
        HexReadsBack(b.bytes);
      }
    }
  }

  /** No decimal has a positive exponent. */
  ghost predicate Plain(v: Value) {
    match v
    case Dec(d) => d.Finite? ==> d.exponent <= 0
    case List(items) => forall i :: 0 <= i < |items| ==> Plain(items[i])
    case Dict(fields) => forall k :: k in fields ==> Plain(fields[k])
    case _ => true
  }

  lemma {:induction false} PlainSameIsEqual(a: Value, b: Value)
    requires Plain(a) && Plain(b) && Same(a, b)
    ensures a == b
    decreases a
  {
    match a
    case Dict(fields) =>
      forall k | k in fields
        ensures fields[k] == b.fields[k]
      {
        PlainSameIsEqual(fields[k], b.fields[k]);
      }
      assert fields == b.fields;
    case List(items) =>
      forall i | 0 <= i < |items|
        ensures items[i] == b.items[i]
      {
        PlainSameIsEqual(items[i], b.items[i]);
      }
    case _ =>
  }

  /** Without positive exponents the encoding is injective. */
  lemma CanonicalInjective(a: Value, b: Value)
    requires Canonical(a) == Canonical(b)
    ensures Plain(a) && Plain(b) ==> a == b
  {
    CanonicalExactly(a, b);
    if Plain(a) && Plain(b) {
      PlainSameIsEqual(a, b);
    }
  }

  // ------------------------------------------------------------------
  // Reading the encoding
  // ------------------------------------------------------------------

  /** What stands under "type" and "value". */
  function ReadTagged(tag: string, value: Json): Option<Value> {
    if value.JBool? then if tag == "boolean" then Some(Bool(value.b)) else None
    else if !value.JStr? then None
    else if tag == "string" then Some(Str(value.s))
    else if tag == "integer" then if ReadSigned(value.s).Some? then Some(Int(ReadSigned(value.s).value)) else None
    else if tag == "decimal" then if ReadNumber(value.s).Some? then Some(Dec(ReadNumber(value.s).value)) else None
    else if tag == "bytes" then if ReadHex(value.s).Some? then Some(Bytes(ReadHex(value.s).value)) else None
    else None
  }

  function ReadScalar(tag: string, members: map<string, Json>): Option<Value> {
    if "value" in members then ReadTagged(tag, members["value"]) else if tag == "null" then Some(Null) else None
  }

  /** A text under "type" makes a scalar; everything else is read item by item. */
  function ReadValue(j: Json): Option<Value> {
    match j
    case JObj(members) =>
      if "type" in members && members["type"].JStr? then ReadScalar(members["type"].s, members)
      else if exists k :: k in members && ReadValue(members[k]).None? then None
      else Some(Dict(map k | k in members :: ReadValue(members[k]).value))
    case JArr(items) =>
      if exists i :: 0 <= i < |items| && ReadValue(items[i]).None? then None
      else Some(List(seq(|items|, i requires 0 <= i < |items| => ReadValue(items[i]).value)))
    case _ => None
  }

  /** The value with every decimal as its text tells it. */
  function Normalized(v: Value): Value {
    match v
    case Dec(d) => Dec(Normal(d))
    case List(items) => List(seq(|items|, i requires 0 <= i < |items| => Normalized(items[i])))
    case Dict(fields) => Dict(map k | k in fields :: Normalized(fields[k]))
    case _ => v
  }

  lemma TaggedReadsBack(v: Value, tag: string, value: Json)
    requires Canonical(v) == Tagged(tag, value)
    ensures ReadValue(Canonical(v)) == ReadTagged(tag, value)
  {
    hide Canonical, ReadTagged;
    var members := Tagged(tag, value).members;
    assert members["type"] == JStr(tag) && members["value"] == value;
  }

  lemma TagsDiffer()
    ensures "string" != "integer" && "string" != "decimal" && "string" != "bytes"
    ensures "integer" != "decimal" && "integer" != "bytes" && "decimal" != "bytes"
  {
    assert "string"[0] == 's' && "integer"[0] == 'i' && "decimal"[0] == 'd' && "bytes"[0] == 'b';
  }

  lemma ScalarReadsBack(v: Value)
    requires !v.Dict? && !v.List?
    ensures ReadValue(Canonical(v)) == Some(Normalized(v))
  {
    TagsDiffer();
    match v
    case Null => assert Canonical(v).members["type"] == JStr("null");
    case Bool(b) => TaggedReadsBack(v, "boolean", JBool(b));
    case Str(s) => TaggedReadsBack(v, "string", JStr(s));
    case Int(n) =>
      SignedReadsBack(n);
      TaggedReadsBack(v, "integer", JStr(Signed(n)));
    case Dec(d) =>
      NumberReadsBack(d);
      TaggedReadsBack(v, "decimal", JStr(FixedText(d)));
    case Bytes(bytes) =>
      HexReadsBack(bytes);
      TaggedReadsBack(v, "bytes", JStr(Hex(bytes)));
    hide ReadValue, Signed, ReadSigned, FixedText, ReadNumber, Normal, Hex, ReadHex;
  }

  lemma DictReadsBack(v: Value)
    requires v.Dict? && forall k :: k in v.fields ==> ReadValue(Canonical(v.fields[k])) == Some(Normalized(v.fields[k]))
    ensures ReadValue(Canonical(v)) == Some(Normalized(v))
  {
    TagTellsScalars(v);
    var members := Canonical(v).members;
    var fields := map k | k in v.fields :: Normalized(v.fields[k]);
    assert Normalized(v) == Dict(fields);
    assert members.Keys == v.fields.Keys == fields.Keys;
    assert forall k :: k in members ==> members[k] == Canonical(v.fields[k]);
    hide Canonical, Normalized;
    DictRead(members, fields);
  }

  lemma DictRead(members: map<string, Json>, fields: map<string, Value>)
    requires "type" in members ==> !members["type"].JStr?
    requires members.Keys == fields.Keys && forall k :: k in members ==> ReadValue(members[k]) == Some(fields[k])
    ensures ReadValue(JObj(members)) == Some(Dict(fields))
  {
    hide ReadScalar;
    var read := map k | k in members :: ReadValue(members[k]).value;
    assert !exists k :: k in members && ReadValue(members[k]).None?;
    assert ReadValue(JObj(members)) == Some(Dict(read));
    assert read == fields;
  }

  lemma ListReadsBack(v: Value)
    requires v.List? && forall i :: 0 <= i < |v.items| ==> ReadValue(Canonical(v.items[i])) == Some(Normalized(v.items[i]))
    ensures ReadValue(Canonical(v)) == Some(Normalized(v))
  {
    var list := Canonical(v).items;
    assert |list| == |v.items| && forall i :: 0 <= i < |list| ==> list[i] == Canonical(v.items[i]);
    assert forall i :: 0 <= i < |list| ==> ReadValue(list[i]) == Some(Normalized(v.items[i]));
    var read := seq(|list|, i requires 0 <= i < |list| => ReadValue(list[i]).value);
    assert ReadValue(Canonical(v)) == Some(List(read));
    assert read == seq(|v.items|, i requires 0 <= i < |v.items| => Normalized(v.items[i]));
  }

  /** Reading an encoding gives the value back, its decimals normalized. */
  lemma {:induction false} ValueReadsBack(v: Value)
    ensures ReadValue(Canonical(v)) == Some(Normalized(v))
    decreases v
  {
    TagTellsScalars(v);
    match v
    case Dict(fields) =>
      forall k | k in fields
        ensures ReadValue(Canonical(fields[k])) == Some(Normalized(fields[k]))
      {
        ValueReadsBack(fields[k]);
      }
      DictReadsBack(v);
    case List(items) =>
      forall i | 0 <= i < |items|
        ensures ReadValue(Canonical(items[i])) == Some(Normalized(items[i]))
      {
        ValueReadsBack(items[i]);
      }
      ListReadsBack(v);
    case _ => ScalarReadsBack(v);
  }

  // ------------------------------------------------------------------
  // The stream of records
  // ------------------------------------------------------------------

  function Stream(records: seq<Value>): string {
    if records == [] then "" else Print(Canonical(records[0])) + "\n" + Stream(records[1..])
  }

  /** The loop that feeds the digest feeds it exactly the framed records. */
  method CanonicalStream(records: seq<Value>) returns (fed: string)
    ensures fed == Stream(records)
  {
    hide Print, Canonical;
    fed := "";
    for i := 0 to |records|
      invariant fed + Stream(records[i..]) == Stream(records)
    {
      assert records[i..][1..] == records[i + 1..];
      var encoded := Print(Canonical(records[i]));
      fed := fed + encoded;
      fed := fed + "\n";
    }
  }

  /** Records from framed text. */
  function ReadStream(s: string): Option<seq<Value>>
    decreases |s|
  {
    if s == [] then Some([])
    else
      match ReadJson(s)
      case None => None
      case Some((j, rest)) =>
        if rest == [] || rest[0] != '\n' || ReadValue(j).None? then None
        else
          match ReadStream(rest[1..])
          case None => None
          case Some(records) => Some([ReadValue(j).value] + records)
  }

  function NormalizedAll(records: seq<Value>): (r: seq<Value>)
    ensures |r| == |records|
  {
    seq(|records|, i requires 0 <= i < |records| => Normalized(records[i]))
  }

  /** The text fed to the digest reads back as the records, their decimals normalized. */
  lemma {:induction false} StreamReadsBack(records: seq<Value>)
    ensures ReadStream(Stream(records)) == Some(NormalizedAll(records))
  {
    hide Print, Canonical, Normalized, ReadJson, ReadValue;
    if records != [] {
      var j, tail := Canonical(records[0]), Stream(records[1..]);
      StreamCons(records);
      ReadsBack(j, "\n" + tail);
      ValueReadsBack(records[0]);
      StreamReadsBack(records[1..]);
      assert ("\n" + tail)[1..] == tail;
      assert Stream(records) != [];
      assert NormalizedAll(records) == [Normalized(records[0])] + NormalizedAll(records[1..]);
    }
  }

  ghost predicate SameRecords(a: seq<Value>, b: seq<Value>) {
    |a| == |b| && forall i :: 0 <= i < |a| ==> Same(a[i], b[i])
  }

  lemma SameRecordsCons(a: seq<Value>, b: seq<Value>)
    requires a != [] && b != []
    ensures SameRecords(a, b) <==> Same(a[0], b[0]) && SameRecords(a[1..], b[1..])
  {
    hide Same;
    if SameRecords(a[1..], b[1..]) {
      assert forall i :: 1 <= i < |a| ==> a[i] == a[1..][i - 1] && b[i] == b[1..][i - 1];
    }
  }

  /** The text fed to the digest is equal exactly when the record lists are, up to the split of positive exponents. */
  lemma {:induction false} StreamExactly(a: seq<Value>, b: seq<Value>)
    ensures Stream(a) == Stream(b) <==> SameRecords(a, b)
  {
    if a != [] && b != [] {
      StreamCons(a);
      StreamCons(b);
      hide Stream, Print, Canonical, Same, SameRecords;
      SameRecordsCons(a, b);
      CanonicalExactly(a[0], b[0]);
      StreamExactly(a[1..], b[1..]);
      if Stream(a) == Stream(b) {
        PrintUnambiguous(Canonical(a[0]), Canonical(b[0]), "\n" + Stream(a[1..]), "\n" + Stream(b[1..]));
        assert ("\n" + Stream(a[1..]))[1..] == Stream(a[1..]) && ("\n" + Stream(b[1..]))[1..] == Stream(b[1..]);
      }
    } else {
      hide Print, Canonical, Same;
    }
  }

  lemma StreamCons(records: seq<Value>)
    requires records != []
    ensures Stream(records) == Print(Canonical(records[0])) + ("\n" + Stream(records[1..]))
  {
    hide Print, Canonical;
  }

  /** Without positive exponents it determines the whole list of records. */
  lemma StreamInjective(a: seq<Value>, b: seq<Value>)
    requires Stream(a) == Stream(b)
    ensures (forall i :: 0 <= i < |a| ==> Plain(a[i])) && (forall i :: 0 <= i < |b| ==> Plain(b[i])) ==> a == b
  {
    hide Stream, Same, Plain;
    StreamExactly(a, b);
    if (forall i :: 0 <= i < |a| ==> Plain(a[i])) && (forall i :: 0 <= i < |b| ==> Plain(b[i])) {
      forall i | 0 <= i < |a|
        ensures a[i] == b[i]
      {
        PlainSameIsEqual(a[i], b[i]);
      }
    }
  }

  /** Ten and one with exponent 1 differ and have the same fingerprint. */
  lemma DecimalsCanCollide()
    ensures var a, b := [Dec(Finite(false, 10, 0))], [Dec(Finite(false, 1, 1))]; a != b && Stream(a) == Stream(b)
  {
    DifferentNumbersShareText();
    var a, b := Dec(Finite(false, 10, 0)), Dec(Finite(false, 1, 1));
    CanonicalExactly(a, b);
    hide Print, Canonical, FixedText;
    assert Stream([a][1..]) == Stream([b][1..]);
  }
}
