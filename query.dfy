/**
 * The `Query` object of parser/src/query.rs: it collects the table-block columns and the
 * program steps that the caller reads from SQLite, and encodes the result of sqlx's
 * explain analysis as a flat list of 32-bit integers. The analysis itself is not part of
 * this model; it is a parameter of `Explain`.
 */
module ExplainQuery {
  import opened Wrappers

  type i64 = x: int | -0x8000_0000_0000_0000 <= x < 0x8000_0000_0000_0000
  type i32 = x: int | -0x8000_0000 <= x < 0x8000_0000
  type byte = x: int | 0 <= x < 0x100

  // ---------------------------------------------------------------------------
  // String::into_bytes

  /** The UTF-8 encoding of one Unicode scalar value. */
  function EncodeChar(c: char): (r: seq<byte>)
    ensures 1 <= |r| <= 4
    ensures (c as int) < 0x80 <==> |r| == 1
    ensures forall i :: 1 <= i < |r| ==> 0x80 <= r[i] < 0xC0
  {
    var v := c as int;
    if v < 0x80 then [v]
    else if v < 0x800 then [0xC0 + v / 0x40, 0x80 + v % 0x40]
    else if v < 0x1_0000 then [0xE0 + v / 0x1000, 0x80 + (v / 0x40) % 0x40, 0x80 + v % 0x40]
    else [0xF0 + v / 0x4_0000, 0x80 + (v / 0x1000) % 0x40, 0x80 + (v / 0x40) % 0x40, 0x80 + v % 0x40]
  }

  /** The scalar value a well-formed sequence of one to four bytes encodes. */
  function DecodeChar(b: seq<byte>): int
    requires 1 <= |b| <= 4
  {
    var lead: int := b[0];
    if |b| == 1 then lead
    else if |b| == 2 then (lead - 0xC0) * 0x40 + Payload(b[1])
    else if |b| == 3 then (lead - 0xE0) * 0x1000 + Payload(b[1]) * 0x40 + Payload(b[2])
    else (lead - 0xF0) * 0x4_0000 + Payload(b[1]) * 0x1000 + Payload(b[2]) * 0x40 + Payload(b[3])
  }

  /** The six payload bits of a continuation byte. */
  function Payload(x: byte): int
  {
    x as int - 0x80
  }

  /** Decoding the bytes of a character gives the character back. */
  lemma DecodeEncodeChar(c: char)
    ensures DecodeChar(EncodeChar(c)) == c as int
  {
    var v := c as int;
    if v >= 0x1_0000 {
      assert v == (v / 0x4_0000) * 0x4_0000 + ((v / 0x1000) % 0x40) * 0x1000 + ((v / 0x40) % 0x40) * 0x40 + v % 0x40;
    } else if v >= 0x800 {
      assert v == (v / 0x1000) * 0x1000 + ((v / 0x40) % 0x40) * 0x40 + v % 0x40;
    }
  }

  /** `String::into_bytes`: the UTF-8 encoding of the text. */
  function Utf8Encode(s: string): (r: seq<byte>)
    ensures |s| <= |r| <= 4 * |s|
  {
    if |s| == 0 then [] else EncodeChar(s[0]) + Utf8Encode(s[1..])
  }

  /** Text made of ASCII characters is stored byte for byte. */
  lemma {:induction false} AsciiBytes(s: string)
    requires forall i :: 0 <= i < |s| ==> (s[i] as int) < 0x80
    ensures Utf8Encode(s) == seq(|s|, i requires 0 <= i < |s| => s[i] as int as byte)
  {
    if |s| > 0 {
      AsciiBytes(s[1..]);
    }
  }

  // ---------------------------------------------------------------------------
  // The collected rows

  /** A row of the table-block query: (dbnum, rootpage, colnum, type name, notnull). */
  datatype TableBlockColumn = TableBlockColumn(dbnum: i64, rootpage: i64, colnum: i64, typeName: string, notNull: bool)

  /** A row of `EXPLAIN`: (addr, opcode, p1, p2, p3, p4 as bytes). */
  datatype ProgramStep = ProgramStep(addr: i64, opcode: string, p1: i64, p2: i64, p3: i64, p4: seq<byte>)

  // ---------------------------------------------------------------------------
  // The explain result

  /** sqlx's `DataType`. */
  datatype DataType = NullType | Integer | Float | Text | Blob | Numeric | Bool | Int4 | Date | Time | Datetime

  /** The result sqlx's analysis returns: a type and a nullability per result column. */
  datatype ExplainOutput = ExplainOutput(types: seq<DataType>, nullable: seq<Option<bool>>)

  datatype NullableStatus = StatusNotNull | StatusNull | StatusUnknown
  datatype JSColumnType = JSNumber | JSString | JSBuffer | JSNull

  /** The discriminant of `NullableStatus`, in declaration order. */
  function StatusCode(s: NullableStatus): (r: i32)
    ensures 0 <= r < 3
  {
    match s
    case StatusNotNull => 0
    case StatusNull => 1
    case StatusUnknown => 2
  }

  /** The discriminant of `JSColumnType`, in declaration order. */
  function JSTypeCode(t: JSColumnType): (r: i32)
    ensures 0 <= r < 4
  {
    match t
    case JSNumber => 0
    case JSString => 1
    case JSBuffer => 2
    case JSNull => 3
  }

  function StatusOfCode(code: i32): Option<NullableStatus>
  {
    if code == 0 then Some(StatusNotNull)
    else if code == 1 then Some(StatusNull)
    else if code == 2 then Some(StatusUnknown)
    else None
  }

  function JSTypeOfCode(code: i32): Option<JSColumnType>
  {
    if code == 0 then Some(JSNumber)
    else if code == 1 then Some(JSString)
    else if code == 2 then Some(JSBuffer)
    else if code == 3 then Some(JSNull)
    else None
  }

  /** The codes are read back as the values they encode. */
  lemma CodesRoundTrip(s: NullableStatus, t: JSColumnType)
    ensures StatusOfCode(StatusCode(s)) == Some(s)
    ensures JSTypeOfCode(JSTypeCode(t)) == Some(t)
  {
  }

  function Status(nullable: Option<bool>): (r: NullableStatus)
    ensures r == StatusNull <==> nullable == Some(true)
    ensures r == StatusNotNull <==> nullable == Some(false)
    ensures r == StatusUnknown <==> nullable.None?
  {
    match nullable
    case Some(true) => StatusNull
    case Some(false) => StatusNotNull
    case None => StatusUnknown
  }

  /** Only NULL, TEXT and BLOB have their own kind; every other data type is a number. */
  function JSType(t: DataType): (r: JSColumnType)
    ensures r == JSNull <==> t == NullType
    ensures r == JSString <==> t == Text
    ensures r == JSBuffer <==> t == Blob
  {
    match t
    case NullType => JSNull
    case Text => JSString
    case Blob => JSBuffer
    case _ => JSNumber
  }

  /** `index as i32`: the low 32 bits of the index, read as a signed integer. */
  function IndexAsI32(k: nat): (r: i32)
    ensures k < 0x8000_0000 ==> r == k
  {
    var low := k % 0x1_0000_0000;
    if low < 0x8000_0000 then low else low - 0x1_0000_0000
  }

  function Min(a: nat, b: nat): nat
  {
    if a <= b then a else b
  }

  /** The flattened triples `[index, nullable status, kind]` of the zipped columns. */
  function EncodeTriples(out: ExplainOutput): (r: seq<i32>)
    ensures |r| == 3 * Min(|out.types|, |out.nullable|)
    ensures forall k :: 0 <= k < Min(|out.types|, |out.nullable|) ==>
      r[3 * k] == IndexAsI32(k)
      && r[3 * k + 1] == StatusCode(Status(out.nullable[k]))
      && r[3 * k + 2] == JSTypeCode(JSType(out.types[k]))
    decreases Min(|out.types|, |out.nullable|)
  {
    var n := Min(|out.types|, |out.nullable|);
    if n == 0 then []
    else
      var last := [IndexAsI32(n - 1), StatusCode(Status(out.nullable[n - 1])), JSTypeCode(JSType(out.types[n - 1]))];
      var init := EncodeTriples(ExplainOutput(out.types[..n - 1], out.nullable[..n - 1]));
      assert Min(|out.types[..n - 1]|, |out.nullable[..n - 1]|) == n - 1;
      init + last
  }

  /** `explain`'s result: None when the analysis fails, else the triples. */
  function EncodeExplain(result: Option<ExplainOutput>): (r: Option<seq<i32>>)
    ensures r.None? <==> result.None?
    ensures r.Some? ==> |r.value| == 3 * Min(|result.value.types|, |result.value.nullable|)
  {
    if result.None? then None else Some(EncodeTriples(result.value))
  }

  /** Each triple decodes back to the column's index, nullability and kind. */
  lemma TriplesDecode(out: ExplainOutput, k: nat)
    requires k < Min(|out.types|, |out.nullable|) && k < 0x8000_0000
    ensures var r := EncodeTriples(out);
      && r[3 * k] == k
      && StatusOfCode(r[3 * k + 1]) == Some(Status(out.nullable[k]))
      && JSTypeOfCode(r[3 * k + 2]) == Some(JSType(out.types[k]))
  {
    CodesRoundTrip(Status(out.nullable[k]), JSType(out.types[k]));
  }

  /** The analysis runs on what the object collected and on the query text. */
  type Explainer = (seq<TableBlockColumn>, seq<ProgramStep>, string) -> Option<ExplainOutput>

  class Query {
    var tableBlockColumns: seq<TableBlockColumn>
    var program: seq<ProgramStep>

    constructor ()
      ensures tableBlockColumns == [] && program == []
    {
      tableBlockColumns := [];
      program := [];
    }

    method AddTableBlockColumn(dbnum: i64, rootpage: i64, colnum: i64, typeName: string, notNull: bool)
      modifies this
      ensures tableBlockColumns == old(tableBlockColumns) + [TableBlockColumn(dbnum, rootpage, colnum, typeName, notNull)]
      ensures program == old(program)
    {
      tableBlockColumns := tableBlockColumns + [TableBlockColumn(dbnum, rootpage, colnum, typeName, notNull)];
    }

    method AddProgramStep(addr: i64, opcode: string, p1: i64, p2: i64, p3: i64, p4: string)
      modifies this
      ensures program == old(program) + [ProgramStep(addr, opcode, p1, p2, p3, Utf8Encode(p4))]
      ensures tableBlockColumns == old(tableBlockColumns)
    {
      program := program + [ProgramStep(addr, opcode, p1, p2, p3, Utf8Encode(p4))];
    }

    /** `explain`: the analysis of the collected rows and the query, encoded. */
    method Explain(query: string, explain: Explainer) returns (r: Option<seq<i32>>)
      ensures r == EncodeExplain(explain(tableBlockColumns, program, query))
    {
      var result := explain(tableBlockColumns, program, query);
      r := EncodeExplain(result);
    }
  }
}
