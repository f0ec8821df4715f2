/** The profile file format: four hexadecimal fields, each followed by a space, then the raw data
    bytes and a newline. */
module LogFile {
  import opened DiskOps
  import opened Finite
  import opened Wrappers

  const SPACE: byte := 32
  const NEWLINE: byte := 10

  predicate IsSpace(b: byte) {
    b == SPACE || 9 <= b <= 13
  }

  predicate IsHexDigit(b: byte) {
    48 <= b <= 57 || 65 <= b <= 70 || 97 <= b <= 102
  }

  function DigitValue(b: byte): (d: nat)
    requires IsHexDigit(b)
    ensures d < 16
  {
    if b <= 57 then b as nat - 48 else if b <= 70 then b as nat - 55 else b as nat - 87
  }

  function HexDigit(d: nat): (b: byte)
    requires d < 16
    ensures IsHexDigit(b) && DigitValue(b) == d
  {
    if d < 10 then (48 + d) as byte else (87 + d) as byte
  }

  // ---------------------------------------------------------------- writing

  /** What `fs << std::hex << n` appends. */
  function PrintHex(n: nat): (s: seq<byte>)
    ensures s != [] && IsHexDigit(s[0])
  {
    if n < 16 then [HexDigit(n)] else PrintHex(n / 16) + [HexDigit(n % 16)]
  }

  /** A number and the space behind it. */
  function Field(n: nat): seq<byte> {
    PrintHex(n) + [SPACE]
  }

  function Header(m: Meta): seq<byte> {
    Field(m.biFlags as nat) + Field(m.biRw as nat) + Field(m.sector) + Field(m.size)
  }

  function Record(op: DiskWrite): seq<byte> {
    Header(op.meta) + op.data + [NEWLINE]
  }

  function Profile(ops: seq<DiskWrite>): seq<byte> {
    if ops == [] then [] else Record(ops[0]) + Profile(ops[1..])
  }

  /** An output stream opened for truncation. */
  class OutFile {
    var text: seq<byte>

    constructor ()
      ensures text == []
    {
      text := [];
    }

    method Put(s: seq<byte>)
      modifies this
      ensures text == old(text) + s
    {
      text := text + s;
    }

    method Serialize(op: DiskWrite)
      requires op.WellFormed()
      modifies this
      ensures text == old(text) + Record(op)
    {
      var m := op.meta;
      PutField(m.biFlags as nat);
      PutField(m.biRw as nat);
      PutField(m.sector);
      PutField(m.size);
      FieldsJoin(old(text), Field(m.biFlags as nat), Field(m.biRw as nat), Field(m.sector), Field(m.size));
      ghost var start := old(text) + Header(m);
      for i := 0 to m.size
        invariant text == start + op.data[..i]
      {
        Put([op.data[i]]);
        Assoc(start, op.data[..i], [op.data[i]]);
        assert op.data[..i] + [op.data[i]] == op.data[..i + 1];
      }
      assert op.data[..m.size] == op.data;
      Put([NEWLINE]);
      Assoc(old(text), Header(m), op.data);
      Assoc(old(text), Header(m) + op.data, [NEWLINE]);
    }

    method PutField(n: nat)
      modifies this
      ensures text == old(text) + Field(n)
    {
      Put(PrintHex(n));
      Put([SPACE]);
      Assoc(old(text), PrintHex(n), [SPACE]);
    }
  }

  lemma FieldsJoin(t: seq<byte>, a: seq<byte>, b: seq<byte>, c: seq<byte>, d: seq<byte>)
    ensures t + a + b + c + d == t + (a + b + c + d)
  {
    Assoc(t, a, b);
    Assoc(t, a + b, c);
    Assoc(t, a + b + c, d);
  }

  // ---------------------------------------------------------------- reading

  function SkipSpaces(t: seq<byte>): seq<byte> {
    if t != [] && IsSpace(t[0]) then SkipSpaces(t[1..]) else t
  }

  /** The number spelled by the leading hexadecimal digits, after `acc`, and the text behind them. */
  function TakeHex(t: seq<byte>, acc: nat): (nat, seq<byte>) {
    if t != [] && IsHexDigit(t[0]) then TakeHex(t[1..], 16 * acc + DigitValue(t[0])) else (acc, t)
  }

  /** `is >> std::hex >> field` for an unsigned field below `limit`: no digits, or a number that does
      not fit, puts the stream into its failed state. */
  function ReadNumber(t: seq<byte>, limit: nat): Option<(nat, seq<byte>)> {
    var s := SkipSpaces(t);
    if s == [] || !IsHexDigit(s[0]) then None
    else
      var (n, rest) := TakeHex(s, 0);
      if n < limit then Some((n, rest)) else None
  }

  const LONG_LIMIT: nat := 0x1_0000_0000_0000_0000
  const INT_LIMIT: nat := 0x1_0000_0000

  /** One record from the front of the text; `None` when the program would stop on an assertion. */
  function ParseRecord(t: seq<byte>): Option<(DiskWrite, seq<byte>)> {
    match ReadNumber(t, LONG_LIMIT)
    case None => None
    case Some((flags, t1)) =>
      match ReadNumber(t1, LONG_LIMIT)
      case None => None
      case Some((rw, t2)) =>
        match ReadNumber(t2, LONG_LIMIT)
        case None => None
        case Some((sector, t3)) =>
          match ReadNumber(t3, INT_LIMIT)
          case None => None
          case Some((size, t4)) =>
            ParseBody(flags, rw, sector, size, t4)
  }

  function MetaOf(flags: nat, rw: nat, sector: nat, size: nat): Meta
    requires flags < LONG_LIMIT && rw < LONG_LIMIT && sector < LONG_LIMIT && size < INT_LIMIT
  {
    Meta(flags as bv64, rw as bv64, sector, size)
  }

  function ParseBody(flags: nat, rw: nat, sector: nat, size: nat, t: seq<byte>): Option<(DiskWrite, seq<byte>)> {
    if flags < LONG_LIMIT && rw < LONG_LIMIT && sector < LONG_LIMIT && size < INT_LIMIT
       && |t| >= size + 2 && t[0] == SPACE && t[size + 1] == NEWLINE
    then Some((DiskWrite(MetaOf(flags, rw, sector, size), t[1..size + 1]), t[size + 2..]))
    else None
  }

  /** The unread part of an input stream. */
  class InFile {
    var rest: seq<byte>

    constructor (text: seq<byte>)
      ensures rest == text
    {
      rest := text;
    }

    method ReadHex(limit: nat) returns (n: Option<nat>)
      modifies this
      ensures n == match ReadNumber(old(rest), limit) case None => None case Some(p) => Some(p.0)
      ensures n.Some? ==> Some((n.value, rest)) == ReadNumber(old(rest), limit)
      ensures |rest| <= |old(rest)|
    {
      while rest != [] && IsSpace(rest[0])
        invariant SkipSpaces(rest) == SkipSpaces(old(rest)) && |rest| <= |old(rest)|
        decreases |rest|
      {
        rest := rest[1..];
      }
      if rest == [] || !IsHexDigit(rest[0]) {
        return None;
      }
      ghost var digits := rest;
      var acc: nat := 0;
      while rest != [] && IsHexDigit(rest[0])
        invariant TakeHex(rest, acc) == TakeHex(digits, 0) && |rest| <= |old(rest)|
        decreases |rest|
      {
        acc := 16 * acc + DigitValue(rest[0]);
        rest := rest[1..];
      }
      return if acc < limit then Some(acc) else None;
    }

    method Deserialize() returns (op: Option<DiskWrite>)
      modifies this
      ensures op == match ParseRecord(old(rest)) case None => None case Some(p) => Some(p.0)
      ensures op.Some? ==> Some((op.value, rest)) == ParseRecord(old(rest)) && |rest| < |old(rest)|
    {
      var flags := ReadHex(LONG_LIMIT);
      if flags.None? { return None; }
      var rw := ReadHex(LONG_LIMIT);
      if rw.None? { return None; }
      var sector := ReadHex(LONG_LIMIT);
      if sector.None? { return None; }
      var size := ReadHex(INT_LIMIT);
      if size.None? { return None; }
      if |rest| < size.value + 2 || rest[0] != SPACE || rest[size.value + 1] != NEWLINE {
        return None;
      }
      op := Some(DiskWrite(MetaOf(flags.value, rw.value, sector.value, size.value), rest[1..size.value + 1]));
      rest := rest[size.value + 2..];
    }
  }

  /** All records of the text; `None` when loading stops on an assertion. */
  function ParseProfile(t: seq<byte>): Option<seq<DiskWrite>>
    decreases |t|
  {
    if t == [] then Some([])
    else
      match ParseRecord(t)
      case None => None
      case Some((op, rest)) =>
        if |rest| >= |t| then None
        else
          match ParseProfile(rest)
          case None => None
          case Some(ops) => Some([op] + ops)
  }

  // ---------------------------------------------------------------- round trip

  lemma {:induction false} HexRoundTrip(n: nat, s: seq<byte>)
    ensures TakeHex(PrintHex(n) + s, 0) == TakeHex(s, n)
  {
    if n < 16 {
      assert (PrintHex(n) + s)[1..] == s;
    } else {
      var last := [HexDigit(n % 16)];
      HexRoundTrip(n / 16, last + s);
      assert PrintHex(n) + s == PrintHex(n / 16) + (last + s);
      assert (last + s)[1..] == s;
    }
  }

  lemma NumberRoundTrip(n: nat, limit: nat, s: seq<byte>)
    requires n < limit
    ensures ReadNumber(Field(n) + s, limit) == Some((n, [SPACE] + s))
    ensures ReadNumber([SPACE] + (Field(n) + s), limit) == Some((n, [SPACE] + s))
  {
    var t := Field(n) + s;
    Assoc(PrintHex(n), [SPACE], s);
    HexRoundTrip(n, [SPACE] + s);
    assert SkipSpaces(t) == t;
    assert ([SPACE] + t)[1..] == t;
  }

  lemma RecordSplit(a: seq<byte>, b: seq<byte>, c: seq<byte>, d: seq<byte>, e: seq<byte>, f: seq<byte>)
    ensures a + b + c + d + e + f == a + (b + (c + (d + (e + f))))
  {
    Assoc(a + b + c + d, e, f);
    Assoc(a + b + c, d, e + f);
    Assoc(a + b, c, d + (e + f));
    Assoc(a, b, c + (d + (e + f)));
  }

  lemma RecordSteps(t0: seq<byte>, t1: seq<byte>, t2: seq<byte>, t3: seq<byte>, t4: seq<byte>,
                    flags: nat, rw: nat, sector: nat, size: nat)
    requires ReadNumber(t0, LONG_LIMIT) == Some((flags, t1))
    requires ReadNumber(t1, LONG_LIMIT) == Some((rw, t2))
    requires ReadNumber(t2, LONG_LIMIT) == Some((sector, t3))
    requires ReadNumber(t3, INT_LIMIT) == Some((size, t4))
    ensures ParseRecord(t0) == ParseBody(flags, rw, sector, size, t4)
  {
  }

  lemma HeaderRoundTrip(flags: nat, rw: nat, sector: nat, size: nat, body: seq<byte>)
    requires flags < LONG_LIMIT && rw < LONG_LIMIT && sector < LONG_LIMIT && size < INT_LIMIT
    ensures ParseRecord(Field(flags) + (Field(rw) + (Field(sector) + (Field(size) + body))))
         == ParseBody(flags, rw, sector, size, [SPACE] + body)
  {
    var t3 := Field(size) + body;
    var t2 := Field(sector) + t3;
    var t1 := Field(rw) + t2;
    NumberRoundTrip(flags, LONG_LIMIT, t1);
    NumberRoundTrip(rw, LONG_LIMIT, t2);
    NumberRoundTrip(sector, LONG_LIMIT, t3);
    NumberRoundTrip(size, INT_LIMIT, body);
    RecordSteps(Field(flags) + t1, [SPACE] + t1, [SPACE] + t2, [SPACE] + t3, [SPACE] + body, flags, rw, sector, size);
  }

  lemma RecordLayout(op: DiskWrite, s: seq<byte>)
    ensures Record(op) + s
         == Field(op.meta.biFlags as nat) + (Field(op.meta.biRw as nat) + (Field(op.meta.sector) + (Field(op.meta.size)
            + (op.data + ([NEWLINE] + s)))))
  {
    var m := op.meta;
    Assoc(Header(m) + op.data, [NEWLINE], s);
    RecordSplit(Field(m.biFlags as nat), Field(m.biRw as nat), Field(m.sector), Field(m.size), op.data, [NEWLINE] + s);
  }

  lemma RecordRoundTrip(op: DiskWrite, s: seq<byte>)
    requires op.WellFormed()
    ensures ParseRecord(Record(op) + s) == Some((op, s))
  {
    RecordLayout(op, s);
    HeaderRoundTrip(op.meta.biFlags as nat, op.meta.biRw as nat, op.meta.sector, op.meta.size,
                    op.data + ([NEWLINE] + s));
    BodyRoundTrip(op, s);
  }

  lemma WordRoundTrip(w: bv64)
    ensures (w as nat) as bv64 == w
  {
  }

  lemma MetaRoundTrip(m: Meta)
    ensures MetaOf(m.biFlags as nat, m.biRw as nat, m.sector, m.size) == m
  {
    WordRoundTrip(m.biFlags);
    WordRoundTrip(m.biRw);
  }

  lemma BodySplit(size: nat, data: seq<byte>, s: seq<byte>)
    requires |data| == size
    ensures var t := [SPACE] + (data + ([NEWLINE] + s));
            |t| >= size + 2 && t[0] == SPACE && t[size + 1] == NEWLINE && t[1..size + 1] == data && t[size + 2..] == s
  {
  }

  lemma BodyRoundTrip(op: DiskWrite, s: seq<byte>)
    requires op.WellFormed()
    ensures ParseBody(op.meta.biFlags as nat, op.meta.biRw as nat, op.meta.sector, op.meta.size,
                      [SPACE] + (op.data + ([NEWLINE] + s))) == Some((op, s))
  {
    BodySplit(op.meta.size, op.data, s);
    MetaRoundTrip(op.meta);
  }

  lemma ProfileStep(t: seq<byte>, op: DiskWrite, rest: seq<byte>, ops: seq<DiskWrite>)
    requires ParseRecord(t) == Some((op, rest)) && |rest| < |t| && ParseProfile(rest) == Some(ops)
    ensures ParseProfile(t) == Some([op] + ops)
  {
  }

  /** Saving a log and loading it again gives the same log, whatever bytes the data holds. */
  lemma {:induction false} ProfileRoundTrip(ops: seq<DiskWrite>)
    requires forall i :: 0 <= i < |ops| ==> ops[i].WellFormed()
    ensures ParseProfile(Profile(ops)) == Some(ops)
  {
    if ops != [] {
      RecordRoundTrip(ops[0], Profile(ops[1..]));
      ProfileRoundTrip(ops[1..]);
      ProfileStep(Profile(ops), ops[0], Profile(ops[1..]), ops[1..]);
      assert [ops[0]] + ops[1..] == ops;
    }
  }

  // ---------------------------------------------------------------- the text, byte by byte

  /** White space is the space and the bytes from tab to carriage return; digits are 0-9, A-F and a-f, with their
      values. */
  lemma CharClasses(b: byte, k: nat)
    ensures IsSpace(b) <==> b == 32 || b == 9 || b == 10 || b == 11 || b == 12 || b == 13
    ensures IsHexDigit(b) <==> 48 <= b <= 57 || 65 <= b <= 70 || 97 <= b <= 102
    ensures k < 10 && b == (48 + k) as byte ==> DigitValue(b) == k
    ensures k < 6 && (b == (65 + k) as byte || b == (97 + k) as byte) ==> DigitValue(b) == 10 + k
  {
  }

  /** A digit as it is printed: 0-9 or a-f in lower case. */
  predicate LowerDigit(b: byte) {
    48 <= b <= 57 || 97 <= b <= 102
  }

  /** Numbers are printed in lower case, and without leading zeros. */
  lemma {:induction false} PrintedDigits(n: nat)
    ensures forall i :: 0 <= i < |PrintHex(n)| ==> LowerDigit(PrintHex(n)[i])
    ensures PrintHex(n)[0] == 48 <==> n == 0
    ensures n < 16 <==> |PrintHex(n)| == 1
  {
    if n >= 16 { PrintedDigits(n / 16); }
  }

  /** A record is its four numbers in hexadecimal, flags, operation, sector and size, each with a space behind it, then
      the data and a newline. */
  lemma RecordText(op: DiskWrite)
    ensures Record(op)
         == PrintHex(op.meta.biFlags as nat) + [32] + PrintHex(op.meta.biRw as nat) + [32]
            + PrintHex(op.meta.sector) + [32] + PrintHex(op.meta.size) + [32] + op.data + [10]
  {
    var a, b, c, d := Field(op.meta.biFlags as nat), Field(op.meta.biRw as nat), Field(op.meta.sector),
                      Field(op.meta.size);
    assert a == PrintHex(op.meta.biFlags as nat) + [32] && b == PrintHex(op.meta.biRw as nat) + [32];
    assert c == PrintHex(op.meta.sector) + [32] && d == PrintHex(op.meta.size) + [32];
    Assoc(a, PrintHex(op.meta.biRw as nat), [32]);
    Assoc(a + b, PrintHex(op.meta.sector), [32]);
    Assoc(a + b + c, PrintHex(op.meta.size), [32]);
  }

  /** A number that does not fit is not read: the limit decides, for every printed number. */
  lemma NumberLimit(n: nat, limit: nat, s: seq<byte>)
    ensures ReadNumber(Field(n) + s, limit) == if n < limit then Some((n, [SPACE] + s)) else None
  {
    NumberRoundTrip(n, n + 1, s);
  }

  /** What is left behind a number is the end of the text. */
  ghost predicate EndOf(rest: seq<byte>, t: seq<byte>) {
    |rest| <= |t| && rest == t[|t| - |rest|..]
  }

  lemma EndOfEnd(a: seq<byte>, b: seq<byte>, c: seq<byte>)
    requires EndOf(a, b) && EndOf(b, c)
    ensures EndOf(a, c)
  {
  }

  lemma {:induction false} SkipSpacesEnd(t: seq<byte>)
    ensures EndOf(SkipSpaces(t), t)
  {
    if t != [] && IsSpace(t[0]) {
      SkipSpacesEnd(t[1..]);
      EndOfEnd(SkipSpaces(t), t[1..], t);
    }
  }

  lemma {:induction false} TakeHexEnd(t: seq<byte>, acc: nat)
    ensures EndOf(TakeHex(t, acc).1, t)
  {
    if t != [] && IsHexDigit(t[0]) {
      TakeHexEnd(t[1..], 16 * acc + DigitValue(t[0]));
      EndOfEnd(TakeHex(t, acc).1, t[1..], t);
    }
  }

  lemma ReadNumberEnd(t: seq<byte>, limit: nat)
    ensures ReadNumber(t, limit).Some? ==> EndOf(ReadNumber(t, limit).value.1, t)
  {
    SkipSpacesEnd(t);
    TakeHexEnd(SkipSpaces(t), 0);
    EndOfEnd(TakeHex(SkipSpaces(t), 0).1, SkipSpaces(t), t);
  }

  /** The numbers of a record and where its body starts, if they can be read. */
  lemma HeaderEnd(t: seq<byte>) returns (flags: nat, rw: nat, sector: nat, size: nat, body: seq<byte>)
    requires ParseRecord(t).Some?
    ensures EndOf(body, t) && ParseRecord(t) == ParseBody(flags, rw, sector, size, body)
  {
    var (f, t1) := ReadNumber(t, LONG_LIMIT).value;
    var (w, t2) := ReadNumber(t1, LONG_LIMIT).value;
    var (s, t3) := ReadNumber(t2, LONG_LIMIT).value;
    var (n, t4) := ReadNumber(t3, INT_LIMIT).value;
    ReadNumberEnd(t, LONG_LIMIT);
    ReadNumberEnd(t1, LONG_LIMIT);
    ReadNumberEnd(t2, LONG_LIMIT);
    ReadNumberEnd(t3, INT_LIMIT);
    EndOfEnd(t2, t1, t);
    EndOfEnd(t3, t2, t);
    EndOfEnd(t4, t3, t);
    flags, rw, sector, size, body := f, w, s, n, t4;
  }

  /** Whatever text a record is read from: its data are the bytes right in front of its last byte, which is a newline,
      and a space stands in front of the data. */
  lemma ParsedRecordText(t: seq<byte>)
    requires ParseRecord(t).Some?
    ensures var ((op, rest), n) := (ParseRecord(t).value, |t| - |ParseRecord(t).value.1|);
            && op.WellFormed() && EndOf(rest, t) && n >= op.meta.size + 2
            && t[n - 1] == 10 && t[n - 1 - op.meta.size..n - 1] == op.data && t[n - 2 - op.meta.size] == 32
  {
    var flags, rw, sector, size, body := HeaderEnd(t);
    var m := |t| - |body|;
    assert forall i :: 0 <= i < |body| ==> body[i] == t[m + i];
  }
}
