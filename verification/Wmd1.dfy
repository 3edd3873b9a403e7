/** The WMD1 registry descriptor: what the parser accepts is exactly what a canonical printer writes. */
module Wmd1 {
  import opened Options
  import opened Delimiters
  import opened Wire
  import opened Spelling
  import opened Records

  datatype Row = Row(schema: bytes, table: bytes, name: bytes, kind: nat, signature: bytes)

  // ---- Little-endian integers and Python slices ------------------------------------------------

  /** The low two bytes of `n`, and the low four. */
  function Le16(n: nat): bytes {
    [n % 0x100, n / 0x100 % 0x100]
  }

  function Le32(n: nat): bytes {
    Le16(n % 0x1_0000) + Le16(n / 0x1_0000)
  }

  /** `int.from_bytes(…, "little")`, of however many bytes there are. */
  function Little(b: bytes): nat {
    if b == [] then 0 else b[0] as nat + 0x100 * Little(b[1..])
  }

  /** A slice: what lies past the end is silently missing. */
  function Slice(d: bytes, i: nat, j: nat): (s: bytes)
    requires i <= j
    ensures j <= |d| ==> s == d[i..j]
  {
    var n := |d|;
    d[(if i < n then i else n)..(if j < n then j else n)]
  }

  /** `unpack_from` of an unsigned short and of an unsigned int, little-endian. */
  function Short(d: bytes, at: nat): (n: nat)
    requires at + 2 <= |d|
    ensures n < 0x1_0000
  {
    d[at] as nat + 0x100 * d[at + 1] as nat
  }

  function Int(d: bytes, at: nat): (n: nat)
    requires at + 4 <= |d|
    ensures n < 0x1_0000_0000
  {
    Short(d, at) + 0x1_0000 * Short(d, at + 2)
  }

  lemma LittleIsInt(d: bytes, at: nat)
    requires at + 4 <= |d|
    ensures Little(d[at..at + 4]) == Int(d, at)
  {
    var b := d[at..at + 4];
    assert b[3..][1..] == [];
    assert Little(b[3..]) == b[3] as nat;
    assert b[2..][1..] == b[3..] && b[1..][1..] == b[2..];
    assert Little(b[2..]) == b[2] as nat + 0x100 * Little(b[3..]);
    assert Little(b[1..]) == b[1] as nat + 0x100 * Little(b[2..]);
  }

  lemma ShortStands(n: nat, d: bytes, at: nat)
    requires n < 0x1_0000
    ensures Stands(Le16(n), d, at) <==> at + 2 <= |d| && Short(d, at) == n
  {
    if at + 2 <= |d| {
      assert d[at..at + 2] == [d[at], d[at + 1]];
    }
  }

  lemma IntStands(n: nat, d: bytes, at: nat)
    requires n < 0x1_0000_0000
    ensures Stands(Le32(n), d, at) <==> at + 4 <= |d| && Int(d, at) == n
  {
    StandsSplit(Le16(n % 0x1_0000), Le16(n / 0x1_0000), d, at);
    ShortStands(n % 0x1_0000, d, at);
    ShortStands(n / 0x1_0000, d, at + 2);
  }

  // ---- The parser ----------------------------------------------------------------------------------

  /** Consecutive text fields of the given lengths; nothing when one does not decode. */
  function Parts(d: bytes, at: nat, lengths: seq<nat>): (r: Option<seq<bytes>>)
    ensures r.Some? ==> |r.value| == |lengths|
    decreases |lengths|
  {
    if lengths == [] then Some([]) else
    var part := Slice(d, at, at + lengths[0]);
    if !IsUtf8(part) then None else
    match Parts(d, at + lengths[0], lengths[1..])
    case None => None
    case Some(rest) => Some([part] + rest)
  }

  function Sum(lengths: seq<nat>): nat {
    if lengths == [] then 0 else lengths[0] + Sum(lengths[1..])
  }

  /** The four lengths of a row header. */
  function Lengths(d: bytes, at: nat): seq<nat>
    requires at + 12 <= |d|
  {
    [Short(d, at), Short(d, at + 2), Short(d, at + 4), Short(d, at + 6)]
  }

  /** One row and where it ends; nothing when the header does not fit or a field does not decode. */
  function ParseRow(d: bytes, at: nat): Option<(Row, nat)> {
    if at + 12 > |d| then None else
    match Parts(d, at + 12, Lengths(d, at))
    case None => None
    case Some(p) => Some((Row(p[0], p[1], p[2], Int(d, at + 8), p[3]), at + 12 + Sum(Lengths(d, at))))
  }

  const ROW: Format<Row> := Format(ParseRow, PrintRow, RowFits)

  /** "WMD1" */
  const MAGIC: bytes := [87, 77, 68, 49]

  function Parse(d: bytes): Option<seq<Row>> {
    if Slice(d, 0, 4) != MAGIC || Little(Slice(d, 4, 8)) != 1 then None else
    match ParseAll(ROW, d, 12, Little(Slice(d, 8, 12)))
    case None => None
    case Some((rows, end)) => if end == |d| then Some(rows) else None
  }

  // ---- The printer ---------------------------------------------------------------------------------

  predicate Fits(text: bytes) {
    |text| < 0x1_0000 && IsUtf8(text)
  }

  /** The text fields in the order they are written. */
  function Texts(r: Row): seq<bytes> {
    [r.schema, r.table, r.name, r.signature]
  }

  predicate RowFits(r: Row) {
    r.kind < 0x1_0000_0000 && forall t :: t in Texts(r) ==> Fits(t)
  }

  predicate RowsFit(rows: seq<Row>) {
    |rows| < 0x1_0000_0000 && AllFit(ROW, rows)
  }

  function Header(r: Row): (h: bytes)
    ensures |h| == 12
  {
    Le16(|r.schema|) + Le16(|r.table|) + Le16(|r.name|) + Le16(|r.signature|) + Le32(r.kind)
  }

  function PrintRow(r: Row): bytes {
    Header(r) + Joined(Texts(r))
  }

  function Joined(parts: seq<bytes>): bytes {
    if parts == [] then [] else parts[0] + Joined(parts[1..])
  }

  function Print(rows: seq<Row>): bytes {
    MAGIC + Le32(1) + Le32(|rows|) + PrintAll(ROW, rows)
  }

  /** The bytes of a descriptor with one short row, spelled out: all integers start with their low byte. */
  lemma OneRow(r: Row)
    requires |r.schema| < 256 && |r.table| < 256 && |r.name| < 256 && |r.signature| < 256 && r.kind < 256
    ensures Print([r]) == Text("WMD1") + [1, 0, 0, 0] + [1, 0, 0, 0]
                          + ([|r.schema|, 0, |r.table|, 0, |r.name|, 0, |r.signature|, 0, r.kind, 0, 0, 0]
                             + (r.schema + r.table + r.name + r.signature))
    ensures Le32(0x0102_0304) == [4, 3, 2, 1]
  {
    assert [r][1..] == [];
    assert PrintAll(ROW, [r]) == PrintRow(r) + [] == PrintRow(r);
    RowBytes(r);
    assert Le32(1) == [1, 0, 0, 0] && MAGIC == Text("WMD1");
  }

  lemma RowBytes(r: Row)
    requires |r.schema| < 256 && |r.table| < 256 && |r.name| < 256 && |r.signature| < 256 && r.kind < 256
    ensures PrintRow(r) == [|r.schema|, 0, |r.table|, 0, |r.name|, 0, |r.signature|, 0, r.kind, 0, 0, 0]
                           + (r.schema + r.table + r.name + r.signature)
  {
    JoinedFour(r.schema, r.table, r.name, r.signature);
    assert Header(r) == [|r.schema|, 0, |r.table|, 0, |r.name|, 0, |r.signature|, 0, r.kind, 0, 0, 0];
  }

  lemma JoinedFour(a: bytes, b: bytes, c: bytes, e: bytes)
    ensures Joined([a, b, c, e]) == a + b + c + e
  {
    assert [a, b, c, e][1..] == [b, c, e] && [b, c, e][1..] == [c, e] && [c, e][1..] == [e] && [e][1..] == [];
    assert Joined([e]) == e + [] == e;
    assert Joined([c, e]) == c + e;
    assert Joined([b, c, e]) == b + (c + e);
  }

  // ---- What is printed is parsed back ----------------------------------------------------------------

  function Sizes(parts: seq<bytes>): seq<nat> {
    if parts == [] then [] else [|parts[0]|] + Sizes(parts[1..])
  }

  lemma {:induction false} SumSizes(parts: seq<bytes>)
    ensures Sum(Sizes(parts)) == |Joined(parts)|
  {
    if parts != [] {
      SumSizes(parts[1..]);
      assert Sizes(parts)[1..] == Sizes(parts[1..]);
    }
  }

  lemma {:induction false} PartsParsed(d: bytes, at: nat, parts: seq<bytes>)
    requires Stands(Joined(parts), d, at) && forall p :: p in parts ==> IsUtf8(p)
    ensures Parts(d, at, Sizes(parts)) == Some(parts)
    decreases |parts|
  {
    if parts != [] {
      var p, rest := parts[0], parts[1..];
      StandsSplit(p, Joined(rest), d, at);
      assert IsUtf8(p);
      PartsParsed(d, at + |p|, rest);
      PartsCons(d, at, p, Sizes(rest), rest);
      assert [p] + rest == parts;
    }
  }

  lemma PartsCons(d: bytes, at: nat, p: bytes, lengths: seq<nat>, rest: seq<bytes>)
    requires Stands(p, d, at) && IsUtf8(p) && Parts(d, at + |p|, lengths) == Some(rest)
    ensures Parts(d, at, [|p|] + lengths) == Some([p] + rest)
  {
    assert ([|p|] + lengths)[1..] == lengths;
  }

  lemma TextSizes(r: Row)
    ensures Sizes(Texts(r)) == [|r.schema|, |r.table|, |r.name|, |r.signature|]
  {
    assert [r.signature][1..] == [];
    assert Sizes([r.signature]) == [|r.signature|];
    assert [r.name, r.signature][1..] == [r.signature];
    assert Sizes([r.name, r.signature]) == [|r.name|, |r.signature|];
    assert [r.table, r.name, r.signature][1..] == [r.name, r.signature];
    assert Sizes([r.table, r.name, r.signature]) == [|r.table|, |r.name|, |r.signature|];
    assert Texts(r)[1..] == [r.table, r.name, r.signature];
  }

  lemma HeaderParsed(d: bytes, at: nat, r: Row)
    requires RowFits(r) && Stands(Header(r), d, at)
    ensures Lengths(d, at) == Sizes(Texts(r)) && Int(d, at + 8) == r.kind
  {
    assert r.schema in Texts(r) && r.table in Texts(r) && r.name in Texts(r) && r.signature in Texts(r);
    var a, b, c, e := Le16(|r.schema|), Le16(|r.table|), Le16(|r.name|), Le16(|r.signature|);
    StandsSplit(a + b + c + e, Le32(r.kind), d, at);
    StandsSplit(a + b + c, e, d, at);
    StandsSplit(a + b, c, d, at);
    StandsSplit(a, b, d, at);
    ShortStands(|r.schema|, d, at);
    ShortStands(|r.table|, d, at + 2);
    ShortStands(|r.name|, d, at + 4);
    ShortStands(|r.signature|, d, at + 6);
    IntStands(r.kind, d, at + 8);
    TextSizes(r);
  }

  lemma RowParsed(d: bytes, at: nat, r: Row)
    requires RowFits(r) && Stands(PrintRow(r), d, at)
    ensures ParseRow(d, at) == Some((r, at + |PrintRow(r)|))
  {
    StandsSplit(Header(r), Joined(Texts(r)), d, at);
    HeaderParsed(d, at, r);
    PartsParsed(d, at + 12, Texts(r));
    SumSizes(Texts(r));
  }

  lemma RowComplete(d: bytes)
    ensures Complete(ROW, d)
  {
    forall at: nat, r | RowFits(r) && Stands(PrintRow(r), d, at) ensures ReadAs(ROW, d, at, r) {
      RowParsed(d, at, r);
    }
  }

  /** The first twelve bytes. */
  lemma Preamble(d: bytes, n: nat, body: bytes)
    requires n < 0x1_0000_0000
    ensures d == MAGIC + Le32(1) + Le32(n) + body
            <==> |d| >= 12 && Slice(d, 0, 4) == MAGIC && Little(Slice(d, 4, 8)) == 1
                 && Little(Slice(d, 8, 12)) == n && d[12..] == body
  {
    var p := MAGIC + Le32(1) + Le32(n);
    if |d| >= 12 {
      LittleIsInt(d, 4);
      LittleIsInt(d, 8);
      StandsSplit(MAGIC, Le32(1), d, 0);
      StandsSplit(MAGIC + Le32(1), Le32(n), d, 0);
      IntStands(1, d, 4);
      IntStands(n, d, 8);
      assert d == d[0..12] + d[12..];
      assert d == p + body ==> d[0..12] == p && d[12..] == body;
    }
  }

  /** Whatever rows fit the format come back from their descriptor. */
  lemma ParsePrinted(rows: seq<Row>)
    requires RowsFit(rows)
    ensures Parse(Print(rows)) == Some(rows)
  {
    var d := Print(rows);
    var body := PrintAll(ROW, rows);
    Preamble(d, |rows|, body);
    assert d[12..12 + |body|] == d[12..];
    RowComplete(d);
    AllComplete(ROW, d, 12, rows);
  }

  // ---- What is parsed is what would be printed ------------------------------------------------------

  lemma {:induction false} PartsPrinted(d: bytes, at: nat, lengths: seq<nat>)
    requires at + Sum(lengths) <= |d| && Parts(d, at, lengths).Some?
    ensures Printed(Parts(d, at, lengths).value, lengths, d, at) == true
    decreases |lengths|
  {
    if lengths != [] {
      PartsFirst(d, at, lengths);
      PartsPrinted(d, at + lengths[0], lengths[1..]);
      PrintedMore(d, at, Parts(d, at, lengths).value, lengths);
    }
  }

  /** The texts are UTF-8 of these lengths, and joined they stand in the data at an offset. */
  ghost predicate Printed(p: seq<bytes>, lengths: seq<nat>, d: bytes, at: nat) {
    Sizes(p) == lengths && Stands(Joined(p), d, at) && forall t :: t in p ==> IsUtf8(t)
  }

  lemma PartsFirst(d: bytes, at: nat, lengths: seq<nat>)
    requires lengths != [] && at + Sum(lengths) <= |d| && Parts(d, at, lengths).Some?
    ensures var n, rest := lengths[0], Parts(d, at + lengths[0], lengths[1..]);
            && at + n + Sum(lengths[1..]) <= |d| && rest.Some? && Parts(d, at, lengths).value[1..] == rest.value
    ensures var t := Parts(d, at, lengths).value[0];
            Stands(t, d, at) && IsUtf8(t) && |t| == lengths[0]
  {
  }

  lemma PrintedMore(d: bytes, at: nat, p: seq<bytes>, lengths: seq<nat>)
    requires p != [] && lengths != [] && Stands(p[0], d, at) && IsUtf8(p[0]) && |p[0]| == lengths[0]
    requires Printed(p[1..], lengths[1..], d, at + lengths[0]) == true
    ensures Printed(p, lengths, d, at) == true
  {
    assert lengths == [lengths[0]] + lengths[1..];
    StandsSplit(p[0], Joined(p[1..]), d, at);
    forall t | t in p ensures IsUtf8(t) {
      assert t == p[0] || t in p[1..];
    }
  }

  lemma HeaderPrinted(d: bytes, at: nat, r: Row)
    requires at + 12 <= |d| && RowFits(r)
    requires Lengths(d, at) == Sizes(Texts(r)) && Int(d, at + 8) == r.kind
    ensures Stands(Header(r), d, at)
  {
    TextSizes(r);
    assert r.schema in Texts(r) && r.table in Texts(r) && r.name in Texts(r) && r.signature in Texts(r);
    ShortStands(|r.schema|, d, at);
    ShortStands(|r.table|, d, at + 2);
    ShortStands(|r.name|, d, at + 4);
    ShortStands(|r.signature|, d, at + 6);
    IntStands(r.kind, d, at + 8);
    var a, b, c, e := Le16(|r.schema|), Le16(|r.table|), Le16(|r.name|), Le16(|r.signature|);
    StandsSplit(a, b, d, at);
    StandsSplit(a + b, c, d, at);
    StandsSplit(a + b + c, e, d, at);
    StandsSplit(a + b + c + e, Le32(r.kind), d, at);
  }

  lemma RowPrinted(d: bytes, at: nat)
    requires ParseRow(d, at).Some? && ParseRow(d, at).value.1 <= |d|
    ensures var (r, next) := ParseRow(d, at).value;
            RowFits(r) && Stands(PrintRow(r), d, at) && next == at + |PrintRow(r)|
  {
    var r := ParseRow(d, at).value.0;
    PartsPrinted(d, at + 12, Lengths(d, at));
    assert Parts(d, at + 12, Lengths(d, at)).value == Texts(r);
    TextSizes(r);
    SumSizes(Texts(r));
    assert forall t :: t in Texts(r) ==> Fits(t);
    HeaderPrinted(d, at, r);
    StandsSplit(Header(r), Joined(Texts(r)), d, at);
  }

  lemma RowSound(d: bytes)
    ensures Sound(ROW, d)
  {
    forall at: nat | ParseRow(d, at).Some?
      ensures var (r, next) := ParseRow(d, at).value;
              next >= at && (next <= |d| ==> RowFits(r) && Stands(PrintRow(r), d, at) && next == at + |PrintRow(r)|)
    {
      if ParseRow(d, at).value.1 <= |d| { RowPrinted(d, at); }
    }
  }

  /** The parser accepts a descriptor exactly when it is the printed form of rows that fit, and those
      are the rows it returns. */
  lemma ParseExactly(d: bytes, rows: seq<Row>)
    ensures Parse(d) == Some(rows) <==> RowsFit(rows) && Print(rows) == d
  {
    if Parse(d) == Some(rows) { AcceptedPrinted(d); }
    if RowsFit(rows) { ParsePrinted(rows); }
  }

  lemma AcceptedPrinted(d: bytes)
    requires Parse(d).Some?
    ensures RowsFit(Parse(d).value) && Print(Parse(d).value) == d
  {
    var n, rows := Little(Slice(d, 8, 12)), Parse(d).value;
    AcceptedLong(d);
    LittleIsInt(d, 8);
    AcceptedBody(d, n, rows);
    Preamble(d, n, d[12..]);
  }

  lemma AcceptedBody(d: bytes, n: nat, rows: seq<Row>)
    requires |d| >= 12 && n < 0x1_0000_0000 && ParseAll(ROW, d, 12, n) == Some((rows, |d|))
    ensures |rows| == n && RowsFit(rows) == true && PrintAll(ROW, rows) == d[12..]
  {
    RowSound(d);
    AllRead(ROW, d, 12, n, rows);
  }

  /** A descriptor too short for its own preamble is refused by the last check. */
  lemma AcceptedLong(d: bytes)
    requires Parse(d).Some?
    ensures |d| >= 12
  {
    RowSound(d);
    Ends(ROW, d, 12, Little(Slice(d, 8, 12)));
  }

  // ---- The loops --------------------------------------------------------------------------------------

  /** What was read, then what the rest reads. */
  function Onto<T>(done: seq<T>, rest: Option<seq<T>>): Option<seq<T>> {
    match rest case None => None case Some(xs) => Some(done + xs)
  }

  function RowsOf(read: Option<(seq<Row>, nat)>): Option<seq<Row>> {
    match read case None => None case Some((rows, _)) => Some(rows)
  }

  lemma OntoNothing<T(!new)>(rest: Option<seq<T>>)
    ensures Onto([], rest) == rest
  {
    if rest.Some? { assert [] + rest.value == rest.value; }
  }

  lemma PartsMore(d: bytes, at: nat, done: seq<bytes>, lengths: seq<nat>)
    requires lengths != []
    ensures var part := Slice(d, at, at + lengths[0]);
            Onto(done, Parts(d, at, lengths))
            == if IsUtf8(part) then Onto(done + [part], Parts(d, at + lengths[0], lengths[1..])) else None
  {
    var part := Slice(d, at, at + lengths[0]);
    var rest := Parts(d, at + lengths[0], lengths[1..]);
    if rest.Some? { assert done + ([part] + rest.value) == (done + [part]) + rest.value; }
  }

  /** One row: its header, then four slices. */
  method ReadRow(d: bytes, at: nat) returns (r: Option<(Row, nat)>)
    ensures r == ParseRow(d, at)
  {
    if at + 12 > |d| {
      return None;
    }
    var lengths, kind := Lengths(d, at), Int(d, at + 8);
    var parts, offset := ReadParts(d, at + 12, lengths);
    if parts.None? {
      return None;
    }
    var p := parts.value;
    r := Some((Row(p[0], p[1], p[2], kind, p[3]), offset));
  }

  /** The inner loop. */
  method ReadParts(d: bytes, at: nat, lengths: seq<nat>) returns (r: Option<seq<bytes>>, end: nat)
    ensures r == Parts(d, at, lengths) && (r.Some? ==> end == at + Sum(lengths))
  {
    var parts, todo := [], lengths;
    end := at;
    OntoNothing(Parts(d, at, lengths));
    while todo != []
      invariant end + Sum(todo) == at + Sum(lengths)
      invariant Parts(d, at, lengths) == Onto(parts, Parts(d, end, todo))
      decreases |todo|
    {
      PartsMore(d, end, parts, todo);
      var part := Slice(d, end, end + todo[0]);
      if !IsUtf8(part) {
        return None, end;
      }
      parts := parts + [part];
      end := end + todo[0];
      todo := todo[1..];
    }
    assert parts + [] == parts;
    r := Some(parts);
  }

  /** Where the outer loop stands, with `left` rows to go. */
  ghost predicate Reading(d: bytes, count: nat, rows: seq<Row>, offset: nat, left: nat) {
    var all, rest := ParseAll(ROW, d, 12, count), ParseAll(ROW, d, offset, left);
    RowsOf(all) == Onto(rows, RowsOf(rest)) && (rest.Some? ==> all.value.1 == rest.value.1)
  }

  lemma ReadingNext(d: bytes, count: nat, rows: seq<Row>, offset: nat, left: nat)
    requires Reading(d, count, rows, offset, left) && left > 0
    ensures match ParseRow(d, offset)
            case None => ParseAll(ROW, d, 12, count).None?
            case Some((row, next)) => Reading(d, count, rows + [row], next, left - 1)
  {
    if ParseRow(d, offset).Some? {
      var (row, next) := ParseRow(d, offset).value;
      var rest := ParseAll(ROW, d, next, left - 1);
      if rest.Some? { assert rows + ([row] + rest.value.0) == (rows + [row]) + rest.value.0; }
    }
  }

  lemma ReadingStart(d: bytes, count: nat)
    ensures Reading(d, count, [], 12, count) == true
  {
    OntoNothing(RowsOf(ParseAll(ROW, d, 12, count)));
  }

  lemma ReadingDone(d: bytes, count: nat, rows: seq<Row>, offset: nat)
    requires Reading(d, count, rows, offset, 0)
    ensures ParseAll(ROW, d, 12, count) == Some((rows, offset))
  {
    assert rows + [] == rows;
  }

  method CatalogRows(d: bytes) returns (r: Option<seq<Row>>)
    ensures r == Parse(d)
  {
    if Slice(d, 0, 4) != MAGIC || Little(Slice(d, 4, 8)) != 1 {
      return None;
    }
    var count := Little(Slice(d, 8, 12));
    var offset: nat, rows, left: nat := 12, [], count;
    ReadingStart(d, count);
    while left > 0
      invariant Reading(d, count, rows, offset, left) == true
    {
      ReadingNext(d, count, rows, offset, left);
      var next := ReadRow(d, offset);
      if next.None? {
        return None;
      }
      rows := rows + [next.value.0];
      offset := next.value.1;
      left := left - 1;
    }
    ReadingDone(d, count, rows, offset);
    if offset != |d| {
      return None;
    }
    r := Some(rows);
  }
}
