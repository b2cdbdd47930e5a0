/** The scanner's device table: which tables are accepted, and how devices share the aggregate image. */
module ScannerTable {
  import opened Words
  import opened Statuses

  const MAX_DEVICES := 16
  const FIELDS := 9
  const ADDR_MAX := 46
  const ULONG_MAX := 0xFFFF_FFFF_FFFF_FFFF

  /** One device as configured; the offsets are filled in by packing. */
  datatype Row = Row(
    address: string, configAssembly: nat, o2tAssembly: nat, t2oAssembly: nat, o2tBytes: nat, t2oBytes: nat,
    rpiUs: nat, timeoutMultiplier: nat, policy: Policy)

  datatype Placed = Placed(row: Row, o2tOffset: nat, t2oOffset: nat)

  datatype Table = Table(devices: seq<Placed>, totalO2t: nat, totalT2o: nat)

  // ---------------------------------------------------------------- fields

  predicate AllDigits(s: string) {
    forall i :: 0 <= i < |s| ==> '0' <= s[i] <= '9'
  }

  /** The number a string of digits denotes. */
  function Decimal(s: string): nat
    requires AllDigits(s)
  {
    if s == [] then 0
    else
      10 * Decimal(s[..|s| - 1]) + (s[|s| - 1] as int - '0' as int)
  }

  /** White space strtoul skips that does not separate fields: vertical tab and form feed. */
  function SkipBlank(tok: string): string {
    if tok != [] && (tok[0] == '\U{0B}' || tok[0] == '\U{0C}') then SkipBlank(tok[1..]) else tok
  }

  /** strtoul on a whole token: an optional sign and digits, clamped, and negated modulo 2^64 under '-'. */
  function Strtoul(tok: string): Option<nat> {
    var s := SkipBlank(tok);
    var body := if s != [] && (s[0] == '+' || s[0] == '-') then s[1..] else s;
    if body == [] || !AllDigits(body) then None
    else
      var v := Decimal(body);
      if v > ULONG_MAX then Some(ULONG_MAX)
      else if s[0] == '-' && v > 0 then Some(ULONG_MAX + 1 - v)
      else Some(v)
  }

  /** parse_u32. */
  function ParseU32(tok: string, max: nat): Option<nat> {
    match Strtoul(tok)
    case Some(v) => if v <= max then Some(v) else None
    case None => None
  }

  function ParsePolicy(tok: string): Option<Policy> {
    if tok == "hold" then Some(Hold) else if tok == "clear" then Some(Clear) else None
  }

  /** The device a row of exactly nine fields describes, if every field is in range. */
  function ParseRow(toks: seq<string>): Option<Row> {
    if |toks| != FIELDS || |toks[0]| >= ADDR_MAX then None
    else
      match (ParseU32(toks[1], 0xFFFF), ParseU32(toks[2], 0xFFFF), ParseU32(toks[3], 0xFFFF),
             ParseU32(toks[4], MAX_FRAME_BYTES), ParseU32(toks[5], MAX_FRAME_BYTES),
             ParseU32(toks[6], 0xFFFF_FFFF), ParseU32(toks[7], 7), ParsePolicy(toks[8]))
      case (Some(cfg), Some(o2t), Some(t2o), Some(o2tLen), Some(t2oLen), Some(rpi), Some(mult), Some(policy)) =>
        if rpi == 0 then None else Some(Row(toks[0], cfg, o2t, t2o, o2tLen, t2oLen, rpi, mult, policy))
      case _ => None
  }

  /** A number written out. */
  function Digits(n: nat): string {
    var last := (n % 10 + '0' as int) as char;
    if n < 10 then [last] else Digits(n / 10) + [last]
  }

  lemma {:induction false} DigitsDenote(n: nat)
    ensures AllDigits(Digits(n)) && Digits(n) != "" && Decimal(Digits(n)) == n
  {
    if n >= 10 {
      DigitsDenote(n / 10);
      assert Digits(n)[..|Digits(n)| - 1] == Digits(n / 10);
    } else {
      assert Digits(n)[..0] == [] && Decimal([]) == 0;
    }
  }

  lemma {:induction false} ZerosCountNothing(k: nat, s: string)
    requires AllDigits(s)
    ensures var z := seq(k, _ => '0') + s; AllDigits(z) && Decimal(z) == Decimal(s)
    decreases |s| + k
  {
    var z := seq(k, _ => '0') + s;
    if s != [] {
      ZerosCountNothing(k, s[..|s| - 1]);
      assert z[..|z| - 1] == seq(k, _ => '0') + s[..|s| - 1];
    } else if k > 0 {
      ZerosCountNothing(k - 1, s);
      assert z[..|z| - 1] == seq(k - 1, _ => '0') + s;
    }
  }

  /** A token strtoul can be given: blanks it skips, at most one sign, and the rest. */
  predicate Token(tok: string, blanks: string, sign: string, body: string) {
    && tok == blanks + sign + body
    && (forall i :: 0 <= i < |blanks| ==> blanks[i] == '\U{0B}' || blanks[i] == '\U{0C}')
    && (sign == "" || sign == "+" || sign == "-")
    && (sign == "" && body != "" ==> body[0] != '+' && body[0] != '-' && body[0] != '\U{0B}' && body[0] != '\U{0C}')
  }

  lemma {:induction false} BlanksSkipped(blanks: string, s: string)
    requires forall i :: 0 <= i < |blanks| ==> blanks[i] == '\U{0B}' || blanks[i] == '\U{0C}'
    requires s == "" || (s[0] != '\U{0B}' && s[0] != '\U{0C}')
    ensures SkipBlank(blanks + s) == s
    decreases |blanks|
  {
    if blanks == "" {
      assert blanks + s == s;
    } else {
      assert (blanks + s)[1..] == blanks[1..] + s;
      BlanksSkipped(blanks[1..], s);
    }
  }

  /**
   What strtoul makes of a token: its digits, at most the largest unsigned long, and under a minus
   sign what is missing to 2^64; nothing if there are no digits or anything else is among them.
   */
  lemma StrtoulExactly(tok: string, blanks: string, sign: string, body: string)
    requires Token(tok, blanks, sign, body)
    ensures Strtoul(tok).Some? <==> body != "" && AllDigits(body)
    ensures body != "" && AllDigits(body) && Decimal(body) > 0xFFFF_FFFF_FFFF_FFFF ==>
              Strtoul(tok) == Some(0xFFFF_FFFF_FFFF_FFFF)
    ensures body != "" && AllDigits(body) && Decimal(body) <= 0xFFFF_FFFF_FFFF_FFFF ==>
              Strtoul(tok)
              == Some(if sign == "-" && Decimal(body) > 0 then 0x1_0000_0000_0000_0000 - Decimal(body)
                      else Decimal(body))
  {
    assert tok == blanks + (sign + body);
    BlanksSkipped(blanks, sign + body);
    if sign == "" {
      assert sign + body == body;
    } else {
      var s := SkipBlank(tok);
      assert s[1..] == body && s[0] == sign[0];
    }
  }

  /** A number written out is read as itself. */
  lemma NumberRead(n: nat)
    requires n <= 0xFFFF_FFFF
    ensures Strtoul(Digits(n)) == Some(n)
  {
    DigitsDenote(n);
    assert "" + "" + Digits(n) == Digits(n);
    assert '0' <= Digits(n)[0] <= '9';
    hide Strtoul;
    StrtoulExactly(Digits(n), "", "", Digits(n));
  }

  /** The nine fields of a line describe a device, each its own part of it. */
  predicate Describes(toks: seq<string>, r: Row) {
    && |toks| == 9
    && r.address == toks[0] && |toks[0]| < 46
    && Strtoul(toks[1]) == Some(r.configAssembly) && r.configAssembly <= 65535
    && Strtoul(toks[2]) == Some(r.o2tAssembly) && r.o2tAssembly <= 65535
    && Strtoul(toks[3]) == Some(r.t2oAssembly) && r.t2oAssembly <= 65535
    && Strtoul(toks[4]) == Some(r.o2tBytes) && r.o2tBytes <= 496
    && Strtoul(toks[5]) == Some(r.t2oBytes) && r.t2oBytes <= 496
    && Strtoul(toks[6]) == Some(r.rpiUs) && 0 < r.rpiUs <= 0xFFFF_FFFF
    && Strtoul(toks[7]) == Some(r.timeoutMultiplier) && r.timeoutMultiplier <= 7
    && ((toks[8] == "hold" && r.policy == Hold) || (toks[8] == "clear" && r.policy == Clear))
  }

  /** A row is accepted exactly if its fields describe a device, and then it is that device. */
  lemma RowExactly(toks: seq<string>, r: Row)
    ensures ParseRow(toks) == Some(r) <==> Describes(toks, r)
  {
    hide Strtoul;
  }

  /** A device written out in the order of the table's columns. */
  function WriteRow(r: Row): seq<string> {
    [r.address, Digits(r.configAssembly), Digits(r.o2tAssembly), Digits(r.t2oAssembly), Digits(r.o2tBytes),
     Digits(r.t2oBytes), Digits(r.rpiUs), Digits(r.timeoutMultiplier), if r.policy == Hold then "hold" else "clear"]
  }

  /** A device written out is read back. */
  lemma WrittenRowRead(r: Row)
    requires |r.address| < 46 && r.configAssembly <= 65535 && r.o2tAssembly <= 65535 && r.t2oAssembly <= 65535
    requires r.o2tBytes <= 496 && r.t2oBytes <= 496 && 0 < r.rpiUs <= 0xFFFF_FFFF && r.timeoutMultiplier <= 7
    ensures ParseRow(WriteRow(r)) == Some(r)
  {
    hide Digits, Strtoul, ParseRow, WriteRow, Describes;
    RowExactly(WriteRow(r), r);
    assert Describes(WriteRow(r), r) by {
      WrittenRowDescribes(r);
    }
  }

  lemma WrittenRowDescribes(r: Row)
    requires |r.address| < 46 && r.configAssembly <= 65535 && r.o2tAssembly <= 65535 && r.t2oAssembly <= 65535
    requires r.o2tBytes <= 496 && r.t2oBytes <= 496 && 0 < r.rpiUs <= 0xFFFF_FFFF && r.timeoutMultiplier <= 7
    ensures Describes(WriteRow(r), r)
  {
    hide Digits, Strtoul;
    NumberRead(r.configAssembly);
    NumberRead(r.o2tAssembly);
    NumberRead(r.t2oAssembly);
    NumberRead(r.o2tBytes);
    NumberRead(r.t2oBytes);
    NumberRead(r.rpiUs);
    NumberRead(r.timeoutMultiplier);
  }

  // ---------------------------------------------------------------- packing

  function SumO2t(rows: seq<Row>): nat {
    if rows == [] then 0 else SumO2t(rows[..|rows| - 1]) + rows[|rows| - 1].o2tBytes
  }

  function SumT2o(rows: seq<Row>): nat {
    if rows == [] then 0 else SumT2o(rows[..|rows| - 1]) + rows[|rows| - 1].t2oBytes
  }

  function Rows(t: Table): seq<Row> {
    seq(|t.devices|, i requires 0 <= i < |t.devices| => t.devices[i].row)
  }

  /** Device `i` starts where the devices before it end, in both directions. */
  ghost predicate Packed(t: Table) {
    && t.totalO2t == SumO2t(Rows(t)) && t.totalT2o == SumT2o(Rows(t))
    && forall i :: 0 <= i < |t.devices| ==> PlacedAt(t, i)
  }

  ghost predicate PlacedAt(t: Table, i: int)
    requires 0 <= i < |t.devices|
  {
    t.devices[i].o2tOffset == SumO2t(Rows(t)[..i]) && t.devices[i].t2oOffset == SumT2o(Rows(t)[..i])
  }

  /** The devices of all the lines that are not blank, if each of those parses. */
  function Devices(lines: seq<seq<string>>): Option<seq<Row>> {
    if lines == [] then Some([])
    else
      var last := lines[|lines| - 1];
      match Devices(lines[..|lines| - 1])
      case None => None
      case Some(rows) =>
        if last == [] then Some(rows)
        else match ParseRow(last) case Some(r) => Some(rows + [r]) case None => None
  }

  /** The lines with something on them. */
  function Content(lines: seq<seq<string>>): (r: seq<seq<string>>)
    ensures [] !in lines ==> r == lines
  {
    if lines == [] then []
    else
      var last := lines[|lines| - 1];
      Content(lines[..|lines| - 1]) + (if last == [] then [] else [last])
  }

  /** A blank line makes no difference, wherever it is. */
  lemma {:induction false} BlankLineSkipped(before: seq<seq<string>>, after: seq<seq<string>>)
    ensures Content(before + [[]] + after) == Content(before + after)
    decreases |after|
  {
    var lines := before + [[]] + after;
    if after == [] {
      assert lines[..|lines| - 1] == before && before + after == before;
    } else {
      var n := |after| - 1;
      BlankLineSkipped(before, after[..n]);
      assert lines[..|lines| - 1] == before + [[]] + after[..n];
      assert (before + after)[..|before + after| - 1] == before + after[..n];
    }
  }

  ghost predicate DescribeAll(content: seq<seq<string>>, rows: seq<Row>) {
    |content| == |rows| && forall i :: 0 <= i < |rows| ==> Describes(content[i], rows[i])
  }

  /** The devices of a text are the ones its lines describe, line by line. */
  lemma {:induction false} DevicesExactly(lines: seq<seq<string>>, rows: seq<Row>)
    ensures Devices(lines) == Some(rows) <==> DescribeAll(Content(lines), rows)
    decreases |lines|
  {
    hide Describes, ParseRow;
    if lines != [] {
      var init, last := lines[..|lines| - 1], lines[|lines| - 1];
      if last == [] {
        DevicesExactly(init, rows);
        assert Content(lines) == Content(init);
      } else if rows != [] {
        var front, r := rows[..|rows| - 1], rows[|rows| - 1];
        DevicesExactly(init, front);
        RowExactly(last, r);
        assert front + [r] == rows;
        DescribeLast(Content(init), last, front, r);
      }
    }
  }

  lemma DescribeLast(content: seq<seq<string>>, last: seq<string>, rows: seq<Row>, r: Row)
    ensures DescribeAll(content + [last], rows + [r]) <==> DescribeAll(content, rows) && Describes(last, r)
  {
    hide Describes;
    if DescribeAll(content + [last], rows + [r]) {
      assert Describes((content + [last])[|rows|], (rows + [r])[|rows|]);
      forall i | 0 <= i < |rows|
        ensures Describes(content[i], rows[i])
      {
        assert Describes((content + [last])[i], (rows + [r])[i]);
      }
    }
  }

  /** What makes a list of devices an acceptable table. */
  predicate Fits(rows: seq<Row>) {
    1 <= |rows| <= MAX_DEVICES && SumO2t(rows) <= MAX_FRAME_BYTES && SumT2o(rows) <= MAX_FRAME_BYTES
  }

  /** The empty table. */
  const NO_DEVICES := Table([], 0, 0)

  function Append(t: Table, r: Row): Table {
    Table(t.devices + [Placed(r, t.totalO2t, t.totalT2o)], t.totalO2t + r.o2tBytes, t.totalT2o + r.t2oBytes)
  }

  lemma AppendRows(t: Table, r: Row)
    ensures Rows(Append(t, r)) == Rows(t) + [r]
  {}

  lemma SumsNext(rows: seq<Row>, r: Row)
    ensures SumO2t(rows + [r]) == SumO2t(rows) + r.o2tBytes && SumT2o(rows + [r]) == SumT2o(rows) + r.t2oBytes
  {
    assert (rows + [r])[..|rows|] == rows;
  }

  /** Placing one more device behind the others keeps the table packed. */
  lemma AppendPacks(t: Table, r: Row)
    requires Packed(t)
    ensures Packed(Append(t, r)) && Rows(Append(t, r)) == Rows(t) + [r]
  {
    var u := Append(t, r);
    AppendRows(t, r);
    SumsNext(Rows(t), r);
    forall i | 0 <= i < |u.devices|
      ensures PlacedAt(u, i)
    {
      StillPlaced(t, r, i);
    }
    hide Rows, SumO2t, SumT2o, PlacedAt;
  }

  lemma StillPlaced(t: Table, r: Row, i: nat)
    requires Packed(t) && i <= |t.devices|
    ensures PlacedAt(Append(t, r), i)
  {
    AppendRows(t, r);
    assert (Rows(t) + [r])[..i] == Rows(t)[..i];
    if i < |t.devices| {
      assert PlacedAt(t, i);
    } else {
      assert Rows(t)[..i] == Rows(t);
    }
    hide SumO2t, SumT2o;
  }

  lemma {:induction false} SumsGrow(rows: seq<Row>, n: nat)
    requires n <= |rows|
    ensures SumO2t(rows[..n]) <= SumO2t(rows) && SumT2o(rows[..n]) <= SumT2o(rows)
  {
    if n < |rows| {
      var p := rows[..|rows| - 1];
      SumsGrow(p, n);
      assert p[..n] == rows[..n];
    } else {
      assert rows[..n] == rows;
    }
  }

  /** Lines parsed so far come first in what the whole text describes. */
  lemma {:induction false} DevicesPrefix(lines: seq<seq<string>>, n: nat)
    requires n <= |lines| && Devices(lines).Some?
    ensures Devices(lines[..n]).Some? && Devices(lines[..n]).value <= Devices(lines).value
  {
    if n < |lines| {
      var p := lines[..|lines| - 1];
      DevicesPrefix(p, n);
      assert p[..n] == lines[..n];
    } else {
      assert lines[..n] == lines;
    }
  }

  lemma FitsMonotone(some: seq<Row>, all: seq<Row>)
    requires some <= all && Fits(all)
    ensures |some| <= MAX_DEVICES && SumO2t(some) <= MAX_FRAME_BYTES && SumT2o(some) <= MAX_FRAME_BYTES
  {
    SumsGrow(all, |some|);
    assert all[..|some|] == some;
  }

  /** Lines that are already unacceptable make the whole text so. */
  lemma PrefixDecides(lines: seq<seq<string>>, n: nat)
    requires n <= |lines|
    ensures Devices(lines).Some? && Fits(Devices(lines).value) ==>
              && Devices(lines[..n]).Some?
              && var rows := Devices(lines[..n]).value;
                 |rows| <= MAX_DEVICES && SumO2t(rows) <= MAX_FRAME_BYTES && SumT2o(rows) <= MAX_FRAME_BYTES
  {
    hide Devices, Fits, SumO2t, SumT2o;
    if Devices(lines).Some? && Fits(Devices(lines).value) {
      DevicesPrefix(lines, n);
      FitsMonotone(Devices(lines[..n]).value, Devices(lines).value);
    }
  }

  /** Line by line: the devices of the lines so far, packed, until one does not parse or does not fit. */
  method ParseLines(lines: seq<seq<string>>) returns (t: Option<Table>)
    ensures t.Some? <==> Devices(lines).Some? && Fits(Devices(lines).value)
    ensures t.Some? ==> Packed(t.value) && Rows(t.value) == Devices(lines).value
  {
    var cfg := NO_DEVICES;
    for n := 0 to |lines|
      invariant Packed(cfg) && Devices(lines[..n]) == Some(Rows(cfg))
      invariant |cfg.devices| <= MAX_DEVICES && cfg.totalO2t <= MAX_FRAME_BYTES && cfg.totalT2o <= MAX_FRAME_BYTES
    {
      var toks := lines[n];
      assert lines[..n + 1][..n] == lines[..n] && lines[..n + 1][n] == toks;
      if toks == [] {
        continue;
      }
      var parsed := ParseRow(toks);
      if parsed.None? {
        assert Devices(lines[..n + 1]).None?;
        PrefixDecides(lines, n + 1);
        return None;
      }
      AppendPacks(cfg, parsed.value);
      var next := Append(cfg, parsed.value);
      if |cfg.devices| >= MAX_DEVICES || next.totalO2t > MAX_FRAME_BYTES || next.totalT2o > MAX_FRAME_BYTES {
        assert Devices(lines[..n + 1]) == Some(Rows(next));
        PrefixDecides(lines, n + 1);
        return None;
      }
      cfg := next;
    }
    assert lines[..|lines|] == lines;
    return if |cfg.devices| == 0 then None else Some(cfg);
  }

  /**
   eip_scanner_config_parse on the fields of each line: a table is accepted exactly if every line
   that is not blank describes a device and the devices fit, and it then holds them packed in order.
   */
  method Parse(lines: seq<seq<string>>) returns (t: Option<Table>)
    ensures t.Some? ==> Packed(t.value) && DescribeAll(Content(lines), Rows(t.value))
    ensures forall rows :: DescribeAll(Content(lines), rows) ==>
              (t.Some? <==> 1 <= |rows| <= 16 && SumO2t(rows) <= 496 && SumT2o(rows) <= 496)
  {
    t := ParseLines(lines);
    forall rows
      ensures Devices(lines) == Some(rows) <==> DescribeAll(Content(lines), rows)
    {
      DevicesExactly(lines, rows);
    }
    hide DescribeAll, Content, Devices, Packed, Rows, SumO2t, SumT2o;
  }

  // ---------------------------------------------------------------- tiling

  /** Byte `p` of the aggregate input image belongs to device `i`. */
  predicate Owns(t: Table, i: int, p: int)
    requires 0 <= i < |t.devices|
  {
    t.devices[i].t2oOffset <= p < t.devices[i].t2oOffset + t.devices[i].row.t2oBytes
  }

  lemma SliceEnds(t: Table, i: int)
    requires Packed(t) && 0 <= i < |t.devices|
    ensures SumT2o(Rows(t)[..i + 1]) == t.devices[i].t2oOffset + t.devices[i].row.t2oBytes <= t.totalT2o
    ensures SumO2t(Rows(t)[..i + 1]) == t.devices[i].o2tOffset + t.devices[i].row.o2tBytes <= t.totalO2t
  {
    assert PlacedAt(t, i);
    assert Rows(t)[..i + 1][..i] == Rows(t)[..i];
    SumsGrow(Rows(t), i + 1);
  }

  /** No byte belongs to two devices. */
  lemma SlicesDisjoint(t: Table, i: int, j: int, p: int)
    requires Packed(t) && 0 <= i < j < |t.devices| && Owns(t, i, p)
    ensures !Owns(t, j, p)
  {
    SliceEnds(t, i);
    assert PlacedAt(t, j);
    SumsGrow(Rows(t)[..j], i + 1);
    assert Rows(t)[..j][..i + 1] == Rows(t)[..i + 1];
  }

  /** Every byte of the image belongs to some device. */
  lemma {:induction false} SlicesCover(t: Table, n: nat, p: nat)
    requires Packed(t) && n <= |t.devices| && p < SumT2o(Rows(t)[..n])
    ensures exists i :: 0 <= i < n && Owns(t, i, p)
  {
    SliceEnds(t, n - 1);
    if Owns(t, n - 1, p) {
    } else {
      assert PlacedAt(t, n - 1);
      SlicesCover(t, n - 1, p);
    }
  }
}
