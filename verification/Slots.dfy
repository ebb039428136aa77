/** Replication slots as the primary prints them
    (src/domain/policies/postgres.rs): every row is read, in order, whatever
    stands between the rows. */
module Slots {
  import opened Text

  datatype SlotState = SlotState(slot: nat, active: bool, heldBytes: int)

  const I64_MAX := 0x7FFF_FFFF_FFFF_FFFF

  const PREFIX := "wabot_slot_"

  /** `slot_name`. */
  function SlotName(slot: nat): string { PREFIX + Decimal(slot) }

  function SlotOf(name: string): Option<nat> {
    if StartsWith(name, PREFIX) then ParseUnsigned(name[|PREFIX|..], U32_MAX) else None
  }

  /** `str::parse` for a signed 64-bit integer. */
  function ParseI64(s: string): Option<int> {
    if s == "" || s[0] != '-' then
      (match ParseUnsigned(s, I64_MAX) case Some(n) => Some(n) case None => None)
    else if s[1..] == "" || !AllDigits(s[1..]) || DigitsValue(s[1..]) > I64_MAX + 1 then None
    else Some(0 - DigitsValue(s[1..]) as int)
  }

  /** `Display` for it. */
  function ShowI64(n: int): string { if n < 0 then "-" + Decimal(-n) else Decimal(n) }

  predicate IsI64(n: int) { -I64_MAX - 1 <= n <= I64_MAX }

  lemma I64ReadsBack(n: int)
    requires IsI64(n)
    ensures ParseI64(ShowI64(n)) == Some(n)
    ensures ShowI64(n) != "" && '|' !in ShowI64(n) && '\n' !in ShowI64(n) && IsDigit(ShowI64(n)[|ShowI64(n)| - 1])
  {
    hide Text.Decimal, Text.DigitsValue;
    if n < 0 {
      DecimalValue(-n);
      assert ShowI64(n)[1..] == Decimal(-n);
    } else {
      ParseDecimal(n, I64_MAX);
      assert IsDigit(Decimal(n)[0]);
    }
    assert forall c :: c in ShowI64(n) ==> IsDigit(c) || c == '-';
  }

  function CountOf(field: string): int {
    match ParseI64(field) case Some(n) => n case None => 0
  }

  function RowOf(fields: seq<string>): Option<SlotState>
    requires fields != []
  {
    match SlotOf(fields[0])
    case None => None
    case Some(slot) =>
      if |fields| < 2 then None
      else
        var active := fields[1] == "t" || fields[1] == "true";
        Some(SlotState(slot, active, if |fields| < 3 then 0 else CountOf(fields[2])))
  }

  function ParseLine(line: string): Option<SlotState> { RowOf(Split(Trim(line), '|')) }

  function Rows(lines: seq<string>): seq<SlotState> {
    if lines == [] then []
    else (match ParseLine(lines[0]) case Some(row) => [row] case None => []) + Rows(lines[1..])
  }

  /** `parse_replication`. */
  function ParseReplication(text: string): seq<SlotState> { Rows(Lines(text)) }

  // ---------- which lines are rows ----------

  /** A line that names a slot and has a field after the name. */
  ghost predicate NamesASlot(line: string) {
    exists digits, rest :: Trim(line) == "wabot_slot_" + digits + "|" + rest && IsSlotNumber(digits)
  }

  predicate IsSlotNumber(digits: string) { '|' !in digits && ParseUnsigned(digits, 0xFFFF_FFFF).Some? }

  lemma FirstOfTwo(name: string, rest: string)
    requires '|' !in name
    ensures var fields := Split(name + "|" + rest, '|'); |fields| >= 2 && fields[0] == name
    ensures Split(name + "|" + rest, '|') == [name] + Split(rest, '|')
  {
    var s := name + ['|'] + rest;
    FindIs(name, '|', rest);
    assert s[..|name|] == name && s[|name| + 1..] == rest;
  }

  lemma NameOfSlot(digits: string)
    requires '|' !in digits
    ensures '|' !in PREFIX + digits && SlotOf(PREFIX + digits) == ParseUnsigned(digits, U32_MAX)
  {
    var name := PREFIX + digits;
    assert name[..|PREFIX|] == PREFIX && name[|PREFIX|..] == digits;
    assert forall c :: c in PREFIX ==> IsLower(c) || c == '_';
  }

  /** A line is read as a row exactly if it names a slot: noise never is, and a
      row is never lost. */
  lemma ExactlySlotLinesAreRows(line: string)
    ensures ParseLine(line).Some? <==> NamesASlot(line)
  {
    hide Text.Trim, Text.Split, Text.ParseUnsigned;
    var text := Trim(line);
    if NamesASlot(line) {
      var digits, rest :| text == PREFIX + digits + "|" + rest && IsSlotNumber(digits);
      NameOfSlot(digits);
      FirstOfTwo(PREFIX + digits, rest);
    }
    if ParseLine(line).Some? {
      var fields := Split(text, '|');
      var digits, rest := fields[0][|PREFIX|..], Join(fields[1..], "|");
      JoinSplit(text, '|');
      assert fields == [fields[0]] + fields[1..];
      JoinMore(fields[0], fields[1..], "|");
      assert fields[0] == PREFIX + digits;
      assert text == PREFIX + digits + "|" + rest;
      assert forall c :: c in digits ==> c in fields[0];
      assert IsSlotNumber(digits);
    }
  }

  // ---------- rows as they are printed ----------

  function Flag(active: bool): string { if active then "t" else "f" }

  /** A row with its other fields as somebody's psql wrote them. */
  function RowText(slot: nat, flag: string, count: string): string {
    "wabot_slot_" + Decimal(slot) + "|" + flag + "|" + count
  }

  function Print(r: SlotState): string { RowText(r.slot, Flag(r.active), ShowI64(r.heldBytes)) }

  predicate IsSlotState(r: SlotState) { r.slot <= 0xFFFF_FFFF && IsI64(r.heldBytes) }

  lemma NameReadsBack(slot: nat)
    requires slot <= U32_MAX
    ensures '|' !in SlotName(slot) && SlotOf(SlotName(slot)) == Some(slot)
    ensures SlotName(slot) != "" && !IsWhitespace(SlotName(slot)[0])
  {
    hide Text.Decimal, Text.ParseUnsigned;
    NoBarInDigits(Decimal(slot));
    NameOfSlot(Decimal(slot));
    ParseDecimal(slot, U32_MAX);
    assert SlotName(slot)[0] == PREFIX[0] == 'w';
  }

  lemma NoBarInDigits(s: string)
    requires AllDigits(s)
    ensures '|' !in s
  {
  }

  lemma FieldsOfRow(slot: nat, flag: string, count: string)
    requires slot <= U32_MAX && '|' !in count && '|' !in flag
    ensures Split(RowText(slot, flag, count), '|') == [SlotName(slot), flag, count]
  {
    hide Text.Split, Text.Decimal;
    NameReadsBack(slot);
    assert RowText(slot, flag, count) == SlotName(slot) + "|" + (flag + "|" + count);
    FirstOfTwo(SlotName(slot), flag + "|" + count);
    FirstOfTwo(flag, count);
    SplitWhole(count, '|');
  }

  /** A row is its slot, whether it is active, which is `t` or `true` and nothing
      else, and its count. */
  lemma RowIsRead(slot: nat, flag: string, count: string)
    requires slot <= 0xFFFF_FFFF && '|' !in count && '|' !in flag && Trimmed(RowText(slot, flag, count))
    ensures ParseLine(RowText(slot, flag, count))
            == Some(SlotState(slot, flag == "t" || flag == "true", CountOf(count)))
  {
    hide Text.Split, SlotName, RowText, Text.Trim, CountOf, SlotOf;
    TrimIsTrimmed(RowText(slot, flag, count));
    NameReadsBack(slot);
    FieldsOfRow(slot, flag, count);
  }

  /** A byte count that is missing or does not read costs the count, not the row. */
  lemma UnreadableCountIsNought(slot: nat, flag: string, count: string)
    requires slot <= 0xFFFF_FFFF && '|' !in count && (count == "" || !IsWhitespace(count[|count| - 1]))
    requires ParseI64(count).None? && '|' !in flag && (flag == "" || !IsWhitespace(flag[|flag| - 1]))
    ensures ParseLine(RowText(slot, flag, count)) == Some(SlotState(slot, flag == "t" || flag == "true", 0))
    ensures ParseLine("wabot_slot_" + Decimal(slot) + "|" + flag)
            == Some(SlotState(slot, flag == "t" || flag == "true", 0))
  {
    hide Text.Split, Text.Decimal, Text.Trim, SlotOf, ParseI64;
    NameReadsBack(slot);
    RowIsRead(slot, flag, count);
    var short := SlotName(slot) + "|" + flag;
    assert Trimmed(short);
    TrimIsTrimmed(short);
    FirstOfTwo(SlotName(slot), flag);
    SplitWhole(flag, '|');
  }

  lemma PrintedRowIsRead(r: SlotState)
    requires IsSlotState(r)
    ensures ParseLine(Print(r)) == Some(r) && IsLine(Print(r))
  {
    hide ShowI64, SlotName, ParseI64, ParseLine, RowText;
    var count := ShowI64(r.heldBytes);
    I64ReadsBack(r.heldBytes);
    RowIsALine(r.slot, r.active, count);
    RowIsRead(r.slot, Flag(r.active), count);
  }

  lemma RowIsALine(slot: nat, active: bool, count: string)
    requires slot <= U32_MAX && count != "" && IsDigit(count[|count| - 1]) && '\n' !in count
    ensures Trimmed(RowText(slot, Flag(active), count)) && IsLine(RowText(slot, Flag(active), count))
  {
    hide Text.Decimal;
    NameReadsBack(slot);
    NameIsPlain(slot);
  }

  lemma NameIsPlain(slot: nat)
    ensures '\n' !in SlotName(slot)
  {
    hide Text.Decimal;
    assert forall c :: c in Decimal(slot) ==> IsDigit(c);
    assert '\n' !in PREFIX;
  }

  // ---------- whole outputs ----------

  datatype Line = Row(state: SlotState) | Noise(text: string)

  function LineText(line: Line): string { match line case Row(r) => Print(r) case Noise(text) => text }

  function Texts(lines: seq<Line>): seq<string> {
    if lines == [] then [] else [LineText(lines[0])] + Texts(lines[1..])
  }

  function States(lines: seq<Line>): seq<SlotState> {
    if lines == [] then []
    else (match lines[0] case Row(r) => [r] case Noise(_) => []) + States(lines[1..])
  }

  ghost predicate IsOutput(lines: seq<Line>) {
    forall i :: 0 <= i < |lines| ==> IsOutputLine(lines[i])
  }

  ghost predicate IsOutputLine(line: Line) {
    match line case Row(r) => IsSlotState(r) case Noise(text) => IsLine(text) && !NamesASlot(text)
  }

  lemma {:induction false} RowsOfTexts(lines: seq<Line>)
    requires IsOutput(lines)
    ensures Rows(Texts(lines)) == States(lines) && AreLines(Texts(lines))
  {
    hide ParseLine, Print, NamesASlot;
    if lines != [] {
      assert IsOutputLine(lines[0]);
      match lines[0] {
        case Row(r) => PrintedRowIsRead(r);
        case Noise(text) => ExactlySlotLinesAreRows(text);
      }
      RowsOfTexts(lines[1..]);
    }
  }

  /** Rows printed among lines of any noise are read back, all of them, in order
      and nothing else. */
  lemma OutputIsReadCompletely(lines: seq<Line>)
    requires IsOutput(lines)
    ensures ParseReplication(Unlines(Texts(lines))) == States(lines)
  {
    hide Text.Lines, Rows;
    RowsOfTexts(lines);
    LinesUnlines(Texts(lines));
  }

  lemma {:induction false} LinesOfBlocks(a: string, b: string)
    ensures Lines(a + "\n" + b) == Lines(a + "\n") + Lines(b)
    decreases |a|
  {
    var n := Find(a, '\n');
    if n == |a| {
      LinesOfOneMore(a, b);
      LinesOfOneMore(a, "");
      assert a + "\n" + "" == a + "\n";
      assert Lines("") == [];
    } else {
      var rest := a[n + 1..];
      assert a == a[..n] + "\n" + rest;
      assert a + "\n" + b == a[..n] + "\n" + (rest + "\n" + b);
      assert a + "\n" == a[..n] + "\n" + (rest + "\n");
      LinesOfOneMore(a[..n], rest + "\n" + b);
      LinesOfOneMore(a[..n], rest + "\n");
      LinesOfBlocks(rest, b);
      ConcatAssociates([DropCr(a[..n])], Lines(rest + "\n"), Lines(b));
    }
  }

  lemma {:induction false} RowsConcat(a: seq<string>, b: seq<string>)
    ensures Rows(a + b) == Rows(a) + Rows(b)
  {
    hide ParseLine;
    if a == [] {
      assert a + b == b;
    } else {
      assert (a + b)[1..] == a[1..] + b;
      RowsConcat(a[1..], b);
    }
  }

  /** Blocks of lines are read one by one, whatever is in them. */
  lemma BlocksAreReadApart(a: string, b: string)
    ensures ParseReplication(a + "\n" + b) == ParseReplication(a + "\n") + ParseReplication(b)
  {
    hide Text.Lines, Rows;
    LinesOfBlocks(a, b);
    RowsConcat(Lines(a + "\n"), Lines(b));
  }
}
