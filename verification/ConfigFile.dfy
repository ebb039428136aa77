/** The text surgery of src/infra/config.rs: one section of a TOML file replaced,
    added or dropped, and the strings in it escaped.

    The meaning of escaping is given by a reader of basic strings after TOML
    v1.0.0, section "String"; the meaning of the surgery by what the file's
    lines are afterwards.
 */
module ConfigFile {
  import opened Text
  import opened Sections
  import Wal

  // ---------- strings ----------

  /** `str::replace` of one character. */
  function ReplaceChar(s: string, c: char, with: string): string {
    if s == "" then "" else (if s[0] == c then with else [s[0]]) + ReplaceChar(s[1..], c, with)
  }

  /** `toml_string`: two replacements, one after the other. */
  function TomlString(value: string): string {
    "\"" + ReplaceChar(ReplaceChar(value, '\\', "\\\\"), '"', "\\\"") + "\""
  }

  function EscapeChar(c: char): string {
    if c == '\\' then "\\\\" else if c == '"' then "\\\"" else [c]
  }

  function Escape(value: string): string {
    if value == "" then "" else EscapeChar(value[0]) + Escape(value[1..])
  }

  lemma {:induction false} ReplaceConcat(a: string, b: string, c: char, with: string)
    ensures ReplaceChar(a + b, c, with) == ReplaceChar(a, c, with) + ReplaceChar(b, c, with)
  {
    if a == "" {
      assert a + b == b;
    } else {
      assert (a + b)[1..] == a[1..] + b;
      ReplaceConcat(a[1..], b, c, with);
    }
  }

  /** The second replacement does not touch what the first one wrote, so the two
      together escape character by character. */
  lemma {:induction false} TwoReplacementsEscape(value: string)
    ensures ReplaceChar(ReplaceChar(value, '\\', "\\\\"), '"', "\\\"") == Escape(value)
  {
    if value != "" {
      TwoReplacementsEscape(value[1..]);
      var first := if value[0] == '\\' then "\\\\" else [value[0]];
      ReplaceConcat(first, ReplaceChar(value[1..], '\\', "\\\\"), '"', "\\\"");
      ReplaceOfOne(value[0]);
    }
  }

  lemma ReplaceOfOne(c: char)
    ensures ReplaceChar(if c == '\\' then "\\\\" else [c], '"', "\\\"") == EscapeChar(c)
  {
    var one := [c];
    assert one[1..] == "";
    assert "\\\\"[1..] == "\\" && "\\"[1..] == "";
  }

  /** What a basic string may not contain unescaped. */
  predicate IsControl(c: char) {
    var n := c as int;
    n <= 8 || 10 <= n <= 31 || n == 127
  }

  function Scalar(n: nat): Option<char> {
    if n < 0xD800 || 0xE000 <= n < 0x110000 then Some(n as char) else None
  }

  datatype Piece = Piece(c: char, length: nat)

  /** One character of a basic string, escaped or not, at the start of `s`. */
  function ReadChar(s: string): (p: Option<Piece>)
    ensures p.Some? ==> 0 < p.value.length <= |s|
  {
    if s == "" || IsControl(s[0]) then None
    else if s[0] != '\\' then Some(Piece(s[0], 1))
    else if |s| == 1 then None
    else match s[1]
      case 'b' => Some(Piece(8 as char, 2))
      case 't' => Some(Piece('\t', 2))
      case 'n' => Some(Piece('\n', 2))
      case 'f' => Some(Piece(12 as char, 2))
      case 'r' => Some(Piece('\r', 2))
      case '"' => Some(Piece('"', 2))
      case '\\' => Some(Piece('\\', 2))
      case 'u' => ReadUnicode(s, 4)
      case 'U' => ReadUnicode(s, 8)
      case _ => None
  }

  function ReadUnicode(s: string, digits: nat): (p: Option<Piece>)
    requires digits > 0
    ensures p.Some? ==> 0 < p.value.length <= |s|
  {
    if |s| < 2 + digits || !Wal.AllHex(s[2..2 + digits]) then None else
      match Scalar(Wal.HexNumber(s[2..2 + digits]))
      case None => None
      case Some(c) => Some(Piece(c, 2 + digits))
  }

  /** The rest of a basic string: its value, and what follows its closing quote. */
  function ReadRest(s: string): Option<(string, string)>
    decreases |s|
  {
    if s != "" && s[0] == '"' then Some(("", s[1..]))
    else match ReadChar(s)
      case None => None
      case Some(p) =>
        match ReadRest(s[p.length..])
        case None => None
        case Some((value, rest)) => Some(([p.c] + value, rest))
  }

  function ReadString(s: string): Option<(string, string)> {
    if s != "" && s[0] == '"' then ReadRest(s[1..]) else None
  }

  predicate Writable(value: string) { forall i :: 0 <= i < |value| ==> !IsControl(value[i]) }

  lemma ReadEscaped(c: char, rest: string)
    ensures ReadChar(EscapeChar(c) + rest) == if IsControl(c) then None else Some(Piece(c, |EscapeChar(c)|))
    ensures (EscapeChar(c) + rest)[0] != '"'
  {
    var s := EscapeChar(c) + rest;
    assert s[0] == EscapeChar(c)[0];
    assert |EscapeChar(c)| == 2 ==> s[1] == EscapeChar(c)[1];
  }

  lemma {:induction false} ReadRestOfEscaped(value: string, rest: string)
    ensures ReadRest(Escape(value) + ("\"" + rest)) == if Writable(value) then Some((value, rest)) else None
  {
    var tail := "\"" + rest;
    if value == "" {
      assert Escape(value) + tail == tail && tail[1..] == rest;
    } else {
      var c, more := value[0], Escape(value[1..]) + tail;
      assert Escape(value) + tail == EscapeChar(c) + more;
      ReadEscaped(c, more);
      ReadRestOfEscaped(value[1..], rest);
      assert (EscapeChar(c) + more)[|EscapeChar(c)|..] == more;
      assert Writable(value) <==> !IsControl(c) && Writable(value[1..]);
      assert [c] + value[1..] == value;
    }
  }

  /** Escaping is reversible exactly for values without control characters: a
      TOML reader at the opening quote stops at the closing one, whatever
      follows, and has the value; on any other value it refuses the string. */
  lemma EscapingIsReversible(value: string, rest: string)
    ensures ReadString(TomlString(value) + rest) == if Writable(value) then Some((value, rest)) else None
  {
    TwoReplacementsEscape(value);
    var s := TomlString(value) + rest;
    assert s == "\"" + (Escape(value) + ("\"" + rest));
    assert s[1..] == Escape(value) + ("\"" + rest);
    ReadRestOfEscaped(value, rest);
  }

  // ---------- sections ----------

  predicate StartsSection(line: string) { StartsWith(TrimStart(line), "[") }

  predicate IsHeader(line: string, header: string) { Trim(line) == header }

  /** What the inner loop sees of a line: whether it starts a section. */
  function Starts(line: string): Kind { if StartsSection(line) then Opens else Plain }

  function BodyText(body: Option<string>): string {
    match body case None => "" case Some(text) => text
  }

  /** The two loops: the section's lines are skipped, and the line that ends it is
      pushed without being looked at. */
  function Spliced(lines: seq<string>, header: string, body: Option<string>): string
    decreases |lines|
  {
    if lines == [] then ""
    else if !IsHeader(lines[0], header) then lines[0] + "\n" + Spliced(lines[1..], header, body)
    else
      var rest := NextSection(Starts, lines[1..]);
      BodyText(body) + if rest == [] then "" else rest[0] + "\n" + Spliced(rest[1..], header, body)
  }

  predicate HasHeader(lines: seq<string>, header: string) {
    exists line | line in lines :: IsHeader(line, header)
  }

  /** The newline that sets an added section off. */
  function Gap(before: string): string {
    if before != "" && !EndsWith(before, "\n\n") then "\n" else ""
  }

  function Replaced(text: string, header: string, body: Option<string>): string {
    var out := Spliced(Lines(text), header, body);
    if HasHeader(Lines(text), header) || body == None then out else out + Gap(out) + body.value
  }

  /** What has been pushed and what the lines left will add make the whole. */
  predicate Pushes(out: string, lines: seq<string>, header: string, body: Option<string>, whole: string) {
    out + Spliced(lines, header, body) == whole
  }

  lemma PushesLine(out: string, lines: seq<string>, header: string, body: Option<string>, whole: string)
    requires lines != [] && !IsHeader(lines[0], header) && Pushes(out, lines, header, body, whole)
    ensures Pushes(out + (lines[0] + "\n"), lines[1..], header, body, whole)
    ensures HasHeader(lines, header) <==> HasHeader(lines[1..], header)
  {
    ConcatAssociates(out, lines[0] + "\n", Spliced(lines[1..], header, body));
    assert forall line :: line in lines <==> line == lines[0] || line in lines[1..];
  }

  /** What stands for a section and the line that ends it. */
  function Replacement(rest: seq<string>, body: Option<string>): string {
    if rest == [] then BodyText(body) else BodyText(body) + (rest[0] + "\n")
  }

  lemma SplicedSection(lines: seq<string>, header: string, body: Option<string>)
    requires lines != [] && IsHeader(lines[0], header)
    ensures var rest := NextSection(Starts, lines[1..]);
            Spliced(lines, header, body) ==
            Replacement(rest, body) + Spliced(if rest == [] then [] else rest[1..], header, body)
  {
    var rest := NextSection(Starts, lines[1..]);
    if rest != [] {
      ConcatAssociates(BodyText(body), rest[0] + "\n", Spliced(rest[1..], header, body));
    }
  }

  lemma PushesSection(out: string, lines: seq<string>, header: string, body: Option<string>, whole: string)
    requires lines != [] && IsHeader(lines[0], header) && Pushes(out, lines, header, body, whole)
    ensures var rest := NextSection(Starts, lines[1..]);
            Pushes(out + Replacement(rest, body), if rest == [] then [] else rest[1..], header, body, whole)
    ensures HasHeader(lines, header)
  {
    var rest := NextSection(Starts, lines[1..]);
    SplicedSection(lines, header, body);
    ConcatAssociates(out, Replacement(rest, body), Spliced(if rest == [] then [] else rest[1..], header, body));
    assert lines[0] in lines;
  }

  /** `replace_section`: both loops take lines from the same iterator. */
  method ReplaceSection(text: string, header: string, body: Option<string>) returns (out: string)
    ensures out == Replaced(text, header, body)
  {
    var replaced;
    out, replaced := SpliceLines(Lines(text), header, body);
    if !replaced && body.Some? {
      if out != "" && !EndsWith(out, "\n\n") {
        out := out + "\n";
      }
      out := out + body.value;
    }
  }

  method SpliceLines(all: seq<string>, header: string, body: Option<string>) returns (out: string, replaced: bool)
    ensures out == Spliced(all, header, body) && replaced == HasHeader(all, header)
  {
    hide Spliced, IsHeader, Pushes, Text.Lines, StartsSection, NextSection, HasHeader;
    out := "";
    var lines := all;
    replaced := false;
    PushesAll(all, header, body);
    while lines != []
      invariant Pushes(out, lines, header, body, Spliced(all, header, body))
      invariant replaced || HasHeader(lines, header) <==> HasHeader(all, header)
      decreases |lines|
    {
      var line := lines[0];
      if !IsHeader(line, header) {
        PushesLine(out, lines, header, body, Spliced(all, header, body));
        lines := lines[1..];
        out := out + (line + "\n");
        continue;
      }
      PushesSection(out, lines, header, body, Spliced(all, header, body));
      lines := lines[1..];
      ghost var before := out;
      out := out + BodyText(body);
      replaced := true;
      lines := SkipSection(lines);
      if lines != [] {
        ConcatAssociates(before, BodyText(body), lines[0] + "\n");
        out := out + (lines[0] + "\n");
        lines := lines[1..];
      }
    }
    PushedAll(out, header, body, Spliced(all, header, body));
  }

  lemma PushesAll(all: seq<string>, header: string, body: Option<string>)
    ensures Pushes("", all, header, body, Spliced(all, header, body)) && !HasHeader([], header)
  {
    assert "" + Spliced(all, header, body) == Spliced(all, header, body);
  }

  lemma PushedAll(out: string, header: string, body: Option<string>, whole: string)
    requires Pushes(out, [], header, body, whole)
    ensures out == whole && !HasHeader([], header)
  {
    assert out + "" == out;
  }

  method SkipSection(lines: seq<string>) returns (rest: seq<string>)
    ensures rest == NextSection(Starts, lines)
  {
    rest := lines;
    while rest != [] && !StartsSection(rest[0])
      invariant NextSection(Starts, rest) == NextSection(Starts, lines)
      decreases |rest|
    {
      rest := rest[1..];
    }
  }

  // ---------- the surgery on lines ----------

  /** A header as the callers pass it. */
  predicate HeaderShape(header: string) {
    header != "" && header[0] == '[' && Trimmed(header) && '\n' !in header
  }

  /** What a line is to somebody who reads it: the header between whitespace, a
      line whose first character after whitespace is a bracket, or neither. */
  ghost function Kinds(header: string): string -> Kind {
    (line: string) => if IsAlone(line, header) then Header else if Begins(line, "[") then Opens else Plain
  }

  /** The header is a line of its own. */
  ghost predicate Headed(lines: seq<string>, header: string) {
    exists line | line in lines :: IsAlone(line, header)
  }

  /** A section as `section_for` builds it: its header, then lines that start no
      other section. */
  ghost predicate SectionShape(section: seq<string>, header: string) {
    AreLines(section) && IsSection(Kinds(header), section)
  }

  /** Trimming the end first or last makes no difference to the start. */
  lemma {:induction false} TrimStartOfPrefix(s: string, n: nat)
    requires n <= |s| && TrimStart(s[..n]) != ""
    ensures TrimStart(s) != "" && TrimStart(s)[0] == TrimStart(s[..n])[0]
  {
    assert s[..n] != "" && s[..n][0] == s[0];
    if IsWhitespace(s[0]) {
      assert s[..n][1..] == s[1..][..n - 1];
      TrimStartOfPrefix(s[1..], n - 1);
    }
  }

  lemma HeaderStartsSection(line: string, header: string)
    requires HeaderShape(header) && IsHeader(line, header)
    ensures StartsSection(line)
  {
    hide Text.TrimEnd, Text.TrimStart;
    var e := TrimEnd(line);
    TrimStartOfPrefix(line, |e|);
    BracketFirst(TrimStart(line));
  }

  lemma BracketFirst(s: string)
    requires s != "" && s[0] == '['
    ensures StartsWith(s, "[")
  {
    assert s[..1] == [s[0]];
  }

  lemma KindIs(line: string, header: string)
    requires HeaderShape(header)
    ensures Kinds(header)(line) == Header <==> IsHeader(line, header)
    ensures Kinds(header)(line) != Plain <==> StartsSection(line)
  {
    hide Text.Trim, Text.TrimStart, Text.IsAlone, Text.Begins, Text.StartsWith;
    TrimIsWord(line, header);
    TrimStartBeginsWith(line, "[");
    if IsHeader(line, header) { HeaderStartsSection(line, header); }
  }

  lemma HeadedIs(lines: seq<string>, header: string)
    requires HeaderShape(header)
    ensures HasHeader(lines, header) <==> Headed(lines, header)
  {
    forall line | line in lines
      ensures IsHeader(line, header) <==> IsAlone(line, header)
    {
      TrimIsWord(line, header);
    }
  }

  lemma {:induction false} NextSectionAgrees(lines: seq<string>, header: string)
    requires HeaderShape(header)
    ensures NextSection(Starts, lines) == NextSection(Kinds(header), lines)
  {
    if lines != [] {
      KindIs(lines[0], header);
      if !StartsSection(lines[0]) { NextSectionAgrees(lines[1..], header); }
    }
  }

  /** The text that is written is the lines of the spliced list. */
  ghost predicate Writes(lines: seq<string>, header: string, section: seq<string>) {
    Spliced(lines, header, Some(Unlines(section))) == Unlines(Splice(Kinds(header), lines, section))
  }

  lemma WritesOneMore(lines: seq<string>, header: string, section: seq<string>)
    requires HeaderShape(header) && lines != [] && !IsHeader(lines[0], header)
    requires Writes(lines[1..], header, section)
    ensures Writes(lines, header, section)
  {
    KindIs(lines[0], header);
    var rest := Splice(Kinds(header), lines[1..], section);
    assert ([lines[0]] + rest)[1..] == rest;
  }

  lemma WritesSection(lines: seq<string>, header: string, section: seq<string>)
    requires HeaderShape(header) && lines != [] && IsHeader(lines[0], header)
    requires var rest := NextSection(Starts, lines[1..]); rest != [] ==> Writes(rest[1..], header, section)
    ensures Writes(lines, header, section)
  {
    hide Kinds, IsHeader, NextSection;
    KindIs(lines[0], header);
    NextSectionAgrees(lines[1..], header);
    var rest := NextSection(Starts, lines[1..]);
    if rest == [] {
      assert section + [] == section;
    } else {
      var more := Splice(Kinds(header), rest[1..], section);
      UnlinesConcat(section, [rest[0]] + more);
      assert ([rest[0]] + more)[1..] == more;
    }
  }

  lemma {:induction false} SpliceOfText(lines: seq<string>, header: string, section: seq<string>)
    requires HeaderShape(header)
    ensures Writes(lines, header, section)
    decreases |lines|
  {
    if lines != [] {
      if IsHeader(lines[0], header) {
        var rest := NextSection(Starts, lines[1..]);
        if rest != [] { SpliceOfText(rest[1..], header, section); }
        WritesSection(lines, header, section);
      } else {
        SpliceOfText(lines[1..], header, section);
        WritesOneMore(lines, header, section);
      }
    }
  }

  /** The blank line an added section is set off with: none at the top of a file, and
      none after a blank line that has a line before it. */
  function GapLines(lines: seq<string>): seq<string> {
    if lines == [] || (|lines| >= 2 && lines[|lines| - 1] == "") then [] else [""]
  }

  lemma {:induction false} LastTwo(lines: seq<string>)
    requires lines != [] && forall i :: 0 <= i < |lines| ==> '\n' !in lines[i]
    ensures Unlines(lines) != ""
    ensures EndsWith(Unlines(lines), "\n\n") <==> |lines| >= 2 && lines[|lines| - 1] == ""
  {
    var front, last := lines[..|lines| - 1], lines[|lines| - 1];
    assert lines == front + [last];
    UnlinesConcat(front, [last]);
    assert [last][1..] == [];
    var before := Unlines(front);
    assert Unlines(lines) == before + (last + "\n");
    if last != "" {
      assert last[|last| - 1] != '\n';
      assert Unlines(lines)[|Unlines(lines)| - 2] == last[|last| - 1];
    } else if front != [] {
      EndsInNewline(front);
      assert Unlines(lines)[|Unlines(lines)| - 2..] == [before[|before| - 1], '\n'];
    } else {
      assert Unlines(lines) == "\n";
    }
  }

  lemma {:induction false} EndsInNewline(lines: seq<string>)
    requires lines != []
    ensures Unlines(lines) != "" && Unlines(lines)[|Unlines(lines)| - 1] == '\n'
  {
    if |lines| > 1 { EndsInNewline(lines[1..]); }
  }

  lemma GapIs(lines: seq<string>)
    requires forall i :: 0 <= i < |lines| ==> '\n' !in lines[i]
    ensures Gap(Unlines(lines)) == Unlines(GapLines(lines))
  {
    if lines != [] {
      LastTwo(lines);
      assert Unlines([""]) == "\n" by { assert [""][1..] == []; }
    }
  }

  lemma {:induction false} HasHeaderIs(lines: seq<string>, header: string)
    requires HeaderShape(header)
    ensures HasHeader(lines, header) <==> Headers(Kinds(header), lines) > 0
  {
    if lines != [] {
      KindIs(lines[0], header);
      assert lines[0] in lines;
      assert forall line :: line in lines <==> line == lines[0] || line in lines[1..];
      HasHeaderIs(lines[1..], header);
    }
  }

  lemma GapHasNoHeader(lines: seq<string>, header: string)
    requires HeaderShape(header)
    ensures Headers(Kinds(header), GapLines(lines)) == 0
  {
    KindIs("", header);
    assert Trim("") == "" && TrimStart("") == "";
    assert [""][1..] == [];
  }

  /** `replace_section` with a section is saving it, on the file's lines. */
  lemma ReplacedIsSaved(text: string, header: string, section: seq<string>)
    requires HeaderShape(header)
    ensures Replaced(text, header, Some(Unlines(section)))
            == Unlines(Saved(Kinds(header), Lines(text), GapLines(Lines(text)), section))
  {
    HasHeaderIs(Lines(text), header);
    SpliceOfText(Lines(text), header, section);
    if !HasHeader(Lines(text), header) {
      SpliceWithoutHeader(Kinds(header), Lines(text), section);
      AddedAtTheEnd(Lines(text), section);
    }
  }

  lemma AddedAtTheEnd(lines: seq<string>, section: seq<string>)
    requires forall i :: 0 <= i < |lines| ==> '\n' !in lines[i]
    ensures Unlines(lines) + Gap(Unlines(lines)) + Unlines(section) == Unlines(lines + GapLines(lines) + section)
  {
    UnlinesConcat(lines + GapLines(lines), section);
    UnlinesConcat(lines, GapLines(lines));
    GapIs(lines);
  }

  lemma {:induction false} SplicedNothing(lines: seq<string>, header: string)
    ensures Spliced(lines, header, None) == Spliced(lines, header, Some(""))
    decreases |lines|
  {
    if lines != [] {
      if IsHeader(lines[0], header) {
        var rest := NextSection(Starts, lines[1..]);
        if rest != [] { SplicedNothing(rest[1..], header); }
      } else {
        SplicedNothing(lines[1..], header);
      }
    }
  }

  /** And without one it is forgetting. */
  lemma ReplacedIsForgotten(text: string, header: string)
    requires HeaderShape(header)
    ensures Replaced(text, header, None) == Unlines(Forgotten(Kinds(header), Lines(text)))
  {
    SplicedNothing(Lines(text), header);
    SpliceOfText(Lines(text), header, []);
  }

  lemma SpliceAreLines(lines: seq<string>, header: string, section: seq<string>)
    requires AreLines(lines) && AreLines(section)
    ensures AreLines(Splice(Kinds(header), lines, section))
  {
    Sections.SpliceKeepsAll(Kinds(header), IsLine, lines, section);
    assert Sections.All(IsLine, Splice(Kinds(header), lines, section));
  }

  // ---------- the guarantees ----------

  /** A file of lines with at most one header of the section, which is all that a
      file TOML accepts can have. */
  ghost predicate Fits(text: string, header: string) {
    HeaderShape(header) && AreLines(Lines(text)) && Headers(Kinds(header), Lines(text)) <= 1
  }

  /** What the lines of a saved file are. */
  lemma LinesAfterSave(text: string, header: string, section: seq<string>)
    requires Fits(text, header) && SectionShape(section, header)
    ensures Lines(Replaced(text, header, Some(Unlines(section))))
            == Saved(Kinds(header), Lines(text), GapLines(Lines(text)), section)
  {
    ReplacedIsSaved(text, header, section);
    SavedAreLines(Lines(text), header, section);
    LinesUnlines(Saved(Kinds(header), Lines(text), GapLines(Lines(text)), section));
  }

  lemma SavedAreLines(lines: seq<string>, header: string, section: seq<string>)
    requires AreLines(lines) && AreLines(section)
    ensures AreLines(Saved(Kinds(header), lines, GapLines(lines), section))
  {
    SpliceAreLines(lines, header, section);
  }

  /** Saving leaves exactly one header with the section under it; saving again is
      saving the second time only. */
  lemma SavingTwiceIsSavingOnce(text: string, header: string, first: seq<string>, second: seq<string>)
    requires Fits(text, header) && SectionShape(first, header) && SectionShape(second, header)
    ensures var once := Replaced(text, header, Some(Unlines(first)));
            && Headers(Kinds(header), Lines(once)) == 1
            && Inside(Kinds(header), Lines(once), false) == first
            && Replaced(once, header, Some(Unlines(second))) == Replaced(text, header, Some(Unlines(second)))
  {
    var lines := Lines(text);
    var once := Replaced(text, header, Some(Unlines(first)));
    GapHasNoHeader(lines, header);
    LinesAfterSave(text, header, first);
    SavedParts(Kinds(header), lines, GapLines(lines), first);
    ReplacedIsSaved(once, header, second);
    ReplacedIsSaved(text, header, second);
    SaveTwice(Kinds(header), lines, GapLines(lines), first, second, GapLines(Lines(once)));
  }

  /** Saving and then forgetting is forgetting, if the section was there, and
      otherwise the lines there were and at most a blank one after them. */
  lemma SavingThenForgetting(text: string, header: string, section: seq<string>)
    requires Fits(text, header) && SectionShape(section, header)
    ensures var saved := Replaced(text, header, Some(Unlines(section)));
            Replaced(saved, header, None) ==
            if Headed(Lines(text), header) then Replaced(text, header, None)
            else Unlines(Lines(text) + GapLines(Lines(text)))
  {
    var lines := Lines(text);
    GapHasNoHeader(lines, header);
    HasHeaderIs(lines, header);
    HeadedIs(lines, header);
    LinesAfterSave(text, header, section);
    ReplacedIsForgotten(Replaced(text, header, Some(Unlines(section))), header);
    ReplacedIsForgotten(text, header);
    SaveThenForget(Kinds(header), lines, GapLines(lines), section);
  }

  /** Every line outside the section survives, in its order, and nothing comes to
      be there but the blank line that sets an added section off. */
  lemma LinesOutsideSurvive(text: string, header: string, section: seq<string>)
    requires Fits(text, header) && SectionShape(section, header)
    ensures Outside(Kinds(header), Lines(Replaced(text, header, Some(Unlines(section)))), false) ==
            if Headed(Lines(text), header) then Outside(Kinds(header), Lines(text), false)
            else Lines(text) + GapLines(Lines(text))
    ensures Lines(Replaced(text, header, None)) == Forgotten(Kinds(header), Lines(text))
    ensures Outside(Kinds(header), Lines(Replaced(text, header, None)), false)
            == Outside(Kinds(header), Lines(text), false)
  {
    var lines := Lines(text);
    GapHasNoHeader(lines, header);
    HasHeaderIs(lines, header);
    HeadedIs(lines, header);
    LinesAfterSave(text, header, section);
    SaveKeepsOutside(Kinds(header), lines, GapLines(lines), section);
    ReplacedIsForgotten(text, header);
    SpliceAreLines(lines, header, []);
    LinesUnlines(Forgotten(Kinds(header), lines));
    ForgetKeepsOutside(Kinds(header), lines);
  }

  /** A header line with a comment after it starts a section and is not the header. */
  lemma CommentedHeaderIsNoHeader(header: string, note: string)
    requires HeaderShape(header) && note != "" && note[0] == '#'
    ensures Kinds(header)(header + " " + note) == Opens
  {
    hide Text.Trim, Text.TrimStart;
    NotTrimmedTo(header + " " + note, header, note);
    BracketStartsSection(header + " " + note);
    KindIs(header + " " + note, header);
  }

  /** So in a file whose headers of the section all have comments, as in any without
      its header, a save leaves every line and adds the section after them, under a
      second header; and forgetting it forgets nothing. */
  lemma CommentedHeaderIsNotFound(text: string, header: string, section: seq<string>)
    requires HeaderShape(header) && !Headed(Lines(text), header)
    ensures Replaced(text, header, Some(Unlines(section)))
            == Unlines(Lines(text) + GapLines(Lines(text)) + section)
    ensures Replaced(text, header, None) == Unlines(Lines(text))
  {
    hide Text.Lines, IsHeader, Replaced;
    HasHeaderIs(Lines(text), header);
    HeadedIs(Lines(text), header);
    ReplacedIsSaved(text, header, section);
    ReplacedIsForgotten(text, header);
    Sections.SpliceWithoutHeader(Kinds(header), Lines(text), []);
  }

  lemma BracketStartsSection(line: string)
    requires line != "" && line[0] == '['
    ensures StartsSection(line)
  {
    hide Text.TrimStart;
    TrimStartSame(line);
    BracketFirst(line);
  }

  lemma {:induction false} TrimEndReaches(s: string, k: nat)
    requires k < |s| && !IsWhitespace(s[k])
    ensures |TrimEnd(s)| > k
  {
    if IsWhitespace(s[|s| - 1]) { TrimEndReaches(s[..|s| - 1], k); }
  }

  lemma NotTrimmedTo(line: string, header: string, note: string)
    requires HeaderShape(header) && note != "" && note[0] == '#' && line == header + " " + note
    ensures !IsHeader(line, header)
  {
    hide Text.TrimEnd, Text.TrimStart;
    TrimEndReaches(line, |header| + 1);
    assert TrimEnd(line)[0] == line[0] == '[';
    TrimStartSame(TrimEnd(line));
  }

  // ---------- the credentials ----------

  datatype Credentials = Credentials(accessKeyId: string, secretAccessKey: string, region: string,
      endpoint: Option<string>)

  const HEADER := "[backup.s3]"

  function FieldLine(key: string, value: string): string { key + " = " + TomlString(value) }

  /** `section_for`, as lines; `notes` is the comment under the header. */
  function SectionFor(notes: seq<string>, c: Credentials): seq<string> {
    [HEADER] + notes + Fields(c)
  }

  function Fields(c: Credentials): seq<string> {
    [
      FieldLine("access_key_id", c.accessKeyId),
      FieldLine("secret_access_key", c.secretAccessKey),
      FieldLine("region", c.region)
    ] + EndpointField(c)
  }

  function EndpointField(c: Credentials): seq<string> {
    if c.endpoint.Some? then [FieldLine("endpoint", c.endpoint.value)] else []
  }

  predicate IsComment(line: string) { line != "" && line[0] == '#' && IsLine(line) }

  /** The value of a key among some lines: the string after its first `key = `. */
  function Lookup(lines: seq<string>, key: string): Option<string> {
    if lines == [] then None
    else if !StartsWith(lines[0], key + " = ") then Lookup(lines[1..], key)
    else match ReadString(lines[0][|key| + 3..])
      case Some((value, rest)) => if rest == "" then Some(value) else None
      case None => None
  }

  function ReadCredentials(lines: seq<string>): Option<Credentials> {
    match (Lookup(lines, "access_key_id"), Lookup(lines, "secret_access_key"), Lookup(lines, "region"))
    case (Some(id), Some(secret), Some(region)) => Some(Credentials(id, secret, region, Lookup(lines, "endpoint")))
    case _ => None
  }

  predicate AllWritable(c: Credentials) {
    Writable(c.accessKeyId) && Writable(c.secretAccessKey) && Writable(c.region)
    && (c.endpoint.Some? ==> Writable(c.endpoint.value))
  }

  predicate IsKey(key: string) {
    key != "" && IsLower(key[0]) && forall i :: 0 <= i < |key| ==> IsLower(key[i]) || key[i] == '_'
  }

  lemma {:induction false} EscapeOfWritable(value: string)
    requires Writable(value)
    ensures '\n' !in Escape(value)
  {
    if value != "" {
      EscapeOfWritable(value[1..]);
      assert !IsControl(value[0]) && '\n' !in EscapeChar(value[0]);
    }
  }

  lemma TomlStringShape(value: string)
    requires Writable(value)
    ensures var t := TomlString(value);
            |t| >= 2 && t[|t| - 1] == '"' && '\n' !in t && ReadString(t) == Some((value, ""))
  {
    TwoReplacementsEscape(value);
    EscapeOfWritable(value);
    EscapingIsReversible(value, "");
    assert TomlString(value) + "" == TomlString(value);
  }

  lemma KeyThenString(key: string, t: string)
    requires IsKey(key) && |t| >= 2 && t[|t| - 1] == '"' && '\n' !in t
    ensures var line := key + " = " + t;
            && IsLine(line) && line[0] == key[0] && StartsWith(line, key + " = ") && line[|key| + 3..] == t
  {
  }

  ghost predicate PlainLine(line: string) { IsLine(line) && Kinds(HEADER)(line) == Plain }

  /** A field is one plain line, and the reader has its value. */
  lemma FieldIsALine(key: string, value: string)
    requires IsKey(key) && Writable(value)
    ensures var line := FieldLine(key, value);
            && PlainLine(line) && line != "" && line[0] == key[0] && StartsWith(line, key + " = ")
            && ReadString(line[|key| + 3..]) == Some((value, ""))
  {
    TomlStringShape(value);
    KeyThenString(key, TomlString(value));
    PlainByFirst(FieldLine(key, value));
  }

  lemma PlainByFirst(line: string)
    requires line != "" && !IsWhitespace(line[0]) && line[0] != '['
    ensures Kinds(HEADER)(line) == Plain
  {
    assert TrimStart(line) == line;
    assert line[..1] == [line[0]];
    HeaderIsShaped();
    KindIs(line, HEADER);
  }

  lemma HeaderIsShaped()
    ensures HeaderShape(HEADER) && Kinds(HEADER)(HEADER) == Header && IsLine(HEADER)
  {
    hide Text.TrimEnd, Text.TrimStart;
    TrimIsTrimmed(HEADER);
    KindIs(HEADER, HEADER);
  }

  /** Lines that begin otherwise are passed over. */
  lemma {:induction false} LookupPasses(lines: seq<string>, more: seq<string>, key: string)
    requires key != ""
    requires forall k :: 0 <= k < |lines| ==> lines[k] == "" || lines[k][0] != key[0]
    ensures Lookup(lines + more, key) == Lookup(more, key)
  {
    if lines == [] {
      assert lines + more == more;
    } else {
      var prefix := key + " = ";
      assert |prefix| <= |lines[0]| ==> lines[0][..|prefix|][0] == lines[0][0];
      assert (lines + more)[1..] == lines[1..] + more;
      LookupPasses(lines[1..], more, key);
    }
  }

  lemma LookupFinds(key: string, value: string, more: seq<string>)
    requires IsKey(key) && Writable(value)
    ensures Lookup([FieldLine(key, value)] + more, key) == Some(value)
  {
    FieldIsALine(key, value);
  }

  predicate NotesOk(notes: seq<string>) { forall k :: 0 <= k < |notes| ==> IsComment(notes[k]) }

  lemma FieldIsPlain(key: string, value: string)
    requires IsKey(key) && Writable(value)
    ensures PlainLine(FieldLine(key, value))
  {
    FieldIsALine(key, value);
  }

  lemma PlainTogether(id: string, secret: string, region: string, last: seq<string>)
    requires PlainLine(id) && PlainLine(secret) && PlainLine(region)
    requires ArePlain(last)
    ensures ArePlain([id, secret, region] + last)
  {
  }

  ghost predicate ArePlain(lines: seq<string>) { forall k :: 0 <= k < |lines| ==> PlainLine(lines[k]) }

  lemma EndpointIsPlain(c: Credentials)
    requires AllWritable(c)
    ensures ArePlain(EndpointField(c))
  {
    KeysAreKeys();
    if c.endpoint.Some? { FieldIsPlain("endpoint", c.endpoint.value); }
  }

  lemma FieldsArePlain(c: Credentials)
    requires AllWritable(c)
    ensures ArePlain(Fields(c))
  {
    KeysAreKeys();
    FieldIsPlain("access_key_id", c.accessKeyId);
    FieldIsPlain("secret_access_key", c.secretAccessKey);
    FieldIsPlain("region", c.region);
    EndpointIsPlain(c);
    PlainTogether(
      FieldLine("access_key_id", c.accessKeyId), FieldLine("secret_access_key", c.secretAccessKey),
      FieldLine("region", c.region), EndpointField(c));
  }

  lemma SectionForIsASection(notes: seq<string>, c: Credentials)
    requires NotesOk(notes) && AllWritable(c)
    ensures SectionShape(SectionFor(notes, c), HEADER)
  {
    HeaderIsShaped();
    FieldsArePlain(c);
    forall k | 0 <= k < |notes|
      ensures PlainLine(notes[k])
    {
      PlainByFirst(notes[k]);
    }
    PlainAfterHeader(HEADER, notes, Fields(c));
  }

  lemma PlainAfterHeader(first: string, notes: seq<string>, fields: seq<string>)
    requires Kinds(HEADER)(first) == Header && IsLine(first)
    requires ArePlain(notes) && ArePlain(fields)
    ensures SectionShape([first] + notes + fields, HEADER)
  {
    Sections.SectionOf(Kinds(HEADER), first, notes, fields);
    LinesInARow([first], notes, fields);
  }

  lemma LinesInARow(a: seq<string>, b: seq<string>, c: seq<string>)
    requires AreLines(a) && AreLines(b) && AreLines(c)
    ensures AreLines(a + b + c)
  {
  }

  predicate OtherStart(lines: seq<string>, c: char) {
    forall k :: 0 <= k < |lines| ==> lines[k] == "" || lines[k][0] != c
  }

  lemma LookupAt(before: seq<string>, key: string, value: string, more: seq<string>)
    requires IsKey(key) && Writable(value) && OtherStart(before, key[0])
    ensures Lookup(before + ([FieldLine(key, value)] + more), key) == Some(value)
  {
    LookupPasses(before, [FieldLine(key, value)] + more, key);
    LookupFinds(key, value, more);
  }

  /** Four fields under their header and notes, each found past the ones before
      it: no two of them begin alike. */
  lemma FourFieldsRead(
    top: seq<string>, keys: (string, string, string), values: (string, string, string), last: seq<string>)
    requires IsKey(keys.0) && IsKey(keys.1) && IsKey(keys.2)
    requires Writable(values.0) && Writable(values.1) && Writable(values.2)
    requires keys.0[0] != keys.1[0] && keys.0[0] != keys.2[0] && keys.1[0] != keys.2[0]
    requires OtherStart(top, keys.0[0]) && OtherStart(top, keys.1[0]) && OtherStart(top, keys.2[0])
    ensures var id, secret, region :=
              FieldLine(keys.0, values.0), FieldLine(keys.1, values.1), FieldLine(keys.2, values.2);
            var lines := top + [id] + [secret] + [region] + last;
            && Lookup(lines, keys.0) == Some(values.0)
            && Lookup(lines, keys.1) == Some(values.1)
            && Lookup(lines, keys.2) == Some(values.2)
  {
    var id, secret, region := FieldLine(keys.0, values.0), FieldLine(keys.1, values.1), FieldLine(keys.2, values.2);
    FieldBegins(keys.0, values.0);
    FieldBegins(keys.1, values.1);
    LookupAt(top, keys.0, values.0, [secret] + [region] + last);
    LookupAt(top + [id], keys.1, values.1, [region] + last);
    LookupAt(top + [id] + [secret], keys.2, values.2, last);
    var lines := top + [id] + [secret] + [region] + last;
    assert lines == top + ([id] + ([secret] + [region] + last));
    assert lines == (top + [id]) + ([secret] + ([region] + last));
    assert lines == (top + [id] + [secret]) + ([region] + last);
  }

  lemma FieldBegins(key: string, value: string)
    requires IsKey(key)
    ensures FieldLine(key, value) != "" && FieldLine(key, value)[0] == key[0]
  {
  }

  lemma LastFieldReads(before: seq<string>, key: string, value: Option<string>)
    requires IsKey(key) && OtherStart(before, key[0]) && (value.Some? ==> Writable(value.value))
    ensures Lookup(before + if value.Some? then [FieldLine(key, value.value)] else [], key) == value
  {
    if value.Some? {
      LookupAt(before, key, value.value, []);
      assert [FieldLine(key, value.value)] == [FieldLine(key, value.value)] + [];
    } else {
      LookupPasses(before, [], key);
    }
  }

  lemma TopBeginsOtherwise(notes: seq<string>, key: string)
    requires NotesOk(notes) && IsKey(key)
    ensures OtherStart([HEADER] + notes, key[0])
  {
    assert HEADER[0] == '[';
  }

  lemma KeysAreKeys()
    ensures IsKey("access_key_id") && IsKey("secret_access_key") && IsKey("region") && IsKey("endpoint")
  {
  }

  /** The section with each of its fields set apart. */
  lemma SectionParts(notes: seq<string>, c: Credentials)
    ensures SectionFor(notes, c) ==
            ([HEADER] + notes) + [FieldLine("access_key_id", c.accessKeyId)]
            + [FieldLine("secret_access_key", c.secretAccessKey)] + [FieldLine("region", c.region)] + EndpointField(c)
  {
    PartsInARow(
      [HEADER] + notes, FieldLine("access_key_id", c.accessKeyId), FieldLine("secret_access_key", c.secretAccessKey),
      FieldLine("region", c.region), EndpointField(c));
  }

  lemma PartsInARow(top: seq<string>, id: string, secret: string, region: string, last: seq<string>)
    ensures top + ([id, secret, region] + last) == top + [id] + [secret] + [region] + last
  {
  }

  lemma FirstThreeRead(notes: seq<string>, c: Credentials)
    requires NotesOk(notes) && AllWritable(c)
    ensures Lookup(SectionFor(notes, c), "access_key_id") == Some(c.accessKeyId)
    ensures Lookup(SectionFor(notes, c), "secret_access_key") == Some(c.secretAccessKey)
    ensures Lookup(SectionFor(notes, c), "region") == Some(c.region)
  {
    KeysAreKeys();
    TopBeginsOtherwise(notes, "access_key_id");
    TopBeginsOtherwise(notes, "secret_access_key");
    TopBeginsOtherwise(notes, "region");
    SectionParts(notes, c);
    FourFieldsRead(
      [HEADER] + notes, ("access_key_id", "secret_access_key", "region"),
      (c.accessKeyId, c.secretAccessKey, c.region), EndpointField(c));
  }

  lemma BeginOtherwise(top: seq<string>, id: string, secret: string, region: string, c: char)
    requires OtherStart(top, c)
    requires id != "" && secret != "" && region != "" && id[0] != c && secret[0] != c && region[0] != c
    ensures OtherStart(top + [id] + [secret] + [region], c)
  {
  }

  lemma EndpointReads(notes: seq<string>, c: Credentials)
    requires NotesOk(notes) && AllWritable(c)
    ensures Lookup(SectionFor(notes, c), "endpoint") == c.endpoint
  {
    KeysAreKeys();
    TopBeginsOtherwise(notes, "endpoint");
    FieldBegins("access_key_id", c.accessKeyId);
    FieldBegins("secret_access_key", c.secretAccessKey);
    FieldBegins("region", c.region);
    BeginOtherwise(
      [HEADER] + notes, FieldLine("access_key_id", c.accessKeyId), FieldLine("secret_access_key", c.secretAccessKey),
      FieldLine("region", c.region), 'e');
    SectionParts(notes, c);
    LastFieldReads(
      ([HEADER] + notes) + [FieldLine("access_key_id", c.accessKeyId)]
      + [FieldLine("secret_access_key", c.secretAccessKey)] + [FieldLine("region", c.region)],
      "endpoint", c.endpoint);
  }

  lemma SectionForReads(notes: seq<string>, c: Credentials)
    requires NotesOk(notes) && AllWritable(c)
    ensures ReadCredentials(SectionFor(notes, c)) == Some(c)
  {
    FirstThreeRead(notes, c);
    EndpointReads(notes, c);
  }

  /** From the console to the file and back: whatever was in the file, after a
      save its one section reads as the credentials that were saved. */
  lemma SavedCredentialsReadBack(text: string, notes: seq<string>, c: Credentials)
    requires Fits(text, "[backup.s3]") && NotesOk(notes) && AllWritable(c)
    ensures var saved := Replaced(text, "[backup.s3]", Some(Unlines(SectionFor(notes, c))));
            && Headers(Kinds("[backup.s3]"), Lines(saved)) == 1
            && ReadCredentials(Inside(Kinds("[backup.s3]"), Lines(saved), false)) == Some(c)
  {
    SectionForIsASection(notes, c);
    SavingTwiceIsSavingOnce(text, HEADER, SectionFor(notes, c), SectionFor(notes, c));
    SectionForReads(notes, c);
  }
}
